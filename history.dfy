/**
 * The undo history both editors keep: a list of saved contents and the index
 * of the one shown. Saving drops everything after the index and appends;
 * undo and redo move the index by one while there is somewhere to go.
 */
module History {

  datatype History = History(entries: seq<string>, index: nat)

  predicate Valid(h: History)
  {
    h.index < |h.entries|
  }

  function Current(h: History): string
    requires Valid(h)
  {
    h.entries[h.index]
  }

  predicate CanUndo(h: History)
  {
    h.index > 0
  }

  predicate CanRedo(h: History)
  {
    h.index + 1 < |h.entries|
  }

  /** `[...history.slice(0, historyIndex + 1), newContent]`, with the index on the new entry. */
  function Save(h: History, content: string): (r: History)
    requires Valid(h)
    ensures Valid(r) && Current(r) == content && !CanRedo(r)
    ensures r.index == h.index + 1 && |r.entries| == h.index + 2
    ensures forall k :: 0 <= k <= h.index ==> r.entries[k] == h.entries[k]
  {
    History(h.entries[..h.index + 1] + [content], h.index + 1)
  }

  /** One step back, when there is an earlier entry. */
  function Undo(h: History): (r: History)
    requires Valid(h)
    ensures Valid(r) && r.entries == h.entries
    ensures CanUndo(h) ==> r.index + 1 == h.index
    ensures !CanUndo(h) ==> r == h
  {
    if CanUndo(h) then History(h.entries, h.index - 1) else h
  }

  /** One step forward, when there is a later entry. */
  function Redo(h: History): (r: History)
    requires Valid(h)
    ensures Valid(r) && r.entries == h.entries
    ensures CanRedo(h) ==> r.index == h.index + 1
    ensures !CanRedo(h) ==> r == h
  {
    if CanRedo(h) then History(h.entries, h.index + 1) else h
  }

  /** Undo right after a save shows again what was current before the save, and redo brings
      the saved content back. */
  lemma UndoAfterSave(h: History, content: string)
    requires Valid(h)
    ensures Current(Undo(Save(h, content))) == Current(h)
    ensures Redo(Undo(Save(h, content))) == Save(h, content)
  {
  }

  /** Undo and redo are inverse whenever the first of them moves. */
  lemma RedoUndoes(h: History)
    requires Valid(h) && CanUndo(h)
    ensures Redo(Undo(h)) == h
  {
  }

  lemma UndoRedoes(h: History)
    requires Valid(h) && CanRedo(h)
    ensures Undo(Redo(h)) == h
  {
  }

  /** Undoing `n` times. */
  function UndoTimes(h: History, n: nat): (r: History)
    requires Valid(h)
    ensures Valid(r) && r.entries == h.entries
  {
    if n == 0 then h else Undo(UndoTimes(h, n - 1))
  }

  /** Undoing far enough reaches the first entry, and never goes before it. */
  lemma {:induction false} UndoTimesIndex(h: History, n: nat)
    requires Valid(h)
    ensures UndoTimes(h, n).index == if n <= h.index then h.index - n else 0
  {
    if n > 0 {
      UndoTimesIndex(h, n - 1);
    }
  }

  /** A save after undoing `n` steps forgets the undone entries: the history is the entries up
      to the shown one, then the new content. */
  lemma SaveAfterUndoForgets(h: History, n: nat, content: string)
    requires Valid(h) && n <= h.index
    ensures Save(UndoTimes(h, n), content).entries == h.entries[..h.index - n + 1] + [content]
  {
    UndoTimesIndex(h, n);
  }
}
