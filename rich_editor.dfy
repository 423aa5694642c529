/**
 * The class-based editor: its content and undo history, the keyboard
 * shortcuts, toggling an inline format on the selection, pasting (HTML
 * through the allow-list sanitizer, plain text as one paragraph per line),
 * and the normalization run after every edit that merges adjacent equal
 * inline elements and makes sure the content has a block element.
 *
 * As in the function-component editor, the editor element's children are
 * `dom`, and the browser's parser and serializer are `parse` and `serialize`.
 * The window selection is passed to each operation that reads it; a range
 * the operation selects explicitly is returned. `changes` records every
 * value handed to `onChange`.
 */
module RichEditor {
  import opened Dom
  import opened Strings
  import opened Caret
  import opened TreeEdit
  import opened Sanitizer
  import H = History

  // ---------------------------------------------------------------------------
  // The plain-text branch of handlePaste

  /** Index of the first line terminator (`\r` or `\n`) in `s`, or `|s|`. */
  function LineEnd(s: string): (k: nat)
    ensures k <= |s|
    ensures forall j :: 0 <= j < k ==> s[j] != '\r' && s[j] != '\n'
    ensures k < |s| ==> s[k] == '\r' || s[k] == '\n'
  {
    if s == [] || s[0] == '\r' || s[0] == '\n' then 0 else 1 + LineEnd(s[1..])
  }

  /** `s.split(/\r\n|\r|\n/)`: the lines, none holding a terminator. */
  function SplitLines(s: string): (lines: seq<string>)
    ensures |lines| >= 1
    ensures forall i :: 0 <= i < |lines| ==> '\r' !in lines[i] && '\n' !in lines[i]
    decreases |s|
  {
    var k := LineEnd(s);
    if k == |s| then [s]
    else
      var width := if s[k] == '\r' && k + 1 < |s| && s[k + 1] == '\n' then 2 else 1;
      [s[..k]] + SplitLines(s[k + width..])
  }

  /** A line with more than white space becomes a paragraph holding it; a blank line becomes
      an empty paragraph with a line break. */
  function LineHtml(line: string): string
  {
    if Trim(line) != "" then "<p>" + line + "</p>" else "<p><br></p>"
  }

  function LinesHtml(lines: seq<string>): string
  {
    if lines == [] then "" else LineHtml(lines[0]) + LinesHtml(lines[1..])
  }

  /** The markup made from pasted plain text: one paragraph per line, joined with nothing. */
  function PlainTextToHtml(text: string): (html: string)
    ensures |html| > 0
  {
    LinesHtml(SplitLines(text))
  }

  /** The markup a paste inserts: the clipboard's HTML when there is any, else its plain text
      made into paragraphs, else nothing. */
  function PasteContent(html: string, text: string): (r: string)
    ensures html != "" ==> r == html
    ensures html == "" && text != "" ==> r == PlainTextToHtml(text)
    ensures r == "" <==> html == "" && text == ""
  {
    if html != "" then html else if text != "" then PlainTextToHtml(text) else ""
  }

  /** Each kind of line terminator ends exactly one line. */
  lemma SplitLinesStep(line: string, terminator: string, rest: string)
    requires '\r' !in line && '\n' !in line
    requires terminator == "\r\n" || terminator == "\n" || (terminator == "\r" && (rest == [] || rest[0] != '\n'))
    ensures SplitLines(line + terminator + rest) == [line] + SplitLines(rest)
  {
    var s := line + terminator + rest;
    LineEndOfLine(line, terminator + rest);
    assert s == line + (terminator + rest);
    assert s[..|line|] == line;
    assert s[|line| + |terminator|..] == rest;
  }

  lemma {:induction false} LineEndOfLine(line: string, rest: string)
    requires '\r' !in line && '\n' !in line
    requires rest != [] && (rest[0] == '\r' || rest[0] == '\n')
    ensures LineEnd(line + rest) == |line|
    decreases |line|
  {
    if line != [] {
      assert (line + rest)[1..] == line[1..] + rest;
      LineEndOfLine(line[1..], rest);
    }
  }

  /** Pasting text turns each line into its own paragraph, in order. */
  lemma PlainTextLines(line: string, terminator: string, rest: string)
    requires '\r' !in line && '\n' !in line
    requires terminator == "\r\n" || terminator == "\n" || (terminator == "\r" && (rest == [] || rest[0] != '\n'))
    ensures PlainTextToHtml(line + terminator + rest) == LineHtml(line) + PlainTextToHtml(rest)
  {
    SplitLinesStep(line, terminator, rest);
    assert ([line] + SplitLines(rest))[1..] == SplitLines(rest);
  }

  /** Without carriage returns the lines are the pieces between newlines, and joining them
      with newlines gives the text back. */
  lemma {:induction false} SplitLinesWithoutCR(s: string)
    requires '\r' !in s
    ensures SplitLines(s) == Split(s, '\n')
    ensures Join(SplitLines(s), '\n') == s
    decreases |s|
  {
    var k := LineEnd(s);
    IndexOfNewline(s);
    if k < |s| {
      assert '\r' !in s[k + 1..];
      SplitLinesWithoutCR(s[k + 1..]);
    }
    JoinSplit(s, '\n');
  }

  lemma IndexOfNewline(s: string)
    requires '\r' !in s
    ensures IndexOf(s, '\n') == LineEnd(s)
  {
    var k := LineEnd(s);
    var j := IndexOf(s, '\n');
    assert k < |s| ==> s[k] == '\n';
    assert j < |s| ==> s[j] == '\n';
  }

  // ---------------------------------------------------------------------------
  // handleKeyDown

  datatype Command = Format(tag: string) | UndoCommand | RedoCommand | NoCommand

  /** The shortcut a key press selects: with Ctrl or Meta held, `b`, `i` and `u` (in either
      case) toggle `strong`, `em` and `u`, and `z` undoes, or redoes with Shift. */
  function KeyCommand(key: string, ctrlKey: bool, metaKey: bool, shiftKey: bool): Command
  {
    if !(ctrlKey || metaKey) then NoCommand
    else
      var k := Lower(key);
      if k == "b" then Format("strong")
      else if k == "i" then Format("em")
      else if k == "u" then Format("u")
      else if k == "z" then (if shiftKey then RedoCommand else UndoCommand)
      else NoCommand
  }

  /** The shortcuts ignore the case of the key: Shift+Ctrl+Z reports the key `Z` and redoes. */
  lemma KeyCommandIgnoresCase(key: string, ctrlKey: bool, metaKey: bool, shiftKey: bool)
    ensures KeyCommand(Upper(key), ctrlKey, metaKey, shiftKey) == KeyCommand(key, ctrlKey, metaKey, shiftKey)
    ensures KeyCommand("Z", ctrlKey, metaKey, true) == if ctrlKey || metaKey then RedoCommand else NoCommand
  {
    LowerOfUpper(key);
    KeyCommandOfLower(Upper(key), key, ctrlKey, metaKey, shiftKey);
    LowerOfCapitalZ();
    KeyCommandOfLower("Z", "z", ctrlKey, metaKey, true);
  }

  /** Two keys that lower-case alike give the same command. */
  lemma KeyCommandOfLower(a: string, b: string, ctrlKey: bool, metaKey: bool, shiftKey: bool)
    requires Lower(a) == Lower(b)
    ensures KeyCommand(a, ctrlKey, metaKey, shiftKey) == KeyCommand(b, ctrlKey, metaKey, shiftKey)
  {
  }

  lemma LowerOfUpper(s: string)
    ensures Lower(Upper(s)) == Lower(s)
  {
    assert forall i :: 0 <= i < |s| ==> LowerChar(UpperChar(s[i])) == LowerChar(s[i]);
  }

  lemma LowerOfCapitalZ()
    ensures Lower("Z") == "z" && Lower("z") == "z"
  {
    assert LowerChar('Z') == 'z' && LowerChar('z') == 'z';
  }

  /** Without Ctrl or Meta no key does anything; with one of them only the four letters do. */
  lemma KeyCommandKeys(key: string, ctrlKey: bool, metaKey: bool, shiftKey: bool)
    ensures KeyCommand(key, ctrlKey, metaKey, shiftKey) != NoCommand <==>
      (ctrlKey || metaKey) && Lower(key) in {"b", "i", "u", "z"}
  {
  }

  // ---------------------------------------------------------------------------
  // toggleFormat

  /** The text of a collapsed format element, so that the caret can be placed inside it. */
  const ZeroWidthSpace := "\U{200B}"

  /** The editor's children after `toggleFormat` changed them and before they are normalized,
      given the nearest matching ancestor `existing` of the common ancestor: that element is
      unwrapped; or, for a collapsed range, a new element holding a zero-width space is
      inserted at the caret; or the range's content is wrapped in a new element (created with
      the lower-cased tag, as `createElement` does). Ranges whose ends lie in different nodes,
      or in a node that is neither text nor element, are outside the model (`None`). */
  function Toggled(dom: seq<Node>, r: Range, tagName: string, existing: Option<Path>): Option<seq<Node>>
    requires existing.Some? ==> ValidPath(Root(dom), existing.value) && existing.value != [] && At(Root(dom), existing.value).Elem?
  {
    var root := Root(dom);
    if existing.Some? then
      (UnwrapKeepsRoot(root, existing.value);
       Some(Unwrap(root, existing.value).children))
    else if !Spliceable(root, r) then None
    else if r.start == r.end then
      (SpliceKeepsRoot(root, r, [FormatElement(tagName, [Text(ZeroWidthSpace)])]);
       Some(Splice(root, r, [FormatElement(tagName, [Text(ZeroWidthSpace)])]).children))
    else
      (SpliceKeepsRoot(root, r, [FormatElement(tagName, Extract(root, r))]);
       Some(Splice(root, r, [FormatElement(tagName, Extract(root, r))]).children))
  }

  function FormatElement(tagName: string, children: seq<Node>): Node
  {
    Elem(Lower(tagName), [], children)
  }

  /** Removing a format and wrapping a non-empty selection keep the document's text. */
  lemma ToggledKeepsText(dom: seq<Node>, r: Range, tagName: string, existing: Option<Path>)
    requires existing.Some? ==> ValidPath(Root(dom), existing.value) && existing.value != [] && At(Root(dom), existing.value).Elem?
    requires existing.Some? || r.start != r.end
    ensures Toggled(dom, r, tagName, existing).Some? ==> TextContentSeq(Toggled(dom, r, tagName, existing).value) == TextContentSeq(dom)
  {
    var root := Root(dom);
    if existing.Some? {
      UnwrapKeepsText(root, existing.value);
      UnwrapKeepsRoot(root, existing.value);
    } else if Spliceable(root, r) {
      WrapKeepsText(root, r, Lower(tagName), []);
      SpliceKeepsRoot(root, r, [FormatElement(tagName, Extract(root, r))]);
    }
  }

  /** Toggling twice with a selection of children: the first toggle wraps them in a new
      element, and the second, finding that element, unwraps it and restores the document. */
  lemma ToggleTwice(dom: seq<Node>, r: Range, tagName: string)
    requires Spliceable(Root(dom), r) && At(Root(dom), r.start.path).Elem? && r.start != r.end
    ensures Toggled(dom, r, tagName, None).Some?
    ensures var once := Toggled(dom, r, tagName, None).value;
      var w := InsertionPath(Root(dom), r);
      ValidPath(Root(once), w) && w != [] && At(Root(once), w).Elem? && TagMatches(At(Root(once), w), tagName) &&
      Toggled(once, r, tagName, Some(w)) == Some(dom)
  {
    var root := Root(dom);
    var e := FormatElement(tagName, Extract(root, r));
    SpliceKeepsRoot(root, r, [e]);
    WrapThenUnwrap(root, r, Lower(tagName), []);
    SpliceShape(root, r, [e]);
    var t := Splice(root, r, [e]);
    assert Root(t.children) == t;
    LowerIdempotent(tagName);
    UnwrapKeepsRoot(t, InsertionPath(root, r));
  }

  lemma LowerIdempotent(s: string)
    ensures Lower(Lower(s)) == Lower(s)
  {
  }

  // ---------------------------------------------------------------------------
  // The editor

  /** The loop of one `getElementsByTagName(tag)` pass, on the tree under the editor's root. */
  method MergeLoop(start: Node, tag: string) returns (root: Node)
    requires start.Elem?
    ensures root == MergePass(start, tag, |ElementsIn(start, tag)| - 1)
    ensures root.Elem? && root.tag == start.tag && root.attrs == start.attrs
  {
    root := start;
    var i := |ElementsIn(root, tag)| - 1;
    ghost var target := MergePass(root, tag, i);
    while i > 0
      invariant i < |ElementsIn(root, tag)|
      invariant root.Elem? && root.tag == start.tag && root.attrs == start.attrs
      invariant MergePass(root, tag, i) == target
      decreases i
    {
      ghost var before := root;
      var elements := ElementsIn(root, tag);
      ElementsInSound(root, tag);
      var current := elements[i];
      var previous := elements[i - 1];
      if PrevSibling(previous, current) {
        var cur := At(root, current);
        var prev := At(root, previous);
        if GetAttribute(cur.attrs, "style") == GetAttribute(prev.attrs, "style") {
          SiblingsMergeable(root, previous, current);
          root := Merge(root, current);
        }
      }
      assert root == MergeStep(before, tag, i);
      ghost var turn := i;
      i := i - 1;
      MergePassUnfold(before, tag, turn, i);
    }
    assert MergePass(root, tag, i) == root;
  }

  class RichEditor {
    const parse: string -> seq<Node>
    const serialize: seq<Node> -> string
    /** The `mergeableElements` list `normalizeContent` walks. */
    const mergeable: seq<string>

    var dom: seq<Node>
    var content: string
    var history: seq<string>
    var historyIndex: nat
    var changes: seq<string>

    function Log(): H.History
      reads this
    {
      H.History(history, historyIndex)
    }

    /** The index points into the history, and the content is the entry it points to. */
    predicate Valid()
      reads this
    {
      H.Valid(Log()) && content == H.Current(Log())
    }

    /** What `normalizeContent` does to `before`: `merged` is what the merge loops make of
        it, one pass per mergeable tag, and `after` is `merged` itself when it holds a block
        element, and otherwise the markup re-parsed inside one paragraph. */
    predicate Normalized(before: seq<Node>, merged: seq<Node>, after: seq<Node>)
    {
      Root(merged) == MergeTags(Root(before), mergeable) &&
      after == if BlockIn(Root(merged)) then merged else parse("<p>" + serialize(merged) + "</p>")
    }

    /** The merge loops keep the text. */
    lemma NormalizedKeepsText(before: seq<Node>, merged: seq<Node>, after: seq<Node>)
      requires Normalized(before, merged, after)
      ensures TextContentSeq(merged) == TextContentSeq(before)
    {
      MergeTagsKeepsText(Root(before), mergeable);
    }

    /** What `updateContent(serialize(dom))` leaves, from the content `content0`, the log `log0`
        and the reports `changes0`: markup that differs from the content is saved and handed to
        `onChange`; the same markup changes neither. */
    ghost predicate Reported(content0: string, log0: H.History, changes0: seq<string>)
      requires H.Valid(log0)
      reads this
    {
      (serialize(dom) != content0 ==>
        Log() == H.Save(log0, serialize(dom)) && changes == changes0 + [serialize(dom)]) &&
      (serialize(dom) == content0 ==> Log() == log0 && changes == changes0)
    }

    /** What `undo` leaves, from the markup `dom0`, the log `log0` and the reports `changes0`:
        the log takes `History.Undo`; when it moved, the markup shows the entry now current and
        that entry is reported, and otherwise neither changes. */
    ghost predicate Undone(dom0: seq<Node>, log0: H.History, changes0: seq<string>)
      requires H.Valid(log0)
      reads this
    {
      Log() == H.Undo(log0) &&
      (H.CanUndo(log0) ==> dom == parse(content) && changes == changes0 + [content]) &&
      (!H.CanUndo(log0) ==> dom == dom0 && changes == changes0)
    }

    /** What `redo` leaves, the mirror image of `Undone`. */
    ghost predicate Redone(dom0: seq<Node>, log0: H.History, changes0: seq<string>)
      requires H.Valid(log0)
      reads this
    {
      Log() == H.Redo(log0) &&
      (H.CanRedo(log0) ==> dom == parse(content) && changes == changes0 + [content]) &&
      (!H.CanRedo(log0) ==> dom == dom0 && changes == changes0)
    }

    /** What `toggleFormat(tagName)` on the selection `sel` leaves, from the markup `dom0`, the
        content `content0`, the log `log0` and the reports `changes0`. Without a selection
        nothing changes. Otherwise `existing` is the nearest ancestor-or-self of the common
        ancestor with the tag; when `Toggled` changes nothing nothing changes, and otherwise
        `toggled` is the toggled markup, `merged` what the merge loops make of it, the markup
        is `Normalized`, and the result is `Reported`. */
    ghost predicate ToggledFrom(dom0: seq<Node>, content0: string, log0: H.History, changes0: seq<string>,
                                tagName: string, sel: Option<Range>,
                                existing: Option<Path>, toggled: seq<Node>, merged: seq<Node>)
      requires H.Valid(log0)
      reads this
    {
      (sel.None? ==> dom == dom0 && Log() == log0 && changes == changes0 && existing.None?) &&
      (sel.Some? ==>
        var r := sel.value;
        ValidPath(Root(dom0), CommonAncestor(r)) &&
        NearestWithTag(Root(dom0), CommonAncestor(r), tagName, existing) &&
        (existing.Some? ==> existing.value != [] && At(Root(dom0), existing.value).Elem?) &&
        (Toggled(dom0, r, tagName, existing).None? ==>
          dom == dom0 && Log() == log0 && changes == changes0) &&
        (Toggled(dom0, r, tagName, existing).Some? ==>
          toggled == Toggled(dom0, r, tagName, existing).value &&
          Normalized(toggled, merged, dom) &&
          Reported(content0, log0, changes0)))
    }

    /** `sanitizeHtml`: the markup is parsed, sanitized and serialized again. */
    function SanitizeHtml(html: string): string
    {
      serialize(SanitizeAll(parse(html)))
    }

    /** The constructor and `setupEditor`: the history holds the initial content, which is
        also the markup. */
    constructor(initialContent: string, parse0: string -> seq<Node>, serialize0: seq<Node> -> string)
      ensures Valid() && history == [initialContent] && historyIndex == 0 && content == initialContent
      ensures dom == parse0(initialContent) && changes == []
      ensures parse == parse0 && serialize == serialize0 && mergeable == MergeableTags
    {
      parse := parse0;
      serialize := serialize0;
      mergeable := MergeableTags;
      content := initialContent;
      history := [initialContent];
      historyIndex := 0;
      dom := parse0(initialContent);
      changes := [];
    }

    /** `updateContent`: a different content drops the redo entries, becomes the newest entry
        and is reported; the same content changes nothing. */
    method UpdateContent(newContent: string)
      requires Valid()
      modifies this
      ensures Valid() && dom == old(dom)
      ensures newContent == old(content) ==>
        content == old(content) && Log() == old(Log()) && changes == old(changes)
      ensures newContent != old(content) ==>
        content == newContent && Log() == H.Save(old(Log()), newContent) && changes == old(changes) + [newContent]
    {
      if newContent != content {
        history := history[..historyIndex + 1] + [newContent];
        historyIndex := |history| - 1;
        content := newContent;
        changes := changes + [newContent];
      }
    }

    /** The `input` listener: the user has edited the markup into `edited`. */
    method HandleInput(edited: seq<Node>)
      requires Valid()
      modifies this
      ensures Valid() && dom == edited
      ensures serialize(edited) != old(content) ==>
        content == serialize(edited) && Log() == H.Save(old(Log()), content) && changes == old(changes) + [content]
      ensures serialize(edited) == old(content) ==> Log() == old(Log()) && changes == old(changes)
    {
      dom := edited;
      UpdateContent(serialize(dom));
    }

    /** `undo`: one step back; the markup and the content become the earlier entry, which is
        reported. */
    method Undo()
      requires Valid()
      modifies this
      ensures Valid() && Log() == H.Undo(old(Log()))
      ensures H.CanUndo(old(Log())) ==> dom == parse(content) && changes == old(changes) + [content]
      ensures !H.CanUndo(old(Log())) ==> dom == old(dom) && changes == old(changes)
    {
      if historyIndex > 0 {
        historyIndex := historyIndex - 1;
        dom := parse(history[historyIndex]);
        content := history[historyIndex];
        changes := changes + [content];
      }
    }

    /** `redo`: one step forward, the mirror image of `Undo`. */
    method Redo()
      requires Valid()
      modifies this
      ensures Valid() && Log() == H.Redo(old(Log()))
      ensures H.CanRedo(old(Log())) ==> dom == parse(content) && changes == old(changes) + [content]
      ensures !H.CanRedo(old(Log())) ==> dom == old(dom) && changes == old(changes)
    {
      if historyIndex < |history| - 1 {
        historyIndex := historyIndex + 1;
        dom := parse(history[historyIndex]);
        content := history[historyIndex];
        changes := changes + [content];
      }
    }

    /** One `getElementsByTagName(tag)` pass of `normalizeContent`: from the last element with
        the tag down to the second, an element whose previous sibling is the element before it
        in document order, with an equal `style` attribute (or none on both), is merged into
        it. The collection is live: it is read again after every merge. */
    method MergeAdjacent(tag: string)
      modifies this
      ensures Root(dom) == MergePass(old(Root(dom)), tag, |ElementsIn(old(Root(dom)), tag)| - 1)
      ensures content == old(content) && history == old(history) && historyIndex == old(historyIndex)
      ensures changes == old(changes)
    {
      var root := MergeLoop(Root(dom), tag);
      dom := root.children;
    }

    /** `normalizeContent`: the merge pass for each mergeable tag in turn, then the block check.
        Returns the children as the merge passes left them. */
    method NormalizeContent() returns (ghost merged: seq<Node>)
      modifies this
      ensures Normalized(old(dom), merged, dom)
      ensures content == old(content) && history == old(history) && historyIndex == old(historyIndex)
      ensures changes == old(changes)
    {
      ghost var target := MergeTags(Root(dom), mergeable);
      var k := 0;
      while k < |mergeable|
        invariant 0 <= k <= |mergeable|
        invariant MergeTags(Root(dom), mergeable[k..]) == target
        invariant content == old(content) && history == old(history) && historyIndex == old(historyIndex)
        invariant changes == old(changes)
      {
        ghost var tags := mergeable[k..];
        assert tags[0] == mergeable[k] && tags[1..] == mergeable[k + 1..];
        MergeAdjacent(mergeable[k]);
        k := k + 1;
      }
      assert mergeable[k..] == [];
      merged := dom;
      if !BlockIn(Root(dom)) {
        var html := serialize(dom);
        dom := parse("<p>" + html + "</p>");
      }
    }

    /** `toggleFormat(tagName)` on the selection `sel`. Without a selection nothing happens.
        Otherwise the nearest ancestor-or-self of the common ancestor with the tag is looked
        for and returned as `existing`, the children change as `Toggled` says (`toggled`), are
        normalized, and the new markup goes through `updateContent`. After inserting an empty
        format element the caret range selects the element's content; it is returned as
        `caret`. */
    method ToggleFormat(tagName: string, sel: Option<Range>)
      returns (existing: Option<Path>, caret: Option<Range>, ghost toggled: seq<Node>, ghost merged: seq<Node>)
      requires Valid()
      requires sel.Some? ==> RangeInside(Root(dom), sel.value)
      modifies this
      ensures Valid()
      ensures ToggledFrom(old(dom), old(content), old(Log()), old(changes), tagName, sel, existing, toggled, merged)
      ensures sel.None? ==> caret.None?
      ensures sel.Some? && Toggled(old(dom), sel.value, tagName, existing).None? ==> caret.None?
      ensures sel.Some? && existing.None? && Spliceable(Root(old(dom)), sel.value) && sel.value.start == sel.value.end ==>
        var w := InsertionPath(Root(old(dom)), sel.value);
        caret == Some(Range(Boundary(w, 0), Boundary(w, 1)))
      ensures sel.Some? && !(existing.None? && Spliceable(Root(old(dom)), sel.value) && sel.value.start == sel.value.end) ==>
        caret.None?
    {
      existing := None;
      caret := None;
      toggled := dom;
      merged := dom;
      if sel.None? {
        return;
      }
      var r := sel.value;
      var root := Root(dom);
      CommonAncestorValid(root, r);
      existing := FindParentWithTag(root, CommonAncestor(r), tagName);
      if existing.Some? {
        // `existingFormat.parentNode` is never null: the match lies below the root.
        assert existing.value != [];
        UnwrapKeepsRoot(root, existing.value);
        dom := Unwrap(root, existing.value).children;
      } else if Spliceable(root, r) {
        if r.start == r.end {
          var element := FormatElement(tagName, [Text(ZeroWidthSpace)]);
          SpliceKeepsRoot(root, r, [element]);
          dom := Splice(root, r, [element]).children;
          var w := InsertionPath(root, r);
          caret := Some(Range(Boundary(w, 0), Boundary(w, 1)));
        } else {
          var element := FormatElement(tagName, Extract(root, r));
          SpliceKeepsRoot(root, r, [element]);
          dom := Splice(root, r, [element]).children;
        }
      } else {
        return;
      }
      toggled := dom;
      merged := NormalizeContent();
      UpdateContent(serialize(dom));
    }

    /** The state after `fragment` took the place of the range `r`, from the editor state
        `dom0`, `content0`, `log0` and `changes0`: the children with the fragment spliced in
        are `spliced`, the caret is collapsed after the fragment, the children are normalized,
        and the new markup is `Reported`. */
    ghost predicate Inserted(dom0: seq<Node>, content0: string, log0: H.History, changes0: seq<string>,
                             r: Range, fragment: seq<Node>,
                             caret: Option<Range>, spliced: seq<Node>, merged: seq<Node>)
      reads this
    {
      H.Valid(log0) && Spliceable(Root(dom0), r) &&
      Root(spliced) == Splice(Root(dom0), r, fragment) &&
      caret == Some(Range(
        Boundary(ContainerPath(Root(dom0), r), LastIndex(InsertionPath(Root(dom0), r)) + |fragment|),
        Boundary(ContainerPath(Root(dom0), r), LastIndex(InsertionPath(Root(dom0), r)) + |fragment|))) &&
      Normalized(spliced, merged, dom) &&
      Reported(content0, log0, changes0)
    }

    /** `handlePaste` with the clipboard's `text/html` and `text/plain` data and the selection
        `sel`. When there is a selection inside one container and something to paste, the
        sanitized markup is parsed (`inserted`) and `Inserted` over the range; markup whose
        sanitized form re-parses to itself inserts only allowed tags and attributes. Otherwise
        nothing changes. */
    method HandlePaste(html: string, text: string, sel: Option<Range>)
      returns (caret: Option<Range>, ghost inserted: seq<Node>, ghost spliced: seq<Node>, ghost merged: seq<Node>)
      requires Valid()
      modifies this
      ensures Valid()
      ensures !(sel.Some? && PasteContent(html, text) != "" && Spliceable(Root(old(dom)), sel.value)) ==>
        dom == old(dom) && Log() == old(Log()) && changes == old(changes) && caret.None?
      ensures sel.Some? && PasteContent(html, text) != "" && Spliceable(Root(old(dom)), sel.value) ==>
        inserted == parse(SanitizeHtml(PasteContent(html, text))) &&
        Inserted(old(dom), old(content), old(Log()), old(changes), sel.value, inserted, caret, spliced, merged) &&
        (parse(serialize(SanitizeAll(parse(PasteContent(html, text))))) == SanitizeAll(parse(PasteContent(html, text))) ==>
         CleanFrom(inserted, 0))
    {
      caret := None;
      inserted := [];
      spliced := dom;
      merged := dom;
      if sel.Some? {
        var pasted := PasteContent(html, text);
        if pasted != "" && Spliceable(Root(dom), sel.value) {
          var clean := SanitizeAll(parse(pasted));
          SanitizeFromIsClean(parse(pasted), 0);
          var fragment := parse(serialize(clean));
          inserted := fragment;
          caret, spliced, merged := InsertFragment(sel.value, fragment);
        }
      }
    }

    /** The nodes of `fragment` take the range's place, the caret is collapsed after them, and
        the children are normalized and saved. */
    method InsertFragment(r: Range, fragment: seq<Node>)
      returns (caret: Option<Range>, ghost spliced: seq<Node>, ghost merged: seq<Node>)
      requires Valid() && Spliceable(Root(dom), r)
      modifies this
      ensures Valid()
      ensures Inserted(old(dom), old(content), old(Log()), old(changes), r, fragment, caret, spliced, merged)
    {
      caret, spliced, merged := SpliceIn(r, fragment);
    }

    method SpliceIn(r: Range, fragment: seq<Node>)
      returns (caret: Option<Range>, ghost spliced: seq<Node>, ghost merged: seq<Node>)
      requires Valid() && Spliceable(Root(dom), r)
      modifies this
      ensures Valid()
      ensures Root(spliced) == Splice(Root(old(dom)), r, fragment)
      ensures caret == Some(Range(
          Boundary(ContainerPath(Root(old(dom)), r), LastIndex(InsertionPath(Root(old(dom)), r)) + |fragment|),
          Boundary(ContainerPath(Root(old(dom)), r), LastIndex(InsertionPath(Root(old(dom)), r)) + |fragment|)))
      ensures Normalized(spliced, merged, dom)
      ensures Reported(old(content), old(Log()), old(changes))
    {
      var root := Root(dom);
      SpliceKeepsRoot(root, r, fragment);
      var w := InsertionPath(root, r);
      var container := ContainerPath(root, r);
      dom := Splice(root, r, fragment).children;
      spliced := dom;
      var end := Boundary(container, LastIndex(w) + |fragment|);
      caret := Some(Range(end, end));
      merged := NormalizeContent();
      UpdateContent(serialize(dom));
    }

    /** `handleKeyDown`: the shortcut's action runs and the default is prevented exactly when
        the key press is a shortcut. A format key toggles its tag on the selection `sel`,
        finding `existing`; undo and redo step through the log. */
    method HandleKeyDown(key: string, ctrlKey: bool, metaKey: bool, shiftKey: bool, sel: Option<Range>)
      returns (preventDefault: bool, existing: Option<Path>, ghost toggled: seq<Node>, ghost merged: seq<Node>)
      requires Valid()
      requires sel.Some? ==> RangeInside(Root(dom), sel.value)
      modifies this
      ensures Valid()
      ensures preventDefault <==> KeyCommand(key, ctrlKey, metaKey, shiftKey) != NoCommand
      ensures KeyCommand(key, ctrlKey, metaKey, shiftKey).Format? ==>
        ToggledFrom(old(dom), old(content), old(Log()), old(changes),
                    KeyCommand(key, ctrlKey, metaKey, shiftKey).tag, sel, existing, toggled, merged)
      ensures KeyCommand(key, ctrlKey, metaKey, shiftKey) == UndoCommand ==> Undone(old(dom), old(Log()), old(changes))
      ensures KeyCommand(key, ctrlKey, metaKey, shiftKey) == RedoCommand ==> Redone(old(dom), old(Log()), old(changes))
      ensures KeyCommand(key, ctrlKey, metaKey, shiftKey) == NoCommand ==>
        dom == old(dom) && Log() == old(Log()) && changes == old(changes)
    {
      var command := KeyCommand(key, ctrlKey, metaKey, shiftKey);
      preventDefault := command != NoCommand;
      existing, toggled, merged := None, [], [];
      match command {
        case Format(tag) =>
          var caret;
          existing, caret, toggled, merged := ToggleFormat(tag, sel);
        case UndoCommand =>
          Undo();
        case RedoCommand =>
          Redo();
        case NoCommand =>
      }
    }
  }
}
