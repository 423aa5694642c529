/**
 * The caret mapper of the function-component editor. A browser selection is a
 * range between two boundary points (a container node and an offset in it);
 * here a container is a path from the editor's root element.
 *
 * `getCaretPosition` flattens a range into character counts over the editor's
 * top-level children, counting a text node by its length, a `<br>` as one,
 * and any other node by the sum over its children. `setCaretPosition` goes
 * back, searching text nodes in document order with a running total that the
 * recursive search shares; it does not count `<br>`.
 */
module Caret {
  import opened Dom

  /** A boundary point: the container and the offset inside it. */
  datatype Boundary = Boundary(path: Path, offset: int)

  datatype Range = Range(start: Boundary, end: Boundary)

  // ---------------------------------------------------------------------------
  // The order of boundary points

  datatype Order = Before | Equal | After

  function Flip(o: Order): Order
  {
    match o
    case Before => After
    case Equal => Equal
    case After => Before
  }

  function Compare(a: int, b: int): Order
  {
    if a < b then Before else if a == b then Equal else After
  }

  /** The position of boundary point `a` relative to `b` when `a`'s node does not follow `b`'s:
      the same node compares offsets, and when `a`'s node is an ancestor of `b`'s the point is
      after `b` exactly when `b` lies in a child before offset `a.offset`. */
  function PositionFrom(a: Boundary, b: Boundary): Order
  {
    if a.path == b.path then Compare(a.offset, b.offset)
    else if |a.path| < |b.path| && a.path == b.path[..|a.path|] then
      (if b.path[|a.path|] < a.offset then After else Before)
    else Before
  }

  /** The position of one boundary point relative to another. */
  function Position(a: Boundary, b: Boundary): Order
  {
    if Precedes(b.path, a.path) then Flip(PositionFrom(b, a)) else PositionFrom(a, b)
  }

  /** Comparing the other way round gives the opposite answer. */
  lemma PositionAntisymmetric(a: Boundary, b: Boundary)
    ensures Position(b, a) == Flip(Position(a, b))
  {
    PrecedesTotal(a.path, b.path);
  }

  // ---------------------------------------------------------------------------
  // Snapshots

  /** The flat snapshot `getCaretPosition` returns. */
  datatype SelectionState = SelectionState(isCollapsed: bool, start: int, end: int, length: int)

  /** `countPosition`: a text node's length, 1 for `<br>`, the sum over the children for
      every other node (a comment has none). */
  function CountPosition(n: Node): nat
  {
    match n
    case Text(s) => |s|
    case Elem(tag, _, ch) => if tag == "br" then 1 else CountSeq(ch)
    case Other => 0
  }

  function CountSeq(ns: seq<Node>): nat
  {
    if ns == [] then 0 else CountPosition(ns[0]) + CountSeq(ns[1..])
  }

  /** Number of `<br>` elements in the tree. */
  function Breaks(n: Node): nat
  {
    match n
    case Elem(tag, _, ch) => if tag == "br" then 1 else BreaksSeq(ch)
    case _ => 0
  }

  function BreaksSeq(ns: seq<Node>): nat
  {
    if ns == [] then 0 else Breaks(ns[0]) + BreaksSeq(ns[1..])
  }

  /** Every `<br>` is empty, as the HTML parser makes it (it is a void element). */
  predicate VoidBreaks(n: Node)
  {
    match n
    case Elem(tag, _, ch) => (tag == "br" ==> ch == []) && forall i :: 0 <= i < |ch| ==> VoidBreaks(ch[i])
    case _ => true
  }

  /** The count is the number of characters of text plus one per `<br>`. */
  lemma {:induction false} CountIsTextPlusBreaks(n: Node)
    requires VoidBreaks(n)
    ensures CountPosition(n) == |TextContent(n)| + Breaks(n)
  {
    if n.Elem? && n.tag != "br" {
      CountSeqIsTextPlusBreaks(n.children);
    }
  }

  lemma {:induction false} CountSeqIsTextPlusBreaks(ns: seq<Node>)
    requires forall i :: 0 <= i < |ns| ==> VoidBreaks(ns[i])
    ensures CountSeq(ns) == |TextContentSeq(ns)| + BreaksSeq(ns)
  {
    if ns != [] {
      CountIsTextPlusBreaks(ns[0]);
      CountSeqIsTextPlusBreaks(ns[1..]);
    }
  }

  lemma {:induction false} CountSeqConcat(a: seq<Node>, b: seq<Node>)
    ensures CountSeq(a + b) == CountSeq(a) + CountSeq(b)
  {
    if a == [] {
      assert a + b == b;
    } else {
      assert (a + b)[1..] == a[1..] + b;
      CountSeqConcat(a[1..], b);
    }
  }

  /** Total count of the first `i` top-level children. */
  function PrefixCount(nodes: seq<Node>, i: nat): nat
    requires i <= |nodes|
  {
    CountSeq(nodes[..i])
  }

  lemma PrefixCountStep(nodes: seq<Node>, i: nat)
    requires i < |nodes|
    ensures PrefixCount(nodes, i + 1) == PrefixCount(nodes, i) + CountPosition(nodes[i])
  {
    assert nodes[..i + 1] == nodes[..i] + [nodes[i]];
    CountSeqConcat(nodes[..i], [nodes[i]]);
    assert [nodes[i]][1..] == [];
  }

  /** Index of the top-level child that contains (is or is an ancestor of) the container at
      `p`, or `n` when none does (the container is the editor's root element). */
  function TopIndex(p: Path, n: nat): (k: nat)
    ensures k <= n
    ensures k < n <==> p != [] && p[0] < n
  {
    if p != [] && p[0] < n then p[0] else n
  }

  /** The start count once the child `k` containing the start container is reached: the
      counts before it, plus the start offset when it is the container itself, or its whole
      count when the container lies deeper inside it. */
  function StartThrough(nodes: seq<Node>, b: Boundary, k: nat): int
    requires k < |nodes|
  {
    PrefixCount(nodes, k) + (if b.path == [k] then b.offset else CountPosition(nodes[k]))
  }

  /** What the end adds to the start count at the child `k` containing the end container:
      the difference of the two offsets when it is the container itself, else its whole count. */
  function EndDelta(nodes: seq<Node>, r: Range, k: nat): int
    requires k < |nodes|
  {
    if r.end.path == [k] then r.end.offset - r.start.offset else CountPosition(nodes[k])
  }

  /** The snapshot `getCaretPosition` computes for `r` over the editor's children `nodes`.
      The start stops growing at the child holding the start container; the scan stops at the
      child holding the end container (if that comes first, the start count has taken in
      every child up to it); without an end container the end stays 0. */
  function CaretPosition(nodes: seq<Node>, r: Range): SelectionState
  {
    var ks := TopIndex(r.start.path, |nodes|);
    var ke := TopIndex(r.end.path, |nodes|);
    var start :=
      if ke < ks then PrefixCount(nodes, ke + 1)
      else if ks < |nodes| then StartThrough(nodes, r.start, ks)
      else PrefixCount(nodes, |nodes|);
    var end := if ke < |nodes| then start + EndDelta(nodes, r, ke) else 0;
    SelectionState(r.start == r.end, start, end, end - start)
  }

  /** `getCaretPosition` with a selection present: the loop over the top-level children. */
  method GetCaretPosition(nodes: seq<Node>, r: Range) returns (sel: SelectionState)
    ensures sel == CaretPosition(nodes, r)
    ensures sel.length == sel.end - sel.start
  {
    var ks := TopIndex(r.start.path, |nodes|);
    var ke := TopIndex(r.end.path, |nodes|);
    var startPos := 0;
    var endPos := 0;
    var hasStartContainer := false;
    var i := 0;
    while i < |nodes|
      invariant i <= |nodes| && i <= ke
      invariant hasStartContainer <==> ks < i
      invariant startPos == if ks < i then StartThrough(nodes, r.start, ks) else PrefixCount(nodes, i)
    {
      var node := nodes[i];
      PrefixCountStep(nodes, i);
      if !hasStartContainer {
        if r.start.path != [] && r.start.path[0] == i {
          hasStartContainer := true;
          if r.start.path == [i] {
            startPos := startPos + r.start.offset;
          } else {
            startPos := startPos + CountPosition(node);
          }
        } else {
          startPos := startPos + CountPosition(node);
        }
      }
      if r.end.path != [] && r.end.path[0] == i {
        if r.end.path == [i] {
          endPos := startPos + (r.end.offset - r.start.offset);
        } else {
          endPos := startPos + CountPosition(node);
        }
        return SelectionState(r.start == r.end, startPos, endPos, endPos - startPos);
      }
      i := i + 1;
    }
    return SelectionState(r.start == r.end, startPos, endPos, endPos - startPos);
  }

  /** A caret inside a top-level text node maps to the counts before that node plus its offset. */
  lemma CollapsedTextCaret(nodes: seq<Node>, i: nat, offset: int)
    requires i < |nodes|
    ensures CaretPosition(nodes, Range(Boundary([i], offset), Boundary([i], offset)))
            == SelectionState(true, PrefixCount(nodes, i) + offset, PrefixCount(nodes, i) + offset, 0)
  {
  }

  /** A caret anywhere inside a nested element (a paragraph, a list) maps to the end of the
      top-level child holding it, whatever its offset: the whole child is counted. */
  lemma NestedCaretSnapsToEnd(nodes: seq<Node>, p: Path, offset: int)
    requires |p| >= 2 && p[0] < |nodes|
    ensures CaretPosition(nodes, Range(Boundary(p, offset), Boundary(p, offset))).start == PrefixCount(nodes, p[0] + 1)
    ensures CaretPosition(nodes, Range(Boundary(p, offset), Boundary(p, offset))).end
            == PrefixCount(nodes, p[0] + 1) + CountPosition(nodes[p[0]])
  {
    PrefixCountStep(nodes, p[0]);
  }

  /** A selection from one top-level text node into the next is measured as if both ends were
      in the same node: selecting "b" and "c" in "ab" + "cd" gives start 1 and end 1, an empty
      length for two selected characters. */
  lemma CrossNodeSelectionMeasuredInStartNode(a: string, b: string)
    requires |a| == 2 && |b| == 2
    ensures CaretPosition([Text(a), Text(b)], Range(Boundary([0], 1), Boundary([1], 1)))
            == SelectionState(false, 1, 1, 0)
  {
    var nodes := [Text(a), Text(b)];
    assert nodes[..0] == [];
  }

  // ---------------------------------------------------------------------------------------
  // The inverse search.

  /** Outcome of the search in one subtree: the text node reached (path relative to the
      subtree) with its offset, or the running total after the subtree. */
  datatype Search = Hit(path: Path, offset: int) | Miss(pos: int)

  /** `findPosition(target, n)` entered with the running total `cur`. */
  function LocateNode(n: Node, target: int, cur: int): Search
    decreases n, 0
  {
    match n
    case Text(s) => if cur + |s| >= target then Hit([], target - cur) else Miss(cur + |s|)
    case Elem(_, _, ch) => LocateFrom(ch, 0, target, cur)
    case Other => Miss(cur)
  }

  /** The loop over `ns` from child `i` on, returning the first hit. */
  function LocateFrom(ns: seq<Node>, i: nat, target: int, cur: int): Search
    decreases ns, |ns| - i
  {
    if i >= |ns| then Miss(cur)
    else match LocateNode(ns[i], target, cur)
      case Hit(p, o) => Hit([i] + p, o)
      case Miss(c) => LocateFrom(ns, i + 1, target, c)
  }

  /** The tree holds at least one text node (possibly empty). */
  predicate HasText(n: Node)
    decreases n, 0
  {
    match n
    case Text(_) => true
    case Elem(_, _, ch) => HasTextFrom(ch, 0)
    case Other => false
  }

  predicate HasTextFrom(ns: seq<Node>, i: nat)
    decreases ns, |ns| - i
  {
    i < |ns| && (HasText(ns[i]) || HasTextFrom(ns, i + 1))
  }

  lemma {:induction false} NoTextNoContent(n: Node)
    requires !HasText(n)
    ensures TextContent(n) == ""
    decreases n, 0
  {
    if n.Elem? {
      NoTextNoContentFrom(n.children, 0);
      assert n.children[0..] == n.children;
    }
  }

  lemma {:induction false} NoTextNoContentFrom(ns: seq<Node>, i: nat)
    requires i <= |ns| && !HasTextFrom(ns, i)
    ensures TextContentSeq(ns[i..]) == ""
    decreases ns, |ns| - i
  {
    if i < |ns| {
      NoTextNoContent(ns[i]);
      NoTextNoContentFrom(ns, i + 1);
      assert ns[i..][1..] == ns[i + 1..];
    }
  }

  /** Characters of text that come before the node at `p` in document order, inside `n`. */
  function TextBefore(n: Node, p: Path): nat
    requires ValidPath(n, p)
    decreases |p|
  {
    if p == [] then 0 else |TextContentSeq(n.children[..p[0]])| + TextBefore(n.children[p[0]], p[1..])
  }

  /** Some child of `ns` from `i` up to `k` holds a text node. */
  predicate TextIn(ns: seq<Node>, i: nat, k: nat)
  {
    exists j :: i <= j < k && j < |ns| && HasText(ns[j])
  }

  /** Some text node (possibly empty) comes before the node at `p` in document order. */
  predicate TextNodeBefore(n: Node, p: Path)
    requires ValidPath(n, p)
    decreases |p|
  {
    p != [] && (TextIn(n.children, 0, p[0]) || TextNodeBefore(n.children[p[0]], p[1..]))
  }

  /** Soundness of the search: a hit is a text node; the offset is the target minus the
      running total before that node, and lies within the node's text; and no earlier text
      node reached the target: when the target is ahead of the running total the offset is
      positive, and otherwise the hit is the first text node of all, with no text before it. */
  lemma {:induction false} LocateNodeSound(n: Node, target: int, cur: int)
    ensures LocateNode(n, target, cur).Hit? ==>
      var h := LocateNode(n, target, cur);
      ValidPath(n, h.path) && At(n, h.path).Text?
      && h.offset == target - cur - TextBefore(n, h.path)
      && h.offset <= |At(n, h.path).text|
      && (target > cur ==> h.offset > 0)
      && (target <= cur ==> TextBefore(n, h.path) == 0 && !TextNodeBefore(n, h.path))
    ensures LocateNode(n, target, cur).Miss? ==> LocateNode(n, target, cur).pos == cur + |TextContent(n)|
    ensures LocateNode(n, target, cur).Miss? <==> !HasText(n) || cur + |TextContent(n)| < target
    decreases n, 0
  {
    match n
    case Text(s) =>
    case Elem(_, _, ch) =>
      LocateFromSound(ch, 0, target, cur);
      assert ch[0..] == ch;
      var h := LocateNode(n, target, cur);
      if h.Hit? {
        assert ch[0..h.path[0]] == ch[..h.path[0]];
      }
    case Other =>
  }

  lemma {:induction false} LocateFromSound(ns: seq<Node>, i: nat, target: int, cur: int)
    requires i <= |ns|
    ensures LocateFrom(ns, i, target, cur).Hit? ==>
      var h := LocateFrom(ns, i, target, cur);
      h.path != [] && i <= h.path[0] < |ns|
      && ValidPath(ns[h.path[0]], h.path[1..]) && At(ns[h.path[0]], h.path[1..]).Text?
      && h.offset == target - cur - |TextContentSeq(ns[i..h.path[0]])| - TextBefore(ns[h.path[0]], h.path[1..])
      && h.offset <= |At(ns[h.path[0]], h.path[1..]).text|
      && (target > cur ==> h.offset > 0)
      && (target <= cur ==> |TextContentSeq(ns[i..h.path[0]])| + TextBefore(ns[h.path[0]], h.path[1..]) == 0)
      && (target <= cur ==> !TextIn(ns, i, h.path[0]) && !TextNodeBefore(ns[h.path[0]], h.path[1..]))
    ensures LocateFrom(ns, i, target, cur).Miss? ==> LocateFrom(ns, i, target, cur).pos == cur + |TextContentSeq(ns[i..])|
    ensures LocateFrom(ns, i, target, cur).Miss? <==> !HasTextFrom(ns, i) || cur + |TextContentSeq(ns[i..])| < target
    decreases ns, |ns| - i
  {
    if i < |ns| {
      LocateNodeSound(ns[i], target, cur);
      assert ns[i..][1..] == ns[i + 1..];
      assert TextContentSeq(ns[i..]) == TextContent(ns[i]) + TextContentSeq(ns[i + 1..]);
      match LocateNode(ns[i], target, cur)
      case Hit(p, o) =>
        assert ns[i..i] == [];
      case Miss(c) =>
        LocateFromSound(ns, i + 1, target, c);
        assert HasTextFrom(ns, i) == (HasText(ns[i]) || HasTextFrom(ns, i + 1));
        if !HasText(ns[i]) {
          NoTextNoContent(ns[i]);
        }
        if !HasTextFrom(ns, i + 1) {
          NoTextNoContentFrom(ns, i + 1);
        }
        var h := LocateFrom(ns, i, target, cur);
        if h.Hit? {
          var k := h.path[0];
          assert ns[i..k][1..] == ns[i + 1..k];
          assert TextContentSeq(ns[i..k]) == TextContent(ns[i]) + TextContentSeq(ns[i + 1..k]);
        }
    }
  }

  function BoundaryOf(s: Search): Option<Boundary>
  {
    if s.Hit? then Some(Boundary(s.path, s.offset)) else None
  }

  /** The recursive search with the running total it shares across calls. */
  class PositionFinder {
    var currentPos: int

    constructor()
      ensures currentPos == 0
    {
      currentPos := 0;
    }

    /** `findPosition(targetPos, n)`: the boundary found inside `n` (path relative to `n`).
        On a miss the running total has moved past all of `n`'s text; on a hit it is the
        total before the text node found. */
    method FindPosition(targetPos: int, n: Node) returns (r: Option<Boundary>)
      modifies this
      ensures r == BoundaryOf(LocateNode(n, targetPos, old(currentPos)))
      ensures LocateNode(n, targetPos, old(currentPos)).Miss? ==> currentPos == LocateNode(n, targetPos, old(currentPos)).pos
      ensures r.Some? ==> currentPos == targetPos - r.value.offset
      decreases n, 0
    {
      match n {
        case Text(s) =>
          var length := |s|;
          if currentPos + length >= targetPos {
            return Some(Boundary([], targetPos - currentPos));
          }
          currentPos := currentPos + length;
          return None;
        case Elem(_, _, ch) =>
          ghost var start := currentPos;
          var i := 0;
          while i < |ch|
            invariant i <= |ch|
            invariant LocateFrom(ch, 0, targetPos, start) == LocateFrom(ch, i, targetPos, currentPos)
          {
            var result := FindPosition(targetPos, ch[i]);
            if result.Some? {
              return Some(Boundary([i] + result.value.path, result.value.offset));
            }
            i := i + 1;
          }
          return None;
        case Other =>
          return None;
      }
    }
  }

  /** The range `setCaretPosition` installs for `sel` (both searches start from the root with
      a zero total), or nothing: when either search misses the selection is left untouched,
      and a negative offset (a negative target) makes `setStart`/`setEnd` throw, which is
      caught with the same result. A new range starts collapsed at the start of the document,
      `setStart` moves both of its ends to the start point, and `setEnd` to a point before the
      start collapses the range at that point. */
  function RestoredRange(nodes: seq<Node>, sel: SelectionState): Option<Range>
  {
    var s := LocateNode(Root(nodes), sel.start, 0);
    var e := LocateNode(Root(nodes), sel.end, 0);
    if s.Hit? && e.Hit? && s.offset >= 0 && e.offset >= 0
    then Some(SpannedRange(Boundary(s.path, s.offset), Boundary(e.path, e.offset)))
    else None
  }

  /** `setStart(a)` then `setEnd(b)` on a range collapsed before both points. */
  function SpannedRange(a: Boundary, b: Boundary): (r: Range)
    ensures r.end == b
  {
    if Position(b, a) == Before then Range(b, b) else Range(a, b)
  }

  /** The installed range never ends before it starts, and it starts at the start point
      unless the end point comes first. */
  lemma SpannedRangeOrdered(a: Boundary, b: Boundary)
    ensures Position(SpannedRange(a, b).start, SpannedRange(a, b).end) != After
    ensures Position(b, a) != Before <==> SpannedRange(a, b).start == a || a == b
  {
    PrecedesTotal(b.path, b.path);
    PositionAntisymmetric(a, b);
    if a == b {
      PrecedesTotal(a.path, a.path);
    }
  }

  /** A restored range never ends before it starts. */
  lemma RestoredRangeOrdered(nodes: seq<Node>, sel: SelectionState)
    ensures RestoredRange(nodes, sel).Some? ==>
      Position(RestoredRange(nodes, sel).value.start, RestoredRange(nodes, sel).value.end) != After
  {
    var s := LocateNode(Root(nodes), sel.start, 0);
    var e := LocateNode(Root(nodes), sel.end, 0);
    if s.Hit? && e.Hit? && s.offset >= 0 && e.offset >= 0 {
      SpannedRangeOrdered(Boundary(s.path, s.offset), Boundary(e.path, e.offset));
    }
  }

  /** A snapshot whose end lies before its start restores as a caret at the end point: in
      `<b>hello</b>`, start 5 and end 3 give the caret after "hel". */
  lemma InvertedSnapshotCollapses()
    ensures var nodes := [Elem("b", [], [Text("hello")])];
      RestoredRange(nodes, SelectionState(false, 5, 3, -2)) == Some(Range(Boundary([0, 0], 3), Boundary([0, 0], 3)))
  {
    var nodes := [Elem("b", [], [Text("hello")])];
    assert LocateNode(Root(nodes), 5, 0) == Hit([0, 0], 5);
    assert LocateNode(Root(nodes), 3, 0) == Hit([0, 0], 3);
  }

  /** The searches of `setCaretPosition`, resetting the shared total between them. */
  method RestoreRange(nodes: seq<Node>, sel: SelectionState) returns (r: Option<Range>)
    ensures r == RestoredRange(nodes, sel)
  {
    var finder := new PositionFinder();
    var startResult := finder.FindPosition(sel.start, Root(nodes));
    finder.currentPos := 0;
    var endResult := finder.FindPosition(sel.end, Root(nodes));
    if startResult.Some? && endResult.Some? && startResult.value.offset >= 0 && endResult.value.offset >= 0 {
      var start, end := startResult.value, endResult.value;
      if Position(end, start) == Before {
        start := end;
      }
      r := Some(Range(start, end));
    } else {
      r := None;
    }
  }

  /** Both ends of a restored range are text nodes of the editor, at offsets inside them, and a
      target beyond all the text restores nothing. */
  lemma RestoredRangeSound(nodes: seq<Node>, sel: SelectionState)
    ensures RestoredRange(nodes, sel).Some? ==>
      var r := RestoredRange(nodes, sel).value;
      ValidPath(Root(nodes), r.start.path) && At(Root(nodes), r.start.path).Text?
      && 0 <= r.start.offset <= |At(Root(nodes), r.start.path).text|
      && ValidPath(Root(nodes), r.end.path) && At(Root(nodes), r.end.path).Text?
      && 0 <= r.end.offset <= |At(Root(nodes), r.end.path).text|
    ensures |TextContentSeq(nodes)| < sel.start || |TextContentSeq(nodes)| < sel.end ==> RestoredRange(nodes, sel).None?
  {
    LocateNodeSound(Root(nodes), sel.start, 0);
    LocateNodeSound(Root(nodes), sel.end, 0);
  }

  /** Flat documents of text nodes only: every count from 0 to the text length is found by the
      search, and the caret found maps back to the same count. */
  lemma FlatTextRoundTrip(nodes: seq<Node>, target: int)
    requires nodes != [] && forall i :: 0 <= i < |nodes| ==> nodes[i].Text?
    requires 0 <= target <= |TextContentSeq(nodes)|
    ensures LocateNode(Root(nodes), target, 0).Hit?
    ensures var h := LocateNode(Root(nodes), target, 0);
            CaretPosition(nodes, Range(Boundary(h.path, h.offset), Boundary(h.path, h.offset)))
            == SelectionState(true, target, target, 0)
  {
    LocateNodeSound(Root(nodes), target, 0);
    assert HasText(Root(nodes)) by {
      assert HasText(nodes[0]);
    }
    var h := LocateNode(Root(nodes), target, 0);
    var i := h.path[0];
    assert ValidPath(nodes[i], h.path[1..]);
    assert h.path == [i] + h.path[1..];
    FlatCount(nodes[..i]);
    CollapsedTextCaret(nodes, i, h.offset);
  }

  lemma {:induction false} FlatCount(ns: seq<Node>)
    requires forall i :: 0 <= i < |ns| ==> ns[i].Text?
    ensures CountSeq(ns) == |TextContentSeq(ns)|
  {
    if ns != [] {
      FlatCount(ns[1..]);
    }
  }

  /** The search skips `<br>`, so a caret after a line break drifts: with "ab", `<br>`, "cd"
      and the caret after "c", the count is 4 (two characters, the break, one more), and the
      search for 4 stops at the end of "cd", one character further on. */
  lemma BreakMakesCaretDrift(a: string, c: string)
    requires |a| == 2 && |c| == 2
    ensures CaretPosition([Text(a), Elem("br", [], []), Text(c)], Range(Boundary([2], 1), Boundary([2], 1))).start == 4
    ensures LocateNode(Root([Text(a), Elem("br", [], []), Text(c)]), 4, 0) == Hit([2], 2)
  {
    var nodes := [Text(a), Elem("br", [], []), Text(c)];
    PrefixCountStep(nodes, 0);
    PrefixCountStep(nodes, 1);
    assert nodes[..0] == [];
    assert LocateNode(nodes[0], 4, 0) == Miss(2);
    assert LocateNode(nodes[1], 4, 2) == Miss(2);
    assert LocateNode(nodes[2], 4, 2) == Hit([], 2);
    assert LocateFrom(nodes, 2, 4, 2) == Hit([2], 2);
    assert LocateFrom(nodes, 1, 4, 2) == Hit([2], 2);
  }
}
