/**
 * The toolbar's view of the selection (the `useFormatState` hook): which of
 * bold, italic and underline are active, the alignment, whether the caret is
 * in a bullet or an ordered list, and the font size, family and colour.
 *
 * For a collapsed selection the formats are those of the element holding the
 * caret. For a selection with content, every element under the range's common
 * ancestor that the range intersects is visited (a `NodeIterator` whose filter
 * skips the others), and the three-valued fold over them is "all formatted",
 * "none formatted" or mixed. The DOM Standard's comparison of boundary points
 * and `Range.intersectsNode` are written out over paths.
 *
 * The computed style of the element that is checked comes from the browser's
 * style engine; it is a parameter here.
 */
module FormatState {
  import opened Dom
  import opened Strings
  import opened Caret
  import opened TreeEdit

  // ---------------------------------------------------------------------------
  // Inline style: `element.style.fontWeight` and friends

  /** A declaration `name: value` of a `style` attribute names `property`
      (property names are ASCII case-insensitive, and white space around them is ignored). */
  predicate Declares(d: string, property: string)
  {
    IndexOf(d, ':') < |d| && Lower(Trim(d[..IndexOf(d, ':')])) == property
  }

  /** The value of a declaration, as the style object reports a keyword: trimmed and lower case. */
  function DeclaredValue(d: string): string
    requires IndexOf(d, ':') < |d|
  {
    Lower(Trim(d[IndexOf(d, ':') + 1..]))
  }

  /** The value the last declaration of `property` gives, or "" when none does. */
  function DeclarationValue(decls: seq<string>, property: string): (r: string)
    ensures (forall i :: 0 <= i < |decls| ==> !Declares(decls[i], property)) ==> r == ""
    decreases |decls|
  {
    if decls == [] then ""
    else if Declares(decls[|decls| - 1], property) then DeclaredValue(decls[|decls| - 1])
    else DeclarationValue(decls[..|decls| - 1], property)
  }

  /** When some declaration names the property, the last one that does decides its value. */
  lemma {:induction false} LastDeclarationWins(decls: seq<string>, property: string, i: nat)
    requires i < |decls| && Declares(decls[i], property)
    requires forall j :: i < j < |decls| ==> !Declares(decls[j], property)
    ensures DeclarationValue(decls, property) == DeclaredValue(decls[i])
    decreases |decls|
  {
    if i < |decls| - 1 {
      var init := decls[..|decls| - 1];
      assert init[i] == decls[i];
      assert forall j :: i < j < |init| ==> init[j] == decls[j];
      LastDeclarationWins(init, property, i);
    }
  }

  /** `element.style[property]`: the value the element's `style` attribute gives the property. */
  function StyleValue(attrs: seq<Attr>, property: string): string
  {
    match GetAttribute(attrs, "style")
    case None => ""
    case Some(s) => DeclarationValue(Split(s, ';'), property)
  }

  // ---------------------------------------------------------------------------
  // isFormatActiveForNode

  /** Whether one node carries a format: an element with the matching inline style or one of the
      format's tags (`tagName` is the upper-cased local name); text and other nodes never do,
      nor does any command other than the three. */
  predicate IsFormatActiveForNode(n: Node, command: string)
  {
    n.Elem? &&
    if command == "bold" then
      StyleValue(n.attrs, "font-weight") == "bold" || Upper(n.tag) == "B" || Upper(n.tag) == "STRONG"
    else if command == "italic" then
      StyleValue(n.attrs, "font-style") == "italic" || Upper(n.tag) == "I" || Upper(n.tag) == "EM"
    else if command == "underline" then
      StyleValue(n.attrs, "text-decoration") == "underline" || Upper(n.tag) == "U"
    else false
  }

  /** The elements the keyboard shortcuts and the toolbar create for the three formats are
      recognised as carrying them, whatever their attributes and children. */
  lemma CreatedFormatsAreRecognised(attrs: seq<Attr>, ch: seq<Node>)
    ensures IsFormatActiveForNode(Elem("strong", attrs, ch), "bold")
    ensures IsFormatActiveForNode(Elem("b", attrs, ch), "bold")
    ensures IsFormatActiveForNode(Elem("em", attrs, ch), "italic")
    ensures IsFormatActiveForNode(Elem("i", attrs, ch), "italic")
    ensures IsFormatActiveForNode(Elem("u", attrs, ch), "underline")
  {
    UpperOfLetters("strong", "STRONG");
    UpperOfLetters("b", "B");
    UpperOfLetters("em", "EM");
    UpperOfLetters("i", "I");
    UpperOfLetters("u", "U");
  }

  /** Upper-casing a word of lower-case letters, letter by letter. */
  lemma UpperOfLetters(s: string, t: string)
    requires |s| == |t| && forall i :: 0 <= i < |s| ==> 'a' <= s[i] <= 'z' && t[i] as int == s[i] as int - 32
    ensures Upper(s) == t
  {
  }

  // ---------------------------------------------------------------------------
  // Range.intersectsNode

  /** `range.intersectsNode(node)` for the node at `q`: the root of the editor has no parent
      inside it, and its parent in the page holds the editor as one child, so it always
      intersects; any other node intersects when the point before it is before the range's end
      and the point after it is after the range's start. */
  predicate Intersects(q: Path, r: Range)
  {
    q == [] ||
    (Position(Boundary(ParentPath(q), LastIndex(q)), r.end) == Before &&
     Position(Boundary(ParentPath(q), LastIndex(q) + 1), r.start) == After)
  }

  /** A boundary point in a parent, against a point inside the child at index `j` of it. */
  lemma PositionInParent(parent: Path, j: nat, offset: int, b: Boundary)
    requires |parent| < |b.path| && b.path[..|parent| + 1] == parent + [j]
    ensures Position(Boundary(parent, offset), b) == (if j < offset then After else Before)
  {
    var c := CommonPrefix(b.path, parent);
    assert b.path[..|parent|] == parent by {
      assert b.path[..|parent|] == b.path[..|parent| + 1][..|parent|];
    }
    assert !Precedes(b.path, parent);
  }

  /** The range `selectNodeContents(node)` makes always intersects that node, which is why the
      inner test of the fold never skips a node. */
  lemma NodeContentsIntersectNode(q: Path, s: int, e: int)
    ensures Intersects(q, Range(Boundary(q, s), Boundary(q, e)))
  {
    if q != [] {
      assert q[..|ParentPath(q)| + 1] == ParentPath(q) + [LastIndex(q)];
      PositionInParent(ParentPath(q), LastIndex(q), LastIndex(q), Boundary(q, e));
      PositionInParent(ParentPath(q), LastIndex(q), LastIndex(q) + 1, Boundary(q, s));
    }
  }

  /** The node that contains both ends of a range intersects it. */
  lemma AncestorIntersects(r: Range)
    ensures Intersects(CommonAncestor(r), r)
  {
    var c := CommonAncestor(r);
    if c != [] {
      var parent, j := ParentPath(c), LastIndex(c);
      assert r.end.path[..|parent| + 1] == c[..|parent| + 1] == parent + [j];
      assert r.start.path[..|parent| + 1] == c[..|parent| + 1] == parent + [j];
      PositionInParent(parent, j, j, r.end);
      PositionInParent(parent, j, j + 1, r.start);
    }
  }

  // ---------------------------------------------------------------------------
  // The elements the node iterator visits

  /** The elements of the subtree `n` (which sits at path `at`) that intersect `r`, in document
      order: `NodeFilter.FILTER_REJECT` in a node iterator skips one node, not its subtree. */
  function SelectedIn(n: Node, at: Path, r: Range): (es: seq<Node>)
    ensures forall i :: 0 <= i < |es| ==> es[i].Elem?
    decreases n, 0
  {
    if n.Elem? then (if Intersects(at, r) then [n] else []) + SelectedFrom(n.children, 0, at, r) else []
  }

  function SelectedFrom(ns: seq<Node>, i: nat, at: Path, r: Range): (es: seq<Node>)
    ensures forall k :: 0 <= k < |es| ==> es[k].Elem?
    decreases ns, |ns| - i
  {
    if i >= |ns| then [] else SelectedIn(ns[i], at + [i], r) + SelectedFrom(ns, i + 1, at, r)
  }

  /** The nodes `isFormatActiveForSelection` collects for a range inside the editor. */
  function SelectedElements(root: Node, r: Range): seq<Node>
    requires RangeInside(root, r)
  {
    CommonAncestorValid(root, r);
    SelectedIn(At(root, CommonAncestor(r)), CommonAncestor(r), r)
  }

  /** When the common ancestor is an element it is itself the first node collected, so the
      "no nodes found" branch is taken only for a range inside one text node. */
  lemma AncestorSelected(root: Node, r: Range)
    requires RangeInside(root, r)
    ensures (CommonAncestorValid(root, r); At(root, CommonAncestor(r)).Elem? <==> SelectedElements(root, r) != [])
    ensures SelectedElements(root, r) != [] ==> SelectedElements(root, r)[0] == At(root, CommonAncestor(r))
  {
    AncestorIntersects(r);
  }

  // ---------------------------------------------------------------------------
  // The three-valued fold

  /** The string-or-boolean result of `isFormatActiveForSelection`: `"-"` or a boolean. */
  datatype Activity = Mixed | Flag(active: bool)

  /** What the fold over the marks of the collected nodes means: mixed when some carry the
      format and some do not, otherwise whether some (and so all) of them carry it. */
  function Fold(marks: seq<bool>): Activity
  {
    var formatted, unformatted := true in marks, false in marks;
    if formatted && unformatted then Mixed else Flag(formatted && !unformatted)
  }

  /** Whether each node carries the format. */
  function Marks(nodes: seq<Node>, command: string): (marks: seq<bool>)
    ensures |marks| == |nodes|
    ensures forall i :: 0 <= i < |nodes| ==> marks[i] == IsFormatActiveForNode(nodes[i], command)
  {
    seq(|nodes|, i requires 0 <= i < |nodes| => IsFormatActiveForNode(nodes[i], command))
  }

  /** The fold reports the format exactly when there is something to fold and all of it carries
      the format, and reports a plain "off" exactly when none of it does. */
  lemma FoldMeaning(nodes: seq<Node>, command: string)
    ensures Fold(Marks(nodes, command)) == Flag(true) <==>
      |nodes| > 0 && forall i :: 0 <= i < |nodes| ==> IsFormatActiveForNode(nodes[i], command)
    ensures Fold(Marks(nodes, command)) == Flag(false) <==>
      forall i :: 0 <= i < |nodes| ==> !IsFormatActiveForNode(nodes[i], command)
  {
    var marks := Marks(nodes, command);
    if |nodes| > 0 && forall i :: 0 <= i < |nodes| ==> IsFormatActiveForNode(nodes[i], command) {
      assert marks[0];
    }
    if true in marks {
      var i :| 0 <= i < |marks| && marks[i];
      assert IsFormatActiveForNode(nodes[i], command);
    }
    if false in marks {
      var i :| 0 <= i < |marks| && !marks[i];
      assert !IsFormatActiveForNode(nodes[i], command);
    }
  }

  /** `selectedNodes.forEach(...)`: the loop sets `hasFormatted` or `hasUnformatted` for each
      collected node, by its mark. */
  method FoldMarks(marks: seq<bool>) returns (a: Activity)
    ensures a == Fold(marks)
  {
    var hasFormatted, hasUnformatted := false, false;
    var k := 0;
    while k < |marks|
      invariant 0 <= k <= |marks|
      invariant hasFormatted <==> true in marks[..k]
      invariant hasUnformatted <==> false in marks[..k]
    {
      assert marks[..k + 1] == marks[..k] + [marks[k]];
      if marks[k] {
        hasFormatted := true;
      } else {
        hasUnformatted := true;
      }
      k := k + 1;
    }
    assert marks[..k] == marks;
    if hasFormatted && hasUnformatted {
      return Mixed;
    }
    return Flag(hasFormatted && !hasUnformatted);
  }

  // ---------------------------------------------------------------------------
  // isFormatActiveForSelection

  /** `elementToCheck`: the parent of the common ancestor when that is a text node, otherwise
      the common ancestor itself. */
  function ElementToCheck(root: Node, c: Path): (p: Path)
    requires ValidPath(root, c)
    ensures ValidPath(root, p)
    ensures root.Elem? && !At(root, c).Other? ==> At(root, p).Elem?
  {
    if At(root, c).Text? && c != [] then (ParentFacts(root, c); ParentPath(c)) else c
  }

  predicate Collapsed(r: Range)
  {
    r.start == r.end
  }

  /** The format state of one command for a range inside the editor. */
  function SelectionActivity(root: Node, r: Range, command: string): Activity
    requires RangeInside(root, r)
  {
    CommonAncestorValid(root, r);
    var c := CommonAncestor(r);
    if Collapsed(r) then Flag(IsFormatActiveForNode(At(root, ElementToCheck(root, c)), command))
    else
      var nodes := SelectedElements(root, r);
      if nodes == [] then Flag(IsFormatActiveForNode(At(root, c), command))
      else Fold(Marks(nodes, command))
  }

  /** A selection with content reported as carrying a format has a common ancestor carrying
      it: the ancestor is one of the folded nodes, or the text node it is carries none. */
  lemma ActiveSelectionHasActiveAncestor(root: Node, r: Range, command: string)
    requires RangeInside(root, r) && !Collapsed(r)
    requires SelectionActivity(root, r, command) == Flag(true)
    ensures (CommonAncestorValid(root, r); IsFormatActiveForNode(At(root, CommonAncestor(r)), command))
  {
    AncestorSelected(root, r);
    var nodes := SelectedElements(root, r);
    if nodes != [] {
      FoldMeaning(nodes, command);
      assert IsFormatActiveForNode(nodes[0], command);
    }
  }

  /** A selection with content inside a single text node is never reported as formatted, even
      when that text sits in a `<b>`: no element is collected and the text node itself is
      tested. */
  lemma SelectionInsideOneText(root: Node, r: Range, command: string)
    requires RangeInside(root, r) && !Collapsed(r)
    requires (CommonAncestorValid(root, r); At(root, CommonAncestor(r)).Text?)
    ensures SelectionActivity(root, r, command) == Flag(false)
  {
    AncestorSelected(root, r);
  }

  /** `isFormatActiveForSelection`, folding with the loop. */
  method ActiveForSelection(root: Node, r: Range, command: string) returns (a: Activity)
    requires RangeInside(root, r)
    ensures a == SelectionActivity(root, r, command)
  {
    CommonAncestorValid(root, r);
    var c := CommonAncestor(r);
    if Collapsed(r) {
      return Flag(IsFormatActiveForNode(At(root, ElementToCheck(root, c)), command));
    }
    var nodes := SelectedElements(root, r);
    if |nodes| == 0 {
      return Flag(IsFormatActiveForNode(At(root, c), command));
    }
    a := FoldMarks(Marks(nodes, command));
  }

  // ---------------------------------------------------------------------------
  // The remaining fields

  /** `element.closest(tag)`: the element or one of its ancestors inside the editor has the tag. */
  predicate Closest(root: Node, p: Path, tag: string)
    requires ValidPath(root, p)
  {
    exists k :: 0 <= k <= |p| && TagMatches(Ancestor(root, p, k), tag)
  }

  /** `closest` agrees with the editor's own `findParentWithTag`, which stops below the root. */
  lemma ClosestAgreesWithFindParent(root: Node, p: Path, tag: string, found: Option<Path>)
    requires ValidPath(root, p) && NearestWithTag(root, p, tag, found)
    ensures found.Some? ==> Closest(root, p, tag)
    ensures !TagMatches(root, tag) ==> (Closest(root, p, tag) <==> found.Some?)
  {
    if found.Some? {
      var k := |found.value|;
      assert Ancestor(root, p, k) == At(root, found.value) by {
        PrefixValid(root, p, k);
      }
    }
    if !TagMatches(root, tag) && Closest(root, p, tag) {
      var k :| 0 <= k <= |p| && TagMatches(Ancestor(root, p, k), tag);
      assert Ancestor(root, p, 0) == root by {
        PrefixValid(root, p, 0);
        assert p[..0] == [];
      }
    }
  }

  predicate IsQuote(c: char)
  {
    c == '\'' || c == '"'
  }

  /** `.replace(/['"]/g, "")`: every quote removed, everything else kept in order. */
  function StripQuotes(s: string): (r: string)
    ensures forall i :: 0 <= i < |r| ==> !IsQuote(r[i])
    ensures |r| <= |s|
    ensures (forall i :: 0 <= i < |s| ==> !IsQuote(s[i])) ==> r == s
  {
    if s == [] then ""
    else if IsQuote(s[0]) then StripQuotes(s[1..])
    else [s[0]] + StripQuotes(s[1..])
  }

  /** Removing quotes from a concatenation removes them from each part. */
  lemma {:induction false} StripQuotesConcat(a: string, b: string)
    ensures StripQuotes(a + b) == StripQuotes(a) + StripQuotes(b)
  {
    if a != [] {
      assert (a + b)[0] == a[0] && (a + b)[1..] == a[1..] + b;
      StripQuotesConcat(a[1..], b);
    } else {
      assert a + b == b;
    }
  }

  /** The family `'Times New Roman', serif` is shown without its quotes. */
  lemma StripQuotesOfQuotedName(name: string, rest: string)
    requires forall i :: 0 <= i < |name| ==> !IsQuote(name[i])
    requires forall i :: 0 <= i < |rest| ==> !IsQuote(rest[i])
    ensures StripQuotes("'" + name + "'" + rest) == name + rest
  {
    var q := "'";
    QuoteStripped();
    assert StripQuotes(name) == name && StripQuotes(rest) == rest;
    StripQuotesConcat(q, name);
    assert StripQuotes(q + name) == name;
    StripQuotesConcat(q + name, q);
    assert StripQuotes(q + name + q) == name;
    StripQuotesConcat(q + name + q, rest);
  }

  lemma QuoteStripped()
    ensures StripQuotes("'") == ""
  {
    assert "'"[1..] == "";
  }

  /** The computed style of the element that is checked, as the browser reports it. */
  datatype ComputedStyle = ComputedStyle(textAlign: string, fontSize: string, fontFamily: string, color: string)

  /** The hook's state. */
  datatype FormatState = FormatState(
    isBold: bool, isItalic: bool, isUnderline: bool,
    isAlignLeft: bool, isAlignCenter: bool, isAlignRight: bool,
    isBulletList: bool, isOrderedList: bool,
    currentFontSize: string, currentFontFamily: string, currentColor: string)

  /** The state before any selection change has been seen. */
  const InitialState := FormatState(false, false, false, false, false, false, false, false, "16px", "Arial", "#000000")

  /** `isX === "-" ? false : !!isX`: a mixed selection shows the format as off. */
  function Shown(a: Activity): (b: bool)
    ensures b <==> a == Flag(true)
  {
    match a
    case Mixed => false
    case Flag(active) => active
  }

  /** The state `checkFormatting` sets for a range inside the editor, given the computed style of
      the element it checks. */
  function Observed(root: Node, r: Range, computed: ComputedStyle): (s: FormatState)
    requires RangeInside(root, r)
    ensures !(s.isAlignLeft && s.isAlignCenter) && !(s.isAlignLeft && s.isAlignRight) && !(s.isAlignCenter && s.isAlignRight)
    ensures '\'' !in s.currentFontFamily && '"' !in s.currentFontFamily
  {
    CommonAncestorValid(root, r);
    var e := ElementToCheck(root, CommonAncestor(r));
    var family := StripQuotes(computed.fontFamily);
    assert forall i :: 0 <= i < |family| ==> !IsQuote(family[i]);
    FormatState(
      Shown(SelectionActivity(root, r, "bold")),
      Shown(SelectionActivity(root, r, "italic")),
      Shown(SelectionActivity(root, r, "underline")),
      computed.textAlign == "left", computed.textAlign == "center", computed.textAlign == "right",
      Closest(root, e, "ul"), Closest(root, e, "ol"),
      computed.fontSize, family, computed.color)
  }

  /** A caret in a text node directly inside a `<strong>` shows bold. */
  lemma CaretInStrongIsBold(root: Node, p: Path, offset: int, computed: ComputedStyle)
    requires ValidPath(root, p) && p != [] && At(root, p).Text?
    requires (ParentFacts(root, p); At(root, ParentPath(p)).Elem? && At(root, ParentPath(p)).tag == "strong")
    ensures var r := Range(Boundary(p, offset), Boundary(p, offset));
      RangeInside(root, r) && Observed(root, r, computed).isBold
  {
    ParentFacts(root, p);
    var r := Range(Boundary(p, offset), Boundary(p, offset));
    assert CommonAncestor(r) == p by {
      assert p[..|CommonAncestor(r)|] == CommonAncestor(r);
    }
    var e := At(root, ParentPath(p));
    CreatedFormatsAreRecognised(e.attrs, e.children);
  }

  /** A selection spanning a bold and a plain element shows bold as off. */
  lemma MixedSelectionIsNotBold(root: Node, r: Range, computed: ComputedStyle, i: nat, j: nat)
    requires RangeInside(root, r) && !Collapsed(r)
    requires i < |SelectedElements(root, r)| && j < |SelectedElements(root, r)|
    requires IsFormatActiveForNode(SelectedElements(root, r)[i], "bold")
    requires !IsFormatActiveForNode(SelectedElements(root, r)[j], "bold")
    ensures SelectionActivity(root, r, "bold") == Mixed
    ensures !Observed(root, r, computed).isBold
  {
  }

  /**
   * The hook: the state it returns, and `checkFormatting`, which the page runs (after the next
   * animation frame) on every `selectionchange`.
   */
  class FormatTracker {
    var state: FormatState

    constructor()
      ensures state == InitialState
    {
      state := InitialState;
    }

    /** `checkFormatting`: nothing happens without a selection; a range whose common ancestor
        is neither text nor an element makes `getComputedStyle` throw before the state is set. */
    method CheckFormatting(dom: seq<Node>, sel: Option<Range>, computed: ComputedStyle)
      requires sel.Some? ==> RangeInside(Root(dom), sel.value)
      modifies this
      ensures sel.None? ==> state == old(state)
      ensures sel.Some? ==> (CommonAncestorValid(Root(dom), sel.value);
        state == if At(Root(dom), CommonAncestor(sel.value)).Other? then old(state)
                 else Observed(Root(dom), sel.value, computed))
    {
      if sel.None? {
        return;
      }
      var root, r := Root(dom), sel.value;
      CommonAncestorValid(root, r);
      var c := CommonAncestor(r);
      if At(root, c).Other? {
        return;
      }
      var e := ElementToCheck(root, c);
      var bold := ActiveForSelection(root, r, "bold");
      var italic := ActiveForSelection(root, r, "italic");
      var underline := ActiveForSelection(root, r, "underline");
      state := FormatState(
        Shown(bold), Shown(italic), Shown(underline),
        computed.textAlign == "left", computed.textAlign == "center", computed.textAlign == "right",
        Closest(root, e, "ul"), Closest(root, e, "ol"),
        computed.fontSize, StripQuotes(computed.fontFamily), computed.color);
    }
  }
}
