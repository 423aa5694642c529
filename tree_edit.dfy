/**
 * Tree edits of the class-based editor: finding the nearest ancestor with a
 * tag, unwrapping an element into its parent, inserting nodes at a range
 * (the `deleteContents` + `insertNode` and `surroundContents` pair of the
 * DOM Range interface, for a range whose two ends lie in the same node), and
 * the pieces `normalizeContent` is made of: the live list of descendants with
 * a tag in document order, the merge of an element into its preceding
 * sibling, and the test for a block element.
 *
 * All paths are taken from the editor's root element.
 */
module TreeEdit {
  import opened Dom
  import opened Strings
  import opened Caret

  // ---------------------------------------------------------------------------
  // findParentWithTag

  /** `current.nodeType === ELEMENT_NODE && current.tagName.toLowerCase() === tagName.toLowerCase()`. */
  predicate TagMatches(n: Node, tagName: string)
  {
    n.Elem? && Lower(n.tag) == Lower(tagName)
  }

  /** The ancestor-or-self of the node at `p` that is `k` steps below the root. */
  function Ancestor(root: Node, p: Path, k: nat): Node
    requires ValidPath(root, p) && k <= |p|
  {
    PrefixValid(root, p, k);
    At(root, p[..k])
  }

  /** Walks from the node at `p` up towards the editor root, stopping before the root,
      and returns the path of the first element whose tag matches. */
  /** `r` is the path of the nearest ancestor-or-self of the node at `p`, below the root,
      whose tag matches, or nothing when none does. */
  predicate NearestWithTag(root: Node, p: Path, tagName: string, r: Option<Path>)
    requires ValidPath(root, p)
  {
    (r.Some? ==> 0 < |r.value| <= |p| && r.value == p[..|r.value|]) &&
    (r.Some? ==> ValidPath(root, r.value) && TagMatches(At(root, r.value), tagName)) &&
    (r.Some? ==> forall k :: |r.value| < k <= |p| ==> !TagMatches(Ancestor(root, p, k), tagName)) &&
    (r.None? ==> forall k :: 0 < k <= |p| ==> !TagMatches(Ancestor(root, p, k), tagName))
  }

  /** There is only one nearest match. */
  lemma NearestWithTagUnique(root: Node, p: Path, tagName: string, r1: Option<Path>, r2: Option<Path>)
    requires ValidPath(root, p)
    requires NearestWithTag(root, p, tagName, r1) && NearestWithTag(root, p, tagName, r2)
    ensures r1 == r2
  {
    if r1.Some? {
      var k1 := |r1.value|;
      assert Ancestor(root, p, k1) == At(root, r1.value);
    }
    if r2.Some? {
      var k2 := |r2.value|;
      assert Ancestor(root, p, k2) == At(root, r2.value);
    }
    if r1.Some? && r2.Some? {
      var k1 := |r1.value|;
      var k2 := |r2.value|;
      assert k1 == k2;
      assert r1.value == p[..k1];
    }
  }

  method FindParentWithTag(root: Node, p: Path, tagName: string) returns (r: Option<Path>)
    requires ValidPath(root, p)
    ensures NearestWithTag(root, p, tagName, r)
  {
    var k := |p|;
    while k > 0
      invariant 0 <= k <= |p|
      invariant forall m :: k < m <= |p| ==> !TagMatches(Ancestor(root, p, m), tagName)
    {
      PrefixValid(root, p, k);
      var current := At(root, p[..k]);
      if current.Elem? && Lower(current.tag) == Lower(tagName) {
        return Some(p[..k]);
      }
      k := k - 1;
    }
    return None;
  }

  /** Both ends of the range lie inside the editor. */
  predicate RangeInside(root: Node, r: Range)
  {
    ValidPath(root, r.start.path) && ValidPath(root, r.end.path)
  }

  function CommonAncestor(r: Range): Path
  {
    CommonPrefix(r.start.path, r.end.path)
  }

  lemma CommonAncestorValid(root: Node, r: Range)
    requires RangeInside(root, r)
    ensures ValidPath(root, CommonAncestor(r))
  {
    var c := CommonAncestor(r);
    PrefixValid(root, r.start.path, |c|);
  }

  // ---------------------------------------------------------------------------
  // Unwrapping an element

  /** The parent path and child index of a non-root path. */
  function ParentPath(q: Path): Path
    requires q != []
  {
    q[..|q| - 1]
  }

  function LastIndex(q: Path): nat
    requires q != []
  {
    q[|q| - 1]
  }

  lemma ParentFacts(root: Node, q: Path)
    requires ValidPath(root, q) && q != []
    ensures ValidPath(root, ParentPath(q))
    ensures At(root, ParentPath(q)).Elem? && LastIndex(q) < |At(root, ParentPath(q)).children|
    ensures At(root, ParentPath(q)).children[LastIndex(q)] == At(root, q)
  {
    PrefixValid(root, q, |q| - 1);
    assert q[..|q|] == q;
  }

  /** The parent of the node at `q` with that node replaced by the nodes `ms`. */
  function SpliceChild(root: Node, q: Path, ms: seq<Node>): Node
    requires ValidPath(root, q) && q != []
  {
    ParentFacts(root, q);
    var parent := At(root, ParentPath(q));
    var j := LastIndex(q);
    Elem(parent.tag, parent.attrs, parent.children[..j] + ms + parent.children[j + 1..])
  }

  /** `parent.replaceChild(fragment, existing)` after all of `existing`'s children were moved
      into `fragment`: the element is replaced, in its parent, by its own children. */
  function Unwrap(root: Node, q: Path): (r: Node)
    requires ValidPath(root, q) && q != [] && At(root, q).Elem?
    ensures ValidPath(r, ParentPath(q))
    ensures At(r, ParentPath(q)) == SpliceChild(root, q, At(root, q).children)
  {
    ParentFacts(root, q);
    ReplaceAt(root, ParentPath(q), SpliceChild(root, q, At(root, q).children));
    Replace(root, ParentPath(q), SpliceChild(root, q, At(root, q).children))
  }

  /** Splicing a list with the same text in place of a child keeps the parent's text. */
  lemma SpliceChildText(root: Node, q: Path, ms: seq<Node>)
    requires ValidPath(root, q) && q != []
    requires TextContentSeq(ms) == TextContent(At(root, q))
    ensures (ParentFacts(root, q); TextContent(SpliceChild(root, q, ms)) == TextContent(At(root, ParentPath(q))))
  {
    ParentFacts(root, q);
    var ch := At(root, ParentPath(q)).children;
    var j := LastIndex(q);
    SeqSplitText(ch, j, ms);
  }

  /** Text of a list in which child `j` is replaced by `ms`, when `ms` carries the same text. */
  lemma SeqSplitText(ch: seq<Node>, j: nat, ms: seq<Node>)
    requires j < |ch| && TextContentSeq(ms) == TextContent(ch[j])
    ensures TextContentSeq(ch[..j] + ms + ch[j + 1..]) == TextContentSeq(ch)
  {
    assert ch == ch[..j] + [ch[j]] + ch[j + 1..];
    TextContentSeqConcat(ch[..j] + [ch[j]], ch[j + 1..]);
    TextContentSeqConcat(ch[..j], [ch[j]]);
    TextContentSeqConcat(ch[..j] + ms, ch[j + 1..]);
    TextContentSeqConcat(ch[..j], ms);
    TextContentSeqSingle(ch[j]);
  }

  /** Unwrapping keeps the text of the whole document. */
  lemma UnwrapKeepsText(root: Node, q: Path)
    requires ValidPath(root, q) && q != [] && At(root, q).Elem?
    ensures TextContent(Unwrap(root, q)) == TextContent(root)
  {
    ParentFacts(root, q);
    SpliceChildText(root, q, At(root, q).children);
    ReplaceKeepsText(root, ParentPath(q), SpliceChild(root, q, At(root, q).children));
  }

  // ---------------------------------------------------------------------------
  // Inserting at a range

  /** A range both of whose ends lie in one text node (not the root) or one element,
      with the start not after the end; offsets count characters in a text node and
      children in an element. */
  predicate Spliceable(root: Node, r: Range)
  {
    r.start.path == r.end.path && ValidPath(root, r.start.path) &&
    0 <= r.start.offset <= r.end.offset &&
    var c := At(root, r.start.path);
    (c.Text? && r.start.path != [] && r.end.offset <= |c.text|) ||
    (c.Elem? && r.end.offset <= |c.children|)
  }

  /** What `extractContents` takes out of the range: the selected piece of the text node,
      or the selected children. */
  function Extract(root: Node, r: Range): seq<Node>
    requires Spliceable(root, r)
  {
    var c := At(root, r.start.path);
    if c.Text? then [Text(c.text[r.start.offset..r.end.offset])]
    else c.children[r.start.offset..r.end.offset]
  }

  /** The tree after the range's content is removed and `nodes` are inserted at its start.
      In a text node the node is split at both ends (both halves stay, even when empty)
      and the nodes go between the halves; in an element they take the selected
      children's place. */
  function Splice(root: Node, r: Range, nodes: seq<Node>): Node
    requires Spliceable(root, r)
  {
    var p := r.start.path;
    var c := At(root, p);
    if c.Text? then
      (ParentFacts(root, p);
       Replace(root, ParentPath(p), SpliceChild(root, p, [Text(c.text[..r.start.offset])] + nodes + [Text(c.text[r.end.offset..])])))
    else
      Replace(root, p, Elem(c.tag, c.attrs, c.children[..r.start.offset] + nodes + c.children[r.end.offset..]))
  }

  /** The path of the first inserted node. */
  function InsertionPath(root: Node, r: Range): Path
    requires Spliceable(root, r)
  {
    var p := r.start.path;
    if At(root, p).Text? then ParentPath(p) + [LastIndex(p) + 1] else p + [r.start.offset]
  }

  /** The container after the splice (the text node's parent, or the element itself). */
  function SplicedContainer(root: Node, r: Range, nodes: seq<Node>): Node
    requires Spliceable(root, r)
  {
    var p := r.start.path;
    var c := At(root, p);
    if c.Text? then SpliceChild(root, p, [Text(c.text[..r.start.offset])] + nodes + [Text(c.text[r.end.offset..])])
    else Elem(c.tag, c.attrs, c.children[..r.start.offset] + nodes + c.children[r.end.offset..])
  }

  function ContainerPath(root: Node, r: Range): Path
    requires Spliceable(root, r)
  {
    if At(root, r.start.path).Text? then ParentPath(r.start.path) else r.start.path
  }

  /** The spliced tree holds the new container where the old one was, and the inserted
      nodes start at `InsertionPath`. */
  lemma SpliceShape(root: Node, r: Range, nodes: seq<Node>)
    requires Spliceable(root, r) && nodes != []
    ensures ValidPath(root, ContainerPath(root, r))
    ensures var t := Splice(root, r, nodes);
      ValidPath(t, ContainerPath(root, r)) && At(t, ContainerPath(root, r)) == SplicedContainer(root, r, nodes)
    ensures var t := Splice(root, r, nodes);
      ValidPath(t, InsertionPath(root, r)) && At(t, InsertionPath(root, r)) == nodes[0]
  {
    var p := r.start.path;
    var c := At(root, p);
    var t := Splice(root, r, nodes);
    var cp := ContainerPath(root, r);
    var m := SplicedContainer(root, r, nodes);
    if c.Text? {
      ParentFacts(root, p);
    }
    ReplaceAt(root, cp, m);
    var ip := InsertionPath(root, r);
    var k := ip[|ip| - 1];
    assert ip == cp + [k];
    if c.Text? {
      var j := LastIndex(p);
      var ch := At(root, cp).children;
      assert m.children == ch[..j] + ([Text(c.text[..r.start.offset])] + nodes + [Text(c.text[r.end.offset..])]) + ch[j + 1..];
      assert m.children[k] == nodes[0];
    } else {
      assert m.children[k] == nodes[0];
    }
    ChildPath(t, cp, k);
  }

  /** Splicing inside the editor's root element leaves a root element with the same tag and
      attributes. */
  lemma SpliceKeepsRoot(root: Node, r: Range, nodes: seq<Node>)
    requires root.Elem? && Spliceable(root, r)
    ensures Splice(root, r, nodes).Elem?
    ensures Splice(root, r, nodes).tag == root.tag && Splice(root, r, nodes).attrs == root.attrs
  {
    var p := r.start.path;
    if At(root, p).Text? {
      ParentFacts(root, p);
    }
  }

  /** Unwrapping and merging inside the editor's root element leave a root element with the
      same tag and attributes. */
  lemma UnwrapKeepsRoot(root: Node, q: Path)
    requires root.Elem? && ValidPath(root, q) && q != [] && At(root, q).Elem?
    ensures Unwrap(root, q).Elem? && Unwrap(root, q).tag == root.tag && Unwrap(root, q).attrs == root.attrs
  {
    ParentFacts(root, q);
  }

  lemma MergeKeepsRoot(root: Node, current: Path)
    requires root.Elem? && Mergeable(root, current)
    ensures Merge(root, current).Elem? && Merge(root, current).tag == root.tag && Merge(root, current).attrs == root.attrs
  {
    ParentFacts(root, current);
  }

  /** Stepping from a valid path to one of the children of the element it leads to. */
  lemma {:induction false} ChildPath(n: Node, p: Path, k: nat)
    requires ValidPath(n, p) && At(n, p).Elem? && k < |At(n, p).children|
    ensures ValidPath(n, p + [k]) && At(n, p + [k]) == At(n, p).children[k]
    decreases |p|
  {
    if p != [] {
      assert (p + [k])[1..] == p[1..] + [k];
      ChildPath(n.children[p[0]], p[1..], k);
    }
  }

  /** `surroundContents(element)` on a fresh element: the range's content, moved into the
      element, which takes the content's place. The text of the document is unchanged. */
  lemma WrapKeepsText(root: Node, r: Range, tag: string, attrs: seq<Attr>)
    requires Spliceable(root, r)
    ensures TextContent(Splice(root, r, [Elem(tag, attrs, Extract(root, r))])) == TextContent(root)
  {
    var p := r.start.path;
    var c := At(root, p);
    var a := r.start.offset;
    var b := r.end.offset;
    var w := Elem(tag, attrs, Extract(root, r));
    if c.Text? {
      var s := c.text;
      var ms := [Text(s[..a])] + [w] + [Text(s[b..])];
      assert TextContentSeq(Extract(root, r)) == s[a..b] by {
        TextContentSeqSingle(Text(s[a..b]));
      }
      ThreeText(Text(s[..a]), w, Text(s[b..]));
      assert s[..a] + s[a..b] + s[b..] == s;
      ParentFacts(root, p);
      SpliceChildText(root, p, ms);
      ReplaceKeepsText(root, ParentPath(p), SpliceChild(root, p, ms));
    } else {
      var ch := c.children;
      assert ch == ch[..a] + ch[a..b] + ch[b..];
      TextContentSeqConcat(ch[..a] + ch[a..b], ch[b..]);
      TextContentSeqConcat(ch[..a], ch[a..b]);
      TextContentSeqConcat(ch[..a] + [w], ch[b..]);
      TextContentSeqConcat(ch[..a], [w]);
      TextContentSeqSingle(w);
      ReplaceKeepsText(root, p, Elem(c.tag, c.attrs, ch[..a] + [w] + ch[b..]));
    }
  }

  lemma ThreeText(x: Node, y: Node, z: Node)
    ensures TextContentSeq([x] + [y] + [z]) == TextContent(x) + TextContent(y) + TextContent(z)
  {
    TextContentSeqConcat([x] + [y], [z]);
    TextContentSeqConcat([x], [y]);
    TextContentSeqSingle(x);
    TextContentSeqSingle(y);
    TextContentSeqSingle(z);
  }

  /** Toggling twice: wrapping the children an element range selects and then unwrapping
      the new element gives back the original tree. */
  lemma WrapThenUnwrap(root: Node, r: Range, tag: string, attrs: seq<Attr>)
    requires Spliceable(root, r) && At(root, r.start.path).Elem?
    ensures var t := Splice(root, r, [Elem(tag, attrs, Extract(root, r))]);
      ValidPath(t, InsertionPath(root, r)) && At(t, InsertionPath(root, r)).Elem? &&
      Unwrap(t, InsertionPath(root, r)) == root
  {
    var p := r.start.path;
    var c := At(root, p);
    var a := r.start.offset;
    var b := r.end.offset;
    var w := Elem(tag, attrs, Extract(root, r));
    var t := Splice(root, r, [w]);
    SpliceShape(root, r, [w]);
    var ip := InsertionPath(root, r);
    assert ParentPath(ip) == p;
    assert LastIndex(ip) == a;
    var m := Elem(c.tag, c.attrs, c.children[..a] + [w] + c.children[b..]);
    assert At(t, p) == m;
    var ch := m.children;
    assert ch[..a] + w.children + ch[a + 1..] == c.children by {
      assert ch[..a] == c.children[..a];
      assert ch[a + 1..] == c.children[b..];
      assert c.children == c.children[..a] + c.children[a..b] + c.children[b..];
    }
    assert SpliceChild(t, ip, w.children) == c;
    ReplaceTwice(root, p, m, c);
    ReplaceSelf(root, p);
  }

  lemma {:induction false} ReplaceTwice(n: Node, p: Path, m1: Node, m2: Node)
    requires ValidPath(n, p)
    ensures (ReplaceAt(n, p, m1); Replace(Replace(n, p, m1), p, m2) == Replace(n, p, m2))
    decreases |p|
  {
    ReplaceAt(n, p, m1);
    if p != [] {
      ReplaceTwice(n.children[p[0]], p[1..], m1, m2);
      var c1 := n.children[p[0] := Replace(n.children[p[0]], p[1..], m1)];
      assert c1[p[0] := Replace(c1[p[0]], p[1..], m2)] == n.children[p[0] := Replace(n.children[p[0]], p[1..], m2)];
    }
  }

  lemma {:induction false} ReplaceSelf(n: Node, p: Path)
    requires ValidPath(n, p)
    ensures Replace(n, p, At(n, p)) == n
    decreases |p|
  {
    if p != [] {
      ReplaceSelf(n.children[p[0]], p[1..]);
      assert n.children[p[0] := n.children[p[0]]] == n.children;
    }
  }

  // ---------------------------------------------------------------------------
  // normalizeContent

  /** The inline tags whose adjacent copies are merged, in the order they are processed. */
  const MergeableTags: seq<string> := ["strong", "em", "u", "strike", "s", "code", "mark"]

  /** The tags `querySelector("p, div, h1, h2, h3, h4, h5, h6")` looks for. */
  const BlockTags: set<string> := {"p", "div", "h1", "h2", "h3", "h4", "h5", "h6"}

  /** The paths of `n`'s descendants (not `n` itself) that are elements with tag `tag`,
      in document order: `getElementsByTagName`. */
  function ElementsIn(n: Node, tag: string): seq<Path>
    decreases n, 0
  {
    if n.Elem? then ElementsFrom(n.children, 0, tag) else []
  }

  function ElementsFrom(ns: seq<Node>, i: nat, tag: string): seq<Path>
    decreases ns, |ns| - i
  {
    if i >= |ns| then []
    else
      (if ns[i].Elem? && ns[i].tag == tag then [[i]] else [])
      + Under(i, ElementsIn(ns[i], tag)) + ElementsFrom(ns, i + 1, tag)
  }

  /** The paths `ps` seen from the parent of child `i`. */
  function Under(i: nat, ps: seq<Path>): (r: seq<Path>)
    ensures |r| == |ps| && forall k :: 0 <= k < |ps| ==> r[k] == [i] + ps[k]
  {
    seq(|ps|, k requires 0 <= k < |ps| => [i] + ps[k])
  }

  /** Number of descendants of `n` that are elements with tag `tag`. */
  function CountIn(n: Node, tag: string): nat
    decreases n, 0
  {
    if n.Elem? then CountFrom(n.children, 0, tag) else 0
  }

  function CountFrom(ns: seq<Node>, i: nat, tag: string): nat
    decreases ns, |ns| - i
  {
    if i >= |ns| then 0
    else Self(ns[i], tag) + CountIn(ns[i], tag) + CountFrom(ns, i + 1, tag)
  }

  function Self(n: Node, tag: string): nat
  {
    if n.Elem? && n.tag == tag then 1 else 0
  }

  /** Every listed path leads below `n` to an element with the tag, and the list is as
      long as the number of such elements. */
  lemma {:induction false} ElementsInSound(n: Node, tag: string)
    ensures |ElementsIn(n, tag)| == CountIn(n, tag)
    ensures forall k :: 0 <= k < |ElementsIn(n, tag)| ==>
      ElementsIn(n, tag)[k] != [] && ValidPath(n, ElementsIn(n, tag)[k]) &&
      At(n, ElementsIn(n, tag)[k]).Elem? && At(n, ElementsIn(n, tag)[k]).tag == tag
    decreases n, 0
  {
    if n.Elem? {
      ElementsFromSound(n.children, 0, tag);
      var es := ElementsFrom(n.children, 0, tag);
      forall k | 0 <= k < |es|
        ensures ValidPath(n, es[k]) && At(n, es[k]) == At(n.children[es[k][0]], es[k][1..])
      {
      }
    }
  }

  /** `q`, read from the parent of `ns`, leads to an element with tag `tag`. */
  predicate LeadsTo(ns: seq<Node>, q: Path, tag: string)
  {
    q != [] && q[0] < |ns| && ValidPath(ns[q[0]], q[1..]) &&
    At(ns[q[0]], q[1..]).Elem? && At(ns[q[0]], q[1..]).tag == tag
  }

  lemma {:induction false} ElementsFromSound(ns: seq<Node>, i: nat, tag: string)
    ensures |ElementsFrom(ns, i, tag)| == CountFrom(ns, i, tag)
    ensures forall k :: 0 <= k < |ElementsFrom(ns, i, tag)| ==> LeadsTo(ns, ElementsFrom(ns, i, tag)[k], tag)
    decreases ns, |ns| - i
  {
    if i < |ns| {
      ElementsFromSound(ns, i + 1, tag);
      var own: seq<Path> := if ns[i].Elem? && ns[i].tag == tag then [[i]] else [];
      var below := Under(i, ElementsIn(ns[i], tag));
      var rest := ElementsFrom(ns, i + 1, tag);
      assert ElementsFrom(ns, i, tag) == own + below + rest;
      if own != [] {
        assert LeadsTo(ns, own[0], tag) by { assert own[0] == [i] && own[0][1..] == []; }
      }
      UnderLeads(ns, i, tag);
      LeadsConcat(ns, own, below, rest, tag);
    }
  }

  /** The paths found below child `i`, read from the parent, lead to elements with the tag. */
  lemma UnderLeads(ns: seq<Node>, i: nat, tag: string)
    requires i < |ns|
    ensures |Under(i, ElementsIn(ns[i], tag))| == CountIn(ns[i], tag)
    ensures forall k :: 0 <= k < |Under(i, ElementsIn(ns[i], tag))| ==> LeadsTo(ns, Under(i, ElementsIn(ns[i], tag))[k], tag)
    decreases ns[i], 1
  {
    ElementsInSound(ns[i], tag);
    var es := ElementsIn(ns[i], tag);
    forall k | 0 <= k < |es|
      ensures LeadsTo(ns, Under(i, es)[k], tag)
    {
      assert Under(i, es)[k][1..] == es[k];
    }
  }

  lemma LeadsConcat(ns: seq<Node>, a: seq<Path>, b: seq<Path>, c: seq<Path>, tag: string)
    requires forall k :: 0 <= k < |a| ==> LeadsTo(ns, a[k], tag)
    requires forall k :: 0 <= k < |b| ==> LeadsTo(ns, b[k], tag)
    requires forall k :: 0 <= k < |c| ==> LeadsTo(ns, c[k], tag)
    ensures forall k :: 0 <= k < |a + b + c| ==> LeadsTo(ns, (a + b + c)[k], tag)
  {
    forall k | 0 <= k < |a + b + c|
      ensures LeadsTo(ns, (a + b + c)[k], tag)
    {
      if k < |a| {
        assert (a + b + c)[k] == a[k];
      } else if k < |a| + |b| {
        assert (a + b + c)[k] == b[k - |a|];
      } else {
        assert (a + b + c)[k] == c[k - |a| - |b|];
      }
    }
  }

  /** Paths listed in strictly increasing tree order. */
  predicate InTreeOrder(ps: seq<Path>)
  {
    forall k, l :: 0 <= k < l < |ps| ==> Precedes(ps[k], ps[l])
  }

  /** `getElementsByTagName` lists the elements in tree order. */
  lemma {:induction false} ElementsInOrdered(n: Node, tag: string)
    ensures InTreeOrder(ElementsIn(n, tag))
    decreases n, 0
  {
    if n.Elem? {
      ElementsFromOrdered(n.children, 0, tag);
    }
  }

  lemma {:induction false} ElementsFromOrdered(ns: seq<Node>, i: nat, tag: string)
    ensures InTreeOrder(ElementsFrom(ns, i, tag))
    ensures forall k :: 0 <= k < |ElementsFrom(ns, i, tag)| ==>
      ElementsFrom(ns, i, tag)[k] != [] && i <= ElementsFrom(ns, i, tag)[k][0]
    decreases ns, |ns| - i
  {
    if i < |ns| {
      ElementsFromOrdered(ns, i + 1, tag);
      var here := AtChild(ns, i, tag);
      var rest := ElementsFrom(ns, i + 1, tag);
      assert ElementsFrom(ns, i, tag) == here + rest;
      AtChildOrdered(ns, i, tag);
      forall k, l | 0 <= k < |here| && 0 <= l < |rest|
        ensures Precedes(here[k], rest[l])
      {
        var p, q := here[k], rest[l];
        assert p == [i] + p[1..] && q == [q[0]] + q[1..];
        PrecedesAcross(i, q[0], p[1..], q[1..]);
      }
      InTreeOrderConcat(here, rest);
    }
  }

  /** The paths `ElementsFrom` finds at child `i`: the child itself, then its descendants. */
  function AtChild(ns: seq<Node>, i: nat, tag: string): seq<Path>
    requires i < |ns|
    decreases ns[i], 1
  {
    (if ns[i].Elem? && ns[i].tag == tag then [[i]] else []) + Under(i, ElementsIn(ns[i], tag))
  }

  /** The paths found at child `i` start with `i` and come in tree order. */
  lemma AtChildOrdered(ns: seq<Node>, i: nat, tag: string)
    requires i < |ns|
    ensures InTreeOrder(AtChild(ns, i, tag))
    ensures forall k :: 0 <= k < |AtChild(ns, i, tag)| ==>
      AtChild(ns, i, tag)[k] != [] && AtChild(ns, i, tag)[k][0] == i
    decreases ns[i], 2
  {
    var own: seq<Path> := if ns[i].Elem? && ns[i].tag == tag then [[i]] else [];
    var inner := ElementsIn(ns[i], tag);
    var below := Under(i, inner);
    ElementsInSound(ns[i], tag);
    ElementsInOrdered(ns[i], tag);
    UnderInOrder(i, inner);
    forall k, l | 0 <= k < |own| && 0 <= l < |below|
      ensures Precedes(own[k], below[l])
    {
      PrecedesChild(i, inner[l]);
    }
    InTreeOrderConcat(own, below);
    assert AtChild(ns, i, tag) == own + below;
  }

  /** A path below child `i` is ordered by the rest of it. */
  lemma PrecedesUnder(i: nat, x: Path, y: Path)
    ensures Precedes([i] + x, [i] + y) == Precedes(x, y)
  {
    assert ([i] + x)[1..] == x && ([i] + y)[1..] == y;
    assert CommonPrefix([i] + x, [i] + y) == [i] + CommonPrefix(x, y);
  }

  /** A child comes before its descendants. */
  lemma PrecedesChild(i: nat, x: Path)
    requires x != []
    ensures Precedes([i], [i] + x)
  {
    assert CommonPrefix([i], [i] + x) == [i] by {
      assert ([i])[1..] == [];
    }
  }

  /** Everything below an earlier child comes before everything below a later one. */
  lemma PrecedesAcross(i: nat, j: nat, x: Path, y: Path)
    requires i < j
    ensures Precedes([i] + x, [j] + y)
  {
    assert CommonPrefix([i] + x, [j] + y) == [];
  }

  lemma UnderInOrder(i: nat, ps: seq<Path>)
    requires InTreeOrder(ps)
    ensures InTreeOrder(Under(i, ps))
  {
    forall k, l | 0 <= k < l < |ps|
      ensures Precedes(Under(i, ps)[k], Under(i, ps)[l])
    {
      PrecedesUnder(i, ps[k], ps[l]);
    }
  }

  lemma InTreeOrderConcat(a: seq<Path>, b: seq<Path>)
    requires InTreeOrder(a) && InTreeOrder(b)
    requires forall k, l :: 0 <= k < |a| && 0 <= l < |b| ==> Precedes(a[k], b[l])
    ensures InTreeOrder(a + b)
  {
    forall k, l | 0 <= k < l < |a + b|
      ensures Precedes((a + b)[k], (a + b)[l])
    {
      if l < |a| {
        assert (a + b)[k] == a[k] && (a + b)[l] == a[l];
      } else if k < |a| {
        assert (a + b)[k] == a[k] && (a + b)[l] == b[l - |a|];
      } else {
        assert (a + b)[k] == b[k - |a|] && (a + b)[l] == b[l - |a|];
      }
    }
  }

  /** `getElementsByTagName` lists exactly the descendants that are elements with the tag. */
  lemma {:induction false} ElementsInComplete(n: Node, tag: string, p: Path)
    ensures p in ElementsIn(n, tag) <==>
      p != [] && ValidPath(n, p) && At(n, p).Elem? && At(n, p).tag == tag
    decreases n
  {
    ElementsInSound(n, tag);
    if p != [] && ValidPath(n, p) && At(n, p).Elem? && At(n, p).tag == tag {
      var ns, i := n.children, p[0];
      var own: seq<Path> := if ns[i].Elem? && ns[i].tag == tag then [[i]] else [];
      var below := Under(i, ElementsIn(ns[i], tag));
      assert At(n, p) == At(ns[i], p[1..]);
      if p[1..] == [] {
        assert p == [i];
        assert p in own;
      } else {
        ElementsInComplete(ns[i], tag, p[1..]);
        var k :| 0 <= k < |ElementsIn(ns[i], tag)| && ElementsIn(ns[i], tag)[k] == p[1..];
        assert below[k] == p;
      }
      assert p in AtChild(ns, i, tag) by { assert AtChild(ns, i, tag) == own + below; }
      ElementsFromHas(ns, 0, i, tag, p);
    }
  }

  /** The paths found at child `i` are in the list from any earlier child on. */
  lemma {:induction false} ElementsFromHas(ns: seq<Node>, j: nat, i: nat, tag: string, p: Path)
    requires j <= i < |ns|
    requires p in AtChild(ns, i, tag)
    ensures p in ElementsFrom(ns, j, tag)
    decreases i - j
  {
    assert ElementsFrom(ns, j, tag) == AtChild(ns, j, tag) + ElementsFrom(ns, j + 1, tag);
    if j < i {
      ElementsFromHas(ns, j + 1, i, tag, p);
    }
  }

  /** Counting over a concatenation of sibling lists. */
  lemma {:induction false} CountFromConcat(a: seq<Node>, b: seq<Node>, tag: string)
    ensures CountFrom(a + b, 0, tag) == CountFrom(a, 0, tag) + CountFrom(b, 0, tag)
    decreases |a|
  {
    if a == [] {
      assert a + b == b;
    } else {
      CountFromShift(a + b, tag);
      CountFromShift(a, tag);
      assert (a + b)[1..] == a[1..] + b;
      CountFromConcat(a[1..], b, tag);
    }
  }

  /** Counting from position 1 is counting the tail. */
  lemma CountFromShift(ns: seq<Node>, tag: string)
    requires ns != []
    ensures CountFrom(ns, 0, tag) == Self(ns[0], tag) + CountIn(ns[0], tag) + CountFrom(ns[1..], 0, tag)
  {
    CountFromSuffix(ns, 1, tag);
  }

  lemma {:induction false} CountFromSuffix(ns: seq<Node>, i: nat, tag: string)
    requires i <= |ns|
    ensures CountFrom(ns, i, tag) == CountFrom(ns[i..], 0, tag)
    decreases |ns| - i
  {
    if i < |ns| {
      CountFromSuffix(ns, i + 1, tag);
      CountFromSuffix(ns[i..], 1, tag);
      assert ns[i..][1..] == ns[i + 1..];
    }
  }

  lemma CountFromSingle(n: Node, tag: string)
    ensures CountFrom([n], 0, tag) == Self(n, tag) + CountIn(n, tag)
  {
    CountFromShift([n], tag);
  }

  /** Replacing a descendant changes the count by the difference of the replaced subtrees. */
  lemma {:induction false} ReplaceCount(n: Node, p: Path, m: Node, tag: string)
    requires ValidPath(n, p) && p != []
    ensures CountIn(Replace(n, p, m), tag) + Self(At(n, p), tag) + CountIn(At(n, p), tag)
      == CountIn(n, tag) + Self(m, tag) + CountIn(m, tag)
    decreases |p|
  {
    var j := p[0];
    var c := n.children[j];
    var c2 := Replace(c, p[1..], m);
    var ch := n.children;
    if p[1..] != [] {
      ReplaceCount(c, p[1..], m, tag);
      assert Self(c2, tag) == Self(c, tag);
    }
    ChildUpdateCount(ch, j, c2, tag);
  }

  lemma ChildUpdateCount(ch: seq<Node>, j: nat, x: Node, tag: string)
    requires j < |ch|
    ensures CountFrom(ch[j := x], 0, tag) + Self(ch[j], tag) + CountIn(ch[j], tag)
      == CountFrom(ch, 0, tag) + Self(x, tag) + CountIn(x, tag)
  {
    assert ch == ch[..j] + [ch[j]] + ch[j + 1..];
    assert ch[j := x] == ch[..j] + [x] + ch[j + 1..];
    CountFromConcat(ch[..j] + [ch[j]], ch[j + 1..], tag);
    CountFromConcat(ch[..j], [ch[j]], tag);
    CountFromConcat(ch[..j] + [x], ch[j + 1..], tag);
    CountFromConcat(ch[..j], [x], tag);
    CountFromSingle(ch[j], tag);
    CountFromSingle(x, tag);
  }

  /** `current.previousSibling === previous`: both are children of one parent, `previous`
      directly before `current`. */
  predicate PrevSibling(previous: Path, current: Path)
  {
    current != [] && LastIndex(current) > 0 && previous == ParentPath(current) + [LastIndex(current) - 1]
  }

  /** `current` and the node before it are elements under one parent. */
  predicate Mergeable(root: Node, current: Path)
  {
    ValidPath(root, current) && current != [] && LastIndex(current) > 0 &&
    (ParentFacts(root, current);
     var ch := At(root, ParentPath(current)).children;
     ch[LastIndex(current) - 1].Elem? && ch[LastIndex(current)].Elem?)
  }

  /** The parent of `current` after `current`'s children were appended, in order, to the
      children of its preceding sibling, and `current` was removed. */
  function MergedParent(root: Node, current: Path): Node
    requires Mergeable(root, current)
  {
    ParentFacts(root, current);
    var parent := At(root, ParentPath(current));
    var j := LastIndex(current);
    var prev := parent.children[j - 1];
    var cur := parent.children[j];
    Elem(parent.tag, parent.attrs, parent.children[..j - 1] + [MergedPair(prev, cur)] + parent.children[j + 1..])
  }

  /** Merging `current` into the element before it. Every node off the path to their
      parent keeps its place. */
  function Merge(root: Node, current: Path): (r: Node)
    requires Mergeable(root, current)
    ensures ValidPath(r, ParentPath(current)) && At(r, ParentPath(current)) == MergedParent(root, current)
  {
    ParentFacts(root, current);
    ReplaceAt(root, ParentPath(current), MergedParent(root, current));
    Replace(root, ParentPath(current), MergedParent(root, current))
  }

  /** Sibling paths of two elements make a mergeable pair. */
  lemma SiblingsMergeable(root: Node, previous: Path, current: Path)
    requires ValidPath(root, current) && ValidPath(root, previous) && PrevSibling(previous, current)
    requires At(root, current).Elem? && At(root, previous).Elem?
    ensures Mergeable(root, current)
  {
    ParentFacts(root, current);
    ParentFacts(root, previous);
    assert ParentPath(previous) == ParentPath(current);
  }

  /** A merge of two elements with the tag removes exactly one element with the tag. */
  lemma MergeCount(root: Node, previous: Path, current: Path, tag: string)
    requires ValidPath(root, current) && ValidPath(root, previous) && PrevSibling(previous, current)
    requires At(root, current).Elem? && At(root, current).tag == tag
    requires At(root, previous).Elem? && At(root, previous).tag == tag
    ensures (SiblingsMergeable(root, previous, current); CountIn(Merge(root, current), tag) + 1 == CountIn(root, tag))
  {
    SiblingsMergeable(root, previous, current);
    var pp := ParentPath(current);
    ParentFacts(root, current);
    ParentFacts(root, previous);
    assert ParentPath(previous) == pp;
    var parent := At(root, pp);
    PairMergeCount(parent.children, LastIndex(current), tag);
    assert CountIn(MergedParent(root, current), tag) + 1 == CountIn(parent, tag);
    if pp != [] {
      ReplaceCount(root, pp, MergedParent(root, current), tag);
    }
  }

  /** The element a pair of sibling elements merges into. */
  function MergedPair(prev: Node, cur: Node): Node
    requires prev.Elem? && cur.Elem?
  {
    Elem(prev.tag, prev.attrs, prev.children + cur.children)
  }

  /** Among siblings, merging two elements with the tag leaves one element with it fewer. */
  lemma PairMergeCount(ch: seq<Node>, j: nat, tag: string)
    requires 1 <= j < |ch| && ch[j - 1].Elem? && ch[j].Elem? && ch[j - 1].tag == tag && ch[j].tag == tag
    ensures CountFrom(ch[..j - 1] + [MergedPair(ch[j - 1], ch[j])] + ch[j + 1..], 0, tag) + 1 == CountFrom(ch, 0, tag)
  {
    var prev := ch[j - 1];
    var cur := ch[j];
    var merged := MergedPair(prev, cur);
    assert ch == ch[..j - 1] + [prev, cur] + ch[j + 1..];
    CountFromConcat(ch[..j - 1] + [prev, cur], ch[j + 1..], tag);
    CountFromConcat(ch[..j - 1], [prev, cur], tag);
    CountFromConcat(ch[..j - 1] + [merged], ch[j + 1..], tag);
    CountFromConcat(ch[..j - 1], [merged], tag);
    CountFromConcat([prev], [cur], tag);
    assert [prev] + [cur] == [prev, cur];
    CountFromSingle(prev, tag);
    CountFromSingle(cur, tag);
    CountFromSingle(merged, tag);
    CountFromConcat(prev.children, cur.children, tag);
  }

  /** Merging keeps the text of the whole document. */
  lemma MergeKeepsText(root: Node, previous: Path, current: Path)
    requires ValidPath(root, current) && ValidPath(root, previous) && PrevSibling(previous, current)
    requires At(root, current).Elem? && At(root, previous).Elem?
    ensures (SiblingsMergeable(root, previous, current); TextContent(Merge(root, current)) == TextContent(root))
  {
    SiblingsMergeable(root, previous, current);
    var pp := ParentPath(current);
    ParentFacts(root, current);
    ParentFacts(root, previous);
    assert ParentPath(previous) == pp;
    var parent := At(root, pp);
    PairMergeText(parent.children, LastIndex(current));
    assert TextContent(MergedParent(root, current)) == TextContent(parent);
    ReplaceKeepsText(root, pp, MergedParent(root, current));
  }

  /** Among siblings, merging two elements keeps the text. */
  lemma PairMergeText(ch: seq<Node>, j: nat)
    requires 1 <= j < |ch| && ch[j - 1].Elem? && ch[j].Elem?
    ensures TextContentSeq(ch[..j - 1] + [MergedPair(ch[j - 1], ch[j])] + ch[j + 1..]) == TextContentSeq(ch)
  {
    var prev := ch[j - 1];
    var cur := ch[j];
    var merged := MergedPair(prev, cur);
    assert ch == ch[..j - 1] + ([prev] + [cur]) + ch[j + 1..];
    TextContentSeqConcat(prev.children, cur.children);
    TextContentSeqConcat([prev], [cur]);
    TextContentSeqSingle(prev);
    TextContentSeqSingle(cur);
    TextContentSeqSingle(merged);
    ListPartText(ch[..j - 1], [prev] + [cur], [merged], ch[j + 1..]);
  }

  /** Exchanging a middle part for one with the same text keeps a list's text. */
  lemma ListPartText(a: seq<Node>, m1: seq<Node>, m2: seq<Node>, b: seq<Node>)
    requires TextContentSeq(m1) == TextContentSeq(m2)
    ensures TextContentSeq(a + m1 + b) == TextContentSeq(a + m2 + b)
  {
    TextContentSeqConcat(a + m1, b);
    TextContentSeqConcat(a, m1);
    TextContentSeqConcat(a + m2, b);
    TextContentSeqConcat(a, m2);
  }

  /** One turn of the `normalizeContent` loop for `tag` at index `i`, on the live list of
      elements with the tag: when the element before it in document order is its previous
      sibling and both have the same `style` attribute (or neither has one), the element is
      merged into it; otherwise nothing changes. */
  function MergeStep(root: Node, tag: string, i: nat): (r: Node)
    requires 0 < i < |ElementsIn(root, tag)|
    ensures |ElementsIn(root, tag)| <= |ElementsIn(r, tag)| + 1
    ensures r.Elem? && r.tag == root.tag && r.attrs == root.attrs
  {
    ElementsInSound(root, tag);
    var elements := ElementsIn(root, tag);
    var current, previous := elements[i], elements[i - 1];
    if PrevSibling(previous, current) &&
       GetAttribute(At(root, current).attrs, "style") == GetAttribute(At(root, previous).attrs, "style")
    then
      SiblingsMergeable(root, previous, current);
      MergeCount(root, previous, current, tag);
      MergeKeepsRoot(root, current);
      ElementsInSound(Merge(root, current), tag);
      Merge(root, current)
    else
      root
  }

  /** A turn keeps the text and never adds an element with the tag. */
  lemma MergeStepFacts(root: Node, tag: string, i: nat)
    requires 0 < i < |ElementsIn(root, tag)|
    ensures TextContent(MergeStep(root, tag, i)) == TextContent(root)
    ensures CountIn(MergeStep(root, tag, i), tag) <= CountIn(root, tag)
  {
    ElementsInSound(root, tag);
    var elements := ElementsIn(root, tag);
    var current, previous := elements[i], elements[i - 1];
    if PrevSibling(previous, current) &&
       GetAttribute(At(root, current).attrs, "style") == GetAttribute(At(root, previous).attrs, "style")
    {
      SiblingsMergeable(root, previous, current);
      MergeCount(root, previous, current, tag);
      MergeKeepsText(root, previous, current);
    }
  }

  /** The `normalizeContent` loop for `tag`, from index `i` down to 1; the list of elements
      is read again before every turn, as the live collection is. */
  function MergePass(root: Node, tag: string, i: int): (r: Node)
    requires i < |ElementsIn(root, tag)|
    ensures root.Elem? ==> r.Elem? && r.tag == root.tag && r.attrs == root.attrs
    decreases i
  {
    if i <= 0 then root else MergePass(MergeStep(root, tag, i), tag, i - 1)
  }

  /** A pass keeps the text and never adds an element with the tag. */
  lemma {:induction false} MergePassFacts(root: Node, tag: string, i: int)
    requires i < |ElementsIn(root, tag)|
    ensures TextContent(MergePass(root, tag, i)) == TextContent(root)
    ensures CountIn(MergePass(root, tag, i), tag) <= CountIn(root, tag)
    decreases i
  {
    if i > 0 {
      MergeStepFacts(root, tag, i);
      MergePassFacts(MergeStep(root, tag, i), tag, i - 1);
    }
  }

  /** A pass from index `i` is the turn at `i` followed by the pass from `j`, the index
      before it. */
  lemma MergePassUnfold(root: Node, tag: string, i: nat, j: int)
    requires 0 < i < |ElementsIn(root, tag)| && j == i - 1
    ensures j < |ElementsIn(MergeStep(root, tag, i), tag)|
    ensures MergePass(root, tag, i) == MergePass(MergeStep(root, tag, i), tag, j)
  {
  }

  /** The merge loops of `normalizeContent`, one full pass per tag of `tags` in turn. */
  function MergeTags(root: Node, tags: seq<string>): (r: Node)
    ensures root.Elem? ==> r.Elem? && r.tag == root.tag && r.attrs == root.attrs
    decreases |tags|
  {
    if tags == [] then root
    else MergeTags(MergePass(root, tags[0], |ElementsIn(root, tags[0])| - 1), tags[1..])
  }

  /** The merge loops keep the text. */
  lemma {:induction false} MergeTagsKeepsText(root: Node, tags: seq<string>)
    ensures TextContent(MergeTags(root, tags)) == TextContent(root)
    decreases |tags|
  {
    if tags != [] {
      var next := MergePass(root, tags[0], |ElementsIn(root, tags[0])| - 1);
      MergePassFacts(root, tags[0], |ElementsIn(root, tags[0])| - 1);
      MergeTagsKeepsText(next, tags[1..]);
    }
  }

  /** Two adjacent elements with the tag and the same style become one element, holding the
      children of both in order. */
  lemma {:induction false} AdjacentSameStyleMerge(tag: string, a1: seq<Attr>, a2: seq<Attr>, x: seq<Node>, y: seq<Node>)
    requires CountFrom(x, 0, tag) == 0 && CountFrom(y, 0, tag) == 0
    requires GetAttribute(a1, "style") == GetAttribute(a2, "style")
    ensures var root := Root([Elem(tag, a1, x), Elem(tag, a2, y)]);
      MergePass(root, tag, |ElementsIn(root, tag)| - 1) == Root([Elem(tag, a1, x + y)])
  {
    var root := Root([Elem(tag, a1, x), Elem(tag, a2, y)]);
    PairElements(tag, a1, a2, x, y);
    ElementsInSound(root, tag);
    var next := MergeStep(root, tag, 1);
    assert PrevSibling([0], [1]);
    assert next == Merge(root, [1]);
    assert MergedParent(root, [1]) == Root([Elem(tag, a1, x + y)]);
  }

  /** Two adjacent elements with the tag and different styles are left alone. */
  lemma {:induction false} AdjacentOtherStyleKept(tag: string, a1: seq<Attr>, a2: seq<Attr>, x: seq<Node>, y: seq<Node>)
    requires CountFrom(x, 0, tag) == 0 && CountFrom(y, 0, tag) == 0
    requires GetAttribute(a1, "style") != GetAttribute(a2, "style")
    ensures var root := Root([Elem(tag, a1, x), Elem(tag, a2, y)]);
      MergePass(root, tag, |ElementsIn(root, tag)| - 1) == root
  {
    PairElements(tag, a1, a2, x, y);
  }

  /** Elements with the tag that a text node separates are not siblings in the sense of
      `previousSibling`, and are left alone. */
  lemma {:induction false} SeparatedElementsKept(tag: string, a1: seq<Attr>, a2: seq<Attr>, x: seq<Node>, s: string, y: seq<Node>)
    requires CountFrom(x, 0, tag) == 0 && CountFrom(y, 0, tag) == 0
    ensures var root := Root([Elem(tag, a1, x), Text(s), Elem(tag, a2, y)]);
      MergePass(root, tag, |ElementsIn(root, tag)| - 1) == root
  {
    var root := Root([Elem(tag, a1, x), Text(s), Elem(tag, a2, y)]);
    var ns := root.children;
    ElementsInSound(ns[0], tag);
    ElementsInSound(ns[2], tag);
    assert ElementsFrom(ns, 3, tag) == [];
    assert ElementsFrom(ns, 2, tag) == [[2]];
    assert ElementsFrom(ns, 1, tag) == [[2]];
    assert ElementsIn(root, tag) == [[0], [2]];
    assert ParentPath([2]) + [LastIndex([2]) - 1] == [1];
    assert [0] != [1] by { assert [0][0] != [1][0]; }
  }

  /** The elements with the tag in a root holding two of them are the two, in order. */
  lemma PairElements(tag: string, a1: seq<Attr>, a2: seq<Attr>, x: seq<Node>, y: seq<Node>)
    requires CountFrom(x, 0, tag) == 0 && CountFrom(y, 0, tag) == 0
    ensures ElementsIn(Root([Elem(tag, a1, x), Elem(tag, a2, y)]), tag) == [[0], [1]]
  {
    var ns := [Elem(tag, a1, x), Elem(tag, a2, y)];
    ElementsInSound(ns[0], tag);
    ElementsInSound(ns[1], tag);
    assert ElementsFrom(ns, 2, tag) == [];
    assert ElementsFrom(ns, 1, tag) == [[1]];
    assert ElementsFrom(ns, 0, tag) == [[0], [1]];
  }

  /** Some descendant of `n` is a block element. */
  predicate BlockIn(n: Node)
    decreases n, 0
  {
    n.Elem? && BlockFrom(n.children, 0)
  }

  predicate BlockFrom(ns: seq<Node>, i: nat)
    decreases ns, |ns| - i
  {
    i < |ns| && ((ns[i].Elem? && ns[i].tag in BlockTags) || BlockIn(ns[i]) || BlockFrom(ns, i + 1))
  }

  /** Wrapping the content in a paragraph gives it a block element and keeps its text. */
  lemma WrapInParagraph(dom: seq<Node>)
    ensures BlockIn(Root([Elem("p", [], dom)]))
    ensures TextContentSeq([Elem("p", [], dom)]) == TextContentSeq(dom)
  {
    TextContentSeqSingle(Elem("p", [], dom));
  }
}
