/**
 * The document tree the editor works on. A browser node is a text node, an
 * element with its attributes (in document order) and children, or any other
 * kind of node (comments, processing instructions), which carries no text.
 * Element tags are the lower-case local names an HTML document gives them;
 * the source's upper-case `tagName`/`nodeName` tests are written against the
 * upper-cased tag.
 *
 * A position in the tree is a path of child indices from the editor's root
 * element; the empty path is the root itself.
 */
module Dom {

  datatype Option<T> = None | Some(value: T)

  datatype Attr = Attr(name: string, value: string)

  datatype Node =
    | Text(text: string)
    | Elem(tag: string, attrs: seq<Attr>, children: seq<Node>)
    | Other

  type Path = seq<nat>

  /** The editor's own contenteditable element holding the document `dom`. */
  function Root(dom: seq<Node>): Node
  {
    Elem("div", [], dom)
  }

  /** `element.getAttribute(name)`: the value of the first attribute called `name`, or null. */
  function GetAttribute(attrs: seq<Attr>, name: string): (r: Option<string>)
    ensures r.Some? <==> exists i :: 0 <= i < |attrs| && attrs[i].name == name
    ensures r.Some? ==> exists i :: 0 <= i < |attrs| && attrs[i] == Attr(name, r.value)
  {
    if attrs == [] then None
    else if attrs[0].name == name then Some(attrs[0].value)
    else GetAttribute(attrs[1..], name)
  }

  /** `node.textContent` as the DOM defines it for the node kinds modelled: the
      concatenated data of every descendant text node, in document order. */
  function TextContent(n: Node): string
  {
    match n
    case Text(s) => s
    case Elem(_, _, ch) => TextContentSeq(ch)
    case Other => ""
  }

  function TextContentSeq(ns: seq<Node>): string
  {
    if ns == [] then "" else TextContent(ns[0]) + TextContentSeq(ns[1..])
  }

  lemma {:induction false} TextContentSeqConcat(a: seq<Node>, b: seq<Node>)
    ensures TextContentSeq(a + b) == TextContentSeq(a) + TextContentSeq(b)
  {
    if a == [] {
      assert a + b == b;
    } else {
      assert (a + b)[1..] == a[1..] + b;
      TextContentSeqConcat(a[1..], b);
    }
  }

  lemma TextContentSeqSingle(n: Node)
    ensures TextContentSeq([n]) == TextContent(n)
  {
    assert [n][1..] == [];
  }

  /** Replacing one child by a node with the same text keeps the text of the whole list. */
  lemma TextContentSeqUpdate(ns: seq<Node>, i: nat, m: Node)
    requires i < |ns| && TextContent(m) == TextContent(ns[i])
    ensures TextContentSeq(ns[i := m]) == TextContentSeq(ns)
  {
    assert ns == ns[..i] + [ns[i]] + ns[i + 1..];
    assert ns[i := m] == ns[..i] + [m] + ns[i + 1..];
    TextContentSeqConcat(ns[..i] + [ns[i]], ns[i + 1..]);
    TextContentSeqConcat(ns[..i], [ns[i]]);
    TextContentSeqConcat(ns[..i] + [m], ns[i + 1..]);
    TextContentSeqConcat(ns[..i], [m]);
    TextContentSeqSingle(m);
    TextContentSeqSingle(ns[i]);
  }

  /** `p` leads from `n` through elements to an existing node. */
  predicate ValidPath(n: Node, p: Path)
    decreases |p|
  {
    p == [] || (n.Elem? && p[0] < |n.children| && ValidPath(n.children[p[0]], p[1..]))
  }

  /** The node `p` leads to. */
  function At(n: Node, p: Path): Node
    requires ValidPath(n, p)
    decreases |p|
  {
    if p == [] then n else At(n.children[p[0]], p[1..])
  }

  /** `n` with the node at `p` replaced by `m`; everything off the path is untouched. */
  function Replace(n: Node, p: Path, m: Node): (r: Node)
    requires ValidPath(n, p)
    ensures p != [] ==> r.Elem? && r.tag == n.tag && r.attrs == n.attrs && |r.children| == |n.children|
    decreases |p|
  {
    if p == [] then m
    else Elem(n.tag, n.attrs, n.children[p[0] := Replace(n.children[p[0]], p[1..], m)])
  }

  lemma {:induction false} ReplaceAt(n: Node, p: Path, m: Node)
    requires ValidPath(n, p)
    ensures ValidPath(Replace(n, p, m), p) && At(Replace(n, p, m), p) == m
    decreases |p|
  {
    if p != [] {
      ReplaceAt(n.children[p[0]], p[1..], m);
    }
  }

  /** Replacing a node by one with the same text keeps the text of the whole tree. */
  lemma {:induction false} ReplaceKeepsText(n: Node, p: Path, m: Node)
    requires ValidPath(n, p) && TextContent(m) == TextContent(At(n, p))
    ensures TextContent(Replace(n, p, m)) == TextContent(n)
    decreases |p|
  {
    if p != [] {
      var c := n.children[p[0]];
      ReplaceKeepsText(c, p[1..], m);
      TextContentSeqUpdate(n.children, p[0], Replace(c, p[1..], m));
    }
  }

  /** Paths that are a prefix of a valid path are valid, and lead to elements when strict. */
  lemma {:induction false} PrefixValid(n: Node, p: Path, k: nat)
    requires ValidPath(n, p) && k <= |p|
    ensures ValidPath(n, p[..k])
    ensures k < |p| ==> At(n, p[..k]).Elem? && p[k] < |At(n, p[..k]).children|
    ensures k < |p| ==> ValidPath(n, p[..k + 1])
    ensures k < |p| ==> At(n, p[..k + 1]) == At(n, p[..k]).children[p[k]]
    decreases |p|
  {
    if k > 0 {
      PrefixValid(n.children[p[0]], p[1..], k - 1);
      if k < |p| {
        PrefixValid(n.children[p[0]], p[1..], k);
      }
      assert p[..k][1..] == p[1..][..k - 1];
      if k < |p| {
        assert p[..k + 1][1..] == p[1..][..k];
      }
    }
  }

  /** The longest common prefix of two paths: the path of the deepest node both lead through (`commonAncestorContainer` for the paths of a range). */
  function CommonPrefix(a: Path, b: Path): (c: Path)
    ensures |c| <= |a| && |c| <= |b| && c == a[..|c|] && c == b[..|c|]
    ensures |c| < |a| && |c| < |b| ==> a[|c|] != b[|c|]
  {
    if a == [] || b == [] || a[0] != b[0] then [] else [a[0]] + CommonPrefix(a[1..], b[1..])
  }

  /** Tree order: the node at `p` comes before the node at `q` (an ancestor comes before its
      descendants, and siblings come in child order). */
  predicate Precedes(p: Path, q: Path)
  {
    var c := CommonPrefix(p, q);
    if |c| == |p| then |p| < |q| else |c| < |q| && p[|c|] < q[|c|]
  }

  /** The longest common prefix does not depend on the order of its arguments. */
  lemma CommonPrefixSymmetric(a: Path, b: Path)
    ensures CommonPrefix(a, b) == CommonPrefix(b, a)
  {
  }

  /** Tree order is a strict total order on the nodes of a tree. */
  lemma PrecedesTotal(p: Path, q: Path)
    ensures p != q ==> Precedes(p, q) || Precedes(q, p)
    ensures !(Precedes(p, q) && Precedes(q, p))
    ensures !Precedes(p, p)
  {
    CommonPrefixSymmetric(p, q);
    var c := CommonPrefix(p, q);
    if |c| == |p| && |c| == |q| {
      assert p == p[..|c|] == q[..|c|] == q;
    }
  }
}
