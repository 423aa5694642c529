/**
 * The allow-list sanitizer applied to pasted markup. It rebuilds the parsed
 * tree node by node: a text node is copied; an element whose lower-cased tag
 * is allowed becomes a fresh element with that tag, the allowed attributes
 * copied one by one with `setAttribute`, and its children sanitized in turn;
 * an element whose tag is not allowed becomes one text node holding its
 * `textContent`; every other kind of node is dropped.
 *
 * `setAttribute` lower-cases the name it is given; every name that passes the
 * allow-list is lower-case already (`AllowedNamesAreLowerCase`), so the model
 * stores names as they come.
 */
module Sanitizer {
  import opened Dom
  import opened Strings

  const AllowedTags: set<string> := {
    "p", "div", "h1", "h2", "h3", "h4", "h5", "h6",
    "blockquote", "pre", "ul", "ol", "li",
    "strong", "b", "em", "i", "u", "strike", "s",
    "sub", "sup", "code", "mark", "span",
    "img", "br", "hr", "a", "table", "thead", "tbody",
    "tr", "td", "th"
  }

  /** `allowedAttributes[tagName] || []` followed by `allowedAttributes["*"]`. */
  function AllowedFor(tag: string): seq<string>
  {
    (if tag == "a" then ["href", "title", "target"]
     else if tag == "img" then ["src", "alt", "title", "width", "height"]
     else [])
    + ["style", "class"]
  }

  /** No ASCII upper-case letter in `s`. */
  predicate LowerCase(s: string)
  {
    forall i :: 0 <= i < |s| ==> !('A' <= s[i] <= 'Z')
  }

  lemma LowerOfLowerCase(s: string)
    requires LowerCase(s)
    ensures Lower(s) == s
  {
    assert forall i :: 0 <= i < |s| ==> Lower(s)[i] == s[i];
  }

  lemma LowerIsLowerCase(s: string)
    ensures LowerCase(Lower(s))
  {
  }

  lemma AllowedNamesAreLowerCase(tag: string, name: string)
    requires name in AllowedFor(tag)
    ensures Lower(name) == name
  {
    assert LowerCase(name);
    LowerOfLowerCase(name);
  }

  /** `element.setAttribute(name, value)`: overwrite the value of the attribute with that
      name, or append a new attribute. */
  function SetAttribute(attrs: seq<Attr>, name: string, value: string): (r: seq<Attr>)
    ensures forall x :: x in r ==> x in attrs || x == Attr(name, value)
    ensures Attr(name, value) in r
    ensures forall x :: x in attrs && x.name != name ==> x in r
    ensures forall x :: x in r ==> x.name == name || x in attrs
    ensures (forall x :: x in attrs ==> x.name != name) ==> r == attrs + [Attr(name, value)]
  {
    if attrs == [] then [Attr(name, value)]
    else if attrs[0].name == name then [Attr(name, value)] + attrs[1..]
    else [attrs[0]] + SetAttribute(attrs[1..], name, value)
  }

  /** The `forEach` over the source element's attributes, copying those whose name is allowed. */
  function CopyAllowed(src: seq<Attr>, allowed: seq<string>, acc: seq<Attr>): seq<Attr>
    decreases |src|
  {
    if src == [] then acc
    else CopyAllowed(src[1..], allowed,
      if src[0].name in allowed then SetAttribute(acc, src[0].name, src[0].value) else acc)
  }

  /** The sanitized copy of one node, or nothing for a node that is dropped. */
  function Sanitize(n: Node): Option<Node>
    decreases n, 0
  {
    match n
    case Text(s) => Some(Text(s))
    case Other => None
    case Elem(tag, attrs, children) =>
      var t := Lower(tag);
      if t !in AllowedTags then Some(Text(TextContent(n)))
      else Some(Elem(t, CopyAllowed(attrs, AllowedFor(t), []), SanitizeFrom(children, 0)))
  }

  /** The sanitized copies of `ns[i..]`, in order, leaving out dropped nodes. */
  function SanitizeFrom(ns: seq<Node>, i: nat): seq<Node>
    decreases ns, |ns| - i
  {
    if i >= |ns| then []
    else
      var s := Sanitize(ns[i]);
      (if s.Some? then [s.value] else []) + SanitizeFrom(ns, i + 1)
  }

  /** `sanitizeHtml` on an already parsed body. */
  function SanitizeAll(ns: seq<Node>): seq<Node>
  {
    SanitizeFrom(ns, 0)
  }

  // ---------------------------------------------------------------------------
  // What a sanitized tree looks like

  predicate DistinctNames(attrs: seq<Attr>)
  {
    forall i, j :: 0 <= i < j < |attrs| ==> attrs[i].name != attrs[j].name
  }

  predicate AttrsAllowed(attrs: seq<Attr>, allowed: seq<string>)
  {
    DistinctNames(attrs) && forall x :: x in attrs ==> x.name in allowed
  }

  /** Only allowed tags, only allowed attributes (each once), and only text and elements. */
  predicate Clean(n: Node)
    decreases n, 0
  {
    match n
    case Text(_) => true
    case Other => false
    case Elem(tag, attrs, children) =>
      tag in AllowedTags && LowerCase(tag) && AttrsAllowed(attrs, AllowedFor(tag)) && CleanFrom(children, 0)
  }

  predicate CleanFrom(ns: seq<Node>, i: nat)
    decreases ns, |ns| - i
  {
    i >= |ns| || (Clean(ns[i]) && CleanFrom(ns, i + 1))
  }

  lemma {:induction false} SetAttributeDistinct(attrs: seq<Attr>, name: string, value: string)
    requires DistinctNames(attrs)
    ensures DistinctNames(SetAttribute(attrs, name, value))
    decreases |attrs|
  {
    if attrs != [] {
      var a, rest := attrs[0], attrs[1..];
      DistinctTail(attrs);
      if a.name != name {
        SetAttributeDistinct(rest, name, value);
        DistinctCons(a, SetAttribute(rest, name, value));
      } else {
        DistinctCons(Attr(name, value), rest);
      }
    }
  }

  /** The attributes after the first are distinct and none has the first one's name. */
  lemma DistinctTail(attrs: seq<Attr>)
    requires attrs != [] && DistinctNames(attrs)
    ensures DistinctNames(attrs[1..]) && forall x :: x in attrs[1..] ==> x.name != attrs[0].name
  {
    forall x | x in attrs[1..]
      ensures x.name != attrs[0].name
    {
      var k :| 0 <= k < |attrs[1..]| && attrs[1..][k] == x;
      assert attrs[k + 1] == x;
    }
  }

  /** An attribute whose name the rest do not use can be put in front of distinct ones. */
  lemma DistinctCons(a: Attr, t: seq<Attr>)
    requires DistinctNames(t) && forall x :: x in t ==> x.name != a.name
    ensures DistinctNames([a] + t)
  {
    var r := [a] + t;
    forall i, j | 0 <= i < j < |r|
      ensures r[i].name != r[j].name
    {
      assert r[j] == t[j - 1];
      if i > 0 {
        assert r[i] == t[i - 1];
      } else {
        assert t[j - 1] in t;
      }
    }
  }

  lemma {:induction false} CopyAllowedClean(src: seq<Attr>, allowed: seq<string>, acc: seq<Attr>)
    requires AttrsAllowed(acc, allowed)
    ensures AttrsAllowed(CopyAllowed(src, allowed, acc), allowed)
    decreases |src|
  {
    if src != [] {
      if src[0].name in allowed {
        SetAttributeDistinct(acc, src[0].name, src[0].value);
        CopyAllowedClean(src[1..], allowed, SetAttribute(acc, src[0].name, src[0].value));
      } else {
        CopyAllowedClean(src[1..], allowed, acc);
      }
    }
  }

  /** Everything the sanitizer produces is clean. */
  lemma {:induction false} SanitizeIsClean(n: Node)
    ensures Sanitize(n).Some? ==> Clean(Sanitize(n).value)
    decreases n, 0
  {
    if n.Elem? && Lower(n.tag) in AllowedTags {
      LowerIsLowerCase(n.tag);
      CopyAllowedClean(n.attrs, AllowedFor(Lower(n.tag)), []);
      SanitizeFromIsClean(n.children, 0);
    }
  }

  lemma {:induction false} SanitizeFromIsClean(ns: seq<Node>, i: nat)
    ensures CleanFrom(SanitizeFrom(ns, i), 0)
    decreases ns, |ns| - i
  {
    if i < |ns| {
      SanitizeIsClean(ns[i]);
      SanitizeFromIsClean(ns, i + 1);
      var s := Sanitize(ns[i]);
      var head: seq<Node> := if s.Some? then [s.value] else [];
      CleanConcat(head, SanitizeFrom(ns, i + 1));
    }
  }

  lemma CleanAll(ns: seq<Node>)
    requires forall k :: 0 <= k < |ns| ==> Clean(ns[k])
    ensures CleanFrom(ns, 0)
  {
    CleanSuffix(ns, 0);
  }

  lemma {:induction false} CleanSuffix(ns: seq<Node>, i: nat)
    requires forall k :: 0 <= k < |ns| ==> Clean(ns[k])
    ensures CleanFrom(ns, i)
    decreases |ns| - i
  {
    if i < |ns| {
      CleanSuffix(ns, i + 1);
    }
  }

  lemma {:induction false} CleanElements(ns: seq<Node>, i: nat)
    requires CleanFrom(ns, i)
    ensures forall k :: i <= k < |ns| ==> Clean(ns[k])
    decreases |ns| - i
  {
    if i < |ns| {
      CleanElements(ns, i + 1);
    }
  }

  lemma CleanConcat(a: seq<Node>, b: seq<Node>)
    requires forall k :: 0 <= k < |a| ==> Clean(a[k])
    requires CleanFrom(b, 0)
    ensures CleanFrom(a + b, 0)
  {
    CleanElements(b, 0);
    CleanAll(a + b);
  }

  /** Copying the attributes of a clean attribute list onto an empty element gives the same list. */
  lemma {:induction false} CopyAllowedKeeps(src: seq<Attr>, allowed: seq<string>, acc: seq<Attr>)
    requires AttrsAllowed(acc + src, allowed)
    ensures CopyAllowed(src, allowed, acc) == acc + src
    decreases |src|
  {
    if src != [] {
      var x := src[0];
      forall y | y in acc
        ensures y.name != x.name
      {
        var k :| 0 <= k < |acc| && acc[k] == y;
        assert (acc + src)[k] == y && (acc + src)[|acc|] == x;
      }
      assert x in acc + src;
      var acc2 := SetAttribute(acc, x.name, x.value);
      assert acc2 == acc + [x];
      assert acc2 + src[1..] == acc + src;
      CopyAllowedKeeps(src[1..], allowed, acc2);
    }
  }

  /** A clean tree is left exactly as it is. */
  lemma {:induction false} SanitizeClean(n: Node)
    requires Clean(n)
    ensures Sanitize(n) == Some(n)
    decreases n, 0
  {
    if n.Elem? {
      LowerOfLowerCase(n.tag);
      assert [] + n.attrs == n.attrs;
      CopyAllowedKeeps(n.attrs, AllowedFor(n.tag), []);
      SanitizeFromClean(n.children, 0);
      assert n.children[0..] == n.children;
    }
  }

  lemma {:induction false} SanitizeFromClean(ns: seq<Node>, i: nat)
    requires i <= |ns| && CleanFrom(ns, i)
    ensures SanitizeFrom(ns, i) == ns[i..]
    decreases ns, |ns| - i
  {
    if i < |ns| {
      SanitizeClean(ns[i]);
      SanitizeFromClean(ns, i + 1);
      KeptStep(ns, i, Sanitize(ns[i]), SanitizeFrom(ns, i + 1));
    }
  }

  /** A node kept as it is, in front of the kept rest, rebuilds the suffix. */
  lemma KeptStep(ns: seq<Node>, i: nat, s: Option<Node>, rest: seq<Node>)
    requires i < |ns| && s == Some(ns[i]) && rest == ns[i + 1..]
    ensures (if s.Some? then [s.value] else []) + rest == ns[i..]
  {
    assert ns[i..] == [ns[i]] + ns[i + 1..];
  }

  /** Sanitizing twice is sanitizing once. */
  lemma SanitizeIdempotent(ns: seq<Node>)
    ensures SanitizeAll(SanitizeAll(ns)) == SanitizeAll(ns)
  {
    SanitizeFromIsClean(ns, 0);
    SanitizeFromClean(SanitizeAll(ns), 0);
    assert SanitizeAll(ns)[0..] == SanitizeAll(ns);
  }

  /** Sanitizing keeps the text: a dropped node carries none, and a disallowed element is
      replaced by exactly its text. */
  lemma {:induction false} SanitizeKeepsText(n: Node)
    ensures Sanitize(n).Some? ==> TextContent(Sanitize(n).value) == TextContent(n)
    ensures Sanitize(n).None? ==> TextContent(n) == ""
    decreases n, 0
  {
    if n.Elem? && Lower(n.tag) in AllowedTags {
      SanitizeFromKeepsText(n.children, 0);
      assert n.children[0..] == n.children;
    }
  }

  lemma {:induction false} SanitizeFromKeepsText(ns: seq<Node>, i: nat)
    requires i <= |ns|
    ensures TextContentSeq(SanitizeFrom(ns, i)) == TextContentSeq(ns[i..])
    decreases ns, |ns| - i
  {
    if i < |ns| {
      SanitizeKeepsText(ns[i]);
      SanitizeFromKeepsText(ns, i + 1);
      var s := Sanitize(ns[i]);
      var head: seq<Node> := if s.Some? then [s.value] else [];
      TextContentSeqConcat(head, SanitizeFrom(ns, i + 1));
      if s.Some? {
        TextContentSeqSingle(s.value);
      }
      assert ns[i..][1..] == ns[i + 1..];
    }
  }

  /** The attributes that survive are exactly the allowed ones of the source element,
      names and values unchanged, when the source names are distinct (as they are in a
      parsed element). */
  lemma CopyAllowedFilters(src: seq<Attr>, allowed: seq<string>)
    requires DistinctNames(src)
    ensures forall x :: x in CopyAllowed(src, allowed, []) <==> x in src && x.name in allowed
  {
    CopyAllowedFiltersFrom(src, allowed, []);
  }

  lemma {:induction false} CopyAllowedFiltersFrom(src: seq<Attr>, allowed: seq<string>, acc: seq<Attr>)
    requires DistinctNames(src)
    requires forall x, y :: x in acc && y in src ==> x.name != y.name
    ensures forall x :: x in CopyAllowed(src, allowed, acc) <==> x in acc || (x in src && x.name in allowed)
    decreases |src|
  {
    if src != [] {
      var x := src[0];
      var acc2 := if x.name in allowed then SetAttribute(acc, x.name, x.value) else acc;
      forall y | y in acc
        ensures y.name != x.name
      {
      }
      forall u, v | u in acc2 && v in src[1..]
        ensures u.name != v.name
      {
        var k :| 1 <= k < |src| && src[k] == v;
        assert src[0].name != src[k].name;
        if u !in acc {
          assert u == x;
        }
      }
      CopyAllowedFiltersFrom(src[1..], allowed, acc2);
      assert forall y :: y in src <==> y == x || y in src[1..];
    }
  }
}
