/**
 * The binding processor. `{{dotted.path}}` placeholders in markup are
 * replaced by marker spans
 *   <span class="template-binding" data-binding="path">value</span>
 * whose content is the value found by walking the host's nested bindings one
 * path segment at a time (JavaScript's `reduce((acc, part) => acc && acc[part])`),
 * or the placeholder's own text when that walk gives `undefined`.
 *
 * The placeholder pattern is the regular expression /\{\{([^}]+)\}\}/g. At a
 * position the pattern matches exactly when the text there starts with `{{`,
 * the first `}` after it is at least one character further on, and that `}`
 * is followed by a second `}`: the greedy `[^}]+` stops at the first `}`, and
 * giving characters back cannot help because each of them is not a `}`.
 * A global replace tries each position from left to right and resumes after
 * a match.
 *
 * A second routine rewrites only the text of markers already in the tree.
 */
module Bindings {
  import opened Dom
  import opened Strings

  /** The JavaScript values a binding can hold. */
  datatype Value =
    | Undefined
    | Null
    | Bool(b: bool)
    | Num(n: int)
    | Str(s: string)
    | Obj(fields: map<string, Value>)

  predicate Truthy(v: Value)
  {
    match v
    case Undefined => false
    case Null => false
    case Bool(b) => b
    case Num(n) => n != 0
    case Str(s) => s != ""
    case Obj(_) => true
  }

  /** `acc[part]` on a value the walk has reached. */
  function Get(v: Value, part: string): Value
  {
    if v.Obj? && part in v.fields then v.fields[part] else Undefined
  }

  /** `parts.reduce((acc, part) => acc && acc[part], acc)`. */
  function Resolve(acc: Value, parts: seq<string>): Value
    decreases |parts|
  {
    if parts == [] then acc
    else Resolve(if Truthy(acc) then Get(acc, parts[0]) else acc, parts[1..])
  }

  /** Reference walk: follow the path through objects only, failing on a missing segment
      or on a value that is not an object. */
  function Lookup(v: Value, parts: seq<string>): Option<Value>
  {
    if parts == [] then Some(v)
    else if v.Obj? && parts[0] in v.fields then Lookup(v.fields[parts[0]], parts[1..])
    else None
  }

  /** Where the reference walk succeeds the reduction gives the same value. Where it fails
      the reduction gives a falsy value: `undefined`, or the falsy value (null, 0, "" or
      false) at which the walk stopped, which the short-circuiting `&&` passes through. */
  lemma {:induction false} ResolveMatchesLookup(v: Value, parts: seq<string>)
    ensures Lookup(v, parts).Some? ==> Resolve(v, parts) == Lookup(v, parts).value
    ensures Lookup(v, parts).None? ==> !Truthy(Resolve(v, parts))
    ensures Lookup(v, parts).None? && Resolve(v, parts) != Undefined ==>
              exists k :: 0 <= k < |parts| && Lookup(v, parts[..k]) == Some(Resolve(v, parts))
  {
    if parts != [] {
      if v.Obj? && parts[0] in v.fields {
        var w := v.fields[parts[0]];
        ResolveMatchesLookup(w, parts[1..]);
        if Lookup(v, parts).None? && Resolve(v, parts) != Undefined {
          var k :| 0 <= k < |parts[1..]| && Lookup(w, parts[1..][..k]) == Some(Resolve(v, parts));
          assert parts[..k + 1][1..] == parts[1..][..k];
          assert Lookup(v, parts[..k + 1]) == Some(Resolve(v, parts));
        }
      } else if Truthy(v) {
        ResolveFromUndefined(parts[1..]);
      } else {
        ResolveFromFalsy(v, parts[1..]);
        assert parts[..0] == [];
      }
    }
  }

  lemma {:induction false} ResolveFromUndefined(parts: seq<string>)
    ensures Resolve(Undefined, parts) == Undefined
  {
    if parts != [] {
      ResolveFromUndefined(parts[1..]);
    }
  }

  lemma {:induction false} ResolveFromFalsy(v: Value, parts: seq<string>)
    requires !Truthy(v)
    ensures Resolve(v, parts) == v
  {
    if parts != [] {
      ResolveFromFalsy(v, parts[1..]);
    }
  }

  /** `${value}` / `String(value)` for a value other than `undefined`. */
  function Display(v: Value): string
  {
    match v
    case Undefined => "undefined"
    case Null => "null"
    case Bool(b) => if b then "true" else "false"
    case Num(n) => IntToString(n)
    case Str(s) => s
    case Obj(_) => "[object Object]"
  }

  /** Length of the placeholder match at the start of `s`, or 0 when the pattern does not match there. */
  function MatchLength(s: string): (n: nat)
    ensures n <= |s|
    ensures n > 0 ==> n > 4 && s[..2] == "{{" && s[n - 2..n] == "}}" && '}' !in s[2..n - 2]
  {
    if |s| >= 2 && s[0] == '{' && s[1] == '{' then
      var j := 2 + IndexOf(s[2..], '}');
      if j > 2 && j + 1 < |s| && s[j + 1] == '}' then j + 2 else 0
    else 0
  }

  /** A placeholder `{{k}}` with a non-empty `k` free of `}` matches exactly, whatever follows. */
  lemma MatchPlaceholder(k: string, rest: string)
    requires k != [] && '}' !in k
    ensures MatchLength("{{" + k + "}}" + rest) == |k| + 4
  {
    var s := "{{" + k + "}}" + rest;
    assert s[2..] == k + ("}}" + rest);
    IndexOfPrefix(k, "}}" + rest, '}');
  }

  lemma {:induction false} IndexOfPrefix(a: string, b: string, c: char)
    requires c !in a && b != [] && b[0] == c
    ensures IndexOf(a + b, c) == |a|
  {
    if a != [] {
      assert (a + b)[1..] == a[1..] + b;
      IndexOfPrefix(a[1..], b, c);
    } else {
      assert a + b == b;
    }
  }

  /** The pattern never matches at a position that does not hold `{{`. */
  lemma MatchNeedsOpening(s: string)
    requires !(|s| >= 2 && s[0] == '{' && s[1] == '{')
    ensures MatchLength(s) == 0
  {
  }

  /** One step of the global replace: a single character copied through, or a placeholder. */
  datatype Piece = Plain(c: char) | Token(raw: string, key: string)

  /** The left-to-right pass of the global replace over `s`. */
  function Scan(s: string): seq<Piece>
    decreases |s|
  {
    if s == [] then []
    else
      var n := MatchLength(s);
      if n > 0 then [Token(s[..n], Trim(s[2..n - 2]))] + Scan(s[n..])
      else [Plain(s[0])] + Scan(s[1..])
  }

  /** The text the pieces were cut from. */
  function Raw(ps: seq<Piece>): string
  {
    if ps == [] then "" else (if ps[0].Plain? then [ps[0].c] else ps[0].raw) + Raw(ps[1..])
  }

  /** The scan cuts `s` into pieces without losing or reordering any character. */
  lemma {:induction false} ScanCoversInput(s: string)
    ensures Raw(Scan(s)) == s
    decreases |s|, 1
  {
    if s != [] {
      if MatchLength(s) > 0 {
        TokenCovers(s);
      } else {
        PlainCovers(s);
      }
    }
  }

  lemma {:induction false} TokenCovers(s: string)
    requires MatchLength(s) > 0
    ensures Raw(Scan(s)) == s
    decreases |s|, 0
  {
    var n := MatchLength(s);
    ScanCoversInput(s[n..]);
    RawStep(s, n, Token(s[..n], Trim(s[2..n - 2])), Scan(s[n..]));
  }

  lemma {:induction false} PlainCovers(s: string)
    requires s != [] && MatchLength(s) == 0
    ensures Raw(Scan(s)) == s
    decreases |s|, 0
  {
    ScanCoversInput(s[1..]);
    RawStep(s, 1, Plain(s[0]), Scan(s[1..]));
  }

  /** A piece cut from the front of `s`, followed by pieces that rebuild the remainder, rebuilds `s`. */
  lemma RawStep(s: string, n: nat, p: Piece, tail: seq<Piece>)
    requires 0 < n <= |s| && Raw(tail) == s[n..] && (if p.Plain? then [p.c] else p.raw) == s[..n]
    ensures Raw([p] + tail) == s
  {
    RawCons(p, tail);
    assert s == s[..n] + s[n..];
  }

  lemma RawCons(p: Piece, ps: seq<Piece>)
    ensures Raw([p] + ps) == (if p.Plain? then [p.c] else p.raw) + Raw(ps)
  {
    assert ([p] + ps)[1..] == ps;
  }

  const MarkerHead := "<span" + " class=" + "\"templat" + "e-bindin" + "g\"" + " data-" + "binding=" + "\""
  const MarkerMid := "\">"
  const MarkerTail := "</span>"

  /** The opening tag of a marker span for `key`. */
  function MarkerOpen(key: string): string
  {
    MarkerHead + key + MarkerMid
  }

  /** A marker span for `key` showing `text`. */
  function Marker(key: string, text: string): string
  {
    MarkerOpen(key) + text + MarkerTail
  }

  /** What a placeholder turns into: a marker for the trimmed key showing the resolved value,
      or the placeholder's own text when resolution gives undefined. */
  function RenderToken(raw: string, key: string, bindings: map<string, Value>): string
  {
    var v := Resolve(Obj(bindings), Split(key, '.'));
    Marker(key, if v != Undefined then Display(v) else raw)
  }

  /** The replacement text of one piece. */
  function PieceText(p: Piece, bindings: map<string, Value>): string
  {
    match p
    case Plain(c) => [c]
    case Token(raw, key) => RenderToken(raw, key, bindings)
  }

  function RenderPieces(ps: seq<Piece>, bindings: map<string, Value>): string
  {
    if ps == [] then "" else PieceText(ps[0], bindings) + RenderPieces(ps[1..], bindings)
  }

  /** `text.replace(/\{\{([^}]+)\}\}/g, …)` with the marker-building replacer (the wrapper's
      `processBindings`). */
  function ReplaceTokens(text: string, bindings: map<string, Value>): string
  {
    RenderPieces(Scan(text), bindings)
  }

  /** The function-component editor's `processBindings`: the empty string maps to itself. */
  function ProcessBindings(text: string, bindings: map<string, Value>): string
  {
    if text == "" then "" else ReplaceTokens(text, bindings)
  }

  /** The empty-input guard of the function-component editor changes nothing: both editors'
      binding processors compute the same markup, and the empty string maps to itself. */
  lemma ProcessBindingsIsReplace(text: string, bindings: map<string, Value>)
    ensures ProcessBindings(text, bindings) == ReplaceTokens(text, bindings)
    ensures ProcessBindings("", bindings) == ""
  {
  }

  lemma {:induction false} RenderPiecesConcat(a: seq<Piece>, b: seq<Piece>, bindings: map<string, Value>)
    ensures RenderPieces(a + b, bindings) == RenderPieces(a, bindings) + RenderPieces(b, bindings)
  {
    if a == [] {
      assert a + b == b;
    } else {
      assert (a + b)[1..] == a[1..] + b;
      RenderPiecesConcat(a[1..], b, bindings);
    }
  }

  function Plains(s: string): (ps: seq<Piece>)
    ensures |ps| == |s|
  {
    if s == [] then [] else [Plain(s[0])] + Plains(s[1..])
  }

  lemma {:induction false} RenderPlains(s: string, bindings: map<string, Value>)
    ensures RenderPieces(Plains(s), bindings) == s
  {
    if s != [] {
      RenderPlains(s[1..], bindings);
      assert Plains(s)[1..] == Plains(s[1..]);
    }
  }

  /** Text without `{` in front of the rest is copied through piece by piece. */
  lemma {:induction false} ScanPlainPrefix(a: string, rest: string)
    requires '{' !in a
    ensures Scan(a + rest) == Plains(a) + Scan(rest)
  {
    if a != [] {
      var s := a + rest;
      MatchNeedsOpening(s);
      assert s[1..] == a[1..] + rest;
      ScanPlainPrefix(a[1..], rest);
    } else {
      assert a + rest == rest;
    }
  }

  /** Each placeholder becomes a marker for its trimmed key, and the text before it is copied
      unchanged: for brace-free text `a` in front of `{{k}}`, the output is `a`, the marker,
      and then the output for the rest. */
  lemma ReplaceTokensStep(a: string, k: string, rest: string, bindings: map<string, Value>)
    requires '{' !in a && k != [] && '}' !in k
    ensures ReplaceTokens(a + "{{" + k + "}}" + rest, bindings)
            == a + RenderToken("{{" + k + "}}", Trim(k), bindings) + ReplaceTokens(rest, bindings)
  {
    var tok := "{{" + k + "}}";
    var t := tok + rest;
    assert a + "{{" + k + "}}" + rest == a + t;
    ScanPlainPrefix(a, t);
    ScanPlaceholder(k, rest);
    RenderAround(a, Token(tok, Trim(k)), Scan(rest), bindings);
  }

  /** Plain text, one piece and further pieces render one after the other. */
  lemma RenderAround(a: string, p: Piece, ps: seq<Piece>, bindings: map<string, Value>)
    ensures RenderPieces(Plains(a) + ([p] + ps), bindings) == a + PieceText(p, bindings) + RenderPieces(ps, bindings)
  {
    RenderPiecesConcat(Plains(a), [p] + ps, bindings);
    RenderPlains(a, bindings);
    RenderPiecesConcat([p], ps, bindings);
    RenderSingle(p, bindings);
  }

  lemma ScanPlaceholder(k: string, rest: string)
    requires k != [] && '}' !in k
    ensures Scan("{{" + k + "}}" + rest) == [Token("{{" + k + "}}", Trim(k))] + Scan(rest)
  {
    var tok := "{{" + k + "}}";
    var t := tok + rest;
    MatchPlaceholder(k, rest);
    assert t[..|k| + 4] == tok;
    assert t[|k| + 4..] == rest;
    assert t[2..|k| + 2] == k;
  }

  lemma RenderSingle(p: Piece, bindings: map<string, Value>)
    ensures RenderPieces([p], bindings) == PieceText(p, bindings)
  {
    assert [p][1..] == [];
  }

  /** Markup with no `{{` anywhere is left exactly as it is. */
  lemma {:induction false} ReplaceTokensNoPlaceholder(s: string, bindings: map<string, Value>)
    requires forall i :: 0 <= i < |s| - 1 ==> !(s[i] == '{' && s[i + 1] == '{')
    ensures ReplaceTokens(s, bindings) == s
    decreases |s|
  {
    if s != [] {
      assert MatchLength(s) == 0 by {
        if |s| >= 2 {
          assert !(s[0] == '{' && s[1] == '{');
        }
      }
      ReplaceTokensNoPlaceholder(s[1..], bindings);
      assert Scan(s) == [Plain(s[0])] + Scan(s[1..]);
    }
  }

  /** Markup with no `{` at all is left exactly as it is. */
  lemma ReplaceTokensWithoutBraces(s: string, bindings: map<string, Value>)
    requires '{' !in s
    ensures ReplaceTokens(s, bindings) == s
  {
    forall i | 0 <= i < |s| - 1
      ensures !(s[i] == '{' && s[i + 1] == '{')
    {
      assert s[i] in s;
    }
    ReplaceTokensNoPlaceholder(s, bindings);
  }

  /** A placeholder naming a top-level binding shows that binding's text in its marker; the
      text around it is copied unchanged ("Hello {{name}}!" with name = "World" gives
      "Hello " + the marker showing "World" + "!"). */
  lemma TopLevelPlaceholder(before: string, key: string, after: string, bindings: map<string, Value>)
    requires '{' !in before && '{' !in after
    requires key != [] && '}' !in key && '.' !in key && forall i :: 0 <= i < |key| ==> !IsSpace(key[i])
    requires key in bindings && bindings[key] != Undefined
    ensures ReplaceTokens(before + "{{" + key + "}}" + after, bindings)
            == before + Marker(key, Display(bindings[key])) + after
  {
    ReplaceTokensStep(before, key, after, bindings);
    TrimNoSpace(key);
    SplitNoSeparator(key, '.');
    assert Resolve(Obj(bindings), [key]) == Resolve(bindings[key], []);
    ReplaceTokensWithoutBraces(after, bindings);
  }

  /** A two-segment placeholder walks into the object bound to its first segment: it shows the
      inner value when the object has the second segment, and the placeholder itself when not. */
  lemma NestedPlaceholder(outer: string, inner: string, fields: map<string, Value>, bindings: map<string, Value>)
    requires Segment(outer) && Segment(inner)
    requires outer in bindings && bindings[outer] == Obj(fields)
    ensures inner in fields && fields[inner] != Undefined ==>
              ReplaceTokens("{{" + outer + "." + inner + "}}", bindings)
              == Marker(outer + "." + inner, Display(fields[inner]))
    ensures inner !in fields ==>
              ReplaceTokens("{{" + outer + "." + inner + "}}", bindings)
              == Marker(outer + "." + inner, "{{" + outer + "." + inner + "}}")
  {
    var key := outer + "." + inner;
    assert "{{" + outer + "." + inner + "}}" == "{{" + key + "}}";
    DottedKey(outer, inner);
    SolePlaceholder(key, bindings);
    SplitAtDot(outer, inner);
    ResolveTwo(outer, inner, fields, bindings);
  }

  /** Markup that is a single placeholder becomes a single marker. */
  lemma SolePlaceholder(k: string, bindings: map<string, Value>)
    requires k != [] && '}' !in k && Trim(k) == k
    ensures ReplaceTokens("{{" + k + "}}", bindings) == RenderToken("{{" + k + "}}", k, bindings)
  {
    assert "{{" + k + "}}" == "" + "{{" + k + "}}" + "";
    ReplaceTokensStep("", k, "", bindings);
    assert ReplaceTokens("", bindings) == "";
  }

  /** A path segment as the tests write them: non-empty, without braces, dots or white space. */
  predicate Segment(s: string)
  {
    s != [] && '{' !in s && '}' !in s && '.' !in s && forall i :: 0 <= i < |s| ==> !IsSpace(s[i])
  }

  lemma DottedKey(outer: string, inner: string)
    requires Segment(outer) && Segment(inner)
    ensures '{' !in outer + "." + inner && '}' !in outer + "." + inner
    ensures Trim(outer + "." + inner) == outer + "." + inner
  {
    var key := outer + "." + inner;
    forall i | 0 <= i < |key|
      ensures !IsSpace(key[i]) && key[i] != '{' && key[i] != '}'
    {
      if i < |outer| {
        assert key[i] == outer[i];
      } else if i > |outer| {
        assert key[i] == inner[i - |outer| - 1];
      }
    }
    TrimNoSpace(key);
  }

  lemma ResolveTwo(outer: string, inner: string, fields: map<string, Value>, bindings: map<string, Value>)
    requires outer in bindings && bindings[outer] == Obj(fields)
    ensures Resolve(Obj(bindings), [outer, inner]) == Get(Obj(fields), inner)
  {
    assert [outer, inner][1..] == [inner];
    assert Resolve(Obj(bindings), [outer, inner]) == Resolve(Obj(fields), [inner]);
    assert Resolve(Obj(fields), [inner]) == Resolve(Get(Obj(fields), inner), []);
  }

  lemma TrimNoSpace(s: string)
    requires forall i :: 0 <= i < |s| ==> !IsSpace(s[i])
    ensures Trim(s) == s
  {
    if s != [] {
      assert !IsSpace(s[0]);
      assert s[0..] == s;
      assert !IsSpace(s[|s| - 1]);
    }
  }

  lemma SplitNoSeparator(s: string, sep: char)
    requires sep !in s
    ensures Split(s, sep) == [s]
  {
    IndexOfAbsent(s, sep);
  }

  lemma {:induction false} IndexOfAbsent(s: string, c: char)
    requires c !in s
    ensures IndexOf(s, c) == |s|
  {
    if s != [] {
      assert s[0] != c;
      IndexOfAbsent(s[1..], c);
    }
  }

  lemma SplitAtDot(a: string, b: string)
    requires '.' !in a && '.' !in b
    ensures Split(a + "." + b, '.') == [a, b]
  {
    var s := a + "." + b;
    assert s == a + ("." + b);
    IndexOfPrefix(a, "." + b, '.');
    assert s[..|a|] == a;
    assert s[|a| + 1..] == b;
    SplitNoSeparator(b, '.');
  }

  /** A marker adds no `{` of its own. */
  lemma MarkerWithoutBraces(key: string, text: string)
    requires '{' !in key && '{' !in text
    ensures '{' !in MarkerOpen(key) && '{' !in Marker(key, text)
  {
    MarkerPiecesWithoutBraces();
    assert MarkerOpen(key) == MarkerHead + key + MarkerMid;
    assert Marker(key, text) == MarkerOpen(key) + text + MarkerTail;
  }

  lemma MarkerPiecesWithoutBraces()
    ensures '{' !in MarkerHead && '{' !in MarkerMid && '{' !in MarkerTail
  {
    assert '{' !in "<span" && '{' !in " class=" && '{' !in "\"templat" && '{' !in "e-bindin";
    assert '{' !in "g\"" && '{' !in " data-" && '{' !in "binding=" && '{' !in "\"";
  }

  /** A plain character other than `{`, or a placeholder whose key holds no `{` and which
      resolves to a value whose text holds no `{` (an unresolved one would show `{{…}}`). */
  predicate PieceWithoutBraces(p: Piece, bindings: map<string, Value>)
  {
    match p
    case Plain(c) => c != '{'
    case Token(raw, key) =>
      var v := Resolve(Obj(bindings), Split(key, '.'));
      '{' !in key && v != Undefined && '{' !in Display(v)
  }

  predicate ResolvedWithoutBraces(ps: seq<Piece>, bindings: map<string, Value>)
  {
    forall i :: 0 <= i < |ps| ==> PieceWithoutBraces(ps[i], bindings)
  }

  lemma {:induction false} RenderWithoutBraces(ps: seq<Piece>, bindings: map<string, Value>)
    requires ResolvedWithoutBraces(ps, bindings)
    ensures '{' !in RenderPieces(ps, bindings)
  {
    if ps != [] {
      assert PieceWithoutBraces(ps[0], bindings);
      assert ResolvedWithoutBraces(ps[1..], bindings) by {
        forall i | 0 <= i < |ps[1..]|
          ensures PieceWithoutBraces(ps[1..][i], bindings)
        {
          assert ps[1..][i] == ps[i + 1];
        }
      }
      RenderWithoutBraces(ps[1..], bindings);
      match ps[0]
      case Plain(c) =>
      case Token(raw, key) =>
        MarkerWithoutBraces(key, Display(Resolve(Obj(bindings), Split(key, '.'))));
    }
  }

  /** Running the replace a second time (with any bindings) leaves markup alone when every
      placeholder resolved to brace-free text and the rest of the input had no `{`: the markers
      no longer hold `{{`, so nothing is wrapped twice. */
  lemma SecondPassKeepsResolved(s: string, first: map<string, Value>, second: map<string, Value>)
    requires ResolvedWithoutBraces(Scan(s), first)
    ensures ReplaceTokens(ReplaceTokens(s, first), second) == ReplaceTokens(s, first)
  {
    var out := ReplaceTokens(s, first);
    RenderWithoutBraces(Scan(s), first);
    forall i | 0 <= i < |out| - 1
      ensures !(out[i] == '{' && out[i + 1] == '{')
    {
      assert out[i] in out;
    }
    ReplaceTokensNoPlaceholder(out, second);
  }

  /** A placeholder whose path does not resolve is kept, as typed, inside its marker. */
  lemma UnresolvedShowsPlaceholder(k: string, bindings: map<string, Value>)
    requires k != [] && '}' !in k
    requires Resolve(Obj(bindings), Split(Trim(k), '.')) == Undefined
    ensures ReplaceTokens("{{" + k + "}}", bindings) == Marker(Trim(k), "{{" + k + "}}")
  {
    assert "{{" + k + "}}" == "" + "{{" + k + "}}" + "";
    ReplaceTokensStep("", k, "", bindings);
    assert ReplaceTokens("", bindings) == "";
  }

  /** A marker still showing its placeholder is matched again by a later pass, which wraps a
      second marker inside the first. */
  lemma MarkerWithPlaceholderRewrapped(k: string, bindings: map<string, Value>)
    requires k != [] && '}' !in k && '{' !in k
    ensures ReplaceTokens(Marker(Trim(k), "{{" + k + "}}"), bindings)
            == Marker(Trim(k), RenderToken("{{" + k + "}}", Trim(k), bindings))
  {
    var raw := "{{" + k + "}}";
    var key := Trim(k);
    TrimKeepsAbsent(k, '{');
    MarkerWithoutBraces(key, "");
    var open := MarkerOpen(key);
    assert Marker(key, raw) == open + "{{" + k + "}}" + MarkerTail;
    ReplaceTokensStep(open, k, MarkerTail, bindings);
    ReplaceTokensWithoutBraces(MarkerTail, bindings);
    var rt := RenderToken(raw, key, bindings);
    assert open + rt + MarkerTail == Marker(key, rt);
  }

  /** So re-running the replace over its own output (as the wrapper does after a template is
      inserted) nests markers for every placeholder that stays unresolved. */
  lemma SecondPassRewrapsUnresolved(k: string, first: map<string, Value>, second: map<string, Value>)
    requires k != [] && '}' !in k && '{' !in k
    requires Resolve(Obj(first), Split(Trim(k), '.')) == Undefined
    ensures ReplaceTokens(ReplaceTokens("{{" + k + "}}", first), second)
            == Marker(Trim(k), RenderToken("{{" + k + "}}", Trim(k), second))
  {
    UnresolvedShowsPlaceholder(k, first);
    MarkerWithPlaceholderRewrapped(k, second);
  }

  lemma TrimKeepsAbsent(s: string, c: char)
    requires c !in s
    ensures c !in Trim(s)
  {
    var r := Trim(s);
    var a := LeadingSpaces(s);
    forall i | 0 <= i < |r|
      ensures r[i] != c
    {
      assert r[i] == s[a + i];
    }
  }

  // ---------------------------------------------------------------------------------------
  // Refreshing existing markers when the bindings change.

  predicate IsAsciiSpace(c: char)
  {
    c == ' ' || c == '\t' || c == '\n' || c == '\U{000C}' || c == '\r'
  }

  /** Length of the run of non-space characters at the start of `v`. */
  function TokenLength(v: string): (n: nat)
    ensures n <= |v|
    ensures v != [] && !IsAsciiSpace(v[0]) ==> n > 0
  {
    if v == [] || IsAsciiSpace(v[0]) then 0 else 1 + TokenLength(v[1..])
  }

  /** `c` is one of the space-separated tokens of the class attribute value `v`. */
  predicate HasClassToken(v: string, c: string)
    decreases |v|
  {
    if v == [] then false
    else if IsAsciiSpace(v[0]) then HasClassToken(v[1..], c)
    else v[..TokenLength(v)] == c || HasClassToken(v[TokenLength(v)..], c)
  }

  /** The element matches the selector `.template-binding`. */
  predicate IsMarker(attrs: seq<Attr>)
  {
    var cls := GetAttribute(attrs, "class");
    cls.Some? && HasClassToken(cls.value, "template-binding")
  }

  /** `textContent = s`: one text node, or no children at all for the empty string. */
  function TextChildren(s: string): seq<Node>
  {
    if s == "" then [] else [Text(s)]
  }

  /** The text the refresh writes into a marker for `path`. */
  function RefreshText(path: string, bindings: map<string, Value>): string
  {
    var v := Resolve(Obj(bindings), Split(path, '.'));
    if v != Undefined then Display(v) else "{{" + path + "}}"
  }

  /** The binding-refresh effect over one node: every `.template-binding` element with a
      non-empty `data-binding` gets its text replaced; markers inside it are detached by that
      replacement before the in-order walk reaches them. Everything else is kept. */
  function Refresh(n: Node, bindings: map<string, Value>): Node
  {
    match n
    case Elem(t, a, ch) =>
      var key := GetAttribute(a, "data-binding");
      if IsMarker(a) && key.Some? && key.value != "" then Elem(t, a, TextChildren(RefreshText(key.value, bindings)))
      else Elem(t, a, RefreshSeq(ch, bindings))
    case _ => n
  }

  function RefreshSeq(ns: seq<Node>, bindings: map<string, Value>): (r: seq<Node>)
    ensures |r| == |ns|
    ensures forall i :: 0 <= i < |ns| ==> r[i] == Refresh(ns[i], bindings)
  {
    if ns == [] then [] else [Refresh(ns[0], bindings)] + RefreshSeq(ns[1..], bindings)
  }

  /** A refresh depends only on the latest bindings: refreshing markup that an earlier refresh
      produced gives what refreshing the original would. In particular a refresh is idempotent. */
  lemma {:induction false} RefreshForgetsEarlier(n: Node, first: map<string, Value>, second: map<string, Value>)
    ensures Refresh(Refresh(n, first), second) == Refresh(n, second)
  {
    match n
    case Elem(t, a, ch) =>
      var key := GetAttribute(a, "data-binding");
      if IsMarker(a) && key.Some? && key.value != "" {
        RefreshIgnoresChildren(t, a, TextChildren(RefreshText(key.value, first)), ch, second);
      } else {
        RefreshSeqForgetsEarlier(ch, first, second);
      }
    case _ =>
  }

  /** A marker's refreshed text does not depend on what it held before. */
  lemma RefreshIgnoresChildren(t: string, a: seq<Attr>, ch1: seq<Node>, ch2: seq<Node>, bindings: map<string, Value>)
    requires IsMarker(a) && GetAttribute(a, "data-binding").Some? && GetAttribute(a, "data-binding").value != ""
    ensures Refresh(Elem(t, a, ch1), bindings) == Refresh(Elem(t, a, ch2), bindings)
  {
  }

  lemma {:induction false} RefreshSeqForgetsEarlier(ns: seq<Node>, first: map<string, Value>, second: map<string, Value>)
    ensures RefreshSeq(RefreshSeq(ns, first), second) == RefreshSeq(ns, second)
  {
    if ns != [] {
      RefreshForgetsEarlier(ns[0], first, second);
      RefreshSeqForgetsEarlier(ns[1..], first, second);
      assert RefreshSeq(ns, first)[1..] == RefreshSeq(ns[1..], first);
    }
  }

  /** No element marked as a binding anywhere in the tree. */
  predicate NoMarkers(n: Node)
  {
    match n
    case Elem(_, a, ch) => !IsMarker(a) && NoMarkersSeq(ch)
    case _ => true
  }

  predicate NoMarkersSeq(ns: seq<Node>)
  {
    forall i :: 0 <= i < |ns| ==> NoMarkers(ns[i])
  }

  /** Markup without markers is left exactly as it is. */
  lemma {:induction false} RefreshWithoutMarkers(n: Node, bindings: map<string, Value>)
    requires NoMarkers(n)
    ensures Refresh(n, bindings) == n
  {
    if n.Elem? {
      RefreshSeqWithoutMarkers(n.children, bindings);
    }
  }

  lemma {:induction false} RefreshSeqWithoutMarkers(ns: seq<Node>, bindings: map<string, Value>)
    requires NoMarkersSeq(ns)
    ensures RefreshSeq(ns, bindings) == ns
  {
    if ns != [] {
      RefreshWithoutMarkers(ns[0], bindings);
      RefreshSeqWithoutMarkers(ns[1..], bindings);
    }
  }

  /** The marker element the first pass produces for `key`, showing `shown`. */
  function MarkerNode(key: string, shown: string): Node
  {
    Elem("span", [Attr("class", "template-binding"), Attr("data-binding", key)], [Text(shown)])
  }

  const MarkerClass := "template-binding"

  lemma MarkerClassIsToken()
    ensures HasClassToken(MarkerClass, MarkerClass)
  {
    assert forall i :: 0 <= i < |MarkerClass| ==> !IsAsciiSpace(MarkerClass[i]);
    OwnClassToken(MarkerClass);
  }

  /** A class attribute holding one word has that word as a token. */
  lemma OwnClassToken(v: string)
    requires v != [] && forall i :: 0 <= i < |v| ==> !IsAsciiSpace(v[i])
    ensures HasClassToken(v, v)
  {
    TokenLengthNoSpace(v);
  }

  lemma MarkerNodeIsMarker(key: string, shown: string)
    ensures IsMarker(MarkerNode(key, shown).attrs)
  {
    MarkerClassIsToken();
    assert GetAttribute(MarkerNode(key, shown).attrs, "class") == Some(MarkerClass);
  }

  lemma {:induction false} TokenLengthNoSpace(v: string)
    requires forall i :: 0 <= i < |v| ==> !IsAsciiSpace(v[i])
    ensures TokenLength(v) == |v|
  {
    if v != [] {
      TokenLengthNoSpace(v[1..]);
    }
  }

  /** A marker's text follows the new bindings; text around it is untouched. This is the
      binding-update test: "World" becomes "NodeGeeks" and nothing else changes. */
  lemma RefreshMarkerNode(key: string, shown: string, bindings: map<string, Value>)
    requires key != ""
    ensures Refresh(MarkerNode(key, shown), bindings)
            == Elem("span", MarkerNode(key, shown).attrs, TextChildren(RefreshText(key, bindings)))
  {
    MarkerNodeIsMarker(key, shown);
    assert GetAttribute(MarkerNode(key, shown).attrs, "data-binding") == Some(key);
  }

  lemma RefreshSeqThree(x: Node, y: Node, z: Node, bindings: map<string, Value>)
    ensures RefreshSeq([x, y, z], bindings) == [Refresh(x, bindings), Refresh(y, bindings), Refresh(z, bindings)]
  {
    RefreshSeqCons(y, [z], bindings);
    RefreshSeqCons(x, [y, z], bindings);
  }

  lemma RefreshSeqCons(x: Node, ns: seq<Node>, bindings: map<string, Value>)
    ensures RefreshSeq([x] + ns, bindings) == [Refresh(x, bindings)] + RefreshSeq(ns, bindings)
  {
    assert ([x] + ns)[1..] == ns;
  }

  /** A marker's text follows the new bindings and the text around it is untouched: a marker
      for `name` showing "World" shows "NodeGeeks" once `name` is bound to that. */
  lemma RefreshRewritesMarker(before: string, key: string, shown: string, after: string, bindings: map<string, Value>)
    requires Segment(key) && key in bindings && bindings[key].Str? && bindings[key].s != ""
    ensures RefreshSeq([Text(before), MarkerNode(key, shown), Text(after)], bindings)
            == [Text(before), MarkerNode(key, bindings[key].s), Text(after)]
  {
    RefreshSeqThree(Text(before), MarkerNode(key, shown), Text(after), bindings);
    RefreshMarkerNode(key, shown, bindings);
    SplitNoSeparator(key, '.');
    assert Resolve(Obj(bindings), [key]) == Resolve(bindings[key], []);
  }
}
