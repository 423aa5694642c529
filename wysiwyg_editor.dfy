/**
 * The function-component editor: its binding substitution on mount and on
 * every content change, the refresh of binding markers when the bindings
 * change, the caret snapshot taken before the markup is replaced and restored
 * afterwards, the undo history of raw markup, the template and table
 * insertions, and the font-size level handed to `execCommand`.
 *
 * The editor's markup is held as its list of child nodes `dom`; the browser's
 * HTML parser and serializer are the editor's `parse` and `serialize`
 * functions (setting `innerHTML` is `dom := parse(..)`, reading it is
 * `serialize(dom)`). The window selection is the field `selection`, with
 * paths taken from the editor's root element. A React effect or a
 * `requestAnimationFrame` callback is a method the host calls in the order
 * React would run it.
 */
module WysiwygEditor {
  import opened Dom
  import opened Strings
  import opened Bindings
  import opened Caret
  import opened TableMarkup
  import opened TreeEdit
  import H = History

  // ---------------------------------------------------------------------------
  // handleFontSize: parseInt and the clamped level

  /** The value of `c` as a digit in bases up to 36, or 36 when it is no digit at all. */
  function DigitValue(c: char): nat
  {
    if '0' <= c <= '9' then c as int - '0' as int
    else if 'a' <= c <= 'z' then c as int - 'a' as int + 10
    else if 'A' <= c <= 'Z' then c as int - 'A' as int + 10
    else 36
  }

  predicate IsDigit(c: char, radix: nat)
  {
    DigitValue(c) < radix
  }

  /** Length of the run of digits at the start of `s`. */
  function DigitRun(s: string, radix: nat): (n: nat)
    ensures n <= |s|
    ensures forall k :: 0 <= k < n ==> IsDigit(s[k], radix)
    ensures n < |s| ==> !IsDigit(s[n], radix)
  {
    if s == [] || !IsDigit(s[0], radix) then 0 else 1 + DigitRun(s[1..], radix)
  }

  /** The number a run of digits denotes, most significant digit first. */
  function DigitsValue(s: string, radix: nat): nat
  {
    if s == [] then 0 else DigitsValue(s[..|s| - 1], radix) * radix + DigitValue(s[|s| - 1])
  }

  /** `parseInt(s)` without a radix: white space is skipped, one sign is taken, and the
      number after it is read; without any digit the result is `NaN`, written `None`. */
  function ParseInt(s: string): Option<int>
  {
    ParseSigned(s[LeadingSpaces(s)..])
  }

  /** The number at the start of `t`, after an optional sign. */
  function ParseSigned(t: string): Option<int>
  {
    var negative := |t| > 0 && t[0] == '-';
    var u := if |t| > 0 && (t[0] == '-' || t[0] == '+') then t[1..] else t;
    match ParseUnsigned(u)
    case None => None
    case Some(m) =>
      var value: int := if negative then -(m as int) else m as int;
      Some(value)
  }

  /** The number at the start of `u`: a `0x` or `0X` prefix selects base 16, and the longest
      run of digits is read. */
  function ParseUnsigned(u: string): Option<nat>
  {
    var hex := |u| >= 2 && u[0] == '0' && (u[1] == 'x' || u[1] == 'X');
    var radix := if hex then 16 else 10;
    var v := if hex then u[2..] else u;
    var n := DigitRun(v, radix);
    if n == 0 then None else Some(DigitsValue(v[..n], radix))
  }

  /** `Math.min(7, Math.max(1, Math.floor(sizeNum / 4)))`; `NaN` stays `NaN`. Dafny's `/` is
      `Math.floor` of the quotient here, the divisor being positive. */
  function FontSizeLevel(size: string): (r: Option<int>)
    ensures r.Some? ==> 1 <= r.value <= 7
    ensures r.None? <==> ParseInt(size).None?
  {
    match ParseInt(size)
    case None => None
    case Some(n) => Some(Level(n))
  }

  /** The level of a parsed size of `n` pixels. */
  function Level(n: int): (l: int)
    ensures 1 <= l <= 7
  {
    var q := n / 4;
    if q < 1 then 1 else if q > 7 then 7 else q
  }

  lemma DigitCharValue(d: nat)
    requires d < 10
    ensures DigitValue(DigitChar(d)) == d
  {
    assert "0123456789"[d] as int == '0' as int + d;
  }

  /** The decimal rendering of `n` is a run of digits denoting `n`, starting with `0` only
      for `0` itself. */
  lemma {:induction false} NatToStringDigits(n: nat)
    ensures |NatToString(n)| >= 1
    ensures forall k :: 0 <= k < |NatToString(n)| ==> IsDigit(NatToString(n)[k], 10)
    ensures DigitsValue(NatToString(n), 10) == n
    ensures NatToString(n)[0] == '0' ==> n == 0
  {
    var s := NatToString(n);
    if n < 10 {
      DigitCharValue(n);
      assert s[..|s| - 1] == [];
    } else {
      NatToStringDigits(n / 10);
      DigitCharValue(n % 10);
      assert s[..|s| - 1] == NatToString(n / 10);
      assert s[0] == NatToString(n / 10)[0];
    }
  }

  lemma {:induction false} DigitRunOfDigits(s: string, suffix: string, radix: nat)
    requires forall k :: 0 <= k < |s| ==> IsDigit(s[k], radix)
    requires suffix == [] || !IsDigit(suffix[0], radix)
    ensures DigitRun(s + suffix, radix) == |s|
    decreases |s|
  {
    if s != [] {
      assert (s + suffix)[1..] == s[1..] + suffix;
      DigitRunOfDigits(s[1..], suffix, radix);
    }
  }

  /** The decimal rendering of `n`, followed by anything that does not continue it, is read
      back as `n`. */
  lemma ParseUnsignedOfNatToString(n: nat, suffix: string)
    requires suffix == [] || !IsDigit(suffix[0], 10)
    requires (n == 0 && suffix != []) ==> suffix[0] != 'x' && suffix[0] != 'X'
    ensures ParseUnsigned(NatToString(n) + suffix) == Some(n)
  {
    var d := NatToString(n);
    NatToStringDigits(n);
    DigitRunOfDigits(d, suffix, 10);
    var u := d + suffix;
    assert u[0] == d[0];
    if |u| >= 2 && u[0] == '0' {
      assert |d| == 1;
      assert u[1] == suffix[0];
    }
    assert u[..|d|] == d;
  }

  lemma DigitIsNoSpace(c: char)
    requires IsDigit(c, 10)
    ensures !IsSpace(c) && c != '-' && c != '+'
  {
  }

  lemma ParseIntWithoutSpace(s: string)
    requires s != [] && !IsSpace(s[0])
    ensures ParseInt(s) == ParseSigned(s)
  {
    assert LeadingSpaces(s) == 0;
    assert s[0..] == s;
  }

  lemma ParseSignedNegative(u: string)
    requires ParseUnsigned(u).Some?
    ensures ParseSigned("-" + u) == Some(-(ParseUnsigned(u).value as int))
  {
    assert ("-" + u)[1..] == u;
  }

  lemma ParseSignedUnsigned(u: string)
    requires u != [] && IsDigit(u[0], 10) && ParseUnsigned(u).Some?
    ensures ParseSigned(u) == Some(ParseUnsigned(u).value as int)
  {
    DigitIsNoSpace(u[0]);
  }

  /** `parseInt` reads back the decimal rendering `String(n)` of any integer, whatever follows
      it, as long as that does not continue the number (a digit, or an `x` after a lone `0`). */
  lemma ParseIntOfIntToString(n: int, suffix: string)
    requires suffix == [] || !IsDigit(suffix[0], 10)
    requires (n == 0 && suffix != []) ==> suffix[0] != 'x' && suffix[0] != 'X'
    ensures ParseInt(IntToString(n) + suffix) == Some(n)
  {
    if n < 0 {
      ParseIntOfNegative(n, suffix);
    } else {
      ParseIntOfNatToString(n, suffix);
    }
  }

  lemma ParseIntOfNegative(n: int, suffix: string)
    requires n < 0 && (suffix == [] || !IsDigit(suffix[0], 10))
    ensures ParseInt(IntToString(n) + suffix) == Some(n)
  {
    var a: nat := -n;
    var u := NatToString(a) + suffix;
    ParseUnsignedOfNatToString(a, suffix);
    NegativeRendering(n, a, suffix);
    ParseIntOfMinus(IntToString(n) + suffix, u, a, n);
  }

  lemma NegativeRendering(n: int, a: nat, suffix: string)
    requires n < 0 && a == -n
    ensures IntToString(n) + suffix == "-" + (NatToString(a) + suffix)
  {
  }

  lemma ParseIntOfMinus(x: string, u: string, a: nat, n: int)
    requires x == "-" + u && ParseUnsigned(u) == Some(a) && n == -(a as int)
    ensures ParseInt(x) == Some(n)
  {
    ParseSignedNegative(u);
    ParseIntWithoutSpace(x);
  }

  lemma ParseIntOfNatToString(a: nat, suffix: string)
    requires suffix == [] || !IsDigit(suffix[0], 10)
    requires (a == 0 && suffix != []) ==> suffix[0] != 'x' && suffix[0] != 'X'
    ensures ParseInt(NatToString(a) + suffix) == Some(a)
  {
    var d := NatToString(a);
    var u := d + suffix;
    NatToStringDigits(a);
    ParseUnsignedOfNatToString(a, suffix);
    assert u[0] == d[0];
    DigitIsNoSpace(u[0]);
    ParseSignedUnsigned(u);
    ParseIntWithoutSpace(u);
  }

  /** A size written as a number of pixels maps to the band it falls in: 4 pixels per level,
      everything below 8 pixels (negative sizes included) to 1 and everything from 28 up to 7. */
  lemma FontSizeOfPixels(px: int)
    ensures FontSizeLevel(IntToString(px) + "px") == Some(if px < 8 then 1 else if px >= 28 then 7 else px / 4)
    ensures 8 <= px < 28 ==> 4 * FontSizeLevel(IntToString(px) + "px").value <= px < 4 * FontSizeLevel(IntToString(px) + "px").value + 4
  {
    ParseIntOfIntToString(px, "px");
    LevelOfParsed(IntToString(px) + "px", px);
  }

  lemma LevelOfParsed(size: string, px: int)
    requires ParseInt(size) == Some(px)
    ensures FontSizeLevel(size) == Some(if px < 8 then 1 else if px >= 28 then 7 else px / 4)
    ensures 8 <= px < 28 ==> 4 * FontSizeLevel(size).value <= px < 4 * FontSizeLevel(size).value + 4
  {
    LevelBands(px);
  }

  /** Below 8 pixels the level is 1, from 28 up it is 7, and in between it is the quarter. */
  lemma LevelBands(px: int)
    ensures Level(px) == if px < 8 then 1 else if px >= 28 then 7 else px / 4
    ensures 8 <= px < 28 ==> 4 * Level(px) <= px < 4 * Level(px) + 4
  {
    var q := px / 4;
    QuarterBounds(px);
    assert px < 8 ==> q < 2;
    assert px >= 28 ==> q >= 7;
  }

  lemma QuarterBounds(px: int)
    ensures 4 * (px / 4) <= px < 4 * (px / 4) + 4
  {
  }

  /** A larger parsed size never gives a smaller level. */
  lemma FontSizeMonotone(a: string, b: string)
    requires ParseInt(a).Some? && ParseInt(b).Some? && ParseInt(a).value <= ParseInt(b).value
    ensures FontSizeLevel(a).value <= FontSizeLevel(b).value
  {
  }

  /** A size that does not start with a number gives `NaN`. */
  lemma FontSizeWithoutNumber(size: string)
    requires size == [] || (!IsSpace(size[0]) && !IsDigit(size[0], 10) && size[0] != '-' && size[0] != '+')
    ensures FontSizeLevel(size).None?
  {
    assert LeadingSpaces(size) == 0;
    assert size[0..] == size;
  }

  // ---------------------------------------------------------------------------
  // The editor

  /** The snapshot `getCaretPosition` returns: nothing without a selection. */
  function CaretSnapshot(dom: seq<Node>, selection: Option<Range>): Option<SelectionState>
  {
    if selection.Some? then Some(CaretPosition(dom, selection.value)) else None
  }

  class Editor {
    /** The browser's HTML parser and serializer. */
    const parse: string -> seq<Node>
    const serialize: seq<Node> -> string

    /** The `content` prop, as `setContent` leaves it. */
    var content: string
    var history: seq<string>
    var historyIndex: nat
    /** The editor element's children. */
    var dom: seq<Node>
    var bindings: map<string, Value>
    /** The window selection and the range stored when the table popover opened. */
    var selection: Option<Range>
    var storedSelection: Option<Range>
    /** The `selectionState` shown by the debug panel. */
    var selectionState: Option<SelectionState>

    function Log(): H.History
      reads this
    {
      H.History(history, historyIndex)
    }

    predicate Valid()
      reads this
    {
      H.Valid(Log())
    }

    /** Mounting: the history starts with the initial content and the mount effect sets the
        markup to the content with its bindings substituted. */
    constructor(initial: string, initialBindings: map<string, Value>,
                parse0: string -> seq<Node>, serialize0: seq<Node> -> string)
      ensures Valid() && history == [initial] && historyIndex == 0
      ensures content == initial && bindings == initialBindings
      ensures dom == parse0(ProcessBindings(initial, initialBindings))
      ensures parse == parse0 && serialize == serialize0
      ensures selection.None? && storedSelection.None? && selectionState.None?
    {
      parse := parse0;
      serialize := serialize0;
      content := initial;
      history := [initial];
      historyIndex := 0;
      bindings := initialBindings;
      dom := parse0(ProcessBindings(initial, initialBindings));
      selection := None;
      storedSelection := None;
      selectionState := None;
    }

    /** `saveToHistory`: the new content becomes the last entry, after the shown one. */
    method SaveToHistory(newContent: string)
      requires Valid()
      modifies this
      ensures Valid() && Log() == H.Save(old(Log()), newContent)
      ensures content == old(content) && dom == old(dom) && bindings == old(bindings)
      ensures selection == old(selection) && storedSelection == old(storedSelection)
      ensures selectionState == old(selectionState)
    {
      history := history[..historyIndex + 1] + [newContent];
      historyIndex := |history| - 1;
    }

    /** `handleChange`: the user has edited the markup into `edited`; the new markup becomes
        the content and is saved. */
    method HandleChange(edited: seq<Node>)
      requires Valid()
      modifies this
      ensures Valid() && dom == edited && content == serialize(edited)
      ensures Log() == H.Save(old(Log()), serialize(edited))
      ensures bindings == old(bindings) && selection == old(selection)
      ensures storedSelection == old(storedSelection) && selectionState == old(selectionState)
    {
      dom := edited;
      var newContent := serialize(dom);
      content := newContent;
      SaveToHistory(newContent);
    }

    /** `getCaretPosition`. */
    method GetCaret() returns (s: Option<SelectionState>)
      ensures s == CaretSnapshot(dom, selection)
      ensures s.Some? ==> s.value.length == s.value.end - s.value.start
    {
      if selection.Some? {
        var state := GetCaretPosition(dom, selection.value);
        s := Some(state);
      } else {
        s := None;
      }
    }

    /** `setCaretPosition`, run from the animation frame after the markup was replaced: the
        range found for the snapshot becomes the selection; when a search misses, the
        selection stays as it was. */
    method SetCaretPosition(state: SelectionState)
      modifies this
      ensures selectionState == Some(state)
      ensures selection == if RestoredRange(dom, state).Some? then RestoredRange(dom, state) else old(selection)
      ensures RestoredRange(dom, state).Some? ==>
        selection.Some? && Position(selection.value.start, selection.value.end) != After
      ensures content == old(content) && history == old(history) && historyIndex == old(historyIndex)
      ensures dom == old(dom) && bindings == old(bindings) && storedSelection == old(storedSelection)
    {
      selectionState := Some(state);
      var r := RestoreRange(dom, state);
      if r.Some? {
        RestoredRangeOrdered(dom, state);
        selection := r;
      }
    }

    /** `handleUndo`: one step back, replacing the markup with the earlier entry as it was saved.
        Returns the caret snapshot taken before the markup changed, for the animation frame. */
    method HandleUndo() returns (restore: Option<SelectionState>)
      requires Valid()
      modifies this
      ensures Valid() && Log() == H.Undo(old(Log()))
      ensures H.CanUndo(old(Log())) ==>
        content == H.Current(Log()) && dom == parse(content) && restore == CaretSnapshot(old(dom), old(selection))
      ensures !H.CanUndo(old(Log())) ==> content == old(content) && dom == old(dom) && restore.None?
      ensures bindings == old(bindings) && selection == old(selection)
      ensures storedSelection == old(storedSelection) && selectionState == old(selectionState)
    {
      restore := None;
      if historyIndex > 0 {
        historyIndex := historyIndex - 1;
        var previousContent := history[historyIndex];
        restore := GetCaret();
        dom := parse(previousContent);
        content := previousContent;
      }
    }

    /** `handleRedo`: one step forward, the mirror image of `HandleUndo`. */
    method HandleRedo() returns (restore: Option<SelectionState>)
      requires Valid()
      modifies this
      ensures Valid() && Log() == H.Redo(old(Log()))
      ensures H.CanRedo(old(Log())) ==>
        content == H.Current(Log()) && dom == parse(content) && restore == CaretSnapshot(old(dom), old(selection))
      ensures !H.CanRedo(old(Log())) ==> content == old(content) && dom == old(dom) && restore.None?
      ensures bindings == old(bindings) && selection == old(selection)
      ensures storedSelection == old(storedSelection) && selectionState == old(selectionState)
    {
      restore := None;
      if historyIndex < |history| - 1 {
        historyIndex := historyIndex + 1;
        var nextContent := history[historyIndex];
        restore := GetCaret();
        dom := parse(nextContent);
        content := nextContent;
      }
    }

    /** The effect on `[content, bindings]`: the markup is replaced by the content with its
        bindings substituted, unless it already serializes to exactly that. Once it has run,
        the markup serializes to the substituted content whenever the parser and serializer
        agree on it. */
    method ContentEffect()
      modifies this
      ensures var processed := ProcessBindings(content, bindings);
        dom == (if serialize(old(dom)) == processed then old(dom) else parse(processed))
      ensures var processed := ProcessBindings(content, bindings);
        serialize(parse(processed)) == processed ==> serialize(dom) == processed
      ensures content == old(content) && history == old(history) && historyIndex == old(historyIndex)
      ensures bindings == old(bindings) && selection == old(selection)
      ensures storedSelection == old(storedSelection) && selectionState == old(selectionState)
    {
      var processed := ProcessBindings(content, bindings);
      if serialize(dom) != processed {
        dom := parse(processed);
      }
    }

    /** The effect on `[bindings]`: every binding marker shows the new value of its path (or
        its placeholder), and the resulting markup becomes the content, without a history
        entry. */
    method BindingsEffect(newBindings: map<string, Value>)
      modifies this
      ensures bindings == newBindings && dom == RefreshSeq(old(dom), newBindings)
      ensures content == serialize(dom)
      ensures history == old(history) && historyIndex == old(historyIndex)
      ensures selection == old(selection) && storedSelection == old(storedSelection)
      ensures selectionState == old(selectionState)
    {
      bindings := newBindings;
      dom := RefreshSeq(dom, bindings);
      content := serialize(dom);
    }

    /** `handleTemplate`: the markup shows the template with its bindings substituted, while the
        content and the history receive the raw template. Returns the caret snapshot. */
    method HandleTemplate(templateContent: string) returns (restore: Option<SelectionState>)
      requires Valid()
      modifies this
      ensures Valid() && Log() == H.Save(old(Log()), templateContent)
      ensures dom == parse(ProcessBindings(templateContent, bindings)) && content == templateContent
      ensures restore == CaretSnapshot(old(dom), old(selection))
      ensures bindings == old(bindings) && selection == old(selection)
      ensures storedSelection == old(storedSelection) && selectionState == old(selectionState)
    {
      restore := GetCaret();
      dom := parse(ProcessBindings(templateContent, bindings));
      content := templateContent;
      SaveToHistory(templateContent);
    }

    /** Opening the table popover stores the current range, if there is one. */
    method ShowTablePopover()
      modifies this
      ensures storedSelection == if selection.Some? then selection else old(storedSelection)
      ensures content == old(content) && history == old(history) && historyIndex == old(historyIndex)
      ensures dom == old(dom) && bindings == old(bindings) && selection == old(selection)
      ensures selectionState == old(selectionState)
    {
      if selection.Some? {
        storedSelection := selection;
      }
    }

    /** `handleTable`: without a stored range nothing happens. Otherwise the stored range is
        selected again, the table markup is parsed, the range's content is replaced by the
        parsed nodes (the first of which lands where the range started), and the new markup
        becomes the content and is saved. */
    method HandleTable(rows: int, columns: int, borderColor: string, cellPadding: string)
      requires Valid()
      modifies this
      ensures Valid() && bindings == old(bindings) && selectionState == old(selectionState)
      ensures storedSelection == old(storedSelection)
      ensures old(storedSelection).None? ==>
        content == old(content) && Log() == old(Log()) && dom == old(dom) && selection == old(selection)
      ensures old(storedSelection).Some? ==>
        selection == old(storedSelection) && content == serialize(dom) && Log() == H.Save(old(Log()), content)
      ensures old(storedSelection).Some? ==>
        var r := old(storedSelection).value;
        var nodes := parse(TableHtml(rows, columns, borderColor, cellPadding));
        (Spliceable(Root(old(dom)), r) ==> Root(dom) == Splice(Root(old(dom)), r, nodes)) &&
        (!Spliceable(Root(old(dom)), r) ==> dom == old(dom)) &&
        (Spliceable(Root(old(dom)), r) && nodes != [] ==>
          ValidPath(Root(dom), InsertionPath(Root(old(dom)), r)) &&
          At(Root(dom), InsertionPath(Root(old(dom)), r)) == nodes[0])
    {
      if storedSelection.None? {
        return;
      }
      var r := storedSelection.value;
      selection := storedSelection;
      var tableHtml := BuildTable(rows, columns, borderColor, cellPadding);
      var fragment := parse(tableHtml);
      if Spliceable(Root(dom), r) {
        SpliceKeepsRoot(Root(dom), r, fragment);
        if fragment != [] {
          SpliceShape(Root(dom), r, fragment);
        }
        dom := Splice(Root(dom), r, fragment).children;
      }
      var newContent := serialize(dom);
      content := newContent;
      SaveToHistory(newContent);
    }
  }
}
