/**
 * The React wrapper around the class-based editor: it creates the editor on
 * mount, re-runs the binding processor over the editor's markup whenever the
 * bindings change, maps each toolbar control to a format request (a tag to
 * toggle, or a tag with a `style` attribute to wrap the selection in), fills
 * the editor from a template, and builds the markup of a table.
 *
 * The wrapper writes the editor's markup directly (`editorElement.innerHTML`);
 * that raises no `input` event, so those writes leave the editor's content
 * and history as they were.
 *
 * The table, link and image controls call an `insert` method that the editor
 * class does not have: the call throws after the markup is built, so nothing
 * is inserted and the table popover stays open. `HandleTable` models that;
 * `Insert` and `HandleTableInserting` model the evident intent (insert the
 * markup at the selection through the editor's own update path), and the
 * toolbar dispatch uses them.
 */
module EditorWrapper {
  import opened Dom
  import opened Strings
  import opened Caret
  import opened TreeEdit
  import opened Sanitizer
  import opened Bindings
  import opened TableMarkup
  import FS = FormatState
  import R = RichEditor
  import H = History

  // ---------------------------------------------------------------------------
  // Elements created with attributes

  /** `Object.entries(attributes)`: name and value pairs in order. */
  type Entries = seq<(string, string)>

  /** The attributes of `document.createElement(format)` after `setAttribute(key, value)` for
      each entry in order; in an HTML document `setAttribute` lower-cases the name. */
  function ElementAttrs(entries: Entries): seq<Attr>
    decreases |entries|
  {
    if entries == [] then []
    else
      var last := entries[|entries| - 1];
      SetAttribute(ElementAttrs(entries[..|entries| - 1]), Lower(last.0), last.1)
  }

  /** `getAttribute` after `setAttribute`: the name set has the new value, any other name keeps
      the value it had. */
  lemma {:induction false} GetAfterSet(attrs: seq<Attr>, name: string, value: string, other: string)
    ensures GetAttribute(SetAttribute(attrs, name, value), name) == Some(value)
    ensures other != name ==> GetAttribute(SetAttribute(attrs, name, value), other) == GetAttribute(attrs, other)
    decreases |attrs|
  {
    if attrs != [] && attrs[0].name != name {
      GetAfterSet(attrs[1..], name, value, other);
    }
  }

  /** The last entry for a name decides its value, and the entries for other names are not
      disturbed by it. */
  lemma LastEntryWins(entries: Entries, key: string, value: string, other: string)
    ensures GetAttribute(ElementAttrs(entries + [(key, value)]), Lower(key)) == Some(value)
    ensures other != Lower(key) ==>
      GetAttribute(ElementAttrs(entries + [(key, value)]), other) == GetAttribute(ElementAttrs(entries), other)
  {
    assert (entries + [(key, value)])[..|entries|] == entries;
    GetAfterSet(ElementAttrs(entries), Lower(key), value, other);
  }

  /** No attribute name appears twice on the created element. */
  lemma {:induction false} ElementAttrsDistinct(entries: Entries)
    ensures DistinctNames(ElementAttrs(entries))
    decreases |entries|
  {
    if entries != [] {
      var last := entries[|entries| - 1];
      ElementAttrsDistinct(entries[..|entries| - 1]);
      SetAttributeDistinct(ElementAttrs(entries[..|entries| - 1]), Lower(last.0), last.1);
    }
  }

  /** `document.createElement(format)` and the `for … of Object.entries(attributes)` loop. */
  method CreateElement(format: string, entries: Entries) returns (e: Node)
    ensures e == Elem(Lower(format), ElementAttrs(entries), [])
  {
    var attrs: seq<Attr> := [];
    for k := 0 to |entries|
      invariant attrs == ElementAttrs(entries[..k])
    {
      assert entries[..k + 1][..k] == entries[..k];
      attrs := SetAttribute(attrs, Lower(entries[k].0), entries[k].1);
    }
    assert entries[..|entries|] == entries;
    e := Elem(Lower(format), attrs, []);
  }

  // ---------------------------------------------------------------------------
  // Reading back a style the toolbar writes

  lemma TrimLeadingSpace(s: string)
    ensures Trim(" " + s) == Trim(s)
  {
    var t := " " + s;
    assert t[1..] == s;
    assert LeadingSpaces(t) == 1 + LeadingSpaces(s);
    assert t[LeadingSpaces(t)..] == s[LeadingSpaces(s)..];
  }

  /** The declaration `property: value` a toolbar control writes into a `style` attribute. */
  function Declaration(property: string, value: string): string
  {
    property + ": " + value
  }

  lemma DeclarationWithoutSemicolon(property: string, value: string)
    requires ';' !in property && ';' !in value
    ensures ';' !in Declaration(property, value)
  {
    var d := Declaration(property, value);
    assert d == property + (": " + value);
    assert ';' !in ": " + value;
  }

  /** The declaration names `property`, and its value part is ` value`. */
  lemma DeclarationParts(property: string, value: string)
    requires PlainProperty(property)
    ensures var d := Declaration(property, value);
      IndexOf(d, ':') == |property| && d[..|property|] == property && d[|property| + 1..] == " " + value
  {
    var d := Declaration(property, value);
    assert d == property + (": " + value);
    IndexOfPrefix(property, ": " + value, ':');
  }

  lemma DeclarationDeclares(property: string, value: string)
    requires PlainProperty(property)
    ensures FS.Declares(Declaration(property, value), property)
    ensures FS.DeclaredValue(Declaration(property, value)) == Lower(Trim(value))
  {
    DeclarationParts(property, value);
    TrimNoSpace(property);
    LowerOfLowerCase(property);
    TrimLeadingSpace(value);
  }

  /** The declaration that a toolbar control writes into a `style` attribute is read back by the
      inline-style parser as the value, trimmed and lower-cased. */
  lemma StyleRoundTrip(property: string, value: string)
    requires PlainProperty(property) && ';' !in value
    ensures FS.StyleValue([Attr("style", Declaration(property, value))], property) == Lower(Trim(value))
  {
    var d := Declaration(property, value);
    DeclarationWithoutSemicolon(property, value);
    SplitNoSeparator(d, ';');
    DeclarationDeclares(property, value);
    assert GetAttribute([Attr("style", d)], "style") == Some(d);
    assert FS.DeclarationValue([d], property) == FS.DeclaredValue(d);
  }

  // ---------------------------------------------------------------------------
  // The toolbar

  /** The toolbar's controls, with the value a control passes (the `prompt` answer for the link
      and image buttons, `None` when it was cancelled). */
  datatype Control =
    | BoldButton | ItalicButton | UnderlineButton
    | FontSizeChoice(size: string) | FontFamilyChoice(font: string) | ColorChoice(color: string)
    | LinkButton(url: Option<string>) | ImageButton(url: Option<string>)
    | UndoButton | RedoButton
    | AlignLeftButton | AlignCenterButton | AlignRightButton
    | BulletListButton | OrderedListButton | IndentButton | OutdentButton

  /** What a control asks of the editor. */
  datatype Request =
    | FormatRequest(format: string, attributes: Option<Entries>)
    | InsertRequest(html: string)
    | UndoRequest
    | RedoRequest
    | NoRequest

  function StyleAttribute(declaration: string): Option<Entries>
  {
    Some([("style", declaration)])
  }

  /** The toolbar callbacks: the three inline formats and the two lists toggle a tag, the font,
      colour, alignment and indentation controls wrap the selection in an element with one
      `style` declaration, and a link or image is inserted only when the prompt gave a
      non-empty URL. */
  function ToolbarRequest(c: Control): (q: Request)
    ensures q.FormatRequest? && q.attributes.Some? ==>
      |q.attributes.value| == 1 && q.attributes.value[0].0 == "style"
    ensures q.NoRequest? <==> (c.LinkButton? || c.ImageButton?) && (c.url.None? || c.url.value == "")
  {
    match c
    case BoldButton => FormatRequest("strong", None)
    case ItalicButton => FormatRequest("em", None)
    case UnderlineButton => FormatRequest("u", None)
    case FontSizeChoice(size) => FormatRequest("span", StyleAttribute(Declaration("font-size", size)))
    case FontFamilyChoice(font) => FormatRequest("span", StyleAttribute(Declaration("font-family", font)))
    case ColorChoice(color) => FormatRequest("span", StyleAttribute(Declaration("color", color)))
    case LinkButton(url) =>
      if url.Some? && url.value != "" then InsertRequest("<a href=\"" + url.value + "\">" + url.value + "</a>")
      else NoRequest
    case ImageButton(url) =>
      if url.Some? && url.value != "" then InsertRequest("<img src=\"" + url.value + "\" alt=\"\"/>")
      else NoRequest
    case UndoButton => UndoRequest
    case RedoButton => RedoRequest
    case AlignLeftButton => FormatRequest("div", StyleAttribute("text-align: left"))
    case AlignCenterButton => FormatRequest("div", StyleAttribute("text-align: center"))
    case AlignRightButton => FormatRequest("div", StyleAttribute("text-align: right"))
    case BulletListButton => FormatRequest("ul", None)
    case OrderedListButton => FormatRequest("ol", None)
    case IndentButton => FormatRequest("div", StyleAttribute("margin-left: 40px"))
    case OutdentButton => FormatRequest("div", StyleAttribute("margin-left: 0px"))
  }

  /** The tags the bold, italic and underline buttons toggle are the ones the toolbar's format
      state recognises, so after wrapping a selection the button shows as active. */
  lemma InlineButtonsAreRecognised(ch: seq<Node>)
    ensures var q := ToolbarRequest(BoldButton);
      q.FormatRequest? && FS.IsFormatActiveForNode(R.FormatElement(q.format, ch), "bold")
    ensures var q := ToolbarRequest(ItalicButton);
      q.FormatRequest? && FS.IsFormatActiveForNode(R.FormatElement(q.format, ch), "italic")
    ensures var q := ToolbarRequest(UnderlineButton);
      q.FormatRequest? && FS.IsFormatActiveForNode(R.FormatElement(q.format, ch), "underline")
  {
    assert ToolbarRequest(BoldButton) == FormatRequest("strong", None);
    assert ToolbarRequest(ItalicButton) == FormatRequest("em", None);
    assert ToolbarRequest(UnderlineButton) == FormatRequest("u", None);
    FormatElementOfLowerCase("strong", ch);
    FormatElementOfLowerCase("em", ch);
    FormatElementOfLowerCase("u", ch);
    FS.CreatedFormatsAreRecognised([], ch);
  }

  lemma FormatElementOfLowerCase(tag: string, ch: seq<Node>)
    requires tag == "strong" || tag == "em" || tag == "u"
    ensures R.FormatElement(tag, ch) == Elem(tag, [], ch)
  {
    assert LowerCase(tag);
    LowerOfLowerCase(tag);
  }

  /** The `style` entry becomes the element's only attribute. */
  lemma StyleAttributeElement(declaration: string)
    ensures ElementAttrs(StyleAttribute(declaration).value) == [Attr("style", declaration)]
  {
    assert LowerCase("style");
    LowerOfLowerCase("style");
    assert [("style", declaration)][..0] == [];
  }

  /** A property name the toolbar writes, as the inline-style parser compares names. */
  predicate PlainProperty(property: string)
  {
    LowerCase(property) && ':' !in property && ';' !in property &&
    forall i :: 0 <= i < |property| ==> !IsSpace(property[i])
  }

  /** The element a style control creates gives back the value written for its property. */
  lemma StyleElementReadBack(property: string, v: string)
    requires PlainProperty(property) && ';' !in v
    ensures FS.StyleValue(ElementAttrs(StyleAttribute(Declaration(property, v)).value), property) == Lower(Trim(v))
  {
    StyleAttributeElement(Declaration(property, v));
    StyleRoundTrip(property, v);
  }

  lemma FontSizeIsPlain()
    ensures PlainProperty("font-size")
  {
    assert "font-size" == ['f', 'o', 'n', 't', '-', 's', 'i', 'z', 'e'];
  }

  lemma FontFamilyIsPlain()
    ensures PlainProperty("font-family")
  {
    assert "font-family" == ['f', 'o', 'n', 't', '-', 'f', 'a', 'm', 'i', 'l', 'y'];
  }

  lemma ColorIsPlain()
    ensures PlainProperty("color")
  {
    assert "color" == ['c', 'o', 'l', 'o', 'r'];
  }

  /** The font size a control passes is what the created element's inline style gives back
      for `font-size` (for a value without `;`); likewise below for the family and colour. */
  lemma FontSizeReadBack(v: string)
    requires ';' !in v
    ensures FS.StyleValue(ElementAttrs(ToolbarRequest(FontSizeChoice(v)).attributes.value), "font-size") == Lower(Trim(v))
  {
    FontSizeIsPlain();
    assert ToolbarRequest(FontSizeChoice(v)).attributes == StyleAttribute(Declaration("font-size", v));
    StyleElementReadBack("font-size", v);
  }

  lemma FontFamilyReadBack(v: string)
    requires ';' !in v
    ensures FS.StyleValue(ElementAttrs(ToolbarRequest(FontFamilyChoice(v)).attributes.value), "font-family") == Lower(Trim(v))
  {
    FontFamilyIsPlain();
    assert ToolbarRequest(FontFamilyChoice(v)).attributes == StyleAttribute(Declaration("font-family", v));
    StyleElementReadBack("font-family", v);
  }

  lemma ColorReadBack(v: string)
    requires ';' !in v
    ensures FS.StyleValue(ElementAttrs(ToolbarRequest(ColorChoice(v)).attributes.value), "color") == Lower(Trim(v))
  {
    ColorIsPlain();
    assert ToolbarRequest(ColorChoice(v)).attributes == StyleAttribute(Declaration("color", v));
    StyleElementReadBack("color", v);
  }

  // ---------------------------------------------------------------------------
  // The wrapper component

  class Wrapper {
    const parse: string -> seq<Node>
    const serialize: seq<Node> -> string

    /** `editorInstanceRef.current`: no editor before the component is mounted. */
    var editor: R.RichEditor?
    /** The `bindings` prop of the latest render. */
    var bindings: map<string, Value>
    var showTablePopover: bool

    ghost predicate Valid()
      reads this, editor
    {
      editor != null ==> editor.Valid() && editor.parse == parse && editor.serialize == serialize
    }

    constructor(parse0: string -> seq<Node>, serialize0: seq<Node> -> string, bindings0: map<string, Value>)
      ensures Valid() && editor == null && bindings == bindings0 && !showTablePopover
      ensures parse == parse0 && serialize == serialize0
    {
      parse := parse0;
      serialize := serialize0;
      editor := null;
      bindings := bindings0;
      showTablePopover := false;
    }

    /** The effects of the first commit as written: `ModernEditor`, the class the mount effect
        constructs, is not exported by the editor module (its class is `RichEditor` and is not
        exported at all), so the construction throws and the editor reference is never set;
        the binding effect then finds no editor. */
    method MountAsWritten(content: string)
      requires Valid()
      ensures Valid() && editor == old(editor)
      ensures bindings == old(bindings) && showTablePopover == old(showTablePopover)
    {
      if editor == null {
        // `new ModernEditor(...)` throws here: the reference stays null.
        ApplyBindings();
      }
    }

    /** The effects of the first commit as evidently intended, taking the imported editor to be
        the class-based editor: it is created over `content` (once), then the binding effect
        runs over its markup. */
    method Mount(content: string)
      requires Valid()
      modifies this
      ensures Valid() && bindings == old(bindings) && showTablePopover == old(showTablePopover)
      ensures old(editor) == null ==>
        editor != null && fresh(editor) &&
        editor.Log() == H.History([content], 0) && editor.content == content && editor.changes == [] &&
        editor.dom == parse(ReplaceTokens(serialize(parse(content)), bindings))
      ensures old(editor) != null ==> editor == old(editor)
    {
      if editor == null {
        editor := new R.RichEditor(content, parse, serialize);
        ApplyBindings();
      }
    }

    /** The binding effect: the editor's markup is read, its placeholders are replaced, and the
        result is written back. */
    method ApplyBindings()
      requires Valid()
      modifies editor
      ensures Valid()
      ensures editor != null ==>
        editor.dom == parse(ReplaceTokens(serialize(old(editor.dom)), bindings)) &&
        editor.content == old(editor.content) && editor.Log() == old(editor.Log()) &&
        editor.changes == old(editor.changes)
    {
      if editor != null {
        editor.dom := editor.parse(ReplaceTokens(editor.serialize(editor.dom), bindings));
      }
    }

    /** A render with new bindings, and the effect that follows it. */
    method BindingsChanged(b: map<string, Value>)
      requires Valid()
      modifies this, editor
      ensures Valid() && editor == old(editor) && bindings == b && showTablePopover == old(showTablePopover)
      ensures editor != null ==>
        editor.dom == parse(ReplaceTokens(serialize(old(editor.dom)), b)) &&
        editor.content == old(editor.content) && editor.Log() == old(editor.Log()) &&
        editor.changes == old(editor.changes)
    {
      bindings := b;
      ApplyBindings();
    }

    /** What `handleFormat(format, attributes)` with the selection `sel` leaves in the editor,
        from the markup `dom0`, the content `content0`, the log `log0` and the recorded changes
        `changes0`. With attributes, an element with them wraps the selection (`surroundContents`,
        modelled for a range inside one node) and the markup is normalized, without going through
        the editor's update path: the log and the changes stay. Without attributes the editor's
        own `toggleFormat` runs, finding `existing`, as `ToggledFrom` says. `before` is the
        markup before normalization and `merged` the result of the merge loops. */
    ghost predicate Formatted(dom0: seq<Node>, content0: string, log0: H.History, changes0: seq<string>,
                              format: string, attributes: Option<Entries>, sel: Option<Range>,
                              existing: Option<Path>, before: seq<Node>, merged: seq<Node>)
      requires editor != null && H.Valid(log0)
      reads this, editor
    {
      var root := Root(dom0);
      (attributes.Some? ==>
        (sel.Some? && Spliceable(root, sel.value) ==>
          var e := Elem(Lower(format), ElementAttrs(attributes.value), Extract(root, sel.value));
          (SpliceKeepsRoot(root, sel.value, [e]); before == Splice(root, sel.value, [e]).children)) &&
        (!(sel.Some? && Spliceable(root, sel.value)) ==> before == dom0) &&
        editor.Normalized(before, merged, editor.dom) &&
        TextContentSeq(merged) == TextContentSeq(dom0) &&
        editor.content == content0 && editor.Log() == log0 && editor.changes == changes0) &&
      (attributes.None? ==>
        editor.ToggledFrom(dom0, content0, log0, changes0, format, sel, existing, before, merged))
    }

    /** `handleFormat(format, attributes)` with the selection `sel`, as `Formatted` says. */
    method HandleFormat(format: string, attributes: Option<Entries>, sel: Option<Range>)
      returns (existing: Option<Path>, ghost before: seq<Node>, ghost merged: seq<Node>)
      requires Valid()
      requires editor != null && sel.Some? ==> RangeInside(Root(editor.dom), sel.value)
      modifies editor
      ensures Valid()
      ensures editor != null ==>
        Formatted(old(editor.dom), old(editor.content), old(editor.Log()), old(editor.changes),
                  format, attributes, sel, existing, before, merged)
    {
      existing := None;
      before := [];
      merged := [];
      if editor == null {
        return;
      }
      if attributes.Some? {
        var element := CreateElement(format, attributes.value);
        var root := Root(editor.dom);
        if sel.Some? && Spliceable(root, sel.value) {
          var r := sel.value;
          var e := Elem(element.tag, element.attrs, Extract(root, r));
          SpliceKeepsRoot(root, r, [e]);
          WrapKeepsText(root, r, element.tag, element.attrs);
          editor.dom := Splice(root, r, [e]).children;
          assert TextContentSeq(editor.dom) == TextContentSeq(old(editor.dom)) by {
            assert Root(editor.dom) == Splice(root, r, [e]);
          }
        }
        before := editor.dom;
        merged := editor.NormalizeContent();
        editor.NormalizedKeepsText(before, merged, editor.dom);
      } else {
        var caret;
        existing, caret, before, merged := editor.ToggleFormat(format, sel);
      }
    }

    /** `handleTemplate`: the template's placeholders are replaced with the current bindings and
        the result becomes the editor's markup. */
    method HandleTemplate(templateContent: string)
      requires Valid()
      modifies editor
      ensures Valid()
      ensures editor != null ==>
        editor.dom == parse(ReplaceTokens(templateContent, bindings)) &&
        editor.content == old(editor.content) && editor.Log() == old(editor.Log()) &&
        editor.changes == old(editor.changes)
    {
      if editor != null {
        editor.dom := editor.parse(ReplaceTokens(templateContent, bindings));
      }
    }

    /** `handleTable` as written: the table markup is built, and then the call to the missing
        `insert` throws, so no state changes (this method modifies nothing) and the popover is
        not closed. */
    method HandleTable(rows: int, columns: int, borderColor: string, cellPadding: string) returns (html: string)
      ensures editor != null ==> html == TableHtml(rows, columns, borderColor, cellPadding)
      ensures editor == null ==> html == ""
      ensures showTablePopover == old(showTablePopover)
      ensures editor != null ==> editor.dom == old(editor.dom) && editor.Log() == old(editor.Log())
    {
      html := "";
      if editor == null {
        return;
      }
      html := BuildTable(rows, columns, borderColor, cellPadding);
    }

    /** What the `insert(html)` the toolbar callbacks expect leaves in the editor, from the
        markup `dom0`, the content `content0`, the log `log0` and the changes `changes0`: the
        parsed markup takes the place of a range inside one node, and the new markup goes
        through the editor's update path; any other selection leaves everything as it was. */
    ghost predicate InsertedMarkup(dom0: seq<Node>, content0: string, log0: H.History, changes0: seq<string>,
                                   html: string, sel: Option<Range>)
      requires editor != null && H.Valid(log0)
      reads this, editor
    {
      var root := Root(dom0);
      (sel.Some? && Spliceable(root, sel.value) ==>
        var r := sel.value;
        (SpliceKeepsRoot(root, r, parse(html)); editor.dom == Splice(root, r, parse(html)).children) &&
        (parse(html) != [] ==>
          ValidPath(Root(editor.dom), InsertionPath(root, r)) &&
          At(Root(editor.dom), InsertionPath(root, r)) == parse(html)[0]) &&
        editor.Reported(content0, log0, changes0)) &&
      (!(sel.Some? && Spliceable(root, sel.value)) ==>
        editor.dom == dom0 && editor.Log() == log0 && editor.changes == changes0)
    }

    /** The `insert(html)` the toolbar callbacks expect, as `InsertedMarkup` says. */
    method Insert(html: string, sel: Option<Range>)
      requires Valid()
      modifies editor
      ensures Valid()
      ensures editor != null ==>
        InsertedMarkup(old(editor.dom), old(editor.content), old(editor.Log()), old(editor.changes), html, sel)
    {
      if editor == null || sel.None? || !Spliceable(Root(editor.dom), sel.value) {
        return;
      }
      var root, r := Root(editor.dom), sel.value;
      var nodes := editor.parse(html);
      SpliceKeepsRoot(root, r, nodes);
      if nodes != [] {
        SpliceShape(root, r, nodes);
      }
      var t := Splice(root, r, nodes);
      assert Root(t.children) == t;
      editor.dom := t.children;
      editor.UpdateContent(editor.serialize(editor.dom));
    }

    /** `handleTable` as evidently intended: the table is inserted at the selection and the
        popover closes. */
    method HandleTableInserting(rows: int, columns: int, borderColor: string, cellPadding: string, sel: Option<Range>)
      returns (html: string)
      requires Valid()
      modifies this, editor
      ensures Valid() && editor == old(editor) && bindings == old(bindings)
      ensures editor != null ==> html == TableHtml(rows, columns, borderColor, cellPadding) && !showTablePopover
      ensures editor != null ==>
        InsertedMarkup(old(editor.dom), old(editor.content), old(editor.Log()), old(editor.changes), html, sel)
      ensures editor == null ==> html == "" && showTablePopover == old(showTablePopover)
    {
      html := "";
      if editor == null {
        return;
      }
      html := BuildTable(rows, columns, borderColor, cellPadding);
      Insert(html, sel);
      showTablePopover := false;
    }

    /** A toolbar control as written: the request it makes is carried out by `HandleRequest`,
        and the link and image buttons call the editor's `insert`, which the editor class does
        not have, so the call throws and nothing changes. */
    method HandleControl(c: Control, sel: Option<Range>)
      returns (existing: Option<Path>, ghost before: seq<Node>, ghost merged: seq<Node>)
      requires Valid()
      requires editor != null && sel.Some? ==> RangeInside(Root(editor.dom), sel.value)
      modifies editor
      ensures Valid()
      ensures editor != null ==>
        Requested(old(editor.dom), old(editor.content), old(editor.Log()), old(editor.changes),
                  ToolbarRequest(c), sel, existing, before, merged)
      ensures editor != null && ToolbarRequest(c).InsertRequest? ==>
        editor.dom == old(editor.dom) && editor.Log() == old(editor.Log()) && editor.changes == old(editor.changes)
    {
      existing, before, merged := HandleRequest(ToolbarRequest(c), sel);
    }

    /** A toolbar control as evidently intended: a link or image is inserted at the selection,
        and every other request is carried out as `HandleRequest` does. */
    method HandleControlInserting(c: Control, sel: Option<Range>)
      returns (existing: Option<Path>, ghost before: seq<Node>, ghost merged: seq<Node>)
      requires Valid()
      requires editor != null && sel.Some? ==> RangeInside(Root(editor.dom), sel.value)
      modifies editor
      ensures Valid()
      ensures editor != null && !ToolbarRequest(c).InsertRequest? ==>
        Requested(old(editor.dom), old(editor.content), old(editor.Log()), old(editor.changes),
                  ToolbarRequest(c), sel, existing, before, merged)
      ensures editor != null && ToolbarRequest(c).InsertRequest? ==>
        InsertedMarkup(old(editor.dom), old(editor.content), old(editor.Log()), old(editor.changes),
                       ToolbarRequest(c).html, sel)
    {
      var q := ToolbarRequest(c);
      if q.InsertRequest? {
        existing, before, merged := None, [], [];
        Insert(q.html, sel);
      } else {
        existing, before, merged := HandleRequest(q, sel);
      }
    }

    /** What a toolbar request other than an insertion leaves in the editor, from the markup
        `dom0`, the content `content0`, the log `log0` and the changes `changes0`: a format
        request is `handleFormat`, undo and redo are the editor's own, and no request
        (a prompt left empty) changes nothing. */
    ghost predicate Requested(dom0: seq<Node>, content0: string, log0: H.History, changes0: seq<string>,
                              q: Request, sel: Option<Range>,
                              existing: Option<Path>, before: seq<Node>, merged: seq<Node>)
      requires editor != null && H.Valid(log0)
      reads this, editor
    {
      match q
      case FormatRequest(format, attributes) =>
        Formatted(dom0, content0, log0, changes0, format, attributes, sel, existing, before, merged)
      case UndoRequest => editor.Undone(dom0, log0, changes0)
      case RedoRequest => editor.Redone(dom0, log0, changes0)
      case NoRequest => editor.dom == dom0 && editor.Log() == log0 && editor.changes == changes0
      case InsertRequest(_) => true
    }

    /** A toolbar request: format requests go to `handleFormat` and undo and redo to the
        editor. An insertion calls the editor's missing `insert`, which throws: nothing changes. */
    method HandleRequest(q: Request, sel: Option<Range>)
      returns (existing: Option<Path>, ghost before: seq<Node>, ghost merged: seq<Node>)
      requires Valid()
      requires editor != null && sel.Some? ==> RangeInside(Root(editor.dom), sel.value)
      modifies editor
      ensures Valid()
      ensures editor != null ==>
        Requested(old(editor.dom), old(editor.content), old(editor.Log()), old(editor.changes),
                  q, sel, existing, before, merged)
      ensures editor != null && q.InsertRequest? ==>
        editor.dom == old(editor.dom) && editor.Log() == old(editor.Log()) && editor.changes == old(editor.changes)
    {
      existing, before, merged := None, [], [];
      match q
      case FormatRequest(format, attributes) =>
        existing, before, merged := HandleFormat(format, attributes, sel);
      case InsertRequest(html) =>
      case UndoRequest =>
        if editor != null {
          editor.Undo();
        }
      case RedoRequest =>
        if editor != null {
          editor.Redo();
        }
      case NoRequest =>
    }
  }

  /** The first commit and a table request, as written: no editor is ever created, so the
      table handler stops at its null check and builds nothing. */
  method TableAfterMountAsWritten(parse: string -> seq<Node>, serialize: seq<Node> -> string,
                                  bindings: map<string, Value>, content: string,
                                  rows: int, columns: int, borderColor: string, cellPadding: string)
    returns (w: Wrapper, html: string)
    ensures w.editor == null && html == "" && !w.showTablePopover
  {
    w := new Wrapper(parse, serialize, bindings);
    w.MountAsWritten(content);
    html := w.HandleTable(rows, columns, borderColor, cellPadding);
  }

  /** The same, with the editor created as intended and the table inserted as intended: the
      table markup is built and the popover is closed. */
  method TableAfterMount(parse: string -> seq<Node>, serialize: seq<Node> -> string,
                         bindings: map<string, Value>, content: string,
                         rows: int, columns: int, borderColor: string, cellPadding: string, sel: Option<Range>)
    returns (w: Wrapper, html: string)
    ensures w.editor != null && html == TableHtml(rows, columns, borderColor, cellPadding) && !w.showTablePopover
  {
    w := new Wrapper(parse, serialize, bindings);
    w.Mount(content);
    html := w.HandleTableInserting(rows, columns, borderColor, cellPadding, sel);
  }
}
