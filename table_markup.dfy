/**
 * The table markup both editors build for a `rows` x `columns` table: an
 * opening `<table>` tag styled with the border colour, then per row a `<tr>`
 * holding one `<td>` per column whose style carries the border colour and the
 * cell padding and whose content is a non-breaking space. The loop counters
 * start at 0 and run while below `rows` / `columns`, so a count that is zero
 * or negative yields no rows (cells).
 */
module TableMarkup {
  import opened Strings

  const OpenLead := "<table" + " style=" + "\"border-" + "color: "
  const OpenTrail := "; border-collapse: collapse;\">"

  function TableOpen(borderColor: string): string
  {
    OpenLead + borderColor + OpenTrail
  }

  /** The closing tag `</name>`. */
  function Close(name: string): string
  {
    "</" + name + ">"
  }

  const CellLead := "<td " + "style=\"border: " + "1px solid "
  const CellMid := "; padding: "
  const CellTrail := ";\">&nbsp;"

  function CellHtml(borderColor: string, cellPadding: string): string
  {
    CellLead + borderColor + CellMid + cellPadding + CellTrail + Close("td")
  }

  /** `n` copies of `x`, one after the other. */
  function Repeat(x: string, n: nat): string
  {
    if n == 0 then "" else Repeat(x, n - 1) + x
  }

  lemma {:induction false} RepeatLength(x: string, n: nat)
    ensures |Repeat(x, n)| == n * |x|
  {
    if n > 0 {
      RepeatLength(x, n - 1);
    }
  }

  function RowHtml(columns: int, borderColor: string, cellPadding: string): string
  {
    "<tr>" + Repeat(CellHtml(borderColor, cellPadding), Iterations(columns)) + Close("tr")
  }

  /** How often `for (let i = 0; i < n; i++)` runs its body. */
  function Iterations(n: int): nat
  {
    if n < 0 then 0 else n
  }

  function TableHtml(rows: int, columns: int, borderColor: string, cellPadding: string): string
  {
    TableOpen(borderColor) + Repeat(RowHtml(columns, borderColor, cellPadding), Iterations(rows)) + Close("table")
  }

  /** The nested loops of both table handlers, appending to `tableHTML` piece by piece. */
  method BuildTable(rows: int, columns: int, borderColor: string, cellPadding: string) returns (html: string)
    ensures html == TableHtml(rows, columns, borderColor, cellPadding)
  {
    var cell := CellHtml(borderColor, cellPadding);
    var row := RowHtml(columns, borderColor, cellPadding);
    html := TableOpen(borderColor);
    var i := 0;
    while i < rows
      invariant 0 <= i <= Iterations(rows)
      invariant html == TableOpen(borderColor) + Repeat(row, i)
    {
      var before := html;
      html := html + "<tr>";
      var j := 0;
      while j < columns
        invariant 0 <= j <= Iterations(columns)
        invariant html == before + "<tr>" + Repeat(cell, j)
      {
        AppendStep(before + "<tr>", Repeat(cell, j), cell);
        html := html + cell;
        j := j + 1;
      }
      assert j == Iterations(columns);
      AppendStep(before, "<tr>", Repeat(cell, j));
      assert row == "<tr>" + Repeat(cell, Iterations(columns)) + Close("tr");
      AppendStep(before, "<tr>" + Repeat(cell, Iterations(columns)), Close("tr"));
      html := html + Close("tr");
      assert html == before + row;
      AppendStep(TableOpen(borderColor), Repeat(row, i), row);
      assert Repeat(row, i + 1) == Repeat(row, i) + row;
      i := i + 1;
    }
    html := html + Close("table");
  }

  lemma AppendStep(a: string, b: string, c: string)
    ensures a + b + c == a + (b + c)
  {
  }

  /** Copy `k` of `x` sits at offset `k * |x|` of the repetition. */
  lemma {:induction false} RepeatSlice(x: string, n: nat, k: nat)
    requires k < n
    ensures k * |x| + |x| <= |Repeat(x, n)|
    ensures Repeat(x, n)[k * |x|..k * |x| + |x|] == x
  {
    var r := Repeat(x, n - 1);
    assert Repeat(x, n) == r + x;
    RepeatLength(x, n - 1);
    if k < n - 1 {
      RepeatSlice(x, n - 1, k);
      assert (r + x)[k * |x|..k * |x| + |x|] == r[k * |x|..k * |x| + |x|];
    } else {
      assert k * |x| == |r|;
      assert (r + x)[|r|..] == x;
    }
  }

  /** No occurrence of `p` can straddle the end of `a`: the last `|p| - 1` characters
      of `a` lie in `t`, which lacks the first character of `p`. */
  predicate SeamSafe(a: string, p: string)
    requires |p| > 0
  {
    forall k :: 0 <= k < |a| && |a| - k < |p| ==> a[k] != p[0]
  }

  lemma SeamFromTail(y: string, t: string, p: string)
    requires |p| > 0 && |t| + 1 >= |p| && p[0] !in t
    ensures SeamSafe(y + t, p)
  {
    var a := y + t;
    forall k | 0 <= k < |a| && |a| - k < |p|
      ensures a[k] != p[0]
    {
      assert a[k] == t[k - |y|];
    }
  }

  /** Occurrences in a repetition add up when copies cannot share an occurrence. */
  lemma {:induction false} OccurrencesRepeat(x: string, n: nat, p: string)
    requires |p| > 0 && SeamSafe(x, p)
    ensures Occurrences(Repeat(x, n), p) == n * Occurrences(x, p)
    ensures SeamSafe(Repeat(x, n), p)
  {
    if n > 0 {
      var r := Repeat(x, n - 1);
      OccurrencesRepeat(x, n - 1, p);
      assert Repeat(x, n) == r + x;
      OccurrencesConcat(r, x, p);
      SeamJoin(r, x, p);
      MultiplyStep(n, Occurrences(x, p));
    }
  }

  lemma MultiplyStep(n: nat, c: nat)
    requires n > 0
    ensures n * c == (n - 1) * c + c
  {
  }

  /** Occurrences in three safe pieces add up, and the whole is safe. */
  lemma ThreePieces(a: string, b: string, c: string, p: string)
    requires |p| > 0 && SeamSafe(a, p) && SeamSafe(b, p) && SeamSafe(c, p)
    ensures Occurrences(a + b + c, p) == Occurrences(a, p) + Occurrences(b, p) + Occurrences(c, p)
    ensures SeamSafe(a + b + c, p)
  {
    OccurrencesConcat(a, b, p);
    SeamJoin(a, b, p);
    OccurrencesConcat(a + b, c, p);
    SeamJoin(a + b, c, p);
  }

  /** A piece whose only `<` is its first character holds `p` (which starts with `<`)
      once if it starts with `p`, and not at all otherwise. */
  lemma TaggedPiece(lead: string, rest: string, p: string)
    requires |p| > 0 && |lead| >= |p| && lead[0] == p[0] && p[0] !in lead[1..] && p[0] !in rest
    ensures Occurrences(lead + rest, p) == if lead[..|p|] == p then 1 else 0
  {
    var s := lead + rest;
    assert s[1..] == lead[1..] + rest;
    assert s[..|p|] == lead[..|p|];
    OccurrencesLeading(s, p);
  }

  lemma OpenLeadFacts()
    ensures |OpenLead| >= 4 && OpenLead[0] == '<' && '<' !in OpenLead[1..]
    ensures OpenLead[..4] == "<tab" && OpenLead[..3] == "<ta"
  {
    var b := " style=" + "\"border-" + "color: ";
    assert '<' !in " style=" && '<' !in "\"border-" && '<' !in "color: ";
    assert '<' !in b;
    assert OpenLead == "<table" + b;
    assert OpenLead[1..] == "table" + b;
  }

  lemma OpenTrailFacts()
    ensures |OpenTrail| >= 3 && '<' !in OpenTrail
  {
    assert OpenTrail == "; border-collapse: " + "collapse;\">";
  }

  lemma CellLeadFacts()
    ensures |CellLead| >= 4 && CellLead[0] == '<' && '<' !in CellLead[1..]
    ensures CellLead[..4] == "<td " && CellLead[..3] == "<td"
  {
    var b := "style=\"border: " + "1px solid ";
    assert '<' !in b;
    assert CellLead[1..] == "td " + b;
  }

  lemma CellPartsFacts()
    ensures '<' !in CellMid && '<' !in CellTrail && |CellTrail| >= 3
  {
  }

  lemma OpenTagFacts(borderColor: string)
    requires '<' !in borderColor
    ensures Occurrences(TableOpen(borderColor), "<tr>") == 0
    ensures Occurrences(TableOpen(borderColor), "<td") == 0
    ensures SeamSafe(TableOpen(borderColor), "<tr>") && SeamSafe(TableOpen(borderColor), "<td")
  {
    OpenLeadFacts();
    OpenTrailFacts();
    var rest := borderColor + OpenTrail;
    assert TableOpen(borderColor) == OpenLead + rest;
    TaggedPiece(OpenLead, rest, "<tr>");
    TaggedPiece(OpenLead, rest, "<td");
    SeamFromTail(OpenLead + borderColor, OpenTrail, "<tr>");
    SeamFromTail(OpenLead + borderColor, OpenTrail, "<td");
  }

  lemma CellHeadFacts(borderColor: string, cellPadding: string)
    requires '<' !in borderColor && '<' !in cellPadding
    ensures var head := CellLead + borderColor + CellMid + cellPadding + CellTrail;
      Occurrences(head, "<tr>") == 0 && Occurrences(head, "<td") == 1 &&
      SeamSafe(head, "<tr>") && SeamSafe(head, "<td")
  {
    CellLeadFacts();
    CellPartsFacts();
    var rest := borderColor + CellMid + cellPadding + CellTrail;
    assert CellLead + borderColor + CellMid + cellPadding + CellTrail == CellLead + rest;
    TaggedPiece(CellLead, rest, "<tr>");
    TaggedPiece(CellLead, rest, "<td");
    SeamFromTail(CellLead + borderColor + CellMid + cellPadding, CellTrail, "<tr>");
    SeamFromTail(CellLead + borderColor + CellMid + cellPadding, CellTrail, "<td");
  }

  /** The closing tags `</td>`, `</tr>` and `</table>` hold neither pattern and end safely. */
  lemma CloseTagFacts(name: string)
    requires name == "td" || name == "tr" || name == "table"
    ensures Occurrences(Close(name), "<tr>") == 0 && Occurrences(Close(name), "<td") == 0
    ensures SeamSafe(Close(name), "<tr>") && SeamSafe(Close(name), "<td")
  {
    var lead := "</";
    var rest := name + ">";
    assert lead + name + ">" == lead + rest;
    assert '<' !in rest;
    TaggedPieceShort(lead, rest, "<tr>");
    TaggedPieceShort(lead, rest, "<td");
    SeamFromTail("</", rest, "<tr>");
    SeamFromTail("</", rest, "<td");
  }

  /** A piece starting `</` holds no occurrence of a pattern starting `<` followed by a letter. */
  lemma TaggedPieceShort(lead: string, rest: string, p: string)
    requires lead == "</" && |p| >= 2 && p[0] == '<' && p[1] != '/' && '<' !in rest
    ensures Occurrences(lead + rest, p) == 0
  {
    var s := lead + rest;
    assert s[1..] == "/" + rest;
    OccurrencesLeading(s, p);
    if |s| >= |p| {
      assert s[..|p|][1] == '/';
    }
  }

  lemma CellFacts(borderColor: string, cellPadding: string)
    requires '<' !in borderColor && '<' !in cellPadding
    ensures Occurrences(CellHtml(borderColor, cellPadding), "<tr>") == 0
    ensures Occurrences(CellHtml(borderColor, cellPadding), "<td") == 1
    ensures SeamSafe(CellHtml(borderColor, cellPadding), "<tr>") && SeamSafe(CellHtml(borderColor, cellPadding), "<td")
  {
    var head := CellLead + borderColor + CellMid + cellPadding + CellTrail;
    CellHeadFacts(borderColor, cellPadding);
    CloseTagFacts("td");
    var close := Close("td");
    assert CellHtml(borderColor, cellPadding) == head + close;
    OccurrencesConcat(head, close, "<tr>");
    OccurrencesConcat(head, close, "<td");
    SeamJoin(head, close, "<tr>");
    SeamJoin(head, close, "<td");
  }

  lemma OpenRowFacts()
    ensures Occurrences("<tr>", "<tr>") == 1 && Occurrences("<tr>", "<td") == 0
    ensures SeamSafe("<tr>", "<tr>") && SeamSafe("<tr>", "<td")
  {
    var lead := "<tr>";
    assert lead[1..] == "tr>";
    assert lead[..3][2] == 'r';
    assert lead + [] == lead;
    TaggedPiece(lead, [], "<tr>");
    TaggedPiece(lead, [], "<td");
    SeamFromTail("<", "tr>", "<tr>");
    SeamFromTail("<", "tr>", "<td");
  }

  lemma RowFacts(columns: int, borderColor: string, cellPadding: string)
    requires '<' !in borderColor && '<' !in cellPadding
    ensures Occurrences(RowHtml(columns, borderColor, cellPadding), "<tr>") == 1
    ensures Occurrences(RowHtml(columns, borderColor, cellPadding), "<td") == Iterations(columns)
    ensures SeamSafe(RowHtml(columns, borderColor, cellPadding), "<tr>") && SeamSafe(RowHtml(columns, borderColor, cellPadding), "<td")
  {
    var cells := Repeat(CellHtml(borderColor, cellPadding), Iterations(columns));
    CellFacts(borderColor, cellPadding);
    OccurrencesRepeat(CellHtml(borderColor, cellPadding), Iterations(columns), "<tr>");
    OccurrencesRepeat(CellHtml(borderColor, cellPadding), Iterations(columns), "<td");
    var open := "<tr>";
    var close := Close("tr");
    OpenRowFacts();
    CloseTagFacts("tr");
    assert RowHtml(columns, borderColor, cellPadding) == open + cells + close;
    ThreePieces(open, cells, close, "<tr>");
    ThreePieces(open, cells, close, "<td");
  }

  /** Two safe pieces join into a safe piece. */
  lemma SeamJoin(a: string, b: string, p: string)
    requires |p| > 0 && SeamSafe(a, p) && SeamSafe(b, p)
    ensures SeamSafe(a + b, p)
  {
    var ab := a + b;
    forall k | 0 <= k < |ab| && |ab| - k < |p|
      ensures ab[k] != p[0]
    {
      if k < |a| {
        assert ab[k] == a[k];
      } else {
        assert ab[k] == b[k - |a|];
      }
    }
  }

  /** The table has one `<tr>` per row and one `<td` per cell: `columns` in each of its `rows` rows. */
  lemma TableCounts(rows: int, columns: int, borderColor: string, cellPadding: string)
    requires '<' !in borderColor && '<' !in cellPadding
    ensures Occurrences(TableHtml(rows, columns, borderColor, cellPadding), "<tr>") == Iterations(rows)
    ensures Occurrences(TableHtml(rows, columns, borderColor, cellPadding), "<td") == Iterations(rows) * Iterations(columns)
  {
    var row := RowHtml(columns, borderColor, cellPadding);
    var body := Repeat(row, Iterations(rows));
    var close := Close("table");
    OpenTagFacts(borderColor);
    CloseTagFacts("table");
    RowFacts(columns, borderColor, cellPadding);
    OccurrencesRepeat(row, Iterations(rows), "<tr>");
    OccurrencesRepeat(row, Iterations(rows), "<td");
    assert TableHtml(rows, columns, borderColor, cellPadding) == TableOpen(borderColor) + body + close;
    ThreePieces(TableOpen(borderColor), body, close, "<tr>");
    ThreePieces(TableOpen(borderColor), body, close, "<td");
  }

  /** Cell `j` of row `i` is the full cell markup, at a fixed offset. */
  lemma TableCellAt(rows: int, columns: int, borderColor: string, cellPadding: string, i: nat, j: nat)
    requires i < Iterations(rows) && j < Iterations(columns)
    ensures var cell := CellHtml(borderColor, cellPadding);
      var o := |TableOpen(borderColor)| + i * |RowHtml(columns, borderColor, cellPadding)| + 4 + j * |cell|;
      o + |cell| <= |TableHtml(rows, columns, borderColor, cellPadding)| &&
      TableHtml(rows, columns, borderColor, cellPadding)[o..o + |cell|] == cell
  {
    var cell := CellHtml(borderColor, cellPadding);
    var row := RowHtml(columns, borderColor, cellPadding);
    var open := "<tr>";
    assert |open| == 4;
    assert row == open + Repeat(cell, Iterations(columns)) + Close("tr");
    assert TableHtml(rows, columns, borderColor, cellPadding) == TableOpen(borderColor) + Repeat(row, Iterations(rows)) + Close("table");
    GridCellAt(TableOpen(borderColor), row, Iterations(rows), Close("table"), open, cell, Iterations(columns), Close("tr"), i, j);
  }

  /** In copies of a row made of copies of a cell, cell `j` of row `i` sits at its row's offset plus its own. */
  lemma GridCellAt(a: string, row: string, n: nat, c: string, p: string, cell: string, m: nat, d: string, i: nat, j: nat)
    requires i < n && j < m && row == p + Repeat(cell, m) + d
    ensures var o := |a| + i * |row| + |p| + j * |cell|;
      o + |cell| <= |a + Repeat(row, n) + c| && (a + Repeat(row, n) + c)[o..o + |cell|] == cell
  {
    var t := a + Repeat(row, n) + c;
    NatProduct(i, |row|);
    NatProduct(j, |cell|);
    var ro := |a| + i * |row|;
    var co := |p| + j * |cell|;
    CopyAt(a, row, n, c, i);
    assert ro + |row| <= |t| && t[ro..ro + |row|] == row;
    CopyAt(p, cell, m, d, j);
    assert co + |cell| <= |row| && row[co..co + |cell|] == cell;
    NestedSlice(t, ro, row, co, cell);
  }

  lemma NatProduct(x: nat, y: nat)
    ensures x * y >= 0
  {
  }

  lemma NestedSlice(t: string, ro: nat, row: string, co: nat, cell: string)
    requires ro + |row| <= |t| && t[ro..ro + |row|] == row
    requires co + |cell| <= |row| && row[co..co + |cell|] == cell
    ensures ro + co + |cell| <= |t| && t[ro + co..ro + co + |cell|] == cell
  {
    SliceOfSlice(t, ro, ro + |row|, co, co + |cell|);
  }

  /** Copy `k` of `x` between `a` and `c` sits right after `a` and `k` earlier copies. */
  lemma CopyAt(a: string, x: string, n: nat, c: string, k: nat)
    requires k < n
    ensures |a| + k * |x| + |x| <= |a + Repeat(x, n) + c|
    ensures (a + Repeat(x, n) + c)[|a| + k * |x|..|a| + k * |x| + |x|] == x
  {
    RepeatSlice(x, n, k);
    SliceOfMiddle(a, Repeat(x, n), c, k * |x|, k * |x| + |x|);
  }

  lemma SliceOfMiddle(a: string, b: string, c: string, x: nat, y: nat)
    requires x <= y <= |b|
    ensures (a + b + c)[|a| + x..|a| + y] == b[x..y]
  {
    var s := a + b + c;
    assert forall k :: |a| + x <= k < |a| + y ==> s[k] == b[k - |a|];
  }

  lemma SliceOfSlice(s: string, i: nat, j: nat, x: nat, y: nat)
    requires i <= j <= |s| && x <= y <= j - i
    ensures s[i..j][x..y] == s[i + x..i + y]
  {
    assert forall k :: 0 <= k < y - x ==> s[i..j][x..y][k] == s[i + x + k];
  }

  /** The cell markup is a `td` whose style embeds the border colour and the padding verbatim,
      and whose content is one non-breaking space. */
  lemma CellEmbedsStyles(borderColor: string, cellPadding: string)
    ensures var s := CellHtml(borderColor, cellPadding);
      var k := |CellLead|;
      var m := k + |borderColor| + |CellMid|;
      m + |cellPadding| <= |s| && s[..k] == "<td style=\"border: 1px solid " &&
      s[k..k + |borderColor|] == borderColor && s[k + |borderColor|..m] == "; padding: " &&
      s[m..m + |cellPadding|] == cellPadding && s[m + |cellPadding|..] == ";\">&nbsp;</td>"
  {
    CellParts();
    ConcatSlices(CellLead, borderColor, CellMid, cellPadding, CellTrail + Close("td"));
  }

  /** The fixed parts of the cell markup, spelled out. */
  lemma CellParts()
    ensures CellLead == "<td style=\"border: 1px solid "
    ensures CellMid == "; padding: "
    ensures CellTrail + Close("td") == ";\">&nbsp;</td>"
  {
  }

  /** The five parts of a concatenation, read back by position. */
  lemma ConcatSlices(a: string, b: string, c: string, d: string, e: string)
    ensures var s := a + b + c + d + e;
      var i, j, k, l := |a|, |a| + |b|, |a| + |b| + |c|, |a| + |b| + |c| + |d|;
      l <= |s| && s[..i] == a && s[i..j] == b && s[j..k] == c && s[k..l] == d && s[l..] == e
  {
    var s := a + b + c + d + e;
    assert s == (a + b + c + d) + e;
    assert (a + b + c + d) == (a + b + c) + d;
    assert (a + b + c) == (a + b) + c;
  }

  /** The opening tag embeds the border colour verbatim. */
  lemma TableEmbedsBorderColor(rows: int, columns: int, borderColor: string, cellPadding: string)
    ensures var k := |OpenLead|;
      k + |borderColor| <= |TableHtml(rows, columns, borderColor, cellPadding)| &&
      TableHtml(rows, columns, borderColor, cellPadding)[k..k + |borderColor|] == borderColor
  {
  }
}
