/**
 The markup the renderer emits, and a parser for it. A resolved cell becomes
 `<th>` or `<td>`, with ` colSpan=N` and then ` rowSpan=N` only for spans
 greater than 1, the escaped text, and the matching closing tag; a row wraps
 its cells in `<tr>`/`</tr>` and the table wraps its rows in
 `<table>`/`</table>`. Parsing the rendered markup gives the rows back, and
 the parser accepts a span attribute only in the one form the renderer emits.
 */
module Markup {
  import opened Blocks
  import opened Strings
  import opened HtmlEscape

  /** One rendered cell: header or data, its spans (1 when absent) and its unescaped text. */
  datatype ResolvedCell = ResolvedCell(header: bool, colSpan: int, rowSpan: int, text: string)

  predicate SpansPositive(c: ResolvedCell) {
    c.colSpan >= 1 && c.rowSpan >= 1
  }

  function TagName(header: bool): string {
    if header then "th" else "td"
  }

  const ColSpanPrefix: string := " colSpan="
  const RowSpanPrefix: string := " rowSpan="

  /** ` colSpan=N` or ` rowSpan=N` when the span exceeds 1, nothing otherwise. */
  function SpanAttribute(prefix: string, span: int): string {
    if span > 1 then prefix + NatToString(span) else ""
  }

  function CloseTag(header: bool): string {
    "</" + TagName(header) + ">"
  }

  /** What follows the tag name: the span attributes, if any. */
  function Attributes(c: ResolvedCell): string {
    SpanAttribute(ColSpanPrefix, c.colSpan) + SpanAttribute(RowSpanPrefix, c.rowSpan)
  }

  /** What follows the attributes: `>`, the escaped text and the closing tag. */
  function Body(c: ResolvedCell): string {
    ">" + Escape(c.text) + CloseTag(c.header)
  }

  function RenderCell(c: ResolvedCell): string {
    "<" + TagName(c.header) + Attributes(c) + Body(c)
  }

  function RenderCells(cells: seq<ResolvedCell>): string {
    if |cells| == 0 then "" else RenderCell(cells[0]) + RenderCells(cells[1..])
  }

  function RenderRows(rows: seq<seq<ResolvedCell>>): string {
    if |rows| == 0 then "" else "<tr>" + RenderCells(rows[0]) + "</tr>" + RenderRows(rows[1..])
  }

  function RenderTable(rows: seq<seq<ResolvedCell>>): string {
    "<table>" + RenderRows(rows) + "</table>"
  }

  // ---------------------------------------------------------------------------
  // parsing

  /** The length of the longest prefix of `s` without a `<`. */
  function TextRun(s: string): (n: nat)
    ensures n <= |s|
  {
    if |s| == 0 || s[0] == '<' then 0 else 1 + TextRun(s[1..])
  }

  /**
   An optional span attribute starting with `prefix`; its absence reads as span 1.
   Only the form the renderer emits is accepted: digits without a leading zero,
   for a value above 1.
   */
  function ParseSpan(s: string, prefix: string): (r: Option<(int, string)>)
    ensures r.Some? ==> |r.value.1| <= |s|
  {
    if !StartsWith(s, prefix) then Some((1, s))
    else
      var t := s[|prefix|..];
      var n := DigitRun(t);
      if n == 0 || t[0] == '0' || ParseNat(t[..n]) <= 1 then None
      else Some((ParseNat(t[..n]), t[n..]))
  }

  function ParseCell(s: string): (r: Option<(ResolvedCell, string)>)
    ensures r.Some? ==> |r.value.1| < |s|
  {
    if !(StartsWith(s, "<th") || StartsWith(s, "<td")) then None
    else ParseAttributes(s[2] == 'h', s[3..])
  }

  function ParseAttributes(header: bool, s: string): (r: Option<(ResolvedCell, string)>)
    ensures r.Some? ==> |r.value.1| < |s|
  {
    match ParseSpan(s, ColSpanPrefix)
    case None => None
    case Some((colSpan, s1)) =>
      match ParseSpan(s1, RowSpanPrefix)
      case None => None
      case Some((rowSpan, s2)) => ParseBody(header, colSpan, rowSpan, s2)
  }

  function ParseBody(header: bool, colSpan: int, rowSpan: int, s: string): (r: Option<(ResolvedCell, string)>)
    ensures r.Some? ==> |r.value.1| < |s|
  {
    if !StartsWith(s, ">") then None
    else
      var body := s[1..];
      var n := TextRun(body);
      var after := body[n..];
      var close := CloseTag(header);
      if !StartsWith(after, close) then None
      else Some((ResolvedCell(header, colSpan, rowSpan, Unescape(body[..n])), after[|close|..]))
  }

  /** Cells up to, not including, the `</tr>` that closes their row. */
  function ParseCells(s: string): (r: Option<(seq<ResolvedCell>, string)>)
    ensures r.Some? ==> |r.value.1| <= |s| && StartsWith(r.value.1, "</tr>")
    decreases |s|
  {
    if StartsWith(s, "</tr>") then Some(([], s))
    else
      match ParseCell(s)
      case None => None
      case Some((c, rest)) =>
        match ParseCells(rest)
        case None => None
        case Some((cells, rest')) => Some(([c] + cells, rest'))
  }

  /** Rows for as long as the input starts with `<tr>`. */
  function ParseRows(s: string): (r: Option<(seq<seq<ResolvedCell>>, string)>)
    decreases |s|
  {
    if !StartsWith(s, "<tr>") then Some(([], s))
    else
      match ParseCells(s[4..])
      case None => None
      case Some((cells, rest)) =>
        match ParseRows(rest[5..])
        case None => None
        case Some((rows, rest')) => Some(([cells] + rows, rest'))
  }

  function ParseTable(s: string): Option<seq<seq<ResolvedCell>>> {
    if !StartsWith(s, "<table>") then None
    else
      match ParseRows(s[7..])
      case None => None
      case Some((rows, rest)) => if rest == "</table>" then Some(rows) else None
  }

  // ---------------------------------------------------------------------------
  // round trip

  lemma {:induction false} TextRunOfEscaped(e: string, rest: string)
    requires forall i :: 0 <= i < |e| ==> e[i] != '<'
    requires |rest| > 0 && rest[0] == '<'
    ensures TextRun(e + rest) == |e|
    decreases |e|
  {
    if |e| > 0 {
      assert (e + rest)[1..] == e[1..] + rest;
      TextRunOfEscaped(e[1..], rest);
    } else {
      assert e + rest == rest;
    }
  }

  /** A span attribute reads back as its span, or as 1 when the span is not above 1 and nothing was emitted. */
  lemma SpanRoundTrip(prefix: string, span: int, rest: string)
    requires span >= 1
    requires |rest| > 0 && !IsDigit(rest[0])
    requires !StartsWith(rest, prefix)
    ensures ParseSpan(SpanAttribute(prefix, span) + rest, prefix) == Some((span, rest))
  {
    var s := SpanAttribute(prefix, span) + rest;
    if span > 1 {
      var digits := NatToString(span);
      assert s == prefix + (digits + rest);
      StartsWithConcat(prefix, digits + rest);
      var t := s[|prefix|..];
      assert t == digits + rest;
      DigitRunOfDigits(digits, rest);
      assert t[..|digits|] == digits;
      StartsWithConcat(digits, rest);
      ParseNatToString(span);
    } else {
      assert s == rest;
    }
  }

  /**
   The span parser accepts nothing but what the renderer emits: whatever it
   reads is a span of at least 1 written exactly as `SpanAttribute` writes it,
   so ` colSpan=1`, ` colSpan=0` and ` colSpan=02` are all refused.
   */
  lemma ParseSpanCanonical(s: string, prefix: string)
    requires ParseSpan(s, prefix).Some?
    ensures var (span, rest) := ParseSpan(s, prefix).value;
            span >= 1 && s == SpanAttribute(prefix, span) + rest
  {
    if StartsWith(s, prefix) {
      var t := s[|prefix|..];
      var n := DigitRun(t);
      var d := t[..n];
      NatToStringParseNat(d);
      assert s == prefix + d + t[n..] by {
        assert s == s[..|prefix|] + t;
        assert t == d + t[n..];
      }
    }
  }

  /** `ParseBody` reads text free of `<` up to the closing tag, and unescapes it. */
  lemma ParseBodyOf(header: bool, colSpan: int, rowSpan: int, esc: string, rest: string)
    requires forall i :: 0 <= i < |esc| ==> esc[i] != '<'
    ensures ParseBody(header, colSpan, rowSpan, ">" + (esc + (CloseTag(header) + rest)))
            == Some((ResolvedCell(header, colSpan, rowSpan, Unescape(esc)), rest))
  {
    var close := CloseTag(header);
    var body := esc + (close + rest);
    StartsWithConcat(">", body);
    assert close[0] == '<';
    TextRunOfEscaped(esc, close + rest);
    StartsWithConcat(esc, close + rest);
    StartsWithConcat(close, rest);
  }

  lemma ParseBodyRoundTrip(c: ResolvedCell, rest: string)
    ensures ParseBody(c.header, c.colSpan, c.rowSpan, Body(c) + rest) == Some((c, rest))
  {
    var esc := Escape(c.text);
    var close := CloseTag(c.header);
    ConcatAssoc(">", esc, close);
    ConcatAssoc(">" + esc, close, rest);
    ConcatAssoc(">", esc, close + rest);
    EscapeIsClean(c.text);
    ParseBodyOf(c.header, c.colSpan, c.rowSpan, esc, rest);
    UnescapeEscape(c.text);
  }

  lemma BodyStart(c: ResolvedCell, rest: string)
    ensures var s := Body(c) + rest; |s| > 0 && s[0] == '>'
  {
    var e := Escape(c.text) + CloseTag(c.header);
    assert Body(c) + rest == ">" + (e + rest);
  }

  lemma AfterColSpan(c: ResolvedCell, rest: string)
    ensures var s1 := SpanAttribute(RowSpanPrefix, c.rowSpan) + (Body(c) + rest);
            |s1| > 0 && !IsDigit(s1[0]) && !StartsWith(s1, ColSpanPrefix)
  {
    var s2 := Body(c) + rest;
    var row := SpanAttribute(RowSpanPrefix, c.rowSpan);
    var s1 := row + s2;
    BodyStart(c, rest);
    if c.rowSpan > 1 {
      assert s1[0] == ' ' && s1[1] == 'r';
      assert ColSpanPrefix[1] == 'c';
      assert s1[..|ColSpanPrefix|][1] != ColSpanPrefix[1];
    } else {
      assert s1 == s2;
    }
  }

  lemma ParseAttributesRoundTrip(c: ResolvedCell, rest: string)
    requires SpansPositive(c)
    ensures ParseAttributes(c.header, Attributes(c) + Body(c) + rest) == Some((c, rest))
  {
    var s2 := Body(c) + rest;
    var col := SpanAttribute(ColSpanPrefix, c.colSpan);
    var row := SpanAttribute(RowSpanPrefix, c.rowSpan);
    var s1 := row + s2;
    assert Attributes(c) + Body(c) + rest == col + s1 by {
      ConcatAssoc(col, row, Body(c));
      ConcatAssoc(col + row, Body(c), rest);
      ConcatAssoc(col, row + Body(c), rest);
      ConcatAssoc(row, Body(c), rest);
    }
    assert ParseSpan(col + s1, ColSpanPrefix) == Some((c.colSpan, s1)) by {
      AfterColSpan(c, rest);
      SpanRoundTrip(ColSpanPrefix, c.colSpan, s1);
    }
    assert ParseSpan(s1, RowSpanPrefix) == Some((c.rowSpan, s2)) by {
      BodyStart(c, rest);
      assert RowSpanPrefix[0] == ' ';
      assert !StartsWith(s2, RowSpanPrefix) by {
        if |RowSpanPrefix| <= |s2| {
          assert s2[..|RowSpanPrefix|][0] != RowSpanPrefix[0];
        }
      }
      SpanRoundTrip(RowSpanPrefix, c.rowSpan, s2);
    }
    ParseBodyRoundTrip(c, rest);
  }

  /** A rendered cell followed by anything is its opening `<th`/`<td` followed by the rest. */
  lemma RenderCellOpen(c: ResolvedCell, rest: string)
    ensures RenderCell(c) + rest == ("<" + TagName(c.header)) + (Attributes(c) + Body(c) + rest)
  {
    var open, a, b := "<" + TagName(c.header), Attributes(c), Body(c);
    ConcatAssoc(open, a, b);
    ConcatAssoc(open, a + b, rest);
    ConcatAssoc(a, b, rest);
  }

  lemma ParseCellRoundTrip(c: ResolvedCell, rest: string)
    requires SpansPositive(c)
    ensures ParseCell(RenderCell(c) + rest) == Some((c, rest))
  {
    var open := "<" + TagName(c.header);
    var tail := Attributes(c) + Body(c) + rest;
    var s := RenderCell(c) + rest;
    RenderCellOpen(c, rest);
    assert StartsWith(s, open) && s[3..] == tail by {
      StartsWithConcat(open, tail);
    }
    assert s[2] == 'h' <==> c.header by {
      assert s[2] == open[2];
    }
    ParseAttributesRoundTrip(c, rest);
  }

  lemma RenderCellNotRowEnd(c: ResolvedCell, rest: string)
    ensures !StartsWith(RenderCell(c) + rest, "</tr>")
  {
    var open := "<" + TagName(c.header);
    var s := RenderCell(c) + rest;
    RenderCellOpen(c, rest);
    assert s[1] == open[1] == 't';
  }

  lemma ParseCellsStep(c: ResolvedCell, cells: seq<ResolvedCell>, tail: string, rest: string)
    requires SpansPositive(c)
    requires ParseCells(tail) == Some((cells, rest))
    ensures ParseCells(RenderCell(c) + tail) == Some(([c] + cells, rest))
  {
    RenderCellNotRowEnd(c, tail);
    ParseCellRoundTrip(c, tail);
  }

  /** A rendered cell in front of a row's parsable remaining cells parses as one more cell. */
  lemma ParseCellsCons(cells: seq<ResolvedCell>, rest: string)
    requires |cells| > 0 && SpansPositive(cells[0])
    requires ParseCells(RenderCells(cells[1..]) + rest) == Some((cells[1..], rest))
    ensures ParseCells(RenderCells(cells) + rest) == Some((cells, rest))
  {
    var tail := RenderCells(cells[1..]) + rest;
    assert RenderCells(cells) + rest == RenderCell(cells[0]) + tail by {
      ConcatAssoc(RenderCell(cells[0]), RenderCells(cells[1..]), rest);
    }
    ParseCellsStep(cells[0], cells[1..], tail, rest);
    assert [cells[0]] + cells[1..] == cells;
  }

  lemma {:induction false} ParseCellsRoundTrip(cells: seq<ResolvedCell>, rest: string)
    requires forall c | c in cells :: SpansPositive(c)
    requires StartsWith(rest, "</tr>")
    ensures ParseCells(RenderCells(cells) + rest) == Some((cells, rest))
    decreases |cells|
  {
    if |cells| == 0 {
      assert RenderCells(cells) + rest == rest;
    } else {
      assert forall c | c in cells[1..] :: c in cells;
      ParseCellsRoundTrip(cells[1..], rest);
      assert cells[0] in cells;
      ParseCellsCons(cells, rest);
    }
  }

  lemma RenderRowsSplit(rows: seq<seq<ResolvedCell>>, rest: string)
    requires |rows| > 0
    ensures RenderRows(rows) + rest
            == "<tr>" + (RenderCells(rows[0]) + ("</tr>" + (RenderRows(rows[1..]) + rest)))
  {
    var a, b, c := RenderCells(rows[0]), RenderRows(rows[1..]), rest;
    assert RenderRows(rows) == "<tr>" + a + "</tr>" + b;
    ConcatAssoc("<tr>" + a + "</tr>", b, c);
    ConcatAssoc("<tr>" + a, "</tr>", b + c);
    ConcatAssoc("<tr>", a, "</tr>" + (b + c));
  }

  /** A rendered row in front of parsable remaining rows parses as one more row. */
  lemma ParseRowsCons(all: seq<seq<ResolvedCell>>, rest: string)
    requires |all| > 0 && forall c | c in all[0] :: SpansPositive(c)
    requires ParseRows(RenderRows(all[1..]) + rest) == Some((all[1..], rest))
    ensures ParseRows(RenderRows(all) + rest) == Some((all, rest))
  {
    var row, rows := all[0], all[1..];
    var tail := RenderRows(rows) + rest;
    var cellsText := RenderCells(row);
    var s := RenderRows(all) + rest;
    assert s == "<tr>" + (cellsText + ("</tr>" + tail)) by {
      RenderRowsSplit(all, rest);
    }
    assert StartsWith(s, "<tr>") && s[4..] == cellsText + ("</tr>" + tail) by {
      StartsWithConcat("<tr>", cellsText + ("</tr>" + tail));
    }
    assert ParseCells(s[4..]) == Some((row, "</tr>" + tail)) by {
      StartsWithConcat("</tr>", tail);
      ParseCellsRoundTrip(row, "</tr>" + tail);
    }
    assert ("</tr>" + tail)[5..] == tail by {
      StartsWithConcat("</tr>", tail);
    }
    assert [row] + rows == all;
  }

  lemma {:induction false} ParseRowsRoundTrip(rows: seq<seq<ResolvedCell>>, rest: string)
    requires forall row, c | row in rows && c in row :: SpansPositive(c)
    requires !StartsWith(rest, "<tr>")
    ensures ParseRows(RenderRows(rows) + rest) == Some((rows, rest))
    decreases |rows|
  {
    if |rows| == 0 {
      assert RenderRows(rows) + rest == rest;
    } else {
      assert forall row | row in rows[1..] :: row in rows;
      ParseRowsRoundTrip(rows[1..], rest);
      assert rows[0] in rows;
      ParseRowsCons(rows, rest);
    }
  }

  /** Parsing a rendered table gives its rows back, cell for cell. */
  lemma ParseTableRoundTrip(rows: seq<seq<ResolvedCell>>)
    requires forall row, c | row in rows && c in row :: SpansPositive(c)
    ensures ParseTable(RenderTable(rows)) == Some(rows)
  {
    var body := RenderRows(rows) + "</table>";
    var s := RenderTable(rows);
    assert s == "<table>" + body by {
      ConcatAssoc("<table>", RenderRows(rows), "</table>");
    }
    assert StartsWith(s, "<table>") && s[7..] == body by {
      StartsWithConcat("<table>", body);
    }
    assert ParseRows(body) == Some((rows, "</table>")) by {
      assert !StartsWith("</table>", "<tr>") by { assert "</table>"[1] == '/'; }
      ParseRowsRoundTrip(rows, "</table>");
    }
  }
}
