/**
 `_textract_table_to_html`: the layout of the table's cells, each cell resolved
 to its tag, spans and text, rendered as markup. The rendered string parses
 back to exactly the resolved rows.
 */
module TableHtml {
  import opened Blocks
  import opened TableLayout
  import opened CellText
  import opened Markup
  import opened Strings

  /** `cell.get("EntityTypes") and "COLUMN_HEADER" in cell["EntityTypes"]`. */
  predicate IsHeader(cell: Block) {
    match cell.entityTypes
    case None => false
    case Some(types) => |types| > 0 && ColumnHeader in types
  }

  /** Everything the renderer reads without a default, for the cells it visits, is present. */
  predicate WellFormedTable(blocks: seq<Block>, words: map<string, string>) {
    && HasCell(blocks)
    && CellsHaveRowIndex(blocks)
    && RenderedCellsHaveColumnIndex(blocks)
    && forall b | b in blocks && Rendered(b) :: IdsKnown(RelationshipsOf(b), words)
  }

  /** Rendered cells whose spans, where given, are at least 1, as the analysis service reports them. */
  predicate CellSpansPositive(blocks: seq<Block>) {
    forall b | b in blocks && Rendered(b) :: SpanOrOne(b.columnSpan) >= 1 && SpanOrOne(b.rowSpan) >= 1
  }

  /** A cell as the renderer emits it: its tag, its spans and its text. */
  function Resolve(cell: Block, words: map<string, string>): ResolvedCell
    requires IdsKnown(RelationshipsOf(cell), words)
  {
    ResolvedCell(IsHeader(cell), SpanOrOne(cell.columnSpan), SpanOrOne(cell.rowSpan), CellContent(cell, words))
  }

  /**
   The fields of a resolved cell in terms of the block: a header exactly when
   `EntityTypes` is present and names `COLUMN_HEADER`, each span its value or
   1 when absent, and the text empty without relationships and otherwise the
   words of the last group joined by single spaces. The header and span
   clauses spell out `IsHeader` and `SpanOrOne` in terms of the block's fields,
   for the reader; the text clause is the one that needs a proof, by
   `CellText.ContentIsLastGroup`.
   */
  lemma ResolveFields(cell: Block, words: map<string, string>)
    requires IdsKnown(RelationshipsOf(cell), words)
    ensures Resolve(cell, words).header <==> cell.entityTypes.Some? && ColumnHeader in cell.entityTypes.value
    ensures Resolve(cell, words).colSpan == (if cell.columnSpan.Some? then cell.columnSpan.value else 1)
    ensures Resolve(cell, words).rowSpan == (if cell.rowSpan.Some? then cell.rowSpan.value else 1)
    ensures var rels := RelationshipsOf(cell);
            Resolve(cell, words).text == if |rels| == 0 then "" else GroupText(rels[|rels| - 1].ids, words)
  {
    ContentIsLastGroup(RelationshipsOf(cell), words, "");
  }

  function ResolveRow(row: seq<Block>, words: map<string, string>): (cells: seq<ResolvedCell>)
    requires forall b | b in row :: IdsKnown(RelationshipsOf(b), words)
    ensures |cells| == |row|
    ensures forall i :: 0 <= i < |row| ==> cells[i] == Resolve(row[i], words)
  {
    seq(|row|, i requires 0 <= i < |row| => Resolve(row[i], words))
  }

  function ResolveRows(rows: seq<seq<Block>>, words: map<string, string>): (g: seq<seq<ResolvedCell>>)
    requires forall r, b | 0 <= r < |rows| && b in rows[r] :: IdsKnown(RelationshipsOf(b), words)
    ensures |g| == |rows|
    ensures forall r :: 0 <= r < |rows| ==> g[r] == ResolveRow(rows[r], words)
  {
    seq(|rows|, r requires 0 <= r < |rows| => ResolveRow(rows[r], words))
  }

  /** The resolved rows, in the order the layout gives them. */
  function Geometry(blocks: seq<Block>, words: map<string, string>): seq<seq<ResolvedCell>>
    requires WellFormedTable(blocks, words)
  {
    ResolveRows(Layout(blocks), words)
  }

  /** A cell whose word ids are known and whose spans are at least 1 resolves to a cell with positive spans. */
  predicate Ready(b: Block, words: map<string, string>) {
    IdsKnown(RelationshipsOf(b), words) && SpanOrOne(b.columnSpan) >= 1 && SpanOrOne(b.rowSpan) >= 1
  }

  lemma RowSpans(row: seq<Block>, words: map<string, string>)
    requires forall b | b in row :: Ready(b, words)
    ensures forall b | b in row :: IdsKnown(RelationshipsOf(b), words)
    ensures forall c | c in ResolveRow(row, words) :: SpansPositive(c)
  {
    forall b | b in row ensures IdsKnown(RelationshipsOf(b), words) {
      assert Ready(b, words);
    }
    var cells := ResolveRow(row, words);
    forall c | c in cells ensures SpansPositive(c) {
      var i :| 0 <= i < |cells| && cells[i] == c;
      assert row[i] in row;
    }
  }

  lemma LayoutRowSpans(blocks: seq<Block>, words: map<string, string>, r: int)
    requires WellFormedTable(blocks, words)
    requires CellSpansPositive(blocks)
    requires 0 <= r < |Layout(blocks)|
    ensures forall b | b in Layout(blocks)[r] :: Ready(b, words)
  {
    forall b | b in Layout(blocks)[r] ensures Ready(b, words) {
      assert b in blocks && Rendered(b);
    }
  }

  lemma RowsSpans(rows: seq<seq<Block>>, words: map<string, string>)
    requires forall r, b | 0 <= r < |rows| && b in rows[r] :: Ready(b, words)
    ensures forall r, b | 0 <= r < |rows| && b in rows[r] :: IdsKnown(RelationshipsOf(b), words)
    ensures forall row, c | row in ResolveRows(rows, words) && c in row :: SpansPositive(c)
  {
    forall r, b | 0 <= r < |rows| && b in rows[r] ensures IdsKnown(RelationshipsOf(b), words) {
      assert Ready(b, words);
    }
    var g := ResolveRows(rows, words);
    forall r | 0 <= r < |g| ensures forall c | c in g[r] :: SpansPositive(c) {
      RowSpans(rows[r], words);
    }
    forall row, c | row in g && c in row ensures SpansPositive(c) {
      var r :| 0 <= r < |g| && g[r] == row;
    }
  }

  lemma GeometrySpans(blocks: seq<Block>, words: map<string, string>)
    requires WellFormedTable(blocks, words)
    requires CellSpansPositive(blocks)
    ensures forall row, c | row in Geometry(blocks, words) && c in row :: SpansPositive(c)
  {
    var rows := Layout(blocks);
    forall r, b | 0 <= r < |rows| && b in rows[r] ensures Ready(b, words) {
      LayoutRowSpans(blocks, words, r);
    }
    RowsSpans(rows, words);
  }

  /**
   The table markup: `<table>`, one `<tr>...</tr>` per row of the layout with
   each resolved cell rendered in order, then `</table>`.
   */
  function TableToHtml(blocks: seq<Block>, words: map<string, string>): (html: string)
    requires WellFormedTable(blocks, words)
    ensures StartsWith(html, "<table>")
  {
    var g := Geometry(blocks, words);
    StartsWithConcat("<table>", RenderRows(g) + "</table>");
    ConcatAssoc("<table>", RenderRows(g), "</table>");
    RenderTable(g)
  }

  /**
   The markup parses back to the resolved layout: one row per index from 1 to
   the largest `RowIndex`, each the row's cells in column order, each cell
   with its tag, spans and text.
   */
  lemma TableToHtmlRoundTrip(blocks: seq<Block>, words: map<string, string>)
    requires WellFormedTable(blocks, words)
    requires CellSpansPositive(blocks)
    ensures ParseTable(TableToHtml(blocks, words)) == Some(Geometry(blocks, words))
  {
    GeometrySpans(blocks, words);
    ParseTableRoundTrip(Geometry(blocks, words));
  }
}
