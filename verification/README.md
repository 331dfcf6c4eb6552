# Textract table to HTML, modelled in Dafny

This project models the logic of `textract/analyze.py`. That is the part of the
repository that rebuilds an HTML table from the flat block list returned by
Amazon Textract document analysis. It has two functions.

- `_id_to_word_mapping` maps the `Id` of every `WORD` block to its `Text`.
  In the model this is `WordIndex.IdToWordMapping`.
- `_textract_table_to_html` renders `CELL` blocks as `<table>` markup. It:
  - keeps the `CELL` blocks;
  - takes the largest `RowIndex`;
  - emits one `<tr>` per index from 1 up to that largest index;
  - stably sorts each row's cells by `ColumnIndex`;
  - chooses `th` or `td` from `EntityTypes`;
  - adds ` colSpan=N` / ` rowSpan=N` only for spans above 1;
  - sets each cell's text to the words of its last relationship group, joined
    by one space, then passes that text through `html.escape`.

  In the model this is `TableHtml.TableToHtml`.

The model is split into one module per concern:

| file | module | contents |
|---|---|---|
| `blocks.dfy` | `Blocks` | the block and relationship records, and the defaults read with `.get` |
| `word_index.dfy` | `WordIndex` | the word index, as a loop with invariants |
| `table_layout.dfy` | `TableLayout` | the cell filter, the row count and the per-row stable sort |
| `stable_sort.dfy` | `StableSort` | Python's `sorted(key=...)` as an insertion sort, proved to be the only stable sort |
| `cell_text.dfy` | `CellText` | the relationship loop, in which the last group wins |
| `strings.dfy` | `Strings` | `" ".join`, `str.split`, and the decimal rendering of an integer |
| `escape.dfy` | `HtmlEscape` | `html.escape(s, quote=True)` |
| `markup.dfy` | `Markup` | the emitted markup, and a parser for it that serves as its inverse |
| `table_html.dfy` | `TableHtml` | the whole renderer |

The main theorem is `TableHtml.TableToHtmlRoundTrip`. The rendered string
parses back to exactly the resolved table:

- one row per index from 1 to the largest `RowIndex`;
- each row holding its cells in column order;
- each cell with its tag, spans and unescaped text.

Together with the per-row lemmas of `TableLayout` and `TableHtml.ResolveFields`,
this pins down the parsed structure of the output. The text is pinned down
further in two ways:

- The parser accepts a span attribute only in the form the renderer emits
  (`Markup.ParseSpanCanonical`). That is, it reads digits without a leading
  zero, for a value above 1, so a span of 1 must be written as no attribute.
- `Escape` equals `html.escape`'s chain of replacements
  (`HtmlEscape.EscapeByStepsIsEscape`).

The round trip does not by itself rule out other spellings of the cell text
that unescape to the same string.

The code raises where a caller might expect it to degrade, and the model
follows the code:

- A table without a `CELL` block makes `max` raise. It does not produce an
  empty table, so `HasCell` is required.
- A word id missing from the index raises `KeyError`. It is not skipped, so
  `IdsKnown` is required for every cell that is rendered.
- When two `WORD` blocks share an id, the later one wins. The index depends on
  block order.
- Cells of a row come out in non-decreasing `ColumnIndex` order. Ties keep
  their input order, because the sort is stable. The order is not strictly
  ascending.

## Model

| member | source | states |
|---|---|---|
| WordIndex.IdToWordMapping | textract/analyze.py:48-56 | The keys are exactly the ids of the `WORD` blocks, so no `WORD` block gives an empty map and other block types are ignored. Each id maps to the `Text` of the last `WORD` block carrying it. `Text` must be present on every `WORD` block. |
| TableLayout.FilterContents | textract/analyze.py:14 | A list comprehension with a condition keeps every element that satisfies the condition, as often as the input holds it, and nothing else. |
| TableLayout.FilterConcat | textract/analyze.py:14 | Filtering a concatenation is the concatenation of the filtered parts, so the kept elements stay in input order. |
| TableLayout.FilterFilter | textract/analyze.py:14-21 | Keeping the cells, then those of one row index, gives the cells of that row in block-list order. This is the list handed to `sorted`. |
| TableLayout.MaxRow | textract/analyze.py:15 | `max` over the cells' row indices is the row index of some cell and is at least every cell's row index. The cell list must be non-empty. |
| TableLayout.RowCount | textract/analyze.py:15-18 | The number of rows emitted is at least every cell's `RowIndex`. When it is positive, some `CELL` block has exactly that row index. It requires at least one cell, and a row index on every cell. |
| TableLayout.Layout | textract/analyze.py:14-23 | There are exactly `RowCount` rows. Every block placed in row `r` is a `CELL` block of the input whose `RowIndex` is `r + 1`. |
| TableLayout.LayoutRowContents | textract/analyze.py:14-23 | Row `r` holds each `CELL` block with `RowIndex == r + 1` as many times as the input does, and nothing else. Non-cell blocks and cells with `RowIndex < 1` are never placed. |
| TableLayout.LayoutRowOrder | textract/analyze.py:14-23 | Each row is in non-decreasing `ColumnIndex` order. Cells of equal column index keep the order in which they appear in the block list. |
| TableLayout.EmptyRowIff | textract/analyze.py:18-23 | A row is empty exactly when no cell carries its index. Such an index still yields a row, which renders as `<tr></tr>`. |
| StableSort.Sort | textract/analyze.py:20-23 | The result of `sorted` is a permutation of its input, is ordered by key, and keeps equal-key elements in input order. |
| StableSort.StableSortIsSort | textract/analyze.py:20-23 | Every sequence that is ordered by key and keeps each key's elements in input order equals `Sort`, so the model agrees with Python's stable `sorted`. |
| CellText.ContentIsLastGroup | textract/analyze.py:36-40 | The relationship loop yields its start value when there are no groups. Otherwise it yields the joined words of the last group, because earlier groups are overwritten. |
| CellText.CellContentWords | textract/analyze.py:36-40 | Suppose the last group names at least one word and no word contains a space. Then splitting the cell text on spaces gives back that group's words, in order. |
| Strings.SplitJoin | textract/analyze.py:40 | `" ".join` loses nothing when no word contains the separator: splitting the result gives back the words. |
| TableHtml.ResolveFields | textract/analyze.py:25-40 | A cell is a header (`th`) exactly when `EntityTypes` is present and contains `COLUMN_HEADER`. Each span is its value, or 1 when absent. The text is empty without relationships, and otherwise is the last group's words joined by one space. |
| Strings.NatToString | textract/analyze.py:32-34 | The f-string rendering of a span is a non-empty run of decimal digits without a leading zero. |
| Strings.ParseNatToString | textract/analyze.py:32-34 | Reading the digits of the rendered span gives back the span. |
| Markup.SpanRoundTrip | textract/analyze.py:31-34 | For every span of at least 1, reading the span attribute back gives the span. A span above 1 is read from its ` colSpan=N` / ` rowSpan=N`. A span of 1 emits nothing and reads back as the default of 1. |
| Markup.ParseSpanCanonical | textract/analyze.py:31-34 | Anything the span parser accepts is a span of at least 1, written exactly as the renderer writes it. An attribute is emitted only for a span above 1, in decimal without a leading zero. ` colSpan=1`, ` colSpan=0` and ` colSpan=02` are refused. |
| Strings.NatToStringParseNat | textract/analyze.py:32-34 | A non-empty digit string without a leading zero is the decimal rendering of its own value. |
| Markup.ParseAttributesRoundTrip | textract/analyze.py:30-34 | The span attributes come in the order colSpan, then rowSpan, and each is recovered from the markup. |
| HtmlEscape.EscapeChar | textract/analyze.py:42 | Each character escapes to itself exactly when it is not one of `&<>"'`, and to at least one character either way. |
| HtmlEscape.EscapeIsClean | textract/analyze.py:42 | Escaped text contains no raw `<`, `>`, `"` or `'`, and every `&` in it starts one of the five entities. |
| HtmlEscape.EscapeByStepsIsEscape | textract/analyze.py:42 | `html.escape`'s chain of replacements, with `&` replaced first, equals the per-character mapping. No entity is escaped twice. |
| HtmlEscape.EscapeUnchangedIff | textract/analyze.py:42 | Text is left unchanged by escaping if and only if it contains none of `&<>"'`. |
| HtmlEscape.UnescapeEscape | textract/analyze.py:42 | Escaping loses nothing: decoding the five entities gives the original text back. |
| Markup.ParseBodyRoundTrip | textract/analyze.py:42 | After the attributes come `>`, the escaped text and a closing tag matching the opening one. The unescaped text is recovered. |
| Markup.ParseCellRoundTrip | textract/analyze.py:24-42 | One rendered cell parses back to its tag, spans and text. Its closing tag matches its opening tag. |
| Markup.ParseCellsRoundTrip | textract/analyze.py:24-42 | A row's cells, rendered one after another, parse back to the same cells in the same order. |
| Markup.ParseRowsRoundTrip | textract/analyze.py:18-43 | The sequence of `<tr>...</tr>` elements parses back to the same rows in the same order, empty rows included. |
| Markup.ParseTableRoundTrip | textract/analyze.py:17-44 | `<table>`, the rows, then `</table>` parses back to exactly the rows rendered. |
| TableHtml.TableToHtml | textract/analyze.py:12-45 | It requires what the renderer reads without a default: at least one cell, a row index on every cell, and a column index and known word ids on every rendered cell. The markup opens with `<table>`. |
| TableHtml.TableToHtmlRoundTrip | textract/analyze.py:12-45 | When the rendered cells' spans are at least 1, the markup parses back to the resolved layout: one row per index from 1 to the largest row index, each row's cells in column order, each with its tag, spans and text. |

## Left out

- `main()` (textract/analyze.py:59-96) is left out. It does client setup, the start-and-poll loop with `asyncio.sleep`, and file writes, all of which are I/O.
- The table filter inside `main()` is left out. It passes the cells of every table into one call; the model takes the block list as given.
- The modules under `s3/`, `opensearch/`, `bedrock/` and `identity/` are not part of this model. They are thin wrappers around cloud API calls.
- The response's other block fields (geometry, confidence, page) are left out. The renderer never reads them.
- A relationship group without `Ids` is not modelled. The source raises `KeyError` there, and the model's `Relationship` always carries an id list.
- Values of the wrong JSON type are not modelled, for example a non-integer `RowIndex` or a string span. The model types every field.
- Integers are unbounded, as Python's are.
- A block without `BlockType` or `Id` is not modelled. Reading `block["BlockType"]` (textract/analyze.py:14, 51) or `block["Id"]` (textract/analyze.py:52) raises `KeyError` on such a block. The model's `Block` always carries both fields.
- `Blocks.ColumnKey` returns 0 for a cell without `ColumnIndex` so that the sort key is total. This never happens for a rendered cell, because `TableHtml.WellFormedTable` requires a column index on every cell with a positive row index.
- TableHtml.TableToHtmlRoundTrip: the round trip holds only when every rendered cell's spans are at least 1. A span of 0 or less emits no attribute and reads back as 1.
- HtmlEscape.UnescapeEscape: the decoder is `Unescape`, which understands only the five entities that `html.escape` produces. It is not the whole of `html.unescape`.
