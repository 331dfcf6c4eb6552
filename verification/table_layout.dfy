/**
 The geometry half of the table renderer: keep the `CELL` blocks, find the
 largest `RowIndex`, and for every row index from 1 up to it list that row's
 cells stably sorted by `ColumnIndex`.
 */
module TableLayout {
  import opened Blocks
  import opened StableSort

  /** `[x for x in s if p(x)]`. */
  function Filter<T>(s: seq<T>, p: T -> bool): (r: seq<T>)
    ensures forall i :: 0 <= i < |r| ==> p(r[i])
  {
    if |s| == 0 then []
    else
      var rest := Filter(s[1..], p);
      if p(s[0]) then [s[0]] + rest else rest
  }

  /** The filter keeps every element satisfying the condition as often as the input holds it, and nothing else. */
  lemma {:induction false} FilterContents<T(!new)>(s: seq<T>, p: T -> bool)
    ensures forall x :: multiset(Filter(s, p))[x] == if p(x) then multiset(s)[x] else 0
    decreases |s|
  {
    if |s| > 0 {
      FilterContents(s[1..], p);
      FilterCons(s[0], s[1..], p);
      assert [s[0]] + s[1..] == s;
    }
  }

  /**
   Filtering distributes over concatenation, and a one-element list is kept or
   dropped whole: together these fix `Filter` completely, so the kept elements
   stay in their input order.
   */
  lemma {:induction false} FilterConcat<T>(s: seq<T>, t: seq<T>, p: T -> bool)
    ensures Filter(s + t, p) == Filter(s, p) + Filter(t, p)
    decreases |s|
  {
    if |s| == 0 {
      assert s + t == t;
    } else {
      FilterConcat(s[1..], t, p);
      FilterConcatStep(s, t, p);
    }
  }

  /** The inductive step of `FilterConcat`: the first element is kept or dropped in both. */
  lemma FilterConcatStep<T>(s: seq<T>, t: seq<T>, p: T -> bool)
    requires |s| > 0
    requires Filter(s[1..] + t, p) == Filter(s[1..], p) + Filter(t, p)
    ensures Filter(s + t, p) == Filter(s, p) + Filter(t, p)
  {
    var x, s' := s[0], s[1..];
    FilterCons(x, s' + t, p);
    FilterCons(x, s', p);
    assert [x] + (s' + t) == s + t;
    assert [x] + s' == s;
  }

  lemma FilterCons<T>(x: T, s: seq<T>, p: T -> bool)
    ensures Filter([x] + s, p) == (if p(x) then [x] else []) + Filter(s, p)
  {
    var xs := [x] + s;
    assert xs[0] == x && xs[1..] == s;
  }

  /** Keeps the elements satisfying both conditions. */
  function Both<T>(p: T -> bool, q: T -> bool): T -> bool {
    x => p(x) && q(x)
  }

  /** Filtering twice is filtering once by both conditions, with the input order unchanged. */
  lemma {:induction false} FilterFilter<T>(s: seq<T>, p: T -> bool, q: T -> bool)
    ensures Filter(Filter(s, p), q) == Filter(s, Both(p, q))
    decreases |s|
  {
    if |s| > 0 {
      FilterFilter(s[1..], p, q);
      var rest := Filter(s[1..], p);
      if p(s[0]) {
        assert Filter(s, p) == [s[0]] + rest;
        assert ([s[0]] + rest)[0] == s[0];
        assert ([s[0]] + rest)[1..] == rest;
      }
    }
  }

  function Cells(blocks: seq<Block>): seq<Block> {
    Filter(blocks, IsCell)
  }

  /** `max(...)` of an empty sequence raises: the renderer needs at least one cell. */
  predicate HasCell(blocks: seq<Block>) {
    exists i :: 0 <= i < |blocks| && IsCell(blocks[i])
  }

  /** `cell["RowIndex"]` raises `KeyError` on a cell without a row index. */
  predicate CellsHaveRowIndex(blocks: seq<Block>) {
    forall b | b in blocks && IsCell(b) :: b.rowIndex.Some?
  }

  /**
   A cell the renderer visits: one with a positive row index. Every row index
   is at most the largest, so these are exactly the cells of `range(1, row_count + 1)`.
   */
  predicate Rendered(b: Block) {
    IsCell(b) && b.rowIndex.Some? && b.rowIndex.value >= 1
  }

  /** `cell["ColumnIndex"]` is read, as the sort key, for every rendered cell. */
  predicate RenderedCellsHaveColumnIndex(blocks: seq<Block>) {
    forall b | b in blocks && Rendered(b) :: b.columnIndex.Some?
  }

  /** The largest row index of a non-empty list of cells. */
  function MaxRow(cells: seq<Block>): (m: int)
    requires |cells| > 0
    requires forall c | c in cells :: c.rowIndex.Some?
    ensures exists i :: 0 <= i < |cells| && cells[i].rowIndex == Some(m)
    ensures forall c | c in cells :: c.rowIndex.value <= m
  {
    if |cells| == 1 then cells[0].rowIndex.value
    else
      assert forall c | c in cells[1..] :: c in cells;
      var m := MaxRow(cells[1..]);
      assert forall c | c in cells :: c == cells[0] || c in cells[1..];
      if cells[0].rowIndex.value >= m then cells[0].rowIndex.value else m
  }

  lemma CellsNonEmpty(blocks: seq<Block>)
    requires HasCell(blocks)
    ensures |Cells(blocks)| > 0
  {
    var i :| 0 <= i < |blocks| && IsCell(blocks[i]);
    assert blocks[i] in multiset(blocks);
    FilterContents(blocks, IsCell);
    assert blocks[i] in multiset(Cells(blocks));
  }

  /**
   `range(1, row_count + 1)` has this many elements: the largest row index of
   the cells, or 0 when no row index is positive.
   */
  function RowCount(blocks: seq<Block>): (n: nat)
    requires HasCell(blocks) && CellsHaveRowIndex(blocks)
    ensures forall b | b in blocks && IsCell(b) :: b.rowIndex.value <= n
    ensures n > 0 ==> exists i :: 0 <= i < |blocks| && IsCell(blocks[i]) && blocks[i].rowIndex == Some(n)
  {
    CellsNonEmpty(blocks);
    var cells := Cells(blocks);
    CellsInBlocks(blocks);
    var m := MaxRow(cells);
    MaxRowIsCellRow(blocks, m);
    if m >= 1 then m else 0
  }

  lemma CellsInBlocks(blocks: seq<Block>)
    ensures forall c | c in Cells(blocks) :: c in blocks && IsCell(c)
    ensures forall b | b in blocks && IsCell(b) :: b in Cells(blocks)
  {
    var cells := Cells(blocks);
    FilterContents(blocks, IsCell);
    forall c | c in cells ensures c in blocks && IsCell(c) {
      assert c in multiset(cells);
    }
    forall b | b in blocks && IsCell(b) ensures b in cells {
      assert b in multiset(blocks);
    }
  }

  lemma MaxRowIsCellRow(blocks: seq<Block>, m: int)
    requires forall c | c in Cells(blocks) :: c.rowIndex.Some?
    requires exists i :: 0 <= i < |Cells(blocks)| && Cells(blocks)[i].rowIndex == Some(m)
    ensures exists i :: 0 <= i < |blocks| && IsCell(blocks[i]) && blocks[i].rowIndex == Some(m)
  {
    var cells := Cells(blocks);
    var i :| 0 <= i < |cells| && cells[i].rowIndex == Some(m);
    CellsInBlocks(blocks);
    assert cells[i] in cells;
    var j :| 0 <= j < |blocks| && blocks[j] == cells[i];
  }

  function OnRow(r: int): Block -> bool {
    (c: Block) => c.rowIndex == Some(r)
  }

  /** Row `r` of the table: its cells, stably sorted by column. */
  function SortedRow(cells: seq<Block>, r: int): seq<Block> {
    Sort(Filter(cells, OnRow(r)), ColumnKey)
  }

  /**
   The rows of the table in order, row `i` holding the cells of row index
   `i + 1`. There is one row per index from 1 to the largest row index, so
   the number of rows is the largest row index, or 0 when none is positive;
   every row is ordered by column and holds exactly the cells of its index.
   */
  function Layout(blocks: seq<Block>): (rows: seq<seq<Block>>)
    requires HasCell(blocks) && CellsHaveRowIndex(blocks)
    ensures |rows| == RowCount(blocks)
    ensures forall r, b | 0 <= r < |rows| && b in rows[r] :: b in blocks && IsCell(b) && b.rowIndex == Some(r + 1)
  {
    SortedRowMembers(blocks);
    RowsUpTo(Cells(blocks), RowCount(blocks))
  }

  /** The rows of index 1 to `n`, appended in order as the loop over `range(1, n + 1)` does. */
  function RowsUpTo(cells: seq<Block>, n: nat): (rows: seq<seq<Block>>)
    ensures |rows| == n
    ensures forall r :: 0 <= r < n ==> rows[r] == SortedRow(cells, r + 1)
  {
    if n == 0 then [] else RowsUpTo(cells, n - 1) + [SortedRow(cells, n)]
  }

  /**
   Row `r` holds every cell of row index `r + 1` as often as the input does,
   and nothing else: no other block, no cell of another row.
   */
  lemma LayoutRowContents(blocks: seq<Block>, r: int, b: Block)
    requires HasCell(blocks) && CellsHaveRowIndex(blocks)
    requires 0 <= r < RowCount(blocks)
    ensures multiset(Layout(blocks)[r])[b]
            == if IsCell(b) && b.rowIndex == Some(r + 1) then multiset(blocks)[b] else 0
  {
    var cells := Cells(blocks);
    var row := Filter(cells, OnRow(r + 1));
    assert Layout(blocks)[r] == SortedRow(cells, r + 1);
    assert multiset(SortedRow(cells, r + 1)) == multiset(row);
    assert multiset(row)[b] == if b.rowIndex == Some(r + 1) then multiset(cells)[b] else 0 by {
      FilterContents(cells, OnRow(r + 1));
    }
    assert multiset(cells)[b] == if IsCell(b) then multiset(blocks)[b] else 0 by {
      FilterContents(blocks, IsCell);
    }
  }

  /**
   Row `r` is ordered by column, and cells of equal column keep the order in
   which they appear in the block list.
   */
  lemma LayoutRowOrder(blocks: seq<Block>, r: int)
    requires HasCell(blocks) && CellsHaveRowIndex(blocks)
    requires 0 <= r < |Layout(blocks)|
    ensures SortedBy(Layout(blocks)[r], ColumnKey)
    ensures SameOrderPerKey(Layout(blocks)[r], Filter(blocks, Both(IsCell, OnRow(r + 1))), ColumnKey)
  {
    assert Layout(blocks)[r] == SortedRow(Cells(blocks), r + 1);
    FilterFilter(blocks, IsCell, OnRow(r + 1));
  }

  lemma SortedRowMembers(blocks: seq<Block>)
    ensures forall r, b | b in SortedRow(Cells(blocks), r) :: b in blocks && IsCell(b) && b.rowIndex == Some(r)
  {
    forall r, b | b in SortedRow(Cells(blocks), r)
      ensures b in blocks && IsCell(b) && b.rowIndex == Some(r)
    {
      var cells := Cells(blocks);
      var row := Filter(cells, OnRow(r));
      assert b in multiset(SortedRow(cells, r));
      assert multiset(SortedRow(cells, r)) == multiset(row);
      assert b in cells && b.rowIndex == Some(r) by {
        FilterContents(cells, OnRow(r));
        assert multiset(row)[b] > 0;
      }
      CellsInBlocks(blocks);
    }
  }

  /** A row is empty exactly when no cell carries its index; it still yields a row element. */
  lemma EmptyRowIff(blocks: seq<Block>, r: int)
    requires HasCell(blocks) && CellsHaveRowIndex(blocks)
    requires 0 <= r < |Layout(blocks)|
    ensures |Layout(blocks)[r]| == 0 <==> forall b | b in blocks && IsCell(b) :: b.rowIndex != Some(r + 1)
  {
    var row := Layout(blocks)[r];
    if |row| > 0 {
      assert row[0] in row;
    } else {
      forall b | b in blocks && IsCell(b) ensures b.rowIndex != Some(r + 1) {
        LayoutRowContents(blocks, r, b);
        assert b in multiset(blocks);
      }
    }
  }
}
