/** The editor grid: metadata fields row by row, and below them the ordered values column by column. */
module PanelGrid {
  import opened PanelNumbers

  const COLUMN_WIDTH := 280
  const ROW_HEIGHT := 76
  const HORIZONTAL_MARGIN := 160
  const VERTICAL_MARGIN := 180
  const MIN_HEIGHT := 460
  const MAX_HEIGHT := 900

  datatype Cell = Cell(column: nat, row: nat)

  /** How many of the first `n` columns are values (`kind`) or metadata (`!kind`). */
  function Rank(slots: seq<bool>, kind: bool, n: nat): (r: nat)
    requires n <= |slots|
    ensures r <= n
  {
    if n == 0 then 0 else Rank(slots, kind, n - 1) + (if slots[n - 1] == kind then 1 else 0)
  }

  /** Without any value columns, all columns are laid out as values. */
  function Layout(slots: seq<bool>): (r: seq<bool>)
    ensures |r| == |slots|
  {
    if true in slots then slots else seq(|slots|, _ => true)
  }

  function Values(slots: seq<bool>): nat { Rank(Layout(slots), true, |slots|) }

  function Metadata(slots: seq<bool>): nat { Rank(Layout(slots), false, |slots|) }

  function CeilDiv(n: nat, d: nat): nat
    requires d > 0
  {
    (n + d - 1) / d
  }

  function ValueRows(values: nat, c: nat): (r: nat)
    requires c > 0
    ensures r > 0
  {
    if CeilDiv(values, c) > 1 then CeilDiv(values, c) else 1
  }

  /** The cell of column `i` in a grid `c` columns wide. */
  function CellOf(slots: seq<bool>, c: nat, i: nat): Cell
    requires c > 0 && i < |slots|
  {
    var layout := Layout(slots);
    var offset := Rank(layout, layout[i], i);
    if layout[i] then
      var rows := ValueRows(Values(slots), c);
      Cell(offset / rows, CeilDiv(Metadata(slots), c) + offset % rows)
    else Cell(offset % c, offset / c)
  }

  // ---------------------------------------------------------------- filling the grid

  /** The indices of one kind below `n`, in order. */
  function Indices(slots: seq<bool>, kind: bool, n: nat): (r: seq<nat>)
    requires n <= |slots|
    ensures |r| == Rank(slots, kind, n)
  {
    if n == 0 then [] else Indices(slots, kind, n - 1) + (if slots[n - 1] == kind then [n - 1] else [])
  }

  lemma {:induction false} IndexHasRank(slots: seq<bool>, kind: bool, n: nat, k: nat)
    requires n <= |slots| && k < Rank(slots, kind, n)
    ensures Indices(slots, kind, n)[k] < n && slots[Indices(slots, kind, n)[k]] == kind
    ensures Rank(slots, kind, Indices(slots, kind, n)[k]) == k
  {
    if k < Rank(slots, kind, n - 1) { IndexHasRank(slots, kind, n - 1, k); }
  }

  lemma {:induction false} RankIsMonotone(slots: seq<bool>, kind: bool, i: nat, j: nat)
    requires i <= j <= |slots|
    ensures Rank(slots, kind, i) <= Rank(slots, kind, j)
    ensures i < j && slots[i] == kind ==> Rank(slots, kind, i) < Rank(slots, kind, j)
  {
    if i < j { RankIsMonotone(slots, kind, i, j - 1); }
  }

  /** A column sits in the list of its kind at its rank. */
  lemma {:induction false} RankHasIndex(slots: seq<bool>, i: nat, n: nat)
    requires i < n <= |slots|
    ensures Rank(slots, slots[i], i) < Rank(slots, slots[i], n)
    ensures Indices(slots, slots[i], n)[Rank(slots, slots[i], i)] == i
  {
    RankIsMonotone(slots, slots[i], i, n);
    if i < n - 1 { RankHasIndex(slots, i, n - 1); }
  }

  method CollectIndices(slots: seq<bool>, kind: bool) returns (r: seq<nat>)
    ensures r == Indices(slots, kind, |slots|)
  {
    r := [];
    for n := 0 to |slots|
      invariant r == Indices(slots, kind, n)
    {
      if slots[n] == kind { r := r + [n]; }
    }
  }

  /** The cells for the width in the settings: first all metadata, row by row, then all values, column by column. */
  method EditorPositions(slots: seq<bool>, editColumns: Setting) returns (positions: map<nat, Cell>)
    ensures forall i :: i in positions <==> 0 <= i < |slots|
    ensures forall i :: 0 <= i < |slots| ==> positions[i] == CellOf(slots, EditColumns(editColumns), i)
  {
    var c := EditColumns(editColumns);
    hide CellOf, Layout, CeilDiv, ValueRows, Rank, Indices;
    var layout := Layout(slots);
    var metadata := CollectIndices(layout, false);
    var values := CollectIndices(layout, true);
    var metadataRows, valueRows := CeilDiv(|metadata|, c), ValueRows(|values|, c);
    positions := map[];
    for k := 0 to |metadata|
      invariant forall i :: i in positions <==> Placed(layout, i, false, k)
      invariant forall i :: i in positions ==> i < |slots| && positions[i] == CellOf(slots, c, i)
    {
      IndexHasRank(layout, false, |slots|, k);
      PlacedNext(layout, false, k);
      MetadataCell(slots, c, metadata[k]);
      positions := positions[metadata[k] := Cell(k % c, k / c)];
    }
    for k := 0 to |values|
      invariant forall i :: i in positions <==> Placed(layout, i, false, |metadata|) || Placed(layout, i, true, k)
      invariant forall i :: i in positions ==> i < |slots| && positions[i] == CellOf(slots, c, i)
    {
      IndexHasRank(layout, true, |slots|, k);
      PlacedNext(layout, true, k);
      ValueCell(slots, c, values[k]);
      positions := positions[values[k] := Cell(k / valueRows, metadataRows + k % valueRows)];
    }
    forall i | 0 <= i < |slots| ensures i in positions {
      RankHasIndex(layout, i, |slots|);
      assert Placed(layout, i, layout[i], Rank(layout, layout[i], |slots|));
    }
  }

  /** Column `i` is among the first `k` of its kind. */
  predicate Placed(layout: seq<bool>, i: nat, kind: bool, k: nat) {
    i < |layout| && layout[i] == kind && Rank(layout, kind, i) < k
  }

  lemma PlacedStep(layout: seq<bool>, kind: bool, k: nat, i: nat)
    requires k < Rank(layout, kind, |layout|)
    ensures Placed(layout, i, kind, k + 1) <==> Placed(layout, i, kind, k) || i == Indices(layout, kind, |layout|)[k]
  {
    IndexHasRank(layout, kind, |layout|, k);
    if i < |layout| { RankHasIndex(layout, i, |layout|); }
  }

  lemma PlacedNext(layout: seq<bool>, kind: bool, k: nat)
    requires k < Rank(layout, kind, |layout|)
    ensures forall i :: Placed(layout, i, kind, k + 1) <==>
      Placed(layout, i, kind, k) || i == Indices(layout, kind, |layout|)[k]
  {
    hide Placed, Rank, Indices;
    var next := Indices(layout, kind, |layout|)[k];
    forall i: nat ensures Placed(layout, i, kind, k + 1) <==> Placed(layout, i, kind, k) || i == next {
      PlacedStep(layout, kind, k, i);
    }
  }

  lemma MetadataCell(slots: seq<bool>, c: nat, i: nat)
    requires c > 0 && i < |slots| && !Layout(slots)[i]
    ensures CellOf(slots, c, i) == Cell(Rank(Layout(slots), false, i) % c, Rank(Layout(slots), false, i) / c)
  {}

  lemma ValueCell(slots: seq<bool>, c: nat, i: nat)
    requires c > 0 && i < |slots| && Layout(slots)[i]
    ensures CellOf(slots, c, i) == Cell(Rank(Layout(slots), true, i) / ValueRows(Values(slots), c),
      CeilDiv(Metadata(slots), c) + Rank(Layout(slots), true, i) % ValueRows(Values(slots), c))
  {}

  // ---------------------------------------------------------------- the dialog

  /** Rows of the grid, as the size of the dialog counts them. */
  function Rows(values: nat, c: nat, metadata: nat): nat
    requires c > 0
  {
    CeilDiv(metadata, c) + ValueRows(values, c)
  }

  function Least(a: nat, b: nat): nat { if a < b then a else b }

  function Greatest(a: nat, b: nat): nat { if a < b then b else a }

  function VisibleColumns(values: nat, c: nat, metadata: nat): nat { Least(c, Greatest(1, Greatest(values, metadata))) }

  /** Width and height of the dialog. */
  function Dimensions(values: nat, c: nat, metadata: nat): (nat, nat)
    requires c > 0
  {
    (VisibleColumns(values, c, metadata) * COLUMN_WIDTH + HORIZONTAL_MARGIN,
     Least(MAX_HEIGHT, Greatest(MIN_HEIGHT, Rows(values, c, metadata) * ROW_HEIGHT + VERTICAL_MARGIN)))
  }

  // ---------------------------------------------------------------- arithmetic

  /** Rounded up, `n / d` times `d` reaches `n`. */
  lemma CeilCovers(n: nat, d: nat)
    requires d > 0
    ensures n <= CeilDiv(n, d) * d < n + d
  {
    var q, m := CeilDiv(n, d), n + d - 1;
    assert q * d + m % d == m;
  }

  lemma DivBelow(k: nat, d: nat, q: nat)
    requires d > 0 && k < q * d
    ensures k / d < q
  {
    assert (k / d) * d + k % d == k;
    if k / d >= q { MulMonotone(q, k / d, d); }
  }

  lemma MulMonotone(a: nat, b: nat, d: nat)
    requires a <= b
    ensures a * d <= b * d
  {}

  /** Quotient and remainder order numbers lexicographically. */
  lemma DivModOrder(k: nat, l: nat, d: nat)
    requires d > 0
    ensures k < l <==> k / d < l / d || (k / d == l / d && k % d < l % d)
  {
    assert k == (k / d) * d + k % d && l == (l / d) * d + l % d;
    if k / d < l / d { MulMonotone(k / d + 1, l / d, d); }
    if l / d < k / d { MulMonotone(l / d + 1, k / d, d); }
  }

  // ---------------------------------------------------------------- main results

  predicate IsValue(slots: seq<bool>, i: nat)
    requires i < |slots|
  {
    slots[i] || true !in slots
  }

  /** Columns of one kind are ordered by their ranks as by their indices. */
  lemma RanksOrder(layout: seq<bool>, kind: bool, i: nat, j: nat)
    requires i < |layout| && j < |layout| && layout[i] == layout[j] == kind
    ensures i < j <==> Rank(layout, kind, i) < Rank(layout, kind, j)
  {
    if i < j { RankIsMonotone(layout, kind, i, j); } else { RankIsMonotone(layout, kind, j, i); }
  }

  /** The values run top to bottom, then left to right, in the order of the columns. */
  lemma ValuesRunDown(slots: seq<bool>, c: nat, i: nat, j: nat)
    requires c > 0 && i < |slots| && j < |slots| && IsValue(slots, i) && IsValue(slots, j)
    ensures i < j <==>
      CellOf(slots, c, i).column < CellOf(slots, c, j).column ||
      (CellOf(slots, c, i).column == CellOf(slots, c, j).column && CellOf(slots, c, i).row < CellOf(slots, c, j).row)
  {
    var layout := Layout(slots);
    RanksOrder(layout, true, i, j);
    DivModOrder(Rank(layout, true, i), Rank(layout, true, j), ValueRows(Values(slots), c));
  }

  /** The metadata runs left to right, then top to bottom. */
  lemma MetadataRunsAcross(slots: seq<bool>, c: nat, i: nat, j: nat)
    requires c > 0 && i < |slots| && j < |slots| && !IsValue(slots, i) && !IsValue(slots, j)
    ensures i < j <==>
      CellOf(slots, c, i).row < CellOf(slots, c, j).row ||
      (CellOf(slots, c, i).row == CellOf(slots, c, j).row && CellOf(slots, c, i).column < CellOf(slots, c, j).column)
  {
    var layout := Layout(slots);
    RanksOrder(layout, false, i, j);
    DivModOrder(Rank(layout, false, i), Rank(layout, false, j), c);
  }

  lemma MetadataRowsFit(slots: seq<bool>, c: nat, i: nat)
    requires c > 0 && i < |slots| && !IsValue(slots, i)
    ensures CellOf(slots, c, i).row < CeilDiv(Metadata(slots), c)
    ensures CellOf(slots, c, i).column < c && CellOf(slots, c, i).column < Metadata(slots)
  {
    hide Rank, CeilDiv, Indices;
    var layout := Layout(slots);
    RankHasIndex(layout, i, |slots|);
    CeilCovers(Metadata(slots), c);
    RowMajorFits(Rank(layout, false, i), c, CeilDiv(Metadata(slots), c));
  }

  lemma RowMajorFits(k: nat, c: nat, rows: nat)
    requires c > 0 && k < rows * c
    ensures k / c < rows && k % c < c && k % c <= k
  {
    DivBelow(k, c, rows);
    assert k == (k / c) * c + k % c;
    MulMonotone(0, k / c, c);
  }

  lemma ValueRowsFit(slots: seq<bool>, c: nat, i: nat)
    requires c > 0 && i < |slots| && IsValue(slots, i)
    ensures CeilDiv(Metadata(slots), c) <= CellOf(slots, c, i).row < Rows(Values(slots), c, Metadata(slots))
    ensures CellOf(slots, c, i).column < c && CellOf(slots, c, i).column < Values(slots)
  {
    var layout := Layout(slots);
    RankHasIndex(layout, i, |slots|);
    var k, rows := Rank(layout, true, i), ValueRows(Values(slots), c);
    CeilCovers(Values(slots), c);
    MulMonotone(CeilDiv(Values(slots), c), rows, c);
    hide Rank, CeilDiv, ValueRows;
    assert k < c * rows;
    DivBelow(k, rows, c);
    QuotientAtMost(k, rows);
  }

  lemma QuotientAtMost(k: nat, d: nat)
    requires d > 0
    ensures k / d <= k
  {
    if k / d > k { MulMonotone(k + 1, k / d, d); MulMonotone(1, d, k + 1); }
  }

  /** Every metadata row lies above every value row. */
  lemma MetadataAbove(slots: seq<bool>, c: nat, i: nat, j: nat)
    requires c > 0 && i < |slots| && j < |slots| && !IsValue(slots, i) && IsValue(slots, j)
    ensures CellOf(slots, c, i).row < CellOf(slots, c, j).row
  {
    hide CellOf, CeilDiv, IsValue;
    MetadataRowsFit(slots, c, i);
    ValueRowsFit(slots, c, j);
  }

  /** No two columns share a cell. */
  lemma CellsDiffer(slots: seq<bool>, c: nat, i: nat, j: nat)
    requires c > 0 && i < |slots| && j < |slots| && i != j
    ensures CellOf(slots, c, i) != CellOf(slots, c, j)
  {
    hide CellOf, IsValue;
    if IsValue(slots, i) && IsValue(slots, j) {
      ValuesRunDown(slots, c, i, j);
      ValuesRunDown(slots, c, j, i);
    } else if IsValue(slots, i) {
      MetadataAbove(slots, c, j, i);
    } else if IsValue(slots, j) {
      MetadataAbove(slots, c, i, j);
    } else {
      MetadataRunsAcross(slots, c, i, j);
      MetadataRunsAcross(slots, c, j, i);
    }
  }

  /** Every cell lies within the rows and columns the size of the dialog is computed from. */
  lemma CellsFitDialog(slots: seq<bool>, c: nat, i: nat)
    requires c > 0 && i < |slots|
    ensures CellOf(slots, c, i).row < Rows(Values(slots), c, Metadata(slots))
    ensures CellOf(slots, c, i).column < VisibleColumns(Values(slots), c, Metadata(slots))
    ensures (CellOf(slots, c, i).column + 1) * 280 + 160 <= Dimensions(Values(slots), c, Metadata(slots)).0
  {
    hide CellOf, IsValue;
    if IsValue(slots, i) {
      ValueRowsFit(slots, c, i);
    } else {
      MetadataRowsFit(slots, c, i);
      hide CeilDiv;
    }
  }

  /** No row of the grid is wasted: each holds the cell of some column. */
  lemma RowsAreUsed(slots: seq<bool>, c: nat, row: nat) returns (i: nat)
    requires c > 0 && |slots| > 0 && row < Rows(Values(slots), c, Metadata(slots))
    ensures i < |slots| && CellOf(slots, c, i).row == row
  {
    var layout, metadata := Layout(slots), CeilDiv(Metadata(slots), c);
    if row < metadata {
      FirstOfRow(Metadata(slots), c, row);
      hide Rank, Indices, CeilDiv;
      IndexHasRank(layout, false, |slots|, row * c);
      i := Indices(layout, false, |slots|)[row * c];
    } else {
      SomeValue(slots);
      ValueRowsAtMost(Values(slots), c);
      hide Rank, Indices, CeilDiv, ValueRows;
      IndexHasRank(layout, true, |slots|, row - metadata);
      i := Indices(layout, true, |slots|)[row - metadata];
      SmallMod(row - metadata, ValueRows(Values(slots), c));
    }
  }

  lemma FirstOfRow(n: nat, c: nat, row: nat)
    requires c > 0 && row < CeilDiv(n, c)
    ensures row * c < n && row * c / c == row
  {
    CeilCovers(n, c);
    MulMonotone(row + 1, CeilDiv(n, c), c);
    DivBelow(row * c, c, row + 1);
    DivModOrder(0, row * c, c);
    var q := row * c / c;
    assert q * c + (row * c) % c == row * c;
    if q < row { MulMonotone(q + 1, row, c); }
  }

  lemma SmallMod(k: nat, d: nat)
    requires k < d
    ensures k % d == k
  {}

  lemma SomeValue(slots: seq<bool>)
    requires |slots| > 0
    ensures Values(slots) > 0
  {
    var i :| 0 <= i < |slots| && Layout(slots)[i];
    RankHasIndex(Layout(slots), i, |slots|);
  }

  lemma ValueRowsAtMost(values: nat, c: nat)
    requires c > 0 && values > 0
    ensures ValueRows(values, c) <= values
  {
    CeilCovers(values, c);
    if CeilDiv(values, c) > values { MulMonotone(values + 1, CeilDiv(values, c), c); MulMonotone(1, c, values); }
  }

  /** The height has room for all rows exactly when they fit the largest dialog. */
  lemma HeightFitsRows(values: nat, c: nat, metadata: nat)
    requires c > 0
    ensures var most := if values >= metadata && values >= 1 then values else if metadata >= 1 then metadata else 1;
      Dimensions(values, c, metadata).0 == (if most < c then most else c) * 280 + 160
    ensures 460 <= Dimensions(values, c, metadata).1 <= 900
    ensures Dimensions(values, c, metadata).1 in {460, 900, Rows(values, c, metadata) * 76 + 180}
    ensures Rows(values, c, metadata) * 76 + 180 <= Dimensions(values, c, metadata).1 <==>
      Rows(values, c, metadata) <= 9
  {}
}
