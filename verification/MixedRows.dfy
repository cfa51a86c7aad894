/**
 * Which hidden values a row of the account table has after a save. Saving lays every table row over a stored row it
 * continues. That is the right one as long as each account has one row; here is what happens in every other table, and
 * exactly when no row takes hidden values that are not its own.
 */
module MixedRows {
  import opened Wrappers
  import opened PanelNumbers
  import opened PanelColumns
  import opened HiddenSlots

  // ---------------------------------------------------------------- the row a saved row continues

  /** The stored row that saving `info` at place `i` continues; one without values if there is none. */
  function Continued(stored: seq<Row>, info: Row, i: nat): Row {
    var a := AccountOf(info);
    if a.Some? && |Matching(stored, a.value)| == 1 then Matching(stored, a.value)[0]
    else if i < |Named(stored)| then Named(stored)[i] else map[]
  }

  /** The two rows have the same values in all columns that are hidden now. */
  ghost predicate AgreeHidden(base: seq<Declared>, columns: seq<Column>, r: Row, s: Row) {
    forall k :: k !in Ids(columns) ==> Lookup(base, r, k) == Lookup(base, s, k)
  }

  ghost predicate AgreeShown(base: seq<Declared>, columns: seq<Column>, r: Row, s: Row) {
    forall k :: k in Ids(columns) ==> Lookup(base, r, k) == Lookup(base, s, k)
  }

  lemma {:induction false} SavedAt(previous: seq<Row>, infos: seq<Row>, q: nat)
    requires q < |infos|
    ensures |Saved(previous, infos)| == |infos|
    ensures Saved(previous, infos)[q] == Over(SavedFrom(previous, infos[q], q), infos[q])
  {
    var i := |infos| - 1;
    if q < i {
      SavedAt(previous, infos[..i], q);
    } else if i > 0 {
      SavedAt(previous, infos[..i], 0);
    }
  }

  lemma SavedRow(p: Panel, q: nat)
    requires WellFormed(p) && q < |p.table|
    ensures |Save(p).stored| == |p.table|
    ensures var info := Info(p.columns, p.table[q]); Save(p).stored[q] == Continued(p.stored, info, q) + info
  {
    var info := Info(p.columns, p.table[q]);
    SavedAt(Named(p.stored), Infos(p.columns, p.table), q);
    if AccountOf(info).Some? { MatchingNamed(p.stored, AccountOf(info).value); }
    hide Info, Named, Matching, Saved, AccountOf;
    assert map[] + info == info;
  }

  lemma SavedLength(p: Panel)
    requires WellFormed(p)
    ensures |Save(p).stored| == |p.table|
  {
    if |p.table| > 0 { SavedRow(p, 0); }
  }

  /** Cells laid over two rows give the same values exactly if the rows agree in what is hidden. */
  lemma LaidOver(base: seq<Declared>, columns: seq<Column>, from: Row, r: Row, cells: Cells)
    requires |cells| == |columns|
    ensures var info := Info(columns, cells);
      && (SameValues(base, from + info, r + info) <==> AgreeHidden(base, columns, from, r))
      && AgreeHidden(base, columns, from + info, from)
  {
    hide Lookup, Info, Ids;
    var info := Info(columns, cells);
    forall k
      ensures k in Ids(columns) ==> k in info
      ensures Lookup(base, from + info, k) == if k in Ids(columns) then info[k] else Lookup(base, from, k)
      ensures Lookup(base, r + info, k) == if k in Ids(columns) then info[k] else Lookup(base, r, k)
    {
      OverlayValues(base, columns, from, cells, k);
      OverlayValues(base, columns, r, cells, k);
    }
    if SameValues(base, from + info, r + info) {
      forall k | k !in Ids(columns) ensures Lookup(base, from, k) == Lookup(base, r, k) {
        assert Lookup(base, from + info, k) == Lookup(base, r + info, k);
      }
    }
  }

  // ---------------------------------------------------------------- visible edits

  /** The event leaves table row `j` there; an addition makes one more row. */
  predicate Remains(p: Panel, e: Event, j: nat) {
    !e.CountChange? && ((j < |p.table| && e != Remove(j)) || (e.Add? && j == |p.table|))
  }

  /** Where the event puts table row `j`. */
  function Place(e: Event, j: nat): nat {
    match e
    case Remove(i) => if j <= i then j else j - 1
    case MoveDown(i) => if j == i then i + 1 else if j == i + 1 then i else j
    case _ => j
  }

  /** The cells of table row `j` after the event. */
  function CellsAfter(p: Panel, e: Event, j: nat): (cells: Cells)
    requires Possible(p, e) && Remains(p, e, j)
    ensures |cells| == |p.columns|
  {
    if e.Edit? && e.i == j then e.cells else if j == |p.table| then e.cells else p.table[j]
  }

  lemma PlaceInChanged(p: Panel, e: Event, j: nat)
    requires Possible(p, e) && Remains(p, e, j)
    ensures Fits(p.columns, Changed(p.table, e))
    ensures Place(e, j) < |Changed(p.table, e)|
    ensures Changed(p.table, e)[Place(e, j)] == CellsAfter(p, e, j)
  {
    ChangedFits(p, e);
  }

  /** The stored row that table row `j` continues when the event is saved. */
  function ContinuedBy(p: Panel, e: Event, j: nat): Row
    requires Possible(p, e) && Remains(p, e, j)
  {
    Continued(p.stored, Info(p.columns, CellsAfter(p, e, j)), Place(e, j))
  }

  /**
   In every table and through every visible edit: a table row that stands for a row `r` keeps the hidden values of `r`
   exactly if they are those of the stored row it continues, and otherwise takes that row's.
   */
  lemma PlacesDecide(base: seq<Declared>, p: Panel, e: Event, j: nat, r: Row)
    requires Possible(p, e) && Remains(p, e, j)
    ensures Place(e, j) < |Next(base, p, e).stored|
    ensures var saved, from := Next(base, p, e).stored[Place(e, j)], ContinuedBy(p, e, j);
      && (SameValues(base, saved, r + Info(p.columns, CellsAfter(p, e, j))) <==> AgreeHidden(base, p.columns, from, r))
      && AgreeHidden(base, p.columns, saved, from)
  {
    hide Info, Lookup, Ids, Continued, AgreeHidden, SameValues, Save, Place, CellsAfter;
    PlaceInChanged(p, e, j);
    SavedRow(p.(table := Changed(p.table, e)), Place(e, j));
    LaidOver(base, p.columns, ContinuedBy(p, e, j), r, CellsAfter(p, e, j));
  }

  /** Saved with the event, table row `j` has the values of its row in `rows` under what its cells say. */
  ghost predicate KeepsRow(base: seq<Declared>, p: Panel, e: Event, rows: seq<Row>, j: nat)
    requires Possible(p, e) && Remains(p, e, j) && j < |rows|
  {
    Place(e, j) < |Next(base, p, e).stored| && SameValues(base, Next(base, p, e).stored[Place(e, j)],
      rows[j] + Info(p.columns, CellsAfter(p, e, j)))
  }

  /** Every row of the table the event leaves there keeps its values. */
  ghost predicate KeepsAll(base: seq<Declared>, p: Panel, e: Event, rows: seq<Row>)
    requires Possible(p, e) && |rows| == |p.table|
  {
    forall j: nat :: j < |rows| && Remains(p, e, j) ==> KeepsRow(base, p, e, rows, j)
  }

  /** Table row `j` continues a stored row with the hidden values of its row in `rows`. */
  ghost predicate Unmixed(base: seq<Declared>, p: Panel, e: Event, rows: seq<Row>, j: nat)
    requires Possible(p, e) && Remains(p, e, j) && j < |rows|
  {
    AgreeHidden(base, p.columns, ContinuedBy(p, e, j), rows[j])
  }

  lemma KeepsRowExactly(base: seq<Declared>, p: Panel, e: Event, rows: seq<Row>, j: nat)
    requires Possible(p, e) && Remains(p, e, j) && j < |rows|
    ensures KeepsRow(base, p, e, rows, j) <==> Unmixed(base, p, e, rows, j)
  {
    hide Info, Lookup, Ids, AgreeHidden, SameValues, Next, CellsAfter, ContinuedBy;
    PlacesDecide(base, p, e, j, rows[j]);
  }

  /** Whatever rows the table rows stand for, an event keeps all their values exactly if none is mixed. */
  lemma KeepsAllExactly(base: seq<Declared>, p: Panel, e: Event, rows: seq<Row>)
    requires Possible(p, e) && |rows| == |p.table|
    ensures KeepsAll(base, p, e, rows) <==>
      forall j: nat :: j < |rows| && Remains(p, e, j) ==> Unmixed(base, p, e, rows, j)
  {
    hide KeepsRow, Unmixed, Remains, Possible;
    forall j: nat | j < |rows| && Remains(p, e, j)
      ensures KeepsRow(base, p, e, rows, j) <==> Unmixed(base, p, e, rows, j)
    {
      KeepsRowExactly(base, p, e, rows, j);
    }
  }

  // ---------------------------------------------------------------- tables that show every stored row

  /** Every stored row has an account and is shown, in the same order. */
  ghost predicate Mirrored(base: seq<Declared>, p: Panel, n: nat) {
    && Counted(base, p.columns, n)
    && |p.table| == |p.stored|
    && forall i :: 0 <= i < |p.stored| ==> AccountOf(p.stored[i]).Some? && p.table[i] == Shown(p.columns, p.stored[i])
  }

  /** Every save of a table whose rows all have an account leaves such a table. */
  lemma SavedTableIsMirrored(base: seq<Declared>, p: Panel, n: nat)
    requires WellFormed(p) && Counted(base, p.columns, n)
    requires forall q :: 0 <= q < |p.table| ==> AccountOf(Info(p.columns, p.table[q])).Some?
    ensures Mirrored(base, Save(p), n)
  {
    ShownColumns(base, n);
    SavedLength(p);
    hide Info, Shown, ColumnsOf, Saved, Named, Matching, Unique, Continued;
    forall q | 0 <= q < |p.table|
      ensures AccountOf(Save(p).stored[q]).Some? && p.table[q] == Shown(p.columns, Save(p).stored[q])
    {
      var info := Info(p.columns, p.table[q]);
      SavedRow(p, q);
      forall i | 0 <= i < |p.columns| ensures ValueFor(p.columns[i], Save(p).stored[q]) == p.table[q][i] {
        InfoAt(p.columns, p.table[q], i);
      }
    }
  }

  /** The row is the only one of its account. */
  predicate Alone(stored: seq<Row>, r: Row) { AccountOf(r).Some? && |Matching(stored, AccountOf(r).value)| == 1 }

  lemma {:induction false} NamedAll(rows: seq<Row>)
    requires forall i :: 0 <= i < |rows| ==> AccountOf(rows[i]).Some?
    ensures Named(rows) == rows
  {
    if |rows| > 0 {
      NamedAll(rows[..|rows| - 1]);
      assert rows == rows[..|rows| - 1] + [rows[|rows| - 1]];
    }
  }

  lemma {:induction false} OnlyMatch(rows: seq<Row>, i: nat, a: string)
    requires i < |rows| && AccountOf(rows[i]) == Some(a)
    ensures |Matching(rows, a)| > 0
    ensures |Matching(rows, a)| == 1 ==> Matching(rows, a) == [rows[i]]
  {
    var pre, post := rows[..i], rows[i + 1..];
    Parts(rows, i);
    MatchingParts(pre, rows[i], post, a);
    MatchingOne(rows[i], a);
    hide Matching;
    if |Matching(rows, a)| == 1 {
      assert |Matching(pre, a)| == 0 && |Matching(post, a)| == 0;
    }
  }

  /** There a row continues itself if it is alone, and otherwise the row stored at its new place. */
  lemma MirroredContinues(base: seq<Declared>, p: Panel, n: nat, j: nat, q: nat)
    requires HasAccountColumn(base) && Mirrored(base, p, n) && j < |p.stored| && q < |p.stored|
    ensures |p.table[j]| == |p.columns|
    ensures AccountOf(Info(p.columns, p.table[j])) == AccountOf(p.stored[j])
    ensures Continued(p.stored, Info(p.columns, p.table[j]), q) ==
      if Alone(p.stored, p.stored[j]) then p.stored[j] else p.stored[q]
  {
    ShownColumns(base, n);
    hide Info, Shown, ColumnsOf, Matching, Named, Unique, HasAccountColumn, Ids;
    AccountShown(p.columns, p.stored[j]);
    NamedAll(p.stored);
    OnlyMatch(p.stored, j, AccountOf(p.stored[j]).value);
  }

  lemma AgreesWithItself(base: seq<Declared>, columns: seq<Column>, r: Row)
    ensures AgreeHidden(base, columns, r, r)
  {}

  lemma AgreeingIsMutual(base: seq<Declared>, columns: seq<Column>, r: Row, s: Row)
    ensures AgreeHidden(base, columns, r, s) <==> AgreeHidden(base, columns, s, r)
  {
    hide Lookup, Ids;
  }

  /** Table row `j`, not edited itself, in a table that shows every stored row. */
  lemma UnmixedThere(base: seq<Declared>, p: Panel, n: nat, e: Event, j: nat)
    requires HasAccountColumn(base) && Mirrored(base, p, n) && Possible(p, e) && j < |p.stored| && Remains(p, e, j)
    requires !(e.Edit? && e.i == j)
    ensures Place(e, j) < |p.stored|
    ensures Unmixed(base, p, e, p.stored, j) <==>
      Alone(p.stored, p.stored[j]) || AgreeHidden(base, p.columns, p.stored[Place(e, j)], p.stored[j])
  {
    hide Info, Shown, ColumnsOf, Matching, Named, Lookup, Ids, HasAccountColumn, Alone, Continued, AgreeHidden;
    MirroredContinues(base, p, n, j, Place(e, j));
    AgreesWithItself(base, p.columns, p.stored[j]);
  }

  lemma UnmixedInPlace(base: seq<Declared>, p: Panel, n: nat, e: Event, j: nat)
    requires HasAccountColumn(base) && Mirrored(base, p, n) && Possible(p, e) && j < |p.stored| && Remains(p, e, j)
    requires !(e.Edit? && e.i == j) && Place(e, j) == j
    ensures Unmixed(base, p, e, p.stored, j)
  {
    hide Mirrored, HasAccountColumn, Unmixed, Possible, AgreeHidden, Alone;
    UnmixedThere(base, p, n, e, j);
    AgreesWithItself(base, p.columns, p.stored[j]);
  }

  /** The row may be saved one place higher up. */
  ghost predicate MovesUp(base: seq<Declared>, p: Panel, j: nat)
    requires 0 < j < |p.stored|
  {
    Alone(p.stored, p.stored[j]) || AgreeHidden(base, p.columns, p.stored[j - 1], p.stored[j])
  }

  lemma MirroredLength(base: seq<Declared>, p: Panel, n: nat)
    requires Mirrored(base, p, n)
    ensures |p.table| == |p.stored|
  {}

  /**
   A removal keeps the values of all other rows exactly if each of them continues a row with its hidden values; where
   the table shows every stored row, exactly if no row below mixes with the one above it.
   */
  lemma RemovalKeepsAll(base: seq<Declared>, p: Panel, i: nat, rows: seq<Row>, n: nat)
    requires Possible(p, Remove(i)) && |rows| == |p.table|
    ensures KeepsAll(base, p, Remove(i), rows) <==>
      forall j: nat :: j < |rows| && j != i ==> Unmixed(base, p, Remove(i), rows, j)
    ensures HasAccountColumn(base) && Mirrored(base, p, n) && rows == p.stored ==>
      (KeepsAll(base, p, Remove(i), rows) <==> forall j :: i < j < |p.stored| ==> MovesUp(base, p, j))
  {
    var e := Remove(i);
    KeepsAllExactly(base, p, e, rows);
    hide Unmixed, KeepsAll, Mirrored, AgreeHidden, Alone, HasAccountColumn;
    if HasAccountColumn(base) && Mirrored(base, p, n) && rows == p.stored {
      forall j: nat | j < |rows| && j != i
        ensures Unmixed(base, p, e, rows, j) <==> j < i || MovesUp(base, p, j)
      {
        UnmixedThere(base, p, n, e, j);
        if j < i { UnmixedInPlace(base, p, n, e, j); }
      }
    }
  }

  /** Both rows of a move are alone, or they agree in all hidden columns. */
  ghost predicate MaySwap(base: seq<Declared>, p: Panel, i: nat)
    requires i + 1 < |p.stored|
  {
    (Alone(p.stored, p.stored[i]) && Alone(p.stored, p.stored[i + 1])) ||
      AgreeHidden(base, p.columns, p.stored[i], p.stored[i + 1])
  }

  lemma MovedUnmixed(base: seq<Declared>, p: Panel, n: nat, i: nat)
    requires HasAccountColumn(base) && Mirrored(base, p, n) && Possible(p, MoveDown(i))
    ensures i + 1 < |p.stored|
    ensures Unmixed(base, p, MoveDown(i), p.stored, i) && Unmixed(base, p, MoveDown(i), p.stored, i + 1) <==>
      MaySwap(base, p, i)
  {
    hide Unmixed, Mirrored, Alone, AgreeHidden, HasAccountColumn, Fits;
    MirroredLength(base, p, n);
    AgreeingIsMutual(base, p.columns, p.stored[i], p.stored[i + 1]);
    UnmixedThere(base, p, n, MoveDown(i), i);
    UnmixedThere(base, p, n, MoveDown(i), i + 1);
  }

  lemma MovedAllUnmixed(base: seq<Declared>, p: Panel, n: nat, i: nat, j: nat)
    requires HasAccountColumn(base) && Mirrored(base, p, n) && Possible(p, MoveDown(i)) && MaySwap(base, p, i)
    requires j < |p.table|
    ensures j < |p.stored| && Unmixed(base, p, MoveDown(i), p.stored, j)
  {
    hide Unmixed, Mirrored, HasAccountColumn, MaySwap, Fits;
    MirroredLength(base, p, n);
    MovedUnmixed(base, p, n, i);
    if j != i && j != i + 1 { UnmixedInPlace(base, p, n, MoveDown(i), j); }
  }

  /**
   A move keeps the values of all rows exactly if each of them continues a row with its hidden values; where the table
   shows every stored row, exactly if both rows are alone, or they agree in all hidden columns.
   */
  lemma MoveKeepsAll(base: seq<Declared>, p: Panel, i: nat, rows: seq<Row>, n: nat)
    requires Possible(p, MoveDown(i)) && |rows| == |p.table|
    ensures KeepsAll(base, p, MoveDown(i), rows) <==>
      forall j: nat :: j < |rows| ==> Unmixed(base, p, MoveDown(i), rows, j)
    ensures HasAccountColumn(base) && Mirrored(base, p, n) && rows == p.stored ==>
      (KeepsAll(base, p, MoveDown(i), rows) <==> MaySwap(base, p, i))
  {
    var e := MoveDown(i);
    KeepsAllExactly(base, p, e, rows);
    hide Unmixed, KeepsAll, Mirrored, HasAccountColumn, MaySwap, Place, Fits;
    if HasAccountColumn(base) && Mirrored(base, p, n) && rows == p.stored {
      MovedUnmixed(base, p, n, i);
      if MaySwap(base, p, i) {
        forall j: nat | j < |rows| ensures Unmixed(base, p, e, rows, j) { MovedAllUnmixed(base, p, n, i, j); }
      }
    }
  }

  /** The stored row `r` has the hidden values of the one row of the account in `info`, if there is just one. */
  ghost predicate MayName(base: seq<Declared>, p: Panel, info: Row, r: Row) {
    var a := AccountOf(info);
    a.Some? && |Matching(p.stored, a.value)| == 1 ==> AgreeHidden(base, p.columns, Matching(p.stored, a.value)[0], r)
  }

  /**
   An edit keeps the hidden values of all rows exactly if each of them continues a row with its hidden values; where the
   table shows every stored row, exactly if the account it gives the row is not stored once with other hidden values.
   */
  lemma EditKeepsAll(base: seq<Declared>, p: Panel, i: nat, cells: Cells, rows: seq<Row>, n: nat)
    requires Possible(p, Edit(i, cells)) && |rows| == |p.table|
    ensures KeepsAll(base, p, Edit(i, cells), rows) <==>
      forall j: nat :: j < |rows| ==> Unmixed(base, p, Edit(i, cells), rows, j)
    ensures HasAccountColumn(base) && Mirrored(base, p, n) && rows == p.stored ==>
      (KeepsAll(base, p, Edit(i, cells), rows) <==> MayName(base, p, Info(p.columns, cells), p.stored[i]))
  {
    var e := Edit(i, cells);
    KeepsAllExactly(base, p, e, rows);
    if HasAccountColumn(base) && Mirrored(base, p, n) && rows == p.stored {
      EditedUnmixed(base, p, n, i, cells);
      hide Unmixed, KeepsAll, Mirrored, MayName, Info, HasAccountColumn;
      forall j: nat | j < |rows| && j != i ensures Unmixed(base, p, e, rows, j) {
        UnmixedInPlace(base, p, n, e, j);
      }
    }
  }

  lemma EditedUnmixed(base: seq<Declared>, p: Panel, n: nat, i: nat, cells: Cells)
    requires Mirrored(base, p, n) && Possible(p, Edit(i, cells))
    ensures Unmixed(base, p, Edit(i, cells), p.stored, i) <==> MayName(base, p, Info(p.columns, cells), p.stored[i])
  {
    hide Info, Shown, ColumnsOf, Matching, Named, Lookup, Ids, AccountOf;
    NamedAll(p.stored);
    AgreesWithItself(base, p.columns, p.stored[i]);
  }

  /**
   An addition keeps the values of all rows exactly if each of them continues a row with its hidden values; where the
   table shows every stored row, it always does.
   */
  lemma AdditionKeepsAll(base: seq<Declared>, p: Panel, cells: Cells, rows: seq<Row>, n: nat)
    requires Possible(p, Add(cells)) && |rows| == |p.table|
    ensures KeepsAll(base, p, Add(cells), rows) <==>
      forall j: nat :: j < |rows| ==> Unmixed(base, p, Add(cells), rows, j)
    ensures HasAccountColumn(base) && Mirrored(base, p, n) && rows == p.stored ==> KeepsAll(base, p, Add(cells), rows)
  {
    var e := Add(cells);
    KeepsAllExactly(base, p, e, rows);
    hide Unmixed, KeepsAll, Mirrored, HasAccountColumn;
    if HasAccountColumn(base) && Mirrored(base, p, n) && rows == p.stored {
      forall j: nat | j < |rows| ensures Unmixed(base, p, e, rows, j) { UnmixedInPlace(base, p, n, e, j); }
    }
  }

  /**
   An added row starts with default values in all hidden columns exactly if the stored row it continues has the defaults
   there, or there is none. For an account without stored rows that is the row at the next place, if one is hidden.
   */
  lemma AddedRowStartsFresh(base: seq<Declared>, p: Panel, cells: Cells)
    requires Possible(p, Add(cells))
    ensures |p.table| < |Next(base, p, Add(cells)).stored|
    ensures var info, saved := Info(p.columns, cells), Next(base, p, Add(cells)).stored[|p.table|];
      var previous := SavedFrom(Named(p.stored), info, |p.table|);
      && (AgreeHidden(base, p.columns, saved, map[]) <==>
        previous.None? || AgreeHidden(base, p.columns, previous.value, map[]))
      && (AccountOf(info).None? || Matching(p.stored, AccountOf(info).value) == [] ==>
        previous == At(Named(p.stored), |p.table|))
  {
    var e, info := Add(cells), Info(p.columns, cells);
    if AccountOf(info).Some? { MatchingNamed(p.stored, AccountOf(info).value); }
    hide Info, Named, AccountOf, Matching, Lookup, Ids, Next;
    PlacesDecide(base, p, e, |p.table|, map[]);
    AgreesWithItself(base, p.columns, map[]);
  }

  // ---------------------------------------------------------------- changes of the count

  /** The rows the columns admit. */
  function ShownRows(columns: seq<Column>, rows: seq<Row>): seq<Row> {
    if |rows| == 0 then []
    else
      var last := rows[|rows| - 1];
      var before := ShownRows(columns, rows[..|rows| - 1]);
      if Showable(columns, last) then before + [last] else before
  }

  lemma {:induction false} RebuiltShows(columns: seq<Column>, rows: seq<Row>)
    ensures |Rebuilt(columns, rows)| == |ShownRows(columns, rows)|
    ensures forall q :: 0 <= q < |Rebuilt(columns, rows)| ==>
      Rebuilt(columns, rows)[q] == Shown(columns, ShownRows(columns, rows)[q])
  {
    if |rows| > 0 {
      hide Shown, Showable, Fits;
      RebuiltShows(columns, rows[..|rows| - 1]);
    }
  }

  lemma {:induction false} AllShown(columns: seq<Column>, rows: seq<Row>)
    requires forall i :: 0 <= i < |rows| ==> Showable(columns, rows[i])
    ensures ShownRows(columns, rows) == rows
  {
    if |rows| > 0 {
      hide Showable;
      AllShown(columns, rows[..|rows| - 1]);
      assert rows == rows[..|rows| - 1] + [rows[|rows| - 1]];
    }
  }

  /** The rows that the table shows after a change of columns. */
  function RowsAfter(p: Panel, columns: seq<Column>): seq<Row>
    requires WellFormed(p)
  {
    ShownRows(columns, RowsToShow(p.stored, Infos(p.columns, p.table)))
  }

  /**
   In every table: the row saved at a place after a change of the count has the values of `r` exactly if the row shown
   there does in the columns shown now, and the stored row it continues does in all others.
   */
  lemma CountChangeDecides(base: seq<Declared>, p: Panel, m: nat, q: nat, r: Row)
    requires WellFormed(p) && m <= MAX_COUNT && Ids(ColumnsOf(base, m)) != Ids(p.columns)
    requires q < |RowsAfter(p, ColumnsOf(base, m))|
    ensures |Save(Recount(p, ColumnsOf(base, m))).stored| == |RowsAfter(p, ColumnsOf(base, m))|
    ensures var columns := ColumnsOf(base, m);
      var saved, shown := Save(Recount(p, columns)).stored[q], RowsAfter(p, columns)[q];
      SameValues(base, saved, r) <==> (AgreeShown(base, columns, shown, r) &&
        AgreeHidden(base, columns, Continued(p.stored, Info(columns, Shown(columns, shown)), q), r))
  {
    var columns := ColumnsOf(base, m);
    var after, shown := Recount(p, columns), RowsAfter(p, columns)[q];
    RebuiltShows(columns, RowsToShow(p.stored, Infos(p.columns, p.table)));
    hide ColumnsOf, Info, Infos, Lookup, Ids, Continued, Save, Shown, RowsToShow, Rebuilt, ShownRows;
    SavedRow(after, q);
    ShownOver(base, m, Continued(p.stored, Info(columns, Shown(columns, shown)), q), shown, r);
  }

  /** Where no stored row has an account, a change of the count shows the table's own rows again. */
  lemma NothingStoredKeepsTable(p: Panel, columns: seq<Column>)
    requires WellFormed(p) && Named(p.stored) == []
    ensures RowsAfter(p, columns) == ShownRows(columns, Infos(p.columns, p.table))
  {}

  lemma ShownOver(base: seq<Declared>, m: nat, from: Row, shown: Row, r: Row)
    requires m <= MAX_COUNT
    ensures var columns := ColumnsOf(base, m);
      SameValues(base, from + Info(columns, Shown(columns, shown)), r) <==>
        (AgreeShown(base, columns, shown, r) && AgreeHidden(base, columns, from, r))
  {
    hide ColumnsOf, Lookup, Info, Ids, Shown;
    var columns := ColumnsOf(base, m);
    var saved := from + Info(columns, Shown(columns, shown));
    forall k
      ensures Lookup(base, saved, k) == if k in Ids(columns) then Lookup(base, shown, k) else Lookup(base, from, k)
    {
      OverlayValues(base, columns, from, Shown(columns, shown), k);
      if k in Ids(columns) { InfoIsLookup(base, m, shown, k); }
    }
    if SameValues(base, saved, r) {
      forall k
        ensures if k in Ids(columns) then Lookup(base, shown, k) == Lookup(base, r, k)
          else Lookup(base, from, k) == Lookup(base, r, k)
      {
        assert Lookup(base, saved, k) == Lookup(base, r, k);
      }
    }
  }

  /** The last stored row of the account of `r`. */
  function LastOf(stored: seq<Row>, r: Row): Row {
    var a := AccountOf(r);
    if a.Some? && |Matching(stored, a.value)| > 0 then Matching(stored, a.value)[|Matching(stored, a.value)| - 1] else r
  }

  /** The two rows agree in every column that is shown by `after` and not by `before`. */
  ghost predicate AgreeOnNew(base: seq<Declared>, before: seq<Column>, after: seq<Column>, r: Row, s: Row) {
    forall k :: k in Ids(after) && k !in Ids(before) ==> Lookup(base, r, k) == Lookup(base, s, k)
  }

  ghost predicate AllShowable(base: seq<Declared>, rows: seq<Row>) {
    forall i :: 0 <= i < |rows| ==> Showable(Full(base), rows[i])
  }

  lemma {:induction false} MergedAt(previous: seq<Row>, infos: seq<Row>, q: nat)
    requires q < |infos|
    ensures |Merged(previous, infos)| == |infos|
    ensures Merged(previous, infos)[q] == Over(MergedFrom(previous, infos[q], q), infos[q])
  {
    var i := |infos| - 1;
    if q < i {
      MergedAt(previous, infos[..i], q);
    } else if i > 0 {
      MergedAt(previous, infos[..i], 0);
    }
  }

  lemma {:induction false} MatchingMembers(rows: seq<Row>, a: string, i: nat)
    requires i < |Matching(rows, a)|
    ensures Matching(rows, a)[i] in rows
  {
    var init := rows[..|rows| - 1];
    if i < |Matching(init, a)| { MatchingMembers(init, a, i); }
  }

  /** The row that a table row shows when the count changes. */
  function MergedRow(p: Panel, q: nat): Row
    requires WellFormed(p) && q < |p.stored| && q < |p.table|
  {
    LastOf(p.stored, p.stored[q]) + Info(p.columns, p.table[q])
  }

  lemma MirroredMerges(base: seq<Declared>, p: Panel, n: nat, q: nat)
    requires HasAccountColumn(base) && Mirrored(base, p, n) && q < |p.stored|
    ensures WellFormed(p)
    ensures |RowsToShow(p.stored, Infos(p.columns, p.table))| == |p.stored|
    ensures RowsToShow(p.stored, Infos(p.columns, p.table))[q] == MergedRow(p, q)
  {
    var infos := Infos(p.columns, p.table);
    hide Info, Shown, ColumnsOf, Matching, Named, HasAccountColumn, Merged, AccountOf;
    forall j | 0 <= j < |p.stored| ensures AccountOf(infos[j]) == AccountOf(p.stored[j]) {
      MirroredContinues(base, p, n, j, q);
    }
    NamedAll(p.stored);
    NamedAll(infos);
    MergedAt(p.stored, infos, q);
    OnlyMatch(p.stored, q, AccountOf(p.stored[q]).value);
  }

  lemma LastShowable(base: seq<Declared>, stored: seq<Row>, q: nat)
    requires AllShowable(base, stored) && q < |stored| && AccountOf(stored[q]).Some?
    ensures Showable(Full(base), LastOf(stored, stored[q]))
  {
    var a := AccountOf(stored[q]).value;
    hide Full, Showable, Matching, AccountOf;
    OnlyMatch(stored, q, a);
    MatchingMembers(stored, a, |Matching(stored, a)| - 1);
  }

  lemma ShownAdmitted(columns: seq<Column>, row: Row)
    requires Showable(columns, row)
    ensures Admitted(columns, Shown(columns, row))
  {}

  lemma MergedShowable(base: seq<Declared>, p: Panel, n: nat, m: nat, q: nat)
    requires HasAccountColumn(base) && Mirrored(base, p, n) && AllShowable(base, p.stored) && q < |p.stored|
    requires m <= MAX_COUNT
    ensures WellFormed(p) && Showable(ColumnsOf(base, m), MergedRow(p, q))
  {
    hide ColumnsOf, Info, Showable, HasAccountColumn, AccountOf, Full, LastOf, Shown, Admitted;
    LastShowable(base, p.stored, q);
    PrefixShowable(base, n, p.stored[q]);
    ShownAdmitted(p.columns, p.stored[q]);
    SavingCells(base, n, LastOf(p.stored, p.stored[q]), p.table[q]);
    PrefixShowable(base, m, MergedRow(p, q));
  }

  lemma MergedValues(base: seq<Declared>, n: nat, last: Row, r: Row, k: string)
    requires n <= MAX_COUNT
    ensures var columns := ColumnsOf(base, n);
      Lookup(base, last + Info(columns, Shown(columns, r)), k) ==
        if k in Ids(columns) then Lookup(base, r, k) else Lookup(base, last, k)
  {
    hide ColumnsOf, Lookup, Info, Ids, Shown;
    OverlayValues(base, ColumnsOf(base, n), last, Shown(ColumnsOf(base, n), r), k);
    if k in Ids(ColumnsOf(base, n)) { InfoIsLookup(base, n, r, k); }
  }

  /**
   Where the table shows every stored row and all values are allowed, a change of the count followed by a save keeps the
   values of a row exactly if the last stored row of its account has the same ones in the columns that appear.
   */
  lemma CountChangeKeepsRow(base: seq<Declared>, p: Panel, n: nat, m: nat, q: nat)
    requires HasAccountColumn(base) && Mirrored(base, p, n) && AllShowable(base, p.stored) && q < |p.stored|
    requires m <= MAX_COUNT && Ids(ColumnsOf(base, m)) != Ids(p.columns)
    ensures WellFormed(p) && |Save(Recount(p, ColumnsOf(base, m))).stored| == |p.stored|
    ensures SameValues(base, Save(Recount(p, ColumnsOf(base, m))).stored[q], p.stored[q]) <==>
      AgreeOnNew(base, p.columns, ColumnsOf(base, m), LastOf(p.stored, p.stored[q]), p.stored[q])
  {
    var columns, r := ColumnsOf(base, m), p.stored[q];
    MirroredMerges(base, p, n, q);
    MirroredRowsAfter(base, p, n, m);
    hide ColumnsOf, Info, Infos, Lookup, Ids, Shown, RowsToShow, RowsAfter, Save, Recount, HasAccountColumn,
      AllShowable;
    CountChangeDecides(base, p, m, q, r);
    MergedContinues(base, p, n, m, q);
    AgreesWithItself(base, columns, r);
    forall k
      ensures Lookup(base, MergedRow(p, q), k) == if k in Ids(p.columns) then Lookup(base, r, k)
        else Lookup(base, LastOf(p.stored, r), k)
    {
      MergedValues(base, n, LastOf(p.stored, r), r, k);
    }
  }

  lemma MirroredRowsAfter(base: seq<Declared>, p: Panel, n: nat, m: nat)
    requires HasAccountColumn(base) && Mirrored(base, p, n) && AllShowable(base, p.stored) && |p.stored| > 0
    requires m <= MAX_COUNT
    ensures WellFormed(p) && RowsAfter(p, ColumnsOf(base, m)) == RowsToShow(p.stored, Infos(p.columns, p.table))
  {
    MirroredMerges(base, p, n, 0);
    hide RowsToShow, Showable, MergedRow, Mirrored, HasAccountColumn, AllShowable;
    forall q | 0 <= q < |p.stored|
      ensures Showable(ColumnsOf(base, m), RowsToShow(p.stored, Infos(p.columns, p.table))[q])
    {
      MirroredMerges(base, p, n, q);
      MergedShowable(base, p, n, m, q);
    }
    AllShown(ColumnsOf(base, m), RowsToShow(p.stored, Infos(p.columns, p.table)));
  }

  /** Saved after the change, the row continues itself. */
  lemma MergedContinues(base: seq<Declared>, p: Panel, n: nat, m: nat, q: nat)
    requires HasAccountColumn(base) && Mirrored(base, p, n) && q < |p.stored| && m <= MAX_COUNT
    ensures WellFormed(p)
    ensures Continued(p.stored, Info(ColumnsOf(base, m), Shown(ColumnsOf(base, m), MergedRow(p, q))), q) == p.stored[q]
  {
    MirroredContinues(base, p, n, q, q);
    ShownColumns(base, n);
    ShownColumns(base, m);
    var info := Info(p.columns, p.table[q]);
    InfoKeys(p.columns, p.table[q], ACCOUNT);
    hide Info, Shown, ColumnsOf, Matching, Named, Unique, HasAccountColumn, Ids;
    OverKeepsAccount(Some(LastOf(p.stored, p.stored[q])), info);
    AccountShown(ColumnsOf(base, m), MergedRow(p, q));
    NamedAll(p.stored);
    OnlyMatch(p.stored, q, AccountOf(p.stored[q]).value);
  }

  // ---------------------------------------------------------------- small tables

  function OneSlot(account: Column): seq<Column> { [account, NewSlot(1)] }

  function TwoSlots(account: Column): seq<Column> { [account, NewSlot(1), NewSlot(2)] }

  function OneSlotRow(account: string, value: int): Row { map[ACCOUNT := Text(account), "slot1" := Number(value)] }

  function TwoSlotRow(account: string, shown: int, hidden: int): Row {
    map[ACCOUNT := Text(account), "slot1" := Number(shown), "slot2" := Number(hidden)]
  }

  lemma InfoOfTwo(c: Column, d: Column, v: Cell, w: Cell)
    ensures Info([c, d], [v, w]) == map[c.id := v][d.id := w]
  {
    assert [c][..0] == [] && [v][..0] == [];
    assert Info([c], [v]) == map[][c.id := v];
    assert [c, d][..1] == [c] && [v, w][..1] == [v];
  }

  lemma InfoOfThree(c: Column, d: Column, e: Column, u: Cell, v: Cell, w: Cell)
    ensures Info([c, d, e], [u, v, w]) == map[c.id := u][d.id := v][e.id := w]
  {
    InfoOfTwo(c, d, u, v);
    assert [c, d, e][..2] == [c, d] && [u, v, w][..2] == [u, v];
  }

  lemma SlotNamesOfTwo()
    ensures SlotName(1) == "slot1" && SlotName(2) == "slot2"
  {}

  /** What the table says about an account with one slot shown, and with both. */
  lemma SlotInfos(x: string, account: Column, v: int, w: int)
    requires account.id == ACCOUNT
    ensures Info(OneSlot(account), [Text(x), Number(v)]) == OneSlotRow(x, v)
    ensures Info(TwoSlots(account), [Text(x), Number(v), Number(w)]) == TwoSlotRow(x, v, w)
  {
    SlotNamesOfTwo();
    hide SlotName, Info;
    InfoOfTwo(account, NewSlot(1), Text(x), Number(v));
    InfoOfThree(account, NewSlot(1), NewSlot(2), Text(x), Number(v), Number(w));
  }

  /** The table shows exactly the rows whose shown slots hold a source. */
  lemma SlotsShown(x: string, account: Column, v: int, w: int)
    requires account.id == ACCOUNT && Admits(account, Text(x))
    ensures Showable(OneSlot(account), TwoSlotRow(x, v, w)) <==> 0 <= v < 52
    ensures Shown(OneSlot(account), TwoSlotRow(x, v, w)) == [Text(x), Number(v)]
    ensures Showable(TwoSlots(account), TwoSlotRow(x, v, w)) <==> 0 <= v < 52 && 0 <= w < 52
    ensures Shown(TwoSlots(account), TwoSlotRow(x, v, w)) == [Text(x), Number(v), Number(w)]
  {
    SlotNamesOfTwo();
    hide SlotName;
    var columns, row := TwoSlots(account), TwoSlotRow(x, v, w);
    assert ValueFor(columns[1], row) == Number(v) && ValueFor(columns[2], row) == Number(w);
    assert Admits(columns[1], Number(v)) <==> 0 <= v < 52;
    assert Admits(columns[2], Number(w)) <==> 0 <= w < 52;
    assert OneSlot(account)[0] == columns[0] && OneSlot(account)[1] == columns[1];
    hide Admits, ValueFor;
    assert Showable(OneSlot(account), row) ==> Admits(OneSlot(account)[1], ValueFor(OneSlot(account)[1], row));
    assert Showable(columns, row) ==> Admits(columns[1], ValueFor(columns[1], row));
    assert Showable(columns, row) ==> Admits(columns[2], ValueFor(columns[2], row));
  }

  lemma NamedTwo(r: Row, s: Row)
    requires AccountOf(r).Some? && AccountOf(s).Some?
    ensures Named([r, s]) == [r, s]
  {
    NamedAll([r, s]);
  }

  lemma MatchingTwo(r: Row, s: Row, a: string)
    requires AccountOf(s) == Some(a)
    ensures Matching([r, s], a) == if AccountOf(r) == Some(a) then [r, s] else [s]
  {
    MatchingOne(r, a);
    MatchingAppend([r], s, a);
    assert [r] + [s] == [r, s];
  }

  lemma MatchingBelow(r: Row, s: Row, t: Row, a: string)
    requires AccountOf(r) != Some(a) == AccountOf(s) == AccountOf(t)
    ensures Matching([r, s, t], a) == [s, t]
  {
    MatchingTwo(s, t, a);
    MatchingOne(r, a);
    MatchingAdds([r], [s, t], a);
    assert [r, s, t] == [r] + [s, t];
  }

  lemma SavedTwo(previous: seq<Row>, first: Row, second: Row)
    ensures Saved(previous, [first, second]) ==
      [Over(SavedFrom(previous, first, 0), first), Over(SavedFrom(previous, second, 1), second)]
  {
    SavedAt(previous, [first, second], 0);
    SavedAt(previous, [first, second], 1);
  }

  lemma TwoInfos(columns: seq<Column>, first: Cells, second: Cells)
    requires |first| == |columns| == |second|
    ensures Infos(columns, [first, second]) == [Info(columns, first), Info(columns, second)]
  {}

  lemma RebuiltAppend(columns: seq<Column>, rows: seq<Row>, row: Row)
    ensures Rebuilt(columns, rows + [row]) ==
      if Showable(columns, row) then Rebuilt(columns, rows) + [Shown(columns, row)] else Rebuilt(columns, rows)
  {
    assert (rows + [row])[..|rows|] == rows;
  }

  /** Laying what is shown over a row with both slots. */
  lemma OverTwoSlotRow(x: string, y: string, v: int, w: int, u: int)
    ensures TwoSlotRow(y, v, w) + OneSlotRow(x, u) == TwoSlotRow(x, u, w)
  {}

  /** With two rows for one account, removing the first leaves the second with the hidden value of the first. */
  lemma DuplicateAccountsMixHiddenValues(x: string, account: Column)
    requires |x| > 0 && account.id == ACCOUNT
    ensures var cells := [Text(x), Number(0)];
      var p := Panel(OneSlot(account), [cells, cells], [TwoSlotRow(x, 0, 1), TwoSlotRow(x, 0, 2)]);
      Save(p.(table := Changed(p.table, Remove(0)))).stored == [TwoSlotRow(x, 0, 1)]
  {
    var cells, columns, info := [Text(x), Number(0)], OneSlot(account), OneSlotRow(x, 0);
    var first, second := TwoSlotRow(x, 0, 1), TwoSlotRow(x, 0, 2);
    SlotInfos(x, account, 0, 0);
    NamedTwo(first, second);
    MatchingTwo(first, second, x);
    OverTwoSlotRow(x, x, 0, 1, 0);
    assert SavedFrom([first, second], info, 0) == Some(first);
    SavedAt([first, second], [info], 0);
    hide Info, Named, Saved, SavedFrom, OneSlot, OneSlotRow, TwoSlotRow;
    assert Changed([cells, cells], Remove(0)) == [cells];
    assert Infos(columns, [cells]) == [info];
  }

  /** Two rows of `x`, saved where the first stored row is of another account and does not show any more. */
  lemma SavedBelow(x: string, y: string, account: Column, v: int)
    requires |x| > 0 && |y| > 0 && x != y && account.id == ACCOUNT
    ensures var cells := [Text(x), Number(0)];
      Save(Panel(OneSlot(account), [cells, cells], [TwoSlotRow(y, v, 3), TwoSlotRow(x, 0, 1), TwoSlotRow(x, 0, 2)]))
        .stored == [TwoSlotRow(x, 0, 3), TwoSlotRow(x, 0, 1)]
  {
    var info, stored := OneSlotRow(x, 0), [TwoSlotRow(y, v, 3), TwoSlotRow(x, 0, 1), TwoSlotRow(x, 0, 2)];
    SlotInfos(x, account, 0, 0);
    NamedAll(stored);
    MatchingBelow(stored[0], stored[1], stored[2], x);
    SavedTwo(stored, info, info);
    OverTwoSlotRow(x, y, v, 3, 0);
    OverTwoSlotRow(x, x, 0, 1, 0);
    TwoInfos(OneSlot(account), [Text(x), Number(0)], [Text(x), Number(0)]);
    assert SavedFrom(stored, info, 0) == Some(stored[0]) && SavedFrom(stored, info, 1) == Some(stored[1]);
    hide Info, Infos, Named, Saved, SavedFrom, OneSlot, OneSlotRow, TwoSlotRow, AccountOf;
  }

  /**
   Hidden values cross accounts: with one row for `y` above two rows for `x`, removing the first gives the next one the
   hidden value of `y`.
   */
  lemma HiddenValuesCrossAccounts(x: string, y: string, account: Column)
    requires |x| > 0 && |y| > 0 && x != y && account.id == ACCOUNT
    ensures var cells := [Text(x), Number(0)];
      var stored := [TwoSlotRow(y, 0, 3), TwoSlotRow(x, 0, 1), TwoSlotRow(x, 0, 2)];
      var p := Panel(OneSlot(account), [[Text(y), Number(0)], cells, cells], stored);
      Save(p.(table := Changed(p.table, Remove(0)))).stored == [TwoSlotRow(x, 0, 3), TwoSlotRow(x, 0, 1)]
  {
    hide Save, OneSlot, TwoSlotRow;
    var cells := [Text(x), Number(0)];
    assert Changed([[Text(y), Number(0)], cells, cells], Remove(0)) == [cells, cells];
    SavedBelow(x, y, account, 0);
  }

  /**
   With a stored row that does not show, the places shift: confirming a row of a duplicate account unchanged gives it
   the hidden value of the other account, and the next row the one of the first.
   */
  lemma UnshownRowShiftsPlaces(x: string, y: string, account: Column)
    requires |x| > 0 && |y| > 0 && x != y && account.id == ACCOUNT && Admits(account, Text(x)) &&
      Admits(account, Text(y))
    ensures var cells := [Text(x), Number(0)];
      var stored := [TwoSlotRow(y, 99, 3), TwoSlotRow(x, 0, 1), TwoSlotRow(x, 0, 2)];
      var p := Panel(OneSlot(account), Rebuilt(OneSlot(account), stored), stored);
      && p.table == [cells, cells]
      && Save(p.(table := Changed(p.table, Edit(0, cells)))).stored == [TwoSlotRow(x, 0, 3), TwoSlotRow(x, 0, 1)]
  {
    hide Save, OneSlot, TwoSlotRow, Showable, Shown, Admits, Rebuilt;
    var h, first, second := TwoSlotRow(y, 99, 3), TwoSlotRow(x, 0, 1), TwoSlotRow(x, 0, 2);
    var cells := [Text(x), Number(0)];
    SlotsShown(y, account, 99, 3);
    SlotsShown(x, account, 0, 1);
    SlotsShown(x, account, 0, 2);
    RebuiltThree(OneSlot(account), h, first, second);
    assert [cells, cells][0 := cells] == [cells, cells];
    SavedBelow(x, y, account, 99);
  }

  lemma RebuiltThree(columns: seq<Column>, r: Row, s: Row, t: Row)
    requires !Showable(columns, r) && Showable(columns, s) && Showable(columns, t)
    ensures Rebuilt(columns, [r, s, t]) == [Shown(columns, s), Shown(columns, t)]
  {
    assert Rebuilt(columns, []) == [];
    hide Rebuilt, Showable, Shown;
    RebuiltAppend(columns, [], r);
    RebuiltAppend(columns, [r], s);
    RebuiltAppend(columns, [r, s], t);
    assert [] + [r] == [r] && [r] + [s] == [r, s] && [r, s] + [t] == [r, s, t];
  }

  lemma RebuiltTwo(columns: seq<Column>, r: Row, s: Row)
    requires Showable(columns, r)
    ensures Rebuilt(columns, [r, s]) == if Showable(columns, s) then [Shown(columns, r), Shown(columns, s)]
      else [Shown(columns, r)]
  {
    assert Rebuilt(columns, []) == [];
    hide Rebuilt, Showable, Shown;
    RebuiltAppend(columns, [], r);
    RebuiltAppend(columns, [r], s);
    assert [] + [r] == [r] && [r] + [s] == [r, s];
  }

  /** An edit that renames the row of `x` to `y`, which is stored once, takes the hidden value of `y`. */
  lemma RenamedRowTakesHiddenValues(x: string, y: string, account: Column)
    requires |x| > 0 && |y| > 0 && x != y && account.id == ACCOUNT
    ensures var mine, other := [Text(x), Number(0)], [Text(y), Number(0)];
      var p := Panel(OneSlot(account), [mine, other], [TwoSlotRow(x, 0, 1), TwoSlotRow(y, 0, 2)]);
      Save(p.(table := Changed(p.table, Edit(0, other)))).stored == [TwoSlotRow(y, 0, 2), TwoSlotRow(y, 0, 2)]
  {
    var mine, other, info := [Text(x), Number(0)], [Text(y), Number(0)], OneSlotRow(y, 0);
    var first, second := TwoSlotRow(x, 0, 1), TwoSlotRow(y, 0, 2);
    SlotInfos(y, account, 0, 0);
    NamedTwo(first, second);
    MatchingTwo(first, second, y);
    OverTwoSlotRow(y, y, 0, 2, 0);
    SavedTwo([first, second], info, info);
    assert SavedFrom([first, second], info, 0) == SavedFrom([first, second], info, 1) == Some(second);
    TwoInfos(OneSlot(account), other, other);
    hide Info, Infos, Named, Saved, SavedFrom, OneSlot, OneSlotRow, TwoSlotRow, AccountOf;
    assert [mine, other][0 := other] == [other, other];
  }

  /**
   With two rows for one account, showing the hidden slot and saving leaves the first with the value of the second.
   */
  lemma CountChangeMixesRows(x: string, account: Column)
    requires |x| > 0 && account.id == ACCOUNT && Admits(account, Text(x))
    ensures var cells := [Text(x), Number(0)];
      var p := Panel(OneSlot(account), [cells, cells], [TwoSlotRow(x, 0, 1), TwoSlotRow(x, 0, 2)]);
      Save(Recount(p, TwoSlots(account))).stored == [TwoSlotRow(x, 0, 2), TwoSlotRow(x, 0, 2)]
  {
    var cells, first, second := [Text(x), Number(0)], TwoSlotRow(x, 0, 1), TwoSlotRow(x, 0, 2);
    ShownLast(x, account);
    SlotsShown(x, account, 0, 2);
    RebuiltTwo(TwoSlots(account), second, second);
    SavedLast(x, account);
    assert |Ids(OneSlot(account))| != |Ids(TwoSlots(account))|;
    hide Infos, RowsToShow, Rebuilt, Shown, Showable, OneSlot, TwoSlots, TwoSlotRow, Admits, Saved, Named, Ids;
  }

  /** The count change shows the last row of the account twice. */
  lemma ShownLast(x: string, account: Column)
    requires |x| > 0 && account.id == ACCOUNT
    ensures var cells, first, second := [Text(x), Number(0)], TwoSlotRow(x, 0, 1), TwoSlotRow(x, 0, 2);
      RowsToShow([first, second], Infos(OneSlot(account), [cells, cells])) == [second, second]
  {
    var first, second, info := TwoSlotRow(x, 0, 1), TwoSlotRow(x, 0, 2), OneSlotRow(x, 0);
    SlotInfos(x, account, 0, 0);
    TwoInfos(OneSlot(account), [Text(x), Number(0)], [Text(x), Number(0)]);
    NamedTwo(first, second);
    NamedTwo(info, info);
    MatchingTwo(first, second, x);
    OverTwoSlotRow(x, x, 0, 2, 0);
    MergedAt([first, second], [info, info], 0);
    MergedAt([first, second], [info, info], 1);
    hide Info, Infos, Named, Merged, Matching, OneSlot, OneSlotRow, TwoSlotRow;
  }

  /** Saving then writes it twice. */
  lemma SavedLast(x: string, account: Column)
    requires |x| > 0 && account.id == ACCOUNT
    ensures var cells, first, second := [Text(x), Number(0), Number(2)], TwoSlotRow(x, 0, 1), TwoSlotRow(x, 0, 2);
      Saved(Named([first, second]), Infos(TwoSlots(account), [cells, cells])) == [second, second]
  {
    var first, second := TwoSlotRow(x, 0, 1), TwoSlotRow(x, 0, 2);
    SlotInfos(x, account, 0, 2);
    TwoInfos(TwoSlots(account), [Text(x), Number(0), Number(2)], [Text(x), Number(0), Number(2)]);
    NamedTwo(first, second);
    MatchingTwo(first, second, x);
    SavedTwo([first, second], second, second);
    assert first + second == second && second + second == second;
    hide Info, Infos, Named, Saved, Matching, TwoSlots, TwoSlotRow;
  }

  /** A row whose hidden value is no source vanishes when the slot is shown, and the next save deletes it. */
  lemma HiddenValueDeletesRow(x: string, account: Column)
    requires |x| > 0 && account.id == ACCOUNT && Admits(account, Text(x))
    ensures var p := Panel(OneSlot(account), [[Text(x), Number(0)]], [TwoSlotRow(x, 0, 99)]);
      Save(Recount(p, TwoSlots(account))).stored == []
  {
    ShownAlone(x, account, 99);
    SlotsShown(x, account, 0, 99);
    assert Rebuilt(TwoSlots(account), []) == [];
    RebuiltAppend(TwoSlots(account), [], TwoSlotRow(x, 0, 99));
    assert [] + [TwoSlotRow(x, 0, 99)] == [TwoSlotRow(x, 0, 99)];
    assert |Ids(OneSlot(account))| != |Ids(TwoSlots(account))|;
    hide Named, OneSlot, TwoSlots, TwoSlotRow, Showable, Shown, Rebuilt, Infos, Ids, RowsToShow, Admits;
  }

  /** The count change shows the one stored row. */
  lemma ShownAlone(x: string, account: Column, w: int)
    requires |x| > 0 && account.id == ACCOUNT
    ensures RowsToShow([TwoSlotRow(x, 0, w)], Infos(OneSlot(account), [[Text(x), Number(0)]])) == [TwoSlotRow(x, 0, w)]
  {
    SlotInfos(x, account, 0, w);
    OneInfo(OneSlot(account), [Text(x), Number(0)]);
    OneRowToShow(TwoSlotRow(x, 0, w), OneSlotRow(x, 0), x);
    OverTwoSlotRow(x, x, 0, w, 0);
    hide Info, Infos, RowsToShow, OneSlot, OneSlotRow, TwoSlotRow;
  }

  lemma OneInfo(columns: seq<Column>, cells: Cells)
    requires |cells| == |columns|
    ensures Infos(columns, [cells]) == [Info(columns, cells)]
  {}

  lemma OneRowToShow(r: Row, info: Row, a: string)
    requires AccountOf(r) == Some(a) == AccountOf(info)
    ensures RowsToShow([r], [info]) == [r + info]
  {
    NamedAll([r]);
    NamedAll([info]);
    MatchingOne(r, a);
    MergedAt([r], [info], 0);
    hide Named, Merged, Matching, AccountOf;
  }

  /** A new account added to a table with a hidden row inherits the hidden value of that row. */
  lemma AddedRowInherits(x: string, y: string, z: string, account: Column)
    requires |x| > 0 && |y| > 0 && |z| > 0 && x != y && y != z && x != z && account.id == ACCOUNT
    requires Admits(account, Text(x)) && Admits(account, Text(y))
    ensures var stored := [TwoSlotRow(x, 0, 1), TwoSlotRow(y, 99, 7)];
      var p := Panel(OneSlot(account), Rebuilt(OneSlot(account), stored), stored);
      && p.table == [[Text(x), Number(0)]]
      && Save(p.(table := Changed(p.table, Add([Text(z), Number(0)])))).stored ==
         [TwoSlotRow(x, 0, 1), TwoSlotRow(z, 0, 7)]
  {
    var first, second := TwoSlotRow(x, 0, 1), TwoSlotRow(y, 99, 7);
    SlotsShown(x, account, 0, 1);
    SlotsShown(y, account, 99, 7);
    RebuiltTwo(OneSlot(account), first, second);
    SavedBeside(x, y, z, account);
    hide Rebuilt, Shown, Showable, OneSlot, TwoSlotRow, Admits, Saved, Named, Infos;
    assert [[Text(x), Number(0)]] + [[Text(z), Number(0)]] == [[Text(x), Number(0)], [Text(z), Number(0)]];
  }

  lemma SavedBeside(x: string, y: string, z: string, account: Column)
    requires |x| > 0 && |y| > 0 && |z| > 0 && x != y && y != z && x != z && account.id == ACCOUNT
    ensures var mine, added := [Text(x), Number(0)], [Text(z), Number(0)];
      Saved(Named([TwoSlotRow(x, 0, 1), TwoSlotRow(y, 99, 7)]), Infos(OneSlot(account), [mine, added])) ==
        [TwoSlotRow(x, 0, 1), TwoSlotRow(z, 0, 7)]
  {
    var first, second, info, added := TwoSlotRow(x, 0, 1), TwoSlotRow(y, 99, 7), OneSlotRow(x, 0), OneSlotRow(z, 0);
    SlotInfos(x, account, 0, 0);
    SlotInfos(z, account, 0, 0);
    TwoInfos(OneSlot(account), [Text(x), Number(0)], [Text(z), Number(0)]);
    NamedTwo(first, second);
    MatchingOne(first, x);
    MatchingOne(first, z);
    MatchingAppend([first], second, x);
    MatchingAppend([first], second, z);
    assert [first] + [second] == [first, second];
    OverTwoSlotRow(x, x, 0, 1, 0);
    OverTwoSlotRow(z, y, 99, 7, 0);
    SavedTwo([first, second], info, added);
    assert SavedFrom([first, second], info, 0) == Some(first) && SavedFrom([first, second], added, 1) == Some(second);
    hide Info, Infos, Named, Saved, SavedFrom, OneSlot, OneSlotRow, TwoSlotRow, AccountOf;
  }
}
