/**
 * Edits of the account table while some value slots are hidden. The table shows the columns of the current count;
 * what it does not show stays in the stored rows and comes back when the count grows again.
 */
module HiddenSlots {
  import opened Wrappers
  import opened PanelNumbers
  import opened PanelColumns

  type Row = map<string, Cell>

  const ACCOUNT := "account"

  /** The account a row is for, if it has one. */
  function AccountOf(row: Row): Option<string> {
    if ACCOUNT in row && row[ACCOUNT].Text? && |row[ACCOUNT].text| > 0 then Some(row[ACCOUNT].text) else None
  }

  /** The rows that have an account. */
  function Named(rows: seq<Row>): seq<Row> {
    if |rows| == 0 then []
    else
      var last := rows[|rows| - 1];
      var before := Named(rows[..|rows| - 1]);
      if AccountOf(last).Some? then before + [last] else before
  }

  /** The rows of one account. */
  function Matching(rows: seq<Row>, account: string): seq<Row> {
    if |rows| == 0 then []
    else
      var last := rows[|rows| - 1];
      var before := Matching(rows[..|rows| - 1], account);
      if AccountOf(last) == Some(account) then before + [last] else before
  }

  /** A row is for an account exactly if it names it in a text that is not empty. */
  lemma AccountExactly(row: Row, a: string)
    ensures AccountOf(row) == Some(a) <==> a != "" && "account" in row && row["account"] == Text(a)
  {}

  // ---------------------------------------------------------------- rows and cells

  type Cells = seq<Cell>

  /** What a table row says, by column id. */
  function Info(columns: seq<Column>, cells: Cells): Row
    requires |cells| == |columns|
  {
    if |columns| == 0 then map[]
    else Info(columns[..|columns| - 1], cells[..|cells| - 1])[columns[|columns| - 1].id := cells[|cells| - 1]]
  }

  function ValueFor(c: Column, row: Row): Cell {
    if c.id in row then row[c.id] else if c.default.Some? then c.default.value else Nothing
  }

  /** The cells that show a row. */
  function Shown(columns: seq<Column>, row: Row): (cells: Cells)
    ensures |cells| == |columns|
    ensures forall i :: 0 <= i < |columns| ==> cells[i] == ValueFor(columns[i], row)
  {
    seq(|columns|, i requires 0 <= i < |columns| => ValueFor(columns[i], row))
  }

  /** The value is among the options of the column, and the table can hold it. */
  predicate Admits(c: Column, v: Cell) {
    (c.options.Some? ==> v in c.options.value) && (if c.text then !v.Number? else v.Number?)
  }

  predicate Showable(columns: seq<Column>, row: Row) {
    forall i :: 0 <= i < |columns| ==> Admits(columns[i], ValueFor(columns[i], row))
  }

  /** In each column the value of the row, or else the default, is an option, and a number exactly if it must be. */
  predicate FitsColumns(columns: seq<Column>, row: Row) {
    forall i :: 0 <= i < |columns| ==>
      var c := columns[i];
      var v := if c.id in row then row[c.id] else if c.default.Some? then c.default.value else Nothing;
      (v.Number? <==> !c.text) && (c.options.None? || v in c.options.value)
  }

  lemma ShowableExactly(columns: seq<Column>, row: Row)
    ensures Showable(columns, row) <==> FitsColumns(columns, row)
  {}

  type Table = seq<Cells>

  predicate Fits(columns: seq<Column>, table: Table) { forall i :: 0 <= i < |table| ==> |table[i]| == |columns| }

  /** The table rows of the stored rows; those it cannot show are skipped. */
  function Rebuilt(columns: seq<Column>, rows: seq<Row>): (table: Table)
    ensures Fits(columns, table)
  {
    if |rows| == 0 then []
    else
      var last := rows[|rows| - 1];
      var before := Rebuilt(columns, rows[..|rows| - 1]);
      if Showable(columns, last) then before + [Shown(columns, last)] else before
  }

  function Infos(columns: seq<Column>, table: Table): (rows: seq<Row>)
    requires Fits(columns, table)
    ensures |rows| == |table|
    ensures forall i :: 0 <= i < |table| ==> rows[i] == Info(columns, table[i])
  {
    seq(|table|, i requires 0 <= i < |table| => Info(columns, table[i]))
  }

  // ---------------------------------------------------------------- saving and rebuilding

  /** A row laid over the one it continues: its own values win, all others are kept. */
  function Over(previous: Option<Row>, info: Row): Row { if previous.Some? then previous.value + info else info }

  function At(rows: seq<Row>, i: nat): Option<Row> { if i < |rows| then Some(rows[i]) else None }

  /** Saving continues the stored row of the account if there is just one, and otherwise the row at the same place. */
  function SavedFrom(previous: seq<Row>, info: Row, i: nat): Option<Row> {
    var account := AccountOf(info);
    if account.Some? && |Matching(previous, account.value)| == 1 then Some(Matching(previous, account.value)[0])
    else At(previous, i)
  }

  /** Changing the count continues the last stored row of the account, and otherwise the row at the same place. */
  function MergedFrom(previous: seq<Row>, info: Row, i: nat): Option<Row> {
    var account := AccountOf(info);
    if account.Some? && |Matching(previous, account.value)| > 0
    then Some(Matching(previous, account.value)[|Matching(previous, account.value)| - 1]) else At(previous, i)
  }

  function Saved(previous: seq<Row>, infos: seq<Row>): seq<Row> {
    if |infos| == 0 then []
    else
      var i := |infos| - 1;
      Saved(previous, infos[..i]) + [Over(SavedFrom(previous, infos[i], i), infos[i])]
  }

  function Merged(previous: seq<Row>, infos: seq<Row>): seq<Row> {
    if |infos| == 0 then []
    else
      var i := |infos| - 1;
      Merged(previous, infos[..i]) + [Over(MergedFrom(previous, infos[i], i), infos[i])]
  }

  /** The rows the table is rebuilt from when the count changes. */
  function RowsToShow(stored: seq<Row>, infos: seq<Row>): seq<Row> {
    var rows := if |Named(stored)| > 0 && |Named(infos)| > 0 then Merged(Named(stored), Named(infos))
      else Named(stored);
    if |rows| == 0 then infos else rows
  }

  datatype Panel = Panel(columns: seq<Column>, table: Table, stored: seq<Row>)

  predicate WellFormed(p: Panel) { Fits(p.columns, p.table) }

  function Save(p: Panel): Panel
    requires WellFormed(p)
  {
    p.(stored := Saved(Named(p.stored), Infos(p.columns, p.table)))
  }

  function Ids(columns: seq<Column>): (r: seq<string>)
    ensures |r| == |columns|
  {
    seq(|columns|, i requires 0 <= i < |columns| => columns[i].id)
  }

  function Recount(p: Panel, columns: seq<Column>): Panel
    requires WellFormed(p)
  {
    if Ids(columns) == Ids(p.columns) then p
    else p.(columns := columns, table := Rebuilt(columns, RowsToShow(p.stored, Infos(p.columns, p.table))))
  }

  /** The account table with its stored rows. */
  class PanelList {
    const base: seq<Declared>
    var columns: seq<Column>
    var table: Table
    var stored: seq<Row>

    function Now(): Panel
      reads this
    {
      Panel(columns, table, stored)
    }

    constructor (base: seq<Declared>, requested: Setting, stored: seq<Row>)
      ensures this.base == base
      ensures Now() == Panel(ColumnsOf(base, ValueCount(requested)),
        Rebuilt(ColumnsOf(base, ValueCount(requested)), stored), stored)
    {
      var shown := ExpandColumns(base, requested);
      this.base, this.columns, this.stored := base, shown, stored;
      this.table := Rebuilt(shown, stored);
    }

    /** Saves what the table shows without discarding what it hides. */
    method ListChanged()
      requires WellFormed(Now())
      modifies this`stored
      ensures Now() == Save(old(Now()))
    {
      var previous := NamedOf(stored);
      var byAccount := SingleRows(previous);
      var data: seq<Row> := [];
      ghost var infos := Infos(columns, table);
      for i := 0 to |table|
        invariant data == Saved(previous, infos[..i])
      {
        var info := Info(columns, table[i]);
        var account := AccountOf(info);
        var from := if account.Some? && account.value in byAccount then Some(byAccount[account.value])
          else At(previous, i);
        assert from == SavedFrom(previous, infos[i], i);
        assert infos[..i + 1][..i] == infos[..i];
        data := data + [Over(from, info)];
      }
      assert infos[..|table|] == infos;
      stored := data;
    }

    method OnCountChanged(requested: Setting)
      requires WellFormed(Now())
      modifies this`columns, this`table
      ensures Now() == Recount(old(Now()), ColumnsOf(base, ValueCount(requested)))
    {
      hide ColumnsOf, Rebuilt, Named, Merged, Infos;
      var shown := ExpandColumns(base, requested);
      if Ids(shown) == Ids(columns) { return; }
      var rows := NamedOf(stored);
      var current := Infos(columns, table);
      var valid := NamedOf(current);
      if |rows| > 0 && |valid| > 0 {
        rows := MergeRows(rows, valid);
      }
      if |rows| == 0 { rows := current; }
      columns := shown;
      table := Rebuilt(shown, rows);
    }

    method EditItem(i: nat, cells: Cells)
      requires WellFormed(Now()) && i < |table| && |cells| == |columns|
      modifies this`table, this`stored
      ensures Now() == Save(old(Now()).(table := old(table)[i := cells]))
    {
      table := table[i := cells];
      ListChanged();
    }

    method AddItem(cells: Cells)
      requires WellFormed(Now()) && |cells| == |columns|
      modifies this`table, this`stored
      ensures Now() == Save(old(Now()).(table := old(table) + [cells]))
    {
      table := table + [cells];
      ListChanged();
    }

    method RemoveItem(i: nat)
      requires WellFormed(Now()) && i < |table|
      modifies this`table, this`stored
      ensures Now() == Save(old(Now()).(table := old(table)[..i] + old(table)[i + 1..]))
    {
      table := table[..i] + table[i + 1..];
      ListChanged();
    }

    /** Moving row `i` down is moving the row below it up. */
    method MoveItemDown(i: nat)
      requires WellFormed(Now()) && i + 1 < |table|
      modifies this`table, this`stored
      ensures Now() == Save(old(Now()).(table := old(table)[i := old(table)[i + 1]][i + 1 := old(table)[i]]))
    {
      table := table[i := table[i + 1]][i + 1 := table[i]];
      ListChanged();
    }
  }

  method NamedOf(rows: seq<Row>) returns (r: seq<Row>)
    ensures r == Named(rows)
  {
    r := [];
    for i := 0 to |rows|
      invariant r == Named(rows[..i])
    {
      assert rows[..i + 1][..i] == rows[..i];
      if AccountOf(rows[i]).Some? { r := r + [rows[i]]; }
    }
    assert rows[..|rows|] == rows;
  }

  method MergeRows(rows: seq<Row>, infos: seq<Row>) returns (merged: seq<Row>)
    ensures merged == Merged(rows, infos)
  {
    merged := [];
    for i := 0 to |infos|
      invariant merged == Merged(rows, infos[..i])
    {
      assert infos[..i + 1][..i] == infos[..i];
      merged := merged + [Over(MergedFrom(rows, infos[i], i), infos[i])];
    }
    assert infos[..|infos|] == infos;
  }

  /** The row of every account that occurs just once. */
  method SingleRows(rows: seq<Row>) returns (byAccount: map<string, Row>)
    ensures forall a :: a in byAccount <==> |Matching(rows, a)| == 1
    ensures forall a :: a in byAccount ==> byAccount[a] == Matching(rows, a)[0]
  {
    byAccount := map[];
    var duplicates := {};
    for i := 0 to |rows|
      invariant forall a :: a in byAccount <==> |Matching(rows[..i], a)| >= 1
      invariant forall a :: a in byAccount ==> byAccount[a] == Matching(rows[..i], a)[0]
      invariant forall a :: a in duplicates <==> |Matching(rows[..i], a)| >= 2
    {
      assert rows[..i + 1][..i] == rows[..i];
      var account := AccountOf(rows[i]);
      if account.Some? {
        if account.value in byAccount {
          duplicates := duplicates + {account.value};
        } else {
          byAccount := byAccount[account.value := rows[i]];
        }
      }
    }
    assert rows[..|rows|] == rows;
    byAccount := byAccount - duplicates;
  }

  // ---------------------------------------------------------------- rows by account

  lemma {:induction false} MatchingAdds(s: seq<Row>, t: seq<Row>, a: string)
    ensures Matching(s + t, a) == Matching(s, a) + Matching(t, a)
  {
    if |t| == 0 {
      assert s + t == s;
    } else {
      MatchingAdds(s, t[..|t| - 1], a);
      assert (s + t)[..|s + t| - 1] == s + t[..|t| - 1];
    }
  }

  lemma MatchingOne(row: Row, a: string)
    ensures Matching([row], a) == if AccountOf(row) == Some(a) then [row] else []
  {
    assert [row][..0] == [];
  }

  lemma MatchingAppend(s: seq<Row>, row: Row, a: string)
    ensures Matching(s + [row], a) == if AccountOf(row) == Some(a) then Matching(s, a) + [row] else Matching(s, a)
  {
    MatchingAdds(s, [row], a);
    MatchingOne(row, a);
  }

  /** Leaving out the rows without an account leaves the rows of every account. */
  lemma {:induction false} MatchingNamed(rows: seq<Row>, a: string)
    ensures Matching(Named(rows), a) == Matching(rows, a)
  {
    if |rows| > 0 {
      MatchingNamed(rows[..|rows| - 1], a);
      MatchingAppend(Named(rows[..|rows| - 1]), rows[|rows| - 1], a);
    }
  }

  predicate HasAccountKey(rows: seq<Row>) { forall i :: 0 <= i < |rows| ==> ACCOUNT in rows[i] }

  /** A row laid over another keeps its account. */
  lemma OverKeepsAccount(previous: Option<Row>, info: Row)
    requires ACCOUNT in info
    ensures AccountOf(Over(previous, info)) == AccountOf(info)
    ensures ACCOUNT in Over(previous, info)
  {}

  lemma OverlaidAppend(r: Row, infos: seq<Row>, info: Row)
    ensures Overlaid(r, infos + [info]) == Overlaid(r, infos) + [r + info]
  {
    assert (infos + [info])[..|infos|] == infos;
  }

  /** The rows saved for an account continue its one stored row. */
  lemma {:induction false} MatchingSaved(previous: seq<Row>, infos: seq<Row>, a: string, r: Row)
    requires HasAccountKey(infos) && Matching(previous, a) == [r]
    ensures Matching(Saved(previous, infos), a) == Overlaid(r, Matching(infos, a))
    ensures HasAccountKey(Saved(previous, infos))
  {
    if |infos| > 0 {
      var i := |infos| - 1;
      MatchingSaved(previous, infos[..i], a, r);
      var from := SavedFrom(previous, infos[i], i);
      OverKeepsAccount(from, infos[i]);
      MatchingAppend(Saved(previous, infos[..i]), Over(from, infos[i]), a);
      OverlaidAppend(r, Matching(infos[..i], a), infos[i]);
    }
  }

  lemma {:induction false} MatchingMerged(previous: seq<Row>, infos: seq<Row>, a: string, r: Row)
    requires HasAccountKey(infos) && Matching(previous, a) == [r]
    ensures Matching(Merged(previous, infos), a) == Overlaid(r, Matching(infos, a))
    ensures HasAccountKey(Merged(previous, infos))
  {
    if |infos| > 0 {
      var i := |infos| - 1;
      MatchingMerged(previous, infos[..i], a, r);
      var from := MergedFrom(previous, infos[i], i);
      OverKeepsAccount(from, infos[i]);
      MatchingAppend(Merged(previous, infos[..i]), Over(from, infos[i]), a);
      OverlaidAppend(r, Matching(infos[..i], a), infos[i]);
    }
  }

  /** Each row laid over `r`. */
  function Overlaid(r: Row, infos: seq<Row>): seq<Row> {
    if |infos| == 0 then [] else Overlaid(r, infos[..|infos| - 1]) + [r + infos[|infos| - 1]]
  }

  // ---------------------------------------------------------------- what a table row says

  lemma {:induction false} InfoKeys(columns: seq<Column>, cells: Cells, k: string)
    requires |cells| == |columns|
    ensures k in Info(columns, cells) <==> k in Ids(columns)
  {
    if |columns| > 0 {
      InfoKeys(columns[..|columns| - 1], cells[..|cells| - 1], k);
      assert Ids(columns) == Ids(columns[..|columns| - 1]) + [columns[|columns| - 1].id];
    }
  }

  lemma {:induction false} InfoAt(columns: seq<Column>, cells: Cells, i: nat)
    requires |cells| == |columns| && Unique(columns) && i < |columns|
    ensures columns[i].id in Info(columns, cells) && Info(columns, cells)[columns[i].id] == cells[i]
  {
    if i < |columns| - 1 {
      InfoAt(columns[..|columns| - 1], cells[..|cells| - 1], i);
    }
  }

  lemma AccountShown(columns: seq<Column>, row: Row)
    requires Unique(columns) && ACCOUNT in Ids(columns) && ACCOUNT in row
    ensures AccountOf(Info(columns, Shown(columns, row))) == AccountOf(row)
  {
    var i :| 0 <= i < |columns| && Ids(columns)[i] == ACCOUNT;
    InfoAt(columns, Shown(columns, row), i);
  }

  /** What the table says of the rows it shows. */
  function Displayed(columns: seq<Column>, rows: seq<Row>): seq<Row> {
    if |rows| == 0 then []
    else
      var last := rows[|rows| - 1];
      var before := Displayed(columns, rows[..|rows| - 1]);
      if Showable(columns, last) then before + [Info(columns, Shown(columns, last))] else before
  }

  lemma DisplayedAppend(columns: seq<Column>, rows: seq<Row>, row: Row)
    ensures Displayed(columns, rows + [row]) ==
      if Showable(columns, row) then Displayed(columns, rows) + [Info(columns, Shown(columns, row))]
      else Displayed(columns, rows)
  {
    assert (rows + [row])[..|rows|] == rows;
  }

  lemma InfosAppend(columns: seq<Column>, table: Table, cells: Cells)
    requires Fits(columns, table) && |cells| == |columns|
    ensures Fits(columns, table + [cells])
    ensures Infos(columns, table + [cells]) == Infos(columns, table) + [Info(columns, cells)]
  {}

  /** Rebuilding the table shows each row of an account that the columns admit, and no other. */
  lemma {:induction false} MatchingRebuilt(columns: seq<Column>, rows: seq<Row>, a: string)
    requires Unique(columns) && ACCOUNT in Ids(columns) && HasAccountKey(rows)
    ensures Matching(Infos(columns, Rebuilt(columns, rows)), a) == Displayed(columns, Matching(rows, a))
  {
    if |rows| == 0 {
      assert Infos(columns, []) == [];
    } else {
      hide Infos, Info, Showable, Ids, AccountOf, Unique;
      var init, last := rows[..|rows| - 1], rows[|rows| - 1];
      MatchingRebuilt(columns, init, a);
      AccountShown(columns, last);
      InfosAppend(columns, Rebuilt(columns, init), Shown(columns, last));
      MatchingAppend(Infos(columns, Rebuilt(columns, init)), Info(columns, Shown(columns, last)), a);
      DisplayedAppend(columns, Matching(init, a), last);
    }
  }

  lemma InfosHaveAccount(columns: seq<Column>, table: Table)
    requires Fits(columns, table) && ACCOUNT in Ids(columns)
    ensures HasAccountKey(Infos(columns, table))
  {
    forall i | 0 <= i < |table| ensures ACCOUNT in Infos(columns, table)[i] { InfoKeys(columns, table[i], ACCOUNT); }
  }

  // ---------------------------------------------------------------- one step for the row of an account

  /** Just one stored row, and just one table row, is for the account. */
  ghost predicate Single(p: Panel, a: string, r: Row, x: Row)
    requires WellFormed(p)
  {
    Matching(p.stored, a) == [r] && Matching(Infos(p.columns, p.table), a) == [x]
  }

  lemma SaveContinues(p: Panel, a: string, r: Row, x: Row)
    requires WellFormed(p) && ACCOUNT in Ids(p.columns) && Single(p, a, r, x)
    ensures Single(Save(p), a, r + x, x)
  {
    hide Infos, Matching, Named, Saved, Ids;
    var infos := Infos(p.columns, p.table);
    InfosHaveAccount(p.columns, p.table);
    MatchingNamed(p.stored, a);
    MatchingSaved(Named(p.stored), infos, a, r);
    OverlaidOne(r, x);
  }

  lemma OverlaidOne(r: Row, x: Row)
    ensures Overlaid(r, [x]) == [r + x]
  {
    assert [x][..0] == [];
  }

  lemma MatchingMeansSome(rows: seq<Row>, a: string)
    requires |Matching(rows, a)| > 0
    ensures |rows| > 0
  {}

  lemma RowsToShowContinue(stored: seq<Row>, infos: seq<Row>, a: string, r: Row, x: Row)
    requires HasAccountKey(infos) && Matching(stored, a) == [r] && Matching(infos, a) == [x]
    ensures Matching(RowsToShow(stored, infos), a) == [r + x]
    ensures HasAccountKey(RowsToShow(stored, infos))
  {
    MatchingNamed(stored, a);
    MatchingNamed(infos, a);
    MatchingMeansSome(Named(stored), a);
    MatchingMeansSome(Named(infos), a);
    NamedHaveAccount(infos);
    hide Matching, Named, Merged;
    MatchingMerged(Named(stored), Named(infos), a, r);
    OverlaidOne(r, x);
    MatchingMeansSome(Merged(Named(stored), Named(infos)), a);
  }

  lemma {:induction false} NamedHaveAccount(rows: seq<Row>)
    ensures HasAccountKey(Named(rows))
  {
    if |rows| > 0 { NamedHaveAccount(rows[..|rows| - 1]); }
  }

  /** A change of columns keeps the row of the account in the table exactly when every new column admits its value. */
  lemma RecountShows(p: Panel, columns: seq<Column>, a: string, r: Row, x: Row)
    requires WellFormed(p) && ACCOUNT in Ids(p.columns) && Single(p, a, r, x)
    requires Unique(columns) && ACCOUNT in Ids(columns) && Ids(columns) != Ids(p.columns)
    ensures Matching(Recount(p, columns).stored, a) == [r]
    ensures Matching(Infos(columns, Recount(p, columns).table), a) ==
      if Showable(columns, r + x) then [Info(columns, Shown(columns, r + x))] else []
  {
    hide Infos, Matching, RowsToShow, Rebuilt, Ids, Showable, Info, Unique;
    var infos := Infos(p.columns, p.table);
    InfosHaveAccount(p.columns, p.table);
    RowsToShowContinue(p.stored, infos, a, r, x);
    var rows := RowsToShow(p.stored, infos);
    MatchingRebuilt(columns, rows, a);
    DisplayedOne(columns, r + x);
  }

  lemma DisplayedOne(columns: seq<Column>, row: Row)
    ensures Displayed(columns, [row]) == if Showable(columns, row) then [Info(columns, Shown(columns, row))] else []
  {
    assert [row][..0] == [];
  }

  // ---------------------------------------------------------------- values by column id, shown or hidden

  /** All columns there can be. */
  function Full(base: seq<Declared>): seq<Column> { ColumnsOf(base, MAX_COUNT) }

  /** The value of a stored row for a column id, whether or not the table shows the column now. */
  function Lookup(base: seq<Declared>, row: Row, k: string): Cell {
    if k in row then row[k]
    else
      var c := Find(Full(base), k);
      if c.Some? && c.value.default.Some? then c.value.default.value else Nothing
  }

  /** The schema declares an account column. */
  ghost predicate HasAccountColumn(base: seq<Declared>) { ACCOUNT in Ids(MetadataOf(base, |base|)) }

  lemma ShownColumns(base: seq<Declared>, n: nat)
    requires n <= MAX_COUNT
    ensures ColumnsOf(base, n) <= Full(base)
    ensures Unique(ColumnsOf(base, n)) && Unique(Full(base))
    ensures HasAccountColumn(base) ==> ACCOUNT in Ids(ColumnsOf(base, n))
  {
    FewerColumnsAreAPrefix(base, n, MAX_COUNT);
    ColumnsUnique(base, n);
    ColumnsUnique(base, MAX_COUNT);
    ColumnsExact(base, n);
    hide ColumnsOf, MetadataOf, SlotsUpTo, Unique;
    if HasAccountColumn(base) {
      var i :| 0 <= i < |MetadataOf(base, |base|)| && Ids(MetadataOf(base, |base|))[i] == ACCOUNT;
      assert Ids(ColumnsOf(base, n))[i] == ACCOUNT;
    }
  }

  /** Showing a row shows its values. */
  lemma ShowsLookup(base: seq<Declared>, n: nat, row: Row, i: nat)
    requires n <= MAX_COUNT && i < |ColumnsOf(base, n)|
    ensures ValueFor(ColumnsOf(base, n)[i], row) == Lookup(base, row, ColumnsOf(base, n)[i].id)
  {
    ShownColumns(base, n);
    hide ColumnsOf, Unique;
    MemberIsFound(Full(base), i);
  }

  lemma InfoIsLookup(base: seq<Declared>, n: nat, row: Row, k: string)
    requires n <= MAX_COUNT && k in Ids(ColumnsOf(base, n))
    ensures var columns := ColumnsOf(base, n);
      k in Info(columns, Shown(columns, row)) && Info(columns, Shown(columns, row))[k] == Lookup(base, row, k)
  {
    var columns := ColumnsOf(base, n);
    ShownColumns(base, n);
    hide ColumnsOf, Unique, Lookup, Info;
    var i :| 0 <= i < |columns| && Ids(columns)[i] == k;
    ShowsLookup(base, n, row, i);
    InfoAt(columns, Shown(columns, row), i);
  }

  ghost predicate SameValues(base: seq<Declared>, r: Row, s: Row) {
    forall k :: Lookup(base, r, k) == Lookup(base, s, k)
  }

  lemma SameValuesShowAlike(base: seq<Declared>, n: nat, r: Row, s: Row)
    requires n <= MAX_COUNT && SameValues(base, r, s)
    ensures Shown(ColumnsOf(base, n), r) == Shown(ColumnsOf(base, n), s)
    ensures Showable(ColumnsOf(base, n), r) <==> Showable(ColumnsOf(base, n), s)
  {
    var columns := ColumnsOf(base, n);
    hide ColumnsOf, Lookup, ValueFor, Admits;
    forall i | 0 <= i < |columns| ensures ValueFor(columns[i], r) == ValueFor(columns[i], s) {
      ShowsLookup(base, n, r, i);
      ShowsLookup(base, n, s, i);
      assert Lookup(base, r, columns[i].id) == Lookup(base, s, columns[i].id);
    }
  }

  /** Saving cells changes the values of the columns shown, and no others. */
  lemma OverlayValues(base: seq<Declared>, columns: seq<Column>, r: Row, cells: Cells, k: string)
    requires |cells| == |columns|
    ensures k in Ids(columns) ==> k in Info(columns, cells)
    ensures Lookup(base, r + Info(columns, cells), k) == if k in Ids(columns) then Info(columns, cells)[k]
      else Lookup(base, r, k)
  {
    InfoKeys(columns, cells, k);
  }

  /** Saving what is shown already changes no value. */
  lemma SavingTheSame(base: seq<Declared>, n: nat, r: Row)
    requires n <= MAX_COUNT
    ensures SameValues(base, r + Info(ColumnsOf(base, n), Shown(ColumnsOf(base, n), r)), r)
  {
    var columns := ColumnsOf(base, n);
    var x := Info(columns, Shown(columns, r));
    hide ColumnsOf, Lookup, Info, Ids;
    forall k ensures Lookup(base, r + x, k) == Lookup(base, r, k) {
      OverlayValues(base, columns, r, Shown(columns, r), k);
      if k in Ids(columns) { InfoIsLookup(base, n, r, k); }
    }
  }

  predicate Admitted(columns: seq<Column>, cells: Cells) {
    |cells| == |columns| && forall i :: 0 <= i < |columns| ==> Admits(columns[i], cells[i])
  }

  /** Saving allowed cells: the table shows them, and the row stays allowed in every column there can be. */
  lemma SavingCells(base: seq<Declared>, n: nat, r: Row, cells: Cells)
    requires n <= MAX_COUNT && Admitted(ColumnsOf(base, n), cells) && Showable(Full(base), r)
    ensures Shown(ColumnsOf(base, n), r + Info(ColumnsOf(base, n), cells)) == cells
    ensures Showable(Full(base), r + Info(ColumnsOf(base, n), cells))
  {
    var columns, full := ColumnsOf(base, n), Full(base);
    var s := r + Info(columns, cells);
    ShownColumns(base, n);
    hide ColumnsOf, Admits, Info;
    forall i | 0 <= i < |full|
      ensures Admits(full[i], ValueFor(full[i], s)) && (i < |columns| ==> ValueFor(columns[i], s) == cells[i])
    {
      if i < |columns| {
        assert columns[i] == full[i];
        InfoAt(columns, cells, i);
        assert Admits(columns[i], cells[i]);
      } else {
        assert full[i].id !in Ids(columns) by {
          assert forall j :: 0 <= j < |columns| ==> full[j].id == Ids(columns)[j];
        }
        InfoKeys(columns, cells, full[i].id);
        assert Admits(full[i], ValueFor(full[i], r));
      }
    }
  }

  // ---------------------------------------------------------------- events

  datatype Event =
    | Edit(i: nat, cells: Cells)
    | Add(cells: Cells)
    | Remove(i: nat)
    | MoveDown(i: nat)
    | CountChange(requested: Setting)

  predicate Possible(p: Panel, e: Event) {
    && WellFormed(p)
    && match e
       case Edit(i, cells) => i < |p.table| && |cells| == |p.columns|
       case Add(cells) => |cells| == |p.columns|
       case Remove(i) => i < |p.table|
       case MoveDown(i) => i + 1 < |p.table|
       case CountChange(_) => true
  }

  /** The table after a visible edit, before it is saved. */
  function Changed(table: Table, e: Event): Table
    requires e.Edit? || e.Remove? ==> e.i < |table|
    requires e.MoveDown? ==> e.i + 1 < |table|
  {
    match e
    case Edit(i, cells) => table[i := cells]
    case Add(cells) => table + [cells]
    case Remove(i) => table[..i] + table[i + 1..]
    case MoveDown(i) => table[i := table[i + 1]][i + 1 := table[i]]
    case CountChange(_) => table
  }

  lemma ChangedFits(p: Panel, e: Event)
    requires Possible(p, e)
    ensures Fits(p.columns, Changed(p.table, e))
  {}

  function Next(base: seq<Declared>, p: Panel, e: Event): Panel
    requires Possible(p, e)
  {
    ChangedFits(p, e);
    if e.CountChange? then Recount(p, ColumnsOf(base, ValueCount(e.requested)))
    else Save(p.(table := Changed(p.table, e)))
  }

  predicate For(p: Panel, cells: Cells, a: string) {
    |cells| == |p.columns| && AccountOf(Info(p.columns, cells)) == Some(a)
  }

  /** The event edits the row of the account. */
  predicate EditsRowOf(p: Panel, e: Event, a: string) { e.Edit? && e.i < |p.table| && For(p, p.table[e.i], a) }

  /** The event leaves the row of the account there, unique, and with allowed values. */
  predicate Leaves(p: Panel, e: Event, a: string)
    requires Possible(p, e)
  {
    match e
    case Edit(i, cells) => (For(p, p.table[i], a) <==> For(p, cells, a)) &&
      (For(p, cells, a) ==> Admitted(p.columns, cells))
    case Add(cells) => !For(p, cells, a)
    case Remove(i) => !For(p, p.table[i], a)
    case _ => true
  }

  // ---------------------------------------------------------------- the row of the account in the changed table

  lemma Parts<T>(s: seq<T>, i: nat)
    requires i < |s|
    ensures s == s[..i] + [s[i]] + s[i + 1..]
  {}

  lemma MatchingParts(pre: seq<Row>, y: Row, post: seq<Row>, a: string)
    ensures Matching(pre + [y] + post, a) == Matching(pre, a) + Matching([y], a) + Matching(post, a)
  {
    MatchingAdds(pre + [y], post, a);
    MatchingAdds(pre, [y], a);
  }

  lemma AloneInParts<T>(u: seq<T>, y: T, v: seq<T>, x: T)
    requires u + [y] + v == [x]
    ensures u == [] && v == [] && y == x
  {
    assert |u + [y] + v| == 1;
    assert (u + [y] + v)[0] == y;
  }

  lemma MatchingReplaced(rows: seq<Row>, i: nat, y: Row, a: string, x: Row)
    requires i < |rows| && Matching(rows, a) == [x] && (AccountOf(rows[i]) == Some(a) <==> AccountOf(y) == Some(a))
    ensures Matching(rows[i := y], a) == if AccountOf(y) == Some(a) then [y] else [x]
  {
    hide Matching, AccountOf;
    var pre, post := rows[..i], rows[i + 1..];
    Parts(rows, i);
    MatchingParts(pre, rows[i], post, a);
    assert rows[i := y] == pre + [y] + post;
    MatchingParts(pre, y, post, a);
    MatchingOne(y, a);
    MatchingOne(rows[i], a);
    if AccountOf(y) == Some(a) {
      AloneInParts(Matching(pre, a), rows[i], Matching(post, a), x);
      assert Matching(rows[i := y], a) == [] + [y] + [];
    }
  }

  lemma MatchingRemoved(rows: seq<Row>, i: nat, a: string)
    requires i < |rows| && AccountOf(rows[i]) != Some(a)
    ensures Matching(rows[..i] + rows[i + 1..], a) == Matching(rows, a)
  {
    Parts(rows, i);
    MatchingParts(rows[..i], rows[i], rows[i + 1..], a);
    MatchingOne(rows[i], a);
    MatchingAdds(rows[..i], rows[i + 1..], a);
    hide Matching;
  }

  lemma MatchingSwapped(rows: seq<Row>, i: nat, a: string)
    requires i + 1 < |rows| && |Matching(rows, a)| == 1
    ensures Matching(rows[i := rows[i + 1]][i + 1 := rows[i]], a) == Matching(rows, a)
  {
    var pre, y, z, post := rows[..i], rows[i], rows[i + 1], rows[i + 2..];
    assert rows == pre + [y] + ([z] + post);
    assert rows[i := z][i + 1 := y] == pre + [z] + ([y] + post);
    MatchingParts(pre, y, [z] + post, a);
    MatchingParts(pre, z, [y] + post, a);
    MatchingAdds([z], post, a);
    MatchingAdds([y], post, a);
    MatchingOne(y, a);
    MatchingOne(z, a);
    hide Matching;
  }

  lemma InfosEdited(columns: seq<Column>, table: Table, i: nat, cells: Cells)
    requires Fits(columns, table) && i < |table| && |cells| == |columns|
    ensures Fits(columns, table[i := cells]) &&
      Infos(columns, table[i := cells]) == Infos(columns, table)[i := Info(columns, cells)]
  {}

  lemma InfosRemoved(columns: seq<Column>, table: Table, i: nat)
    requires Fits(columns, table) && i < |table|
    ensures Fits(columns, table[..i] + table[i + 1..])
    ensures Infos(columns, table[..i] + table[i + 1..]) == Infos(columns, table)[..i] + Infos(columns, table)[i + 1..]
  {}

  lemma InfosMoved(columns: seq<Column>, table: Table, i: nat)
    requires Fits(columns, table) && i + 1 < |table|
    ensures Fits(columns, table[i := table[i + 1]][i + 1 := table[i]])
    ensures Infos(columns, table[i := table[i + 1]][i + 1 := table[i]]) ==
      Infos(columns, table)[i := Infos(columns, table)[i + 1]][i + 1 := Infos(columns, table)[i]]
  {}

  lemma EditedRow(p: Panel, i: nat, cells: Cells, a: string, x: Row)
    requires Possible(p, Edit(i, cells)) && Leaves(p, Edit(i, cells), a) &&
      Matching(Infos(p.columns, p.table), a) == [x]
    ensures Fits(p.columns, p.table[i := cells])
    ensures Matching(Infos(p.columns, p.table[i := cells]), a) == if For(p, p.table[i], a) then [Info(p.columns, cells)]
      else [x]
  {
    assert |p.table[i]| == |p.columns|;
    hide Matching, AccountOf, Info, Fits, Admitted;
    var infos := Infos(p.columns, p.table);
    assert infos[i] == Info(p.columns, p.table[i]);
    InfosEdited(p.columns, p.table, i, cells);
    hide Infos;
    MatchingReplaced(infos, i, Info(p.columns, cells), a, x);
  }

  lemma AddedRow(p: Panel, cells: Cells, a: string)
    requires Possible(p, Add(cells)) && Leaves(p, Add(cells), a)
    ensures Fits(p.columns, p.table + [cells])
    ensures Matching(Infos(p.columns, p.table + [cells]), a) == Matching(Infos(p.columns, p.table), a)
  {
    hide Matching, AccountOf, Info, Fits, Infos;
    InfosAppend(p.columns, p.table, cells);
    MatchingAppend(Infos(p.columns, p.table), Info(p.columns, cells), a);
  }

  lemma RemainingRow(p: Panel, i: nat, a: string)
    requires Possible(p, Remove(i)) && Leaves(p, Remove(i), a)
    ensures Fits(p.columns, p.table[..i] + p.table[i + 1..])
    ensures Matching(Infos(p.columns, p.table[..i] + p.table[i + 1..]), a) == Matching(Infos(p.columns, p.table), a)
  {
    hide Matching, AccountOf, Info;
    InfosRemoved(p.columns, p.table, i);
    assert Infos(p.columns, p.table)[i] == Info(p.columns, p.table[i]);
    hide Infos;
    MatchingRemoved(Infos(p.columns, p.table), i, a);
  }

  /** The table row of the account after a visible edit. */
  lemma ChangedRow(p: Panel, e: Event, a: string, x: Row)
    requires Possible(p, e) && Leaves(p, e, a) && Matching(Infos(p.columns, p.table), a) == [x]
    ensures Fits(p.columns, Changed(p.table, e))
    ensures Matching(Infos(p.columns, Changed(p.table, e)), a) ==
      if EditsRowOf(p, e, a) then [Info(p.columns, e.cells)] else [x]
  {
    ChangedFits(p, e);
    hide Matching, Info, Infos, Fits, Leaves, For;
    match e
    case Edit(i, cells) => EditedRow(p, i, cells, a, x);
    case Add(cells) => AddedRow(p, cells, a);
    case Remove(i) => RemainingRow(p, i, a);
    case MoveDown(i) =>
      InfosMoved(p.columns, p.table, i);
      MatchingSwapped(Infos(p.columns, p.table), i, a);
    case CountChange(_) =>
  }

  // ---------------------------------------------------------------- what every event keeps

  /** The columns are those of some count. */
  ghost predicate Counted(base: seq<Declared>, columns: seq<Column>, n: nat) {
    n <= MAX_COUNT && columns == ColumnsOf(base, n)
  }

  /** The account has one stored row `r` with allowed values, and one table row, which shows it. */
  ghost predicate Good(base: seq<Declared>, p: Panel, n: nat, a: string, r: Row) {
    && WellFormed(p)
    && Counted(base, p.columns, n)
    && Showable(Full(base), r)
    && Single(p, a, r, Info(p.columns, Shown(p.columns, r)))
  }

  /** The count a panel has after an event. */
  function NextCount(base: seq<Declared>, p: Panel, n: nat, e: Event): nat {
    if e.CountChange? && Ids(ColumnsOf(base, ValueCount(e.requested))) != Ids(p.columns) then ValueCount(e.requested)
    else n
  }

  /** The stored row of the account after an event. */
  function NextRow(p: Panel, e: Event, a: string, r: Row): Row {
    if e.CountChange? then r
    else if EditsRowOf(p, e, a) && |e.cells| == |p.columns| then r + Info(p.columns, e.cells)
    else r + Info(p.columns, Shown(p.columns, r))
  }

  lemma PrefixShowable(base: seq<Declared>, n: nat, r: Row)
    requires n <= MAX_COUNT && Showable(Full(base), r)
    ensures Showable(ColumnsOf(base, n), r)
  {
    ShownColumns(base, n);
    hide ColumnsOf, Admits;
    forall i | 0 <= i < |ColumnsOf(base, n)| ensures Admits(ColumnsOf(base, n)[i], ValueFor(ColumnsOf(base, n)[i], r)) {
      assert ColumnsOf(base, n)[i] == Full(base)[i];
    }
  }

  lemma RecountedColumns(p: Panel, columns: seq<Column>)
    requires WellFormed(p) && Ids(columns) != Ids(p.columns)
    ensures WellFormed(Recount(p, columns)) && Recount(p, columns).columns == columns
  {}

  lemma RecountKeeps(base: seq<Declared>, p: Panel, n: nat, m: nat, a: string, r: Row)
    requires HasAccountColumn(base) && Good(base, p, n, a, r) && m <= MAX_COUNT
    requires Ids(ColumnsOf(base, m)) != Ids(p.columns)
    ensures Good(base, Recount(p, ColumnsOf(base, m)), m, a, r)
  {
    var columns := ColumnsOf(base, m);
    var x := Info(p.columns, Shown(p.columns, r));
    ShownColumns(base, n);
    ShownColumns(base, m);
    hide ColumnsOf, Full, Ids, Info, Infos, Showable, Shown, Unique, Matching, HasAccountColumn, Recount, SameValues;
    RecountedColumns(p, columns);
    RecountShows(p, columns, a, r, x);
    SavingTheSame(base, n, r);
    SameValuesShowAlike(base, m, r + x, r);
    PrefixShowable(base, m, r);
  }

  lemma CountChangeKeeps(base: seq<Declared>, p: Panel, n: nat, requested: Setting, a: string, r: Row)
    requires HasAccountColumn(base) && Good(base, p, n, a, r)
    ensures Good(base, Recount(p, ColumnsOf(base, ValueCount(requested))),
      NextCount(base, p, n, CountChange(requested)), a, r)
  {
    var m := ValueCount(requested);
    hide Good, ColumnsOf, Ids, ValueCount, HasAccountColumn;
    if Ids(ColumnsOf(base, m)) != Ids(p.columns) { RecountKeeps(base, p, n, m, a, r); }
  }

  lemma SameValuesShowable(base: seq<Declared>, r: Row, s: Row)
    requires SameValues(base, s, r) && Showable(Full(base), r)
    ensures Showable(Full(base), s)
  {
    SameValuesShowAlike(base, MAX_COUNT, s, r);
  }

  lemma EditKeeps(base: seq<Declared>, p: Panel, n: nat, e: Event, a: string, r: Row)
    requires HasAccountColumn(base) && Good(base, p, n, a, r) && Possible(p, e) && Leaves(p, e, a) && !e.CountChange?
    ensures Good(base, Next(base, p, e), n, a, NextRow(p, e, a, r))
  {
    var x := Info(p.columns, Shown(p.columns, r));
    ShownColumns(base, n);
    ChangedRow(p, e, a, x);
    var changed := p.(table := Changed(p.table, e));
    hide ColumnsOf, Full, Ids, Info, Showable, Matching, HasAccountColumn, Changed, Save, Infos;
    if EditsRowOf(p, e, a) {
      SaveContinues(changed, a, r, Info(p.columns, e.cells));
      SavingCells(base, n, r, e.cells);
    } else {
      SaveContinues(changed, a, r, x);
      SavingTheSame(base, n, r);
      SameValuesShowAlike(base, n, r + x, r);
      SameValuesShowable(base, r, r + x);
    }
    SaveKeepsTable(changed);
  }

  lemma SaveKeepsTable(p: Panel)
    requires WellFormed(p)
    ensures Save(p).columns == p.columns && Save(p).table == p.table
  {}

  lemma EventKeeps(base: seq<Declared>, p: Panel, n: nat, e: Event, a: string, r: Row)
    requires HasAccountColumn(base) && Good(base, p, n, a, r) && Possible(p, e) && Leaves(p, e, a)
    ensures Good(base, Next(base, p, e), NextCount(base, p, n, e), a, NextRow(p, e, a, r))
  {
    hide Good, HasAccountColumn, Leaves;
    if e.CountChange? {
      assert WellFormed(p);
      CountChangeKeeps(base, p, n, e.requested, a, r);
    } else {
      EditKeeps(base, p, n, e, a, r);
    }
  }

  // ---------------------------------------------------------------- runs

  ghost predicate Follows(base: seq<Declared>, p: Panel, e: Event, q: Panel, a: string) {
    Possible(p, e) && Leaves(p, e, a) && q == Next(base, p, e)
  }

  /** A run of count changes and visible edits that leave the row of account `a` in place. */
  ghost predicate Run(base: seq<Declared>, panels: seq<Panel>, events: seq<Event>, a: string) {
    && |panels| == |events| + 1
    && forall i :: 0 <= i < |events| ==> Follows(base, panels[i], events[i], panels[i + 1], a)
  }

  /** The cell an edit of the row of the account puts into column `k`, if the event is one and the column is shown. */
  function Put(p: Panel, e: Event, a: string, k: string): Option<Cell> {
    if EditsRowOf(p, e, a) && |e.cells| == |p.columns| && k in Info(p.columns, e.cells)
      then Some(Info(p.columns, e.cells)[k]) else None
  }

  /** The value last put into column `k` of the row of the account, or the one it started with. */
  ghost function Expected(base: seq<Declared>, panels: seq<Panel>, events: seq<Event>, a: string, r: Row, k: string,
      n: nat): Cell
    requires |panels| == |events| + 1 && n < |panels|
  {
    if n == 0 then Lookup(base, r, k)
    else
      var put := Put(panels[n - 1], events[n - 1], a, k);
      if put.Some? then put.value else Expected(base, panels, events, a, r, k, n - 1)
  }

  lemma NextValue(base: seq<Declared>, p: Panel, n: nat, e: Event, a: string, r: Row, k: string)
    requires Good(base, p, n, a, r) && Possible(p, e)
    ensures Lookup(base, NextRow(p, e, a, r), k) == if Put(p, e, a, k).Some? then Put(p, e, a, k).value
      else Lookup(base, r, k)
  {
    SavingTheSame(base, n, r);
    hide Lookup, Info, ColumnsOf, Showable, Shown, Single;
    if EditsRowOf(p, e, a) {
      OverlayValues(base, p.columns, r, e.cells, k);
      InfoKeys(p.columns, e.cells, k);
    }
  }

  /** The stored row of the account after `m` events of a run. */
  ghost function RowAfter(panels: seq<Panel>, events: seq<Event>, a: string, r: Row, m: nat): Row
    requires |panels| == |events| + 1 && m < |panels|
  {
    if m == 0 then r else NextRow(panels[m - 1], events[m - 1], a, RowAfter(panels, events, a, r, m - 1))
  }

  lemma StepKeeps(base: seq<Declared>, p: Panel, n: nat, e: Event, q: Panel, a: string, r: Row)
    requires HasAccountColumn(base) && Good(base, p, n, a, r) && Follows(base, p, e, q, a)
    ensures Good(base, q, NextCount(base, p, n, e), a, NextRow(p, e, a, r))
    ensures forall k :: Lookup(base, NextRow(p, e, a, r), k) == if Put(p, e, a, k).Some? then Put(p, e, a, k).value
      else Lookup(base, r, k)
  {
    hide Good, HasAccountColumn, Lookup, NextRow, NextCount, Put, Next, Leaves, Possible;
    EventKeeps(base, p, n, e, a, r);
    forall k
      ensures Lookup(base, NextRow(p, e, a, r), k) == if Put(p, e, a, k).Some? then Put(p, e, a, k).value
        else Lookup(base, r, k)
    {
      NextValue(base, p, n, e, a, r, k);
    }
  }

  lemma {:induction false} RunKeeps(base: seq<Declared>, panels: seq<Panel>, events: seq<Event>, n: nat, a: string,
      r: Row, m: nat)
    returns (count: nat)
    requires HasAccountColumn(base) && Run(base, panels, events, a) && Good(base, panels[0], n, a, r) && m < |panels|
    ensures Good(base, panels[m], count, a, RowAfter(panels, events, a, r, m))
    ensures forall k :: Lookup(base, RowAfter(panels, events, a, r, m), k) == Expected(base, panels, events, a, r, k, m)
  {
    hide Good, HasAccountColumn, Follows, Lookup, NextRow, NextCount, Put;
    if m == 0 {
      count := n;
    } else {
      var before := RunKeeps(base, panels, events, n, a, r, m - 1);
      var p, e, row := panels[m - 1], events[m - 1], RowAfter(panels, events, a, r, m - 1);
      StepKeeps(base, p, before, e, panels[m], a, row);
      count := NextCount(base, p, before, e);
    }
  }

  // ---------------------------------------------------------------- main results

  /** The table row of a stored row has the value `v` in column `k`. */
  ghost predicate Says(columns: seq<Column>, row: Row, k: string, v: Cell) {
    var x := Info(columns, Shown(columns, row));
    k in x && x[k] == v
  }

  /**
   * Over every run, the account keeps its one stored row, and every value in it, shown or hidden, is the one last put
   * there: hiding columns and showing them again loses nothing, and neither do edits of other rows.
   */
  lemma HiddenSlotsSurvive(base: seq<Declared>, panels: seq<Panel>, events: seq<Event>, n: nat, a: string, r: Row,
      m: nat, k: string)
    returns (row: Row)
    requires HasAccountColumn(base) && Run(base, panels, events, a) && Good(base, panels[0], n, a, r) && m < |panels|
    ensures WellFormed(panels[m]) && Single(panels[m], a, row, Info(panels[m].columns, Shown(panels[m].columns, row)))
    ensures Lookup(base, row, k) == Expected(base, panels, events, a, r, k, m)
    ensures k in Ids(panels[m].columns) ==> Says(panels[m].columns, row, k, Expected(base, panels, events, a, r, k, m))
  {
    var count := RunKeeps(base, panels, events, n, a, r, m);
    row := RowAfter(panels, events, a, r, m);
    hide Lookup, Info, Expected, ColumnsOf, Showable, Shown, Follows;
    if k in Ids(panels[m].columns) { InfoIsLookup(base, count, row, k); }
  }

  /**
   A table built from stored rows shows the one row of an account exactly when every shown column admits its value.
   */
  lemma RowsShownExactly(base: seq<Declared>, n: nat, stored: seq<Row>, a: string, r: Row)
    requires HasAccountColumn(base) && n <= MAX_COUNT && Matching(stored, a) == [r] && HasAccountKey(stored)
    ensures var columns := ColumnsOf(base, n);
      Matching(Infos(columns, Rebuilt(columns, stored)), a) == if FitsColumns(columns, r)
        then [Info(columns, Shown(columns, r))] else []
  {
    ShownColumns(base, n);
    ShowableExactly(ColumnsOf(base, n), r);
    hide ColumnsOf, Matching, Infos, Rebuilt, Info, Ids, Unique, Showable, FitsColumns;
    MatchingRebuilt(ColumnsOf(base, n), stored, a);
    DisplayedOne(ColumnsOf(base, n), r);
  }

  /** A freshly opened table is a good start for a run. */
  lemma OpenedTableIsGood(base: seq<Declared>, n: nat, stored: seq<Row>, a: string, r: Row)
    requires HasAccountColumn(base) && n <= MAX_COUNT && Matching(stored, a) == [r] && HasAccountKey(stored) &&
      Showable(Full(base), r)
    ensures Good(base, Panel(ColumnsOf(base, n), Rebuilt(ColumnsOf(base, n), stored), stored), n, a, r)
  {
    RowsShownExactly(base, n, stored, a, r);
    PrefixShowable(base, n, r);
  }

  lemma {:induction false} NothingSavedFor(previous: seq<Row>, infos: seq<Row>, a: string)
    requires HasAccountKey(infos) && Matching(infos, a) == []
    ensures Matching(Saved(previous, infos), a) == []
  {
    if |infos| > 0 {
      var i := |infos| - 1;
      NothingSavedFor(previous, infos[..i], a);
      OverKeepsAccount(SavedFrom(previous, infos[i], i), infos[i]);
      MatchingAppend(Saved(previous, infos[..i]), Over(SavedFrom(previous, infos[i], i), infos[i]), a);
    }
  }

  /**
   * A change of the count followed by a save keeps the stored row of an account exactly when the columns now shown
   * admit its values: a hidden value that is no option any more deletes the whole row.
   */
  lemma RowOutlivesCountChange(base: seq<Declared>, p: Panel, n: nat, m: nat, a: string, r: Row)
    requires HasAccountColumn(base) && WellFormed(p) && Counted(base, p.columns, n) && m <= MAX_COUNT
    requires Single(p, a, r, Info(p.columns, Shown(p.columns, r))) && Ids(ColumnsOf(base, m)) != Ids(p.columns)
    ensures var q := Save(Recount(p, ColumnsOf(base, m)));
      if FitsColumns(ColumnsOf(base, m), r) then |Matching(q.stored, a)| == 1 else Matching(q.stored, a) == []
  {
    var columns := ColumnsOf(base, m);
    var x := Info(p.columns, Shown(p.columns, r));
    ShownColumns(base, n);
    ShownColumns(base, m);
    ShowableExactly(ColumnsOf(base, m), r);
    hide ColumnsOf, Ids, Info, Infos, Showable, FitsColumns, Shown, Unique, Matching, HasAccountColumn, Recount,
      SameValues, Save;
    RecountedColumns(p, columns);
    RecountShows(p, columns, a, r, x);
    SavingTheSame(base, n, r);
    SameValuesShowAlike(base, m, r + x, r);
    var q := Recount(p, columns);
    if Showable(columns, r) {
      SaveContinues(q, a, r, Info(columns, Shown(columns, r + x)));
    } else {
      NothingSaved(q, a);
    }
  }

  lemma NothingSaved(p: Panel, a: string)
    requires WellFormed(p) && ACCOUNT in Ids(p.columns) && Matching(Infos(p.columns, p.table), a) == []
    ensures Matching(Save(p).stored, a) == []
  {
    InfosHaveAccount(p.columns, p.table);
    NothingSavedFor(Named(p.stored), Infos(p.columns, p.table), a);
  }

  // ---------------------------------------------------------------- runs from an opened table

  /**
   From the moment the table is opened, an account with one stored row of allowed values keeps them all in every run.
   */
  lemma OpenedTableKeepsValues(base: seq<Declared>, stored: seq<Row>, panels: seq<Panel>, events: seq<Event>, n: nat,
      a: string, r: Row, m: nat, k: string)
    returns (row: Row)
    requires HasAccountColumn(base) && n <= MAX_COUNT && HasAccountKey(stored)
    requires Matching(stored, a) == [r] && Showable(Full(base), r)
    requires Run(base, panels, events, a) &&
      panels[0] == Panel(ColumnsOf(base, n), Rebuilt(ColumnsOf(base, n), stored), stored)
    requires m < |panels|
    ensures Matching(panels[m].stored, a) == [row]
    ensures Lookup(base, row, k) == Expected(base, panels, events, a, r, k, m)
    ensures k in Ids(panels[m].columns) ==> Says(panels[m].columns, row, k, Expected(base, panels, events, a, r, k, m))
  {
    OpenedTableIsGood(base, n, stored, a, r);
    row := HiddenSlotsSurvive(base, panels, events, n, a, r, m, k);
  }
}
