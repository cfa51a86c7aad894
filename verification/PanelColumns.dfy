/** The columns of the account table: the metadata of the schema, then exactly the requested value slots. */
module PanelColumns {
  import opened Wrappers
  import opened PanelNumbers
  import Sorting

  /** What a table cell or a stored row may hold. */
  datatype Cell = Number(n: int) | Text(text: string) | Nothing

  const SOURCES := set n | 0 <= n < 52 :: Number(n)

  datatype Column = Column(id: string, title: string, text: bool, options: Option<set<Cell>>, default: Option<Cell>)

  /** A column of the schema; `accepted` is the outcome of the checks on its type, texts and options. */
  datatype Declared = Declared(column: Column, accepted: bool)

  predicate Prefixed(id: string) { |id| >= 4 && id[..4] == "slot" }

  /** A slot id is the prefix and a numeral without leading zeros. */
  predicate SlotId(id: string) { Prefixed(id) && Decimal(id[4..]) && id[4] != '0' }

  function SlotNumber(id: string): nat
    requires Prefixed(id)
  {
    Value(id[4..])
  }

  function SlotName(k: nat): string { "slot" + Show(k) }

  function AsSlot(c: Column): Column { c.(text := false, options := Some(SOURCES), default := Some(Number(0))) }

  function NewSlot(k: nat): (c: Column)
    ensures c.id == SlotName(k)
  {
    AsSlot(Column(SlotName(k), "Wert " + Show(k), false, None, None))
  }

  /** The first column with the id. */
  function Find(columns: seq<Column>, id: string): Option<Column> {
    if |columns| == 0 then None
    else
      var before := Find(columns[..|columns| - 1], id);
      if before.Some? then before
      else if columns[|columns| - 1].id == id then Some(columns[|columns| - 1]) else None
  }

  predicate Has(columns: seq<Column>, id: string) { Find(columns, id).Some? }

  /** The column passes all checks that depend on its id. */
  predicate Usable(c: Column, count: nat) { Prefixed(c.id) ==> SlotId(c.id) && SlotNumber(c.id) <= count }

  /** The accepted columns among the first `n`, the first of each id only. */
  function Kept(base: seq<Declared>, count: nat, n: nat): seq<Column>
    requires n <= |base|
  {
    if n == 0 then []
    else
      var before, d := Kept(base, count, n - 1), base[n - 1];
      if d.accepted && !Has(before, d.column.id) && Usable(d.column, count) then before + [d.column] else before
  }

  /** Slot columns all get the same type, options and default. */
  function Normalised(columns: seq<Column>): (r: seq<Column>)
    ensures |r| == |columns|
    ensures forall i :: 0 <= i < |r| ==> r[i].id == columns[i].id
  {
    seq(|columns|, i requires 0 <= i < |columns| => if Prefixed(columns[i].id) then AsSlot(columns[i]) else columns[i])
  }

  /** The slots up to `n` that are not there yet are appended. */
  function Completed(columns: seq<Column>, n: nat): seq<Column> {
    if n == 0 then columns
    else if Has(columns, SlotName(n)) then Completed(columns, n - 1)
    else Completed(columns, n - 1) + [NewSlot(n)]
  }

  predicate IsSlot(c: Column) { SlotId(c.id) }

  predicate IsMetadata(c: Column) { !SlotId(c.id) }

  predicate ByNumber(a: Column, b: Column) {
    (if Prefixed(a.id) then SlotNumber(a.id) else 0) <= (if Prefixed(b.id) then SlotNumber(b.id) else 0)
  }

  /** The columns shown for a schema and a requested number of slots. */
  function ColumnsOf(base: seq<Declared>, count: nat): seq<Column> {
    var all := Completed(Normalised(Kept(base, count, |base|)), count);
    Sorting.Filter(all, IsMetadata) + Sorting.StableSort(Sorting.Filter(all, IsSlot), ByNumber)
  }

  method ExpandColumns(base: seq<Declared>, requested: Setting) returns (columns: seq<Column>)
    ensures columns == ColumnsOf(base, ValueCount(requested))
  {
    var count := ValueCount(requested);
    columns := [];
    for n := 0 to |base|
      invariant columns == Kept(base, count, n)
    {
      var d := base[n];
      if d.accepted && !Has(columns, d.column.id) && Usable(d.column, count) {
        columns := columns + [d.column];
      }
    }
    var i := 0;
    ghost var kept := columns;
    while i < |columns|
      invariant 0 <= i <= |columns| == |kept|
      invariant forall k :: 0 <= k < i ==> columns[k] == Normalised(kept)[k]
      invariant forall k :: i <= k < |columns| ==> columns[k] == kept[k]
    {
      if Prefixed(columns[i].id) { columns := columns[i := AsSlot(columns[i])]; }
      i := i + 1;
    }
    assert columns == Normalised(kept);
    var existing := columns;
    for n := 0 to count
      invariant columns == Completed(existing, n)
    {
      if !Has(existing, SlotName(n + 1)) { columns := columns + [NewSlot(n + 1)]; }
    }
    columns := Sorting.Filter(columns, IsMetadata) + Sorting.StableSort(Sorting.Filter(columns, IsSlot), ByNumber);
  }

  // ---------------------------------------------------------------- what the columns should be

  /** The first accepted column of the schema with the id, among the first `n`. */
  function First(base: seq<Declared>, id: string, n: nat): (r: Option<Column>)
    requires n <= |base|
    ensures r.Some? ==> r.value.id == id
  {
    if n == 0 then None
    else
      var before := First(base, id, n - 1);
      if before.Some? then before
      else if base[n - 1].accepted && base[n - 1].column.id == id then Some(base[n - 1].column) else None
  }

  /** The accepted metadata columns among the first `n`, in order, the first of each id; no count is involved. */
  function MetadataOf(base: seq<Declared>, n: nat): seq<Column>
    requires n <= |base|
  {
    if n == 0 then []
    else
      var d := base[n - 1];
      var before := MetadataOf(base, n - 1);
      if d.accepted && !Prefixed(d.column.id) && First(base, d.column.id, n - 1).None? then before + [d.column]
      else before
  }

  /** Slot `k` keeps the title the schema gives it. */
  function SlotColumn(base: seq<Declared>, k: nat): Column {
    var declared := First(base, SlotName(k), |base|);
    var title := if declared.Some? then declared.value.title else "Wert " + Show(k);
    Column(SlotName(k), title, false, Some(SOURCES), Some(Number(0)))
  }

  function SlotsUpTo(base: seq<Declared>, count: nat): (r: seq<Column>)
    ensures |r| == count
    ensures forall k :: 0 <= k < count ==> r[k] == SlotColumn(base, k + 1)
  {
    seq(count, k requires 0 <= k < count => SlotColumn(base, k + 1))
  }

  // ---------------------------------------------------------------- looking columns up

  lemma FindAppend(columns: seq<Column>, c: Column, id: string)
    ensures Find(columns + [c], id) ==
      if Find(columns, id).Some? then Find(columns, id) else if c.id == id then Some(c) else None
  {
    assert (columns + [c])[..|columns|] == columns;
  }

  predicate UsableId(id: string, count: nat) { Prefixed(id) ==> SlotId(id) && SlotNumber(id) <= count }

  lemma {:induction false} KeptFind(base: seq<Declared>, count: nat, n: nat, id: string)
    requires n <= |base|
    ensures Find(Kept(base, count, n), id) == if UsableId(id, count) then First(base, id, n) else None
  {
    if n > 0 {
      KeptFind(base, count, n - 1, id);
      KeptFind(base, count, n - 1, base[n - 1].column.id);
      FindAppend(Kept(base, count, n - 1), base[n - 1].column, id);
    }
  }

  lemma {:induction false} NormalisedFind(columns: seq<Column>, id: string)
    ensures Find(Normalised(columns), id) ==
      match Find(columns, id) case None => None case Some(c) => Some(if Prefixed(c.id) then AsSlot(c) else c)
  {
    if |columns| > 0 {
      var init := columns[..|columns| - 1];
      assert Normalised(columns)[..|columns| - 1] == Normalised(init);
      NormalisedFind(init, id);
    }
  }

  /** Slot names and slot ids are the same thing. */
  lemma SlotNames(k: nat)
    requires k > 0
    ensures SlotId(SlotName(k)) && SlotNumber(SlotName(k)) == k
  {
    ShowIsDecimal(k);
    ValueOfShow(k);
    assert SlotName(k)[..4] == "slot" && SlotName(k)[4..] == Show(k);
  }

  lemma SlotIds(id: string)
    requires SlotId(id)
    ensures SlotNumber(id) > 0 && SlotName(SlotNumber(id)) == id
  {
    ValuePositive(id[4..]);
    ShowOfValue(id[4..]);
    assert id == id[..4] + id[4..];
  }

  /** The slot with the id, if it is one of the first `n`. */
  function NewSlotFor(id: string, n: nat): Option<Column> {
    if SlotId(id) && SlotNumber(id) <= n then Some(NewSlot(SlotNumber(id))) else None
  }

  lemma NewSlotForNext(id: string, n: nat)
    requires n > 0
    ensures NewSlotFor(id, n) == if id == SlotName(n) then Some(NewSlot(n)) else NewSlotFor(id, n - 1)
    ensures NewSlotFor(SlotName(n), n - 1) == None
    ensures NewSlotFor(id, 0) == None
  {
    SlotNames(n);
    if SlotId(id) { SlotIds(id); }
    hide SlotId, SlotNumber, SlotName, NewSlot;
  }

  lemma CompletedStep(columns: seq<Column>, n: nat, id: string)
    requires n > 0
    ensures Find(Completed(columns, n), id) ==
      if Find(columns, SlotName(n)).Some? || Find(Completed(columns, n - 1), id).Some?
        then Find(Completed(columns, n - 1), id)
      else if id == SlotName(n) then Some(NewSlot(n)) else None
  {
    hide Find, SlotName, NewSlot;
    FindAppend(Completed(columns, n - 1), NewSlot(n), id);
  }

  lemma {:induction false} CompletedFind(columns: seq<Column>, n: nat, id: string)
    ensures Find(Completed(columns, n), id) == if Find(columns, id).Some? then Find(columns, id) else NewSlotFor(id, n)
  {
    hide Find, SlotName, NewSlot, NewSlotFor;
    if n == 0 {
      NewSlotForNext(id, 1);
    } else {
      CompletedFind(columns, n - 1, id);
      CompletedStep(columns, n, id);
      NewSlotForNext(id, n);
    }
  }

  /** All columns before they are sorted. */
  function Gathered(base: seq<Declared>, count: nat): seq<Column> {
    Completed(Normalised(Kept(base, count, |base|)), count)
  }

  /** Looking up a slot id finds the slot, and nothing beyond the requested count. */
  lemma GatheredSlot(base: seq<Declared>, count: nat, id: string)
    requires SlotId(id)
    ensures Find(Gathered(base, count), id) == if SlotNumber(id) <= count then Some(SlotColumn(base, SlotNumber(id)))
      else None
  {
    SlotIds(id);
    hide Find, SlotNumber, SlotName, First, Kept, Normalised, Completed;
    var kept := Kept(base, count, |base|);
    KeptFind(base, count, |base|, id);
    NormalisedFind(kept, id);
    CompletedFind(Normalised(kept), count, id);
  }

  // ---------------------------------------------------------------- no id twice

  ghost predicate Unique(columns: seq<Column>) {
    forall i, j :: 0 <= i < j < |columns| ==> columns[i].id != columns[j].id
  }

  lemma {:induction false} FindIsMember(columns: seq<Column>, id: string)
    ensures Find(columns, id).Some? ==> Find(columns, id).value in columns && Find(columns, id).value.id == id
    ensures Find(columns, id).None? ==> forall i :: 0 <= i < |columns| ==> columns[i].id != id
  {
    if |columns| > 0 { FindIsMember(columns[..|columns| - 1], id); }
  }

  lemma {:induction false} MemberIsFound(columns: seq<Column>, i: nat)
    requires Unique(columns) && i < |columns|
    ensures Find(columns, columns[i].id) == Some(columns[i])
  {
    var init := columns[..|columns| - 1];
    if i < |init| {
      MemberIsFound(init, i);
    } else {
      assert forall j :: 0 <= j < |init| ==> init[j].id != columns[i].id;
      FindIsMember(init, columns[i].id);
    }
  }

  lemma UniqueAppend(columns: seq<Column>, c: Column)
    requires Unique(columns) && !Has(columns, c.id)
    ensures Unique(columns + [c])
  {
    FindIsMember(columns, c.id);
  }

  lemma {:induction false} KeptUnique(base: seq<Declared>, count: nat, n: nat)
    requires n <= |base|
    ensures Unique(Kept(base, count, n))
  {
    if n > 0 {
      KeptUnique(base, count, n - 1);
      if Kept(base, count, n) != Kept(base, count, n - 1) {
        UniqueAppend(Kept(base, count, n - 1), base[n - 1].column);
      }
    }
  }

  lemma {:induction false} CompletedUnique(columns: seq<Column>, n: nat)
    requires Unique(columns)
    ensures Unique(Completed(columns, n))
  {
    if n > 0 {
      CompletedUnique(columns, n - 1);
      CompletedFind(columns, n - 1, SlotName(n));
      SlotNames(n);
      hide Unique, Find, SlotId, SlotNumber, SlotName;
      if !Has(columns, SlotName(n)) { UniqueAppend(Completed(columns, n - 1), NewSlot(n)); }
    }
  }

  lemma GatheredUnique(base: seq<Declared>, count: nat)
    ensures Unique(Gathered(base, count))
  {
    KeptUnique(base, count, |base|);
    CompletedUnique(Normalised(Kept(base, count, |base|)), count);
  }

  // ---------------------------------------------------------------- the metadata part

  lemma FilterAppend<T>(s: seq<T>, x: T, p: T -> bool)
    ensures Sorting.Filter(s + [x], p) == if p(x) then Sorting.Filter(s, p) + [x] else Sorting.Filter(s, p)
  {
    assert (s + [x])[..|s|] == s;
  }

  lemma NewSlotIsSlot(n: nat)
    requires n > 0
    ensures !IsMetadata(NewSlot(n))
  {
    SlotNames(n);
  }

  lemma {:induction false} CompletedMetadata(columns: seq<Column>, n: nat)
    ensures Sorting.Filter(Completed(columns, n), IsMetadata) == Sorting.Filter(columns, IsMetadata)
  {
    if n > 0 {
      CompletedMetadata(columns, n - 1);
      NewSlotIsSlot(n);
      hide Sorting.Filter, Has, SlotName, NewSlot, IsMetadata;
      FilterAppend(Completed(columns, n - 1), NewSlot(n), IsMetadata);
    }
  }

  lemma NormalisedAppend(columns: seq<Column>, c: Column)
    ensures Normalised(columns + [c]) == Normalised(columns) + [if Prefixed(c.id) then AsSlot(c) else c]
  {}

  lemma KeptStep(base: seq<Declared>, count: nat, n: nat)
    requires 0 < n <= |base|
    ensures Kept(base, count, n) ==
      if base[n - 1].accepted && UsableId(base[n - 1].column.id, count) &&
        First(base, base[n - 1].column.id, n - 1).None?
      then Kept(base, count, n - 1) + [base[n - 1].column] else Kept(base, count, n - 1)
  {
    hide Find, First;
    KeptFind(base, count, n - 1, base[n - 1].column.id);
  }

  /** A usable column adds itself to the metadata, unless it is a slot. */
  lemma MetadataStep(before: seq<Column>, c: Column, count: nat)
    requires UsableId(c.id, count)
    ensures Sorting.Filter(Normalised(before + [c]), IsMetadata) ==
      if Prefixed(c.id) then Sorting.Filter(Normalised(before), IsMetadata)
      else Sorting.Filter(Normalised(before), IsMetadata) + [c]
  {
    var shown := if Prefixed(c.id) then AsSlot(c) else c;
    assert IsMetadata(shown) <==> !Prefixed(c.id);
    hide Sorting.Filter, Normalised, AsSlot, IsMetadata, Prefixed;
    NormalisedAppend(before, c);
    FilterAppend(Normalised(before), shown, IsMetadata);
  }

  lemma MetadataOfStep(base: seq<Declared>, n: nat)
    requires 0 < n <= |base|
    ensures MetadataOf(base, n) ==
      if base[n - 1].accepted && !Prefixed(base[n - 1].column.id) && First(base, base[n - 1].column.id, n - 1).None?
      then MetadataOf(base, n - 1) + [base[n - 1].column] else MetadataOf(base, n - 1)
  {}

  /** The metadata among the columns kept so far. */
  function KeptPart(base: seq<Declared>, count: nat, n: nat): seq<Column>
    requires n <= |base|
  {
    Sorting.Filter(Normalised(Kept(base, count, n)), IsMetadata)
  }

  lemma KeptPartStep(base: seq<Declared>, count: nat, n: nat)
    requires 0 < n <= |base|
    ensures KeptPart(base, count, n) ==
      if base[n - 1].accepted && !Prefixed(base[n - 1].column.id) && First(base, base[n - 1].column.id, n - 1).None?
      then KeptPart(base, count, n - 1) + [base[n - 1].column] else KeptPart(base, count, n - 1)
  {
    hide Sorting.Filter, SlotId, SlotNumber, Prefixed, First, Normalised, IsMetadata, Kept;
    KeptStep(base, count, n);
    if UsableId(base[n - 1].column.id, count) { MetadataStep(Kept(base, count, n - 1), base[n - 1].column, count); }
  }

  lemma NothingKept(base: seq<Declared>, count: nat)
    ensures KeptPart(base, count, 0) == MetadataOf(base, 0)
  {
    assert Normalised([]) == [];
  }

  lemma {:induction false} KeptMetadata(base: seq<Declared>, count: nat, n: nat)
    requires n <= |base|
    ensures KeptPart(base, count, n) == MetadataOf(base, n)
  {
    hide *;
    if n == 0 {
      NothingKept(base, count);
    } else {
      KeptMetadata(base, count, n - 1);
      KeptPartStep(base, count, n);
      MetadataOfStep(base, n);
    }
  }

  // ---------------------------------------------------------------- the slot part

  lemma ByNumberRanks()
    ensures Sorting.Ranking(ByNumber)
  {}

  lemma {:induction false} FilterMembers<T>(s: seq<T>, p: T -> bool, x: T)
    ensures x in Sorting.Filter(s, p) <==> x in s && p(x)
    ensures multiset(Sorting.Filter(s, p))[x] <= multiset(s)[x]
  {
    if |s| > 0 {
      FilterMembers(s[..|s| - 1], p, x);
      assert s == s[..|s| - 1] + [s[|s| - 1]];
    }
  }

  lemma {:induction false} UniqueCounts(columns: seq<Column>, c: Column)
    requires Unique(columns)
    ensures multiset(columns)[c] <= 1
  {
    if |columns| > 0 {
      var init, last := columns[..|columns| - 1], columns[|columns| - 1];
      assert columns == init + [last];
      UniqueCounts(init, c);
      assert last !in init;
    }
  }

  /** The slot columns in the order of their numbers. */
  function SlotsOf(base: seq<Declared>, count: nat): seq<Column> {
    Sorting.StableSort(Sorting.Filter(Gathered(base, count), IsSlot), ByNumber)
  }

  lemma SlotsSorted(base: seq<Declared>, count: nat)
    ensures Sorting.Sorted(SlotsOf(base, count), ByNumber)
    ensures multiset(SlotsOf(base, count)) == multiset(Sorting.Filter(Gathered(base, count), IsSlot))
  {
    ByNumberRanks();
    Sorting.StableSortCorrect(Sorting.Filter(Gathered(base, count), IsSlot), ByNumber);
  }

  /** The slots shown are the requested ones, and each is the one the schema describes. */
  lemma SlotsMembers(base: seq<Declared>, count: nat, c: Column)
    ensures c in SlotsOf(base, count) <==>
      SlotId(c.id) && SlotNumber(c.id) <= count && c == SlotColumn(base, SlotNumber(c.id))
    ensures multiset(SlotsOf(base, count))[c] <= 1
  {
    var all := Gathered(base, count);
    SlotsSorted(base, count);
    FilterMembers(all, IsSlot, c);
    GatheredUnique(base, count);
    UniqueCounts(all, c);
    hide Sorting.Filter, Gathered, SlotNumber, SlotColumn, SlotsOf;
    assert c in SlotsOf(base, count) <==> c in multiset(SlotsOf(base, count));
    assert c in Sorting.Filter(all, IsSlot) <==> c in multiset(Sorting.Filter(all, IsSlot));
    if SlotId(c.id) {
      GatheredSlot(base, count, c.id);
      FindIsMember(all, c.id);
      if c in all {
        var i :| 0 <= i < |all| && all[i] == c;
        MemberIsFound(all, i);
      }
    }
  }

  /** Increasing numbers from 1 to `n` that leave none out are 1, 2, ..., n. */
  lemma {:induction false} Consecutive(s: seq<nat>, n: nat)
    requires forall i, j :: 0 <= i < j < |s| ==> s[i] < s[j]
    requires forall i :: 0 <= i < |s| ==> 1 <= s[i] <= n
    requires forall k :: 1 <= k <= n ==> k in s
    ensures |s| == n && forall i :: 0 <= i < n ==> s[i] == i + 1
  {
    if n == 0 {
      assert |s| == 0;
    } else {
      assert n in s;
      var i :| 0 <= i < |s| && s[i] == n;
      var last := s[|s| - 1];
      assert last <= n;
      assert i == |s| - 1;
      var init := s[..|s| - 1];
      forall k | 1 <= k <= n - 1 ensures k in init {
        assert k in s;
        var j :| 0 <= j < |s| && s[j] == k;
        assert init[j] == k;
      }
      Consecutive(init, n - 1);
    }
  }

  lemma SlotIsShown(base: seq<Declared>, count: nat, k: nat)
    requires 1 <= k <= count
    ensures SlotColumn(base, k) in SlotsOf(base, count)
    ensures SlotNumber(SlotColumn(base, k).id) == k
  {
    hide SlotsOf;
    SlotNames(k);
    SlotsMembers(base, count, SlotColumn(base, k));
  }

  lemma ShownIsSlot(base: seq<Declared>, count: nat, i: nat)
    requires i < |SlotsOf(base, count)|
    ensures var c := SlotsOf(base, count)[i];
      SlotId(c.id) && 1 <= SlotNumber(c.id) <= count && c == SlotColumn(base, SlotNumber(c.id))
  {
    hide SlotsOf;
    SlotsMembers(base, count, SlotsOf(base, count)[i]);
    SlotIds(SlotsOf(base, count)[i].id);
  }

  lemma Ranked(s: seq<Column>, i: nat, j: nat)
    requires Sorting.Sorted(s, ByNumber) && i < j < |s| && Prefixed(s[i].id) && Prefixed(s[j].id)
    ensures SlotNumber(s[i].id) <= SlotNumber(s[j].id)
  {
    assert ByNumber(s[i], s[j]);
  }

  lemma ShownInOrder(base: seq<Declared>, count: nat, i: nat, j: nat)
    requires i < j < |SlotsOf(base, count)|
    requires Prefixed(SlotsOf(base, count)[i].id) && Prefixed(SlotsOf(base, count)[j].id)
    ensures SlotNumber(SlotsOf(base, count)[i].id) < SlotNumber(SlotsOf(base, count)[j].id)
  {
    hide SlotsOf, SlotColumn, SlotNumber, SlotId, Prefixed, ByNumber, Sorting.Sorted;
    var s := SlotsOf(base, count);
    ShownIsSlot(base, count, i);
    ShownIsSlot(base, count, j);
    SlotsSorted(base, count);
    Ranked(s, i, j);
    if s[i] == s[j] {
      Sorting.Repeats(s, i, j);
      SlotsMembers(base, count, s[i]);
    }
  }

  lemma SlotsExact(base: seq<Declared>, count: nat)
    ensures SlotsOf(base, count) == SlotsUpTo(base, count)
  {
    hide SlotsOf, SlotColumn, SlotNumber, SlotId;
    var s := SlotsOf(base, count);
    forall i | 0 <= i < |s| ensures Prefixed(s[i].id) { ShownIsSlot(base, count, i); SlotIdPrefixed(s[i].id); }
    var numbers := seq(|s|, i requires 0 <= i < |s| => SlotNumber(s[i].id));
    forall i, j | 0 <= i < j < |s| ensures numbers[i] < numbers[j] { ShownInOrder(base, count, i, j); }
    forall i | 0 <= i < |s| ensures 1 <= numbers[i] <= count { ShownIsSlot(base, count, i); }
    forall k | 1 <= k <= count ensures k in numbers {
      SlotIsShown(base, count, k);
      var i :| 0 <= i < |s| && s[i] == SlotColumn(base, k);
      assert numbers[i] == k;
    }
    Consecutive(numbers, count);
    forall i | 0 <= i < count ensures s[i] == SlotColumn(base, i + 1) {
      ShownIsSlot(base, count, i);
      assert numbers[i] == i + 1;
    }
  }

  lemma SlotIdPrefixed(id: string)
    requires SlotId(id)
    ensures Prefixed(id)
  {}

  // ---------------------------------------------------------------- main results

  /** The metadata of the schema in its order, then exactly slot1 to the requested number, each with its own title. */
  lemma ColumnsExact(base: seq<Declared>, count: nat)
    ensures ColumnsOf(base, count) == MetadataOf(base, |base|) + SlotsUpTo(base, count)
  {
    hide SlotsUpTo, Sorting.Filter, Sorting.StableSort, Kept, Normalised, Completed, IsMetadata, IsSlot, ByNumber;
    var kept := Kept(base, count, |base|);
    CompletedMetadata(Normalised(kept), count);
    KeptMetadata(base, count, |base|);
    SlotsExact(base, count);
  }

  /** A smaller count shows a beginning of the columns of a larger one, unchanged. */
  lemma FewerColumnsAreAPrefix(base: seq<Declared>, m: nat, n: nat)
    requires m <= n
    ensures ColumnsOf(base, m) <= ColumnsOf(base, n)
  {
    ColumnsExact(base, m);
    ColumnsExact(base, n);
    hide ColumnsOf, MetadataOf;
    assert SlotsUpTo(base, m) == SlotsUpTo(base, n)[..m];
  }

  lemma SlotIdsDiffer(base: seq<Declared>, k: nat, l: nat)
    requires k != l && k > 0 && l > 0
    ensures SlotColumn(base, k).id != SlotColumn(base, l).id && Prefixed(SlotColumn(base, k).id)
  {
    hide First;
    SlotNames(k);
    SlotNames(l);
  }

  /** No id is shown twice. */
  lemma ColumnsUnique(base: seq<Declared>, count: nat)
    ensures Unique(ColumnsOf(base, count))
  {
    hide ColumnsOf, MetadataOf, SlotColumn, Prefixed;
    ColumnsExact(base, count);
    var columns, meta := ColumnsOf(base, count), MetadataOf(base, |base|);
    forall i, j | 0 <= i < j < |columns| ensures columns[i].id != columns[j].id {
      if j < |meta| {
        MetadataIds(base, |base|, i, j);
      } else if i < |meta| {
        MetadataIds(base, |base|, i, i);
        SlotIdsDiffer(base, j - |meta| + 1, j - |meta| + 2);
      } else {
        SlotIdsDiffer(base, i - |meta| + 1, j - |meta| + 1);
      }
    }
  }

  lemma {:induction false} MetadataIds(base: seq<Declared>, n: nat, i: nat, j: nat)
    requires n <= |base| && i <= j < |MetadataOf(base, n)|
    ensures !Prefixed(MetadataOf(base, n)[i].id)
    ensures First(base, MetadataOf(base, n)[i].id, n).Some?
    ensures i < j ==> MetadataOf(base, n)[i].id != MetadataOf(base, n)[j].id
  {
    var before := MetadataOf(base, n - 1);
    if j < |before| {
      MetadataIds(base, n - 1, i, j);
    } else if i < |before| {
      MetadataIds(base, n - 1, i, i);
    }
  }
}
