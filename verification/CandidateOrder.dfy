/**
 * When the list of candidates depends on the order in which responses arrived: exactly for the responses behind it, and
 * exactly for the candidates that are returned.
 */
module CandidateOrder {
  import opened Wrappers
  import opened BridgeCandidates
  import Sorting

  // ---------------------------------------------------------------- the responses behind the candidates

  function Plain(es: seq<Entry>): (r: seq<Response>)
    ensures |r| == |es| && forall i :: 0 <= i < |es| ==> r[i] == es[i].response
  {
    seq(|es|, i requires 0 <= i < |es| => es[i].response)
  }

  /** The usable survivors, least recent first. */
  function Ranked(rs: seq<Response>, load: Loader): seq<Response> { Plain(Output(rs, load)) }

  predicate Tied(x: Response, y: Response) { AsFresh(x, y) && AsFresh(y, x) }

  ghost predicate UsableAt(rs: seq<Response>, load: Loader, k: Key) {
    k in Survivors(rs) && load(Survivors(rs)[k]).Some?
  }

  /** Two different usable survivors have the same number and equally ranked sources. */
  ghost predicate HasTie(rs: seq<Response>, load: Loader) {
    exists k, k' :: k != k' && UsableAt(rs, load, k) && UsableAt(rs, load, k') &&
      Tied(Survivors(rs)[k], Survivors(rs)[k'])
  }

  /** No order of arrival can bring a different usable response of the key forward. */
  ghost predicate Settled(rs: seq<Response>, load: Loader, k: Key) {
    Numbered(rs, k) || OneContent(rs, k) || forall i :: 0 <= i < |rs| && rs[i].key == k ==> load(rs[i]).None?
  }

  ghost predicate AllSettled(rs: seq<Response>, load: Loader) {
    forall i :: 0 <= i < |rs| ==> Settled(rs, load, rs[i].key)
  }

  /** A settled key is usable in every order of arrival or in none, and always with the same response. */
  lemma SettledSurvivor(rs: seq<Response>, ts: seq<Response>, load: Loader, k: Key)
    requires AllSettled(rs, load) && multiset(rs) == multiset(ts)
    ensures UsableAt(rs, load, k) <==> UsableAt(ts, load, k)
    ensures UsableAt(rs, load, k) ==> Survivors(rs)[k] == Survivors(ts)[k]
  {
    hide Survivors;
    if !HasKey(rs, k) || Numbered(rs, k) {
      ArrivalOrderIrrelevant(rs, ts, k);
    } else if OneContent(rs, k) {
      UnanimousSurvivor(rs, ts, k);
    } else {
      var i :| 0 <= i < |rs| && rs[i].key == k;
      assert Settled(rs, load, rs[i].key);
      NeverUsable(rs, rs, load, k);
      NeverUsable(rs, ts, load, k);
    }
  }

  lemma NeverUsable(rs: seq<Response>, ts: seq<Response>, load: Loader, k: Key)
    requires multiset(rs) == multiset(ts) && forall i :: 0 <= i < |rs| && rs[i].key == k ==> load(rs[i]).None?
    ensures !UsableAt(ts, load, k)
  {
    hide Survivors;
    if k in Survivors(ts) {
      SurvivorIsNewest(ts, k);
      var j: nat :| Wins(ts, j) && ts[j].key == k && Survivors(ts)[k] == ts[j];
      var i := MemberOfPermutation(ts, rs, j);
    }
  }

  /** A key that is not settled makes some order of arrival use a response that another order does not use. */
  lemma UnsettledMatters(rs: seq<Response>, load: Loader, k: Key)
    requires HasKey(rs, k) && !Settled(rs, load, k)
    ensures exists ts, us :: multiset(ts) == multiset(rs) == multiset(us) && Ranked(ts, load) != Ranked(us, load)
  {
    var j :| 0 <= j < |rs| && rs[j].key == k && load(rs[j]).Some?;
    var a, b :| 0 <= a < |rs| && 0 <= b < |rs| && rs[a].key == k && rs[b].key == k && rs[a].content != rs[b].content;
    var l := if rs[a].content != rs[j].content then a else b;
    EitherCanSurvive(rs, k, j);
    EitherCanSurvive(rs, k, l);
    hide Survivors, Ranked, Settled;
    var ts, us := MovedLast(rs, j), MovedLast(rs, l);
    RankedFacts(ts, load);
    RankedFacts(us, load);
    assert rs[j] in Ranked(ts, load) && rs[j] !in Ranked(us, load);
  }

  ghost predicate DistinctKeys(s: seq<Response>) { forall i, j :: 0 <= i < j < |s| ==> s[i].key != s[j].key }

  lemma {:induction false} DistinctOnce(s: seq<Response>, x: Response)
    requires DistinctKeys(s)
    ensures multiset(s)[x] == if x in s then 1 else 0
  {
    if |s| > 0 {
      var init, last := s[..|s| - 1], s[|s| - 1];
      DistinctOnce(init, x);
      assert s == init + [last];
      assert forall i :: 0 <= i < |init| ==> init[i] == s[i];
      assert last !in init;
    }
  }

  lemma RankedFacts(rs: seq<Response>, load: Loader)
    ensures DistinctKeys(Ranked(rs, load)) && Sorting.Sorted(Ranked(rs, load), AsFresh)
    ensures forall x :: x in Ranked(rs, load) <==> x.key in Survivors(rs) && Survivors(rs)[x.key] == x && load(x).Some?
  {
    OutputExact(rs, load);
    hide Survivors, Output, AsFresh;
    var out, ranked := Output(rs, load), Ranked(rs, load);
    forall x ensures x in ranked <==> x.key in Survivors(rs) && Survivors(rs)[x.key] == x && load(x).Some? {
      if x in ranked {
        var i :| 0 <= i < |ranked| && ranked[i] == x;
        assert out[i] in out;
      }
      if x.key in Survivors(rs) && Survivors(rs)[x.key] == x && load(x).Some? {
        var p := OutputHas(rs, load, x.key);
        assert ranked[p] == x;
      }
    }
  }

  lemma TieFreeOrder(rs: seq<Response>, ts: seq<Response>, load: Loader)
    requires AllSettled(rs, load) && multiset(rs) == multiset(ts) && !HasTie(rs, load)
    ensures Ranked(rs, load) == Ranked(ts, load)
  {
    RankedFacts(rs, load);
    RankedFacts(ts, load);
    hide Survivors, Ranked, AsFresh, AllSettled;
    var s, t := Ranked(rs, load), Ranked(ts, load);
    assert multiset(s) == multiset(t) by {
      forall x: Response ensures multiset(s)[x] == multiset(t)[x] {
        SettledSurvivor(rs, ts, load, x.key);
        DistinctOnce(s, x);
        DistinctOnce(t, x);
      }
    }
    forall i, j | 0 <= i < |s| && 0 <= j < |s| && AsFresh(s[i], s[j]) && AsFresh(s[j], s[i]) ensures s[i] == s[j] {
      assert s[i] in s && s[j] in s;
      assert UsableAt(rs, load, s[i].key) && UsableAt(rs, load, s[j].key);
      assert Tied(s[i], s[j]);
    }
    Sorting.SortedUnique(s, t, AsFresh);
  }

  /** The responses with the one at position `j` arriving first. */
  function MovedFirst(rs: seq<Response>, j: nat): seq<Response>
    requires j < |rs|
  {
    [rs[j]] + rs[..j] + rs[j + 1..]
  }

  lemma MovedFirstPermutes(rs: seq<Response>, j: nat)
    requires j < |rs|
    ensures multiset(MovedFirst(rs, j)) == multiset(rs)
  {
    assert rs == rs[..j] + [rs[j]] + rs[j + 1..];
  }

  lemma StepExtendsOrder(f: Fold, r: Response)
    requires f.responses.Keys == f.sequences.Keys
    ensures f.order <= Step(f, r).order
  {}

  lemma {:induction false} FirstKeyLeads(rs: seq<Response>)
    requires |rs| > 0
    ensures |FoldOf(rs).order| > 0 && FoldOf(rs).order[0] == rs[0].key
  {
    if |rs| > 1 {
      FirstKeyLeads(rs[..|rs| - 1]);
      StepExtendsOrder(FoldOf(rs[..|rs| - 1]), rs[|rs| - 1]);
      hide Step;
    } else {
      assert rs[..0] == [];
    }
  }

  lemma {:induction false} FilterKeepsHead(s: seq<Key>, p: Key -> bool)
    requires |s| > 0 && p(s[0])
    ensures |Sorting.Filter(s, p)| > 0 && Sorting.Filter(s, p)[0] == s[0]
  {
    if |s| > 1 {
      FilterKeepsHead(s[..|s| - 1], p);
    } else {
      assert s[..0] == [];
    }
  }

  /** The key that arrived first, if it survives, leads the surviving responses. */
  lemma FirstAlive(rs: seq<Response>)
    requires |rs| > 0 && rs[0].key in Survivors(rs)
    ensures |Alive(rs)| > 0 && Alive(rs)[0] == rs[0].key
  {
    FirstKeyLeads(rs);
    AliveExact(rs);
    FilterKeepsHead(FoldOf(rs).order, Without(FoldOf(rs).conflicts));
  }

  lemma SurvivorHasKey(rs: seq<Response>, k: Key)
    requires k in Survivors(rs)
    ensures Survivors(rs)[k].key == k
  {
    SurvivorIsNewest(rs, k);
  }

  /** Only the first place holds the first key. */
  lemma PlaceOfKey(rs: seq<Response>, i: nat)
    requires i < |Alive(rs)|
    ensures Alive(rs)[i] == Alive(rs)[0] ==> i == 0
  {
    AliveExact(rs);
  }

  /** The key that arrived first stands before every survivor tied with it. */
  lemma FirstArrivalLeads(rs: seq<Response>, load: Loader) returns (p: nat)
    requires |rs| > 0 && UsableAt(rs, load, rs[0].key)
    ensures p < |Ranked(rs, load)| && Ranked(rs, load)[p] == Survivors(rs)[rs[0].key]
    ensures forall q :: 0 <= q < p ==> !Tied(Ranked(rs, load)[q], Ranked(rs, load)[p])
  {
    hide FoldOf, Survivors, Alive, Output, Entries, AsFresh;
    var k, out := rs[0].key, Output(rs, load);
    FirstAlive(rs);
    p := OutputHas(rs, load, k);
    OutputPermutes(rs, load);
    assert out[p] in out;
    EntryFacts(rs, load, out[p]);
    PlaceOfKey(rs, out[p].index);
    forall q | 0 <= q < p ensures !Tied(out[q].response, out[p].response) {
      assert out[q] in out;
      EntryFacts(rs, load, out[q]);
      OutputOrdered(rs, load, q, p);
      assert Precedes(out[q], out[p]);
    }
  }

  /** Of two tied survivors, the one whose key arrived first comes first. */
  lemma FirstArrivalComesFirst(rs: seq<Response>, load: Loader, k': Key) returns (p: nat, q: nat)
    requires |rs| > 0 && k' != rs[0].key && UsableAt(rs, load, rs[0].key) && UsableAt(rs, load, k')
    requires Tied(Survivors(rs)[rs[0].key], Survivors(rs)[k'])
    ensures p < q < |Ranked(rs, load)|
    ensures Ranked(rs, load)[p] == Survivors(rs)[rs[0].key] && Ranked(rs, load)[q] == Survivors(rs)[k']
  {
    hide Survivors, Output, AsFresh;
    SurvivorHasKey(rs, rs[0].key);
    p := FirstArrivalLeads(rs, load);
    q := OutputHas(rs, load, k');
  }

  /**
   The responses behind the candidates come in one order whatever the order of arrival exactly when no two usable
   survivors tie on number and source rank, and every key is settled: it has a numbered response, or its responses
   agree, or none of them is usable. The tie-break by place in the dictionary is the order of arrival.
   */
  lemma ResponseOrderIndependent(rs: seq<Response>, load: Loader)
    ensures (forall ts :: multiset(ts) == multiset(rs) ==> Ranked(ts, load) == Ranked(rs, load))
       <==> !HasTie(rs, load) && AllSettled(rs, load)
  {
    if !AllSettled(rs, load) {
      var i :| 0 <= i < |rs| && !Settled(rs, load, rs[i].key);
      UnsettledMatters(rs, load, rs[i].key);
    } else if HasTie(rs, load) {
      TieMatters(rs, load);
    } else {
      forall ts | multiset(ts) == multiset(rs) ensures Ranked(ts, load) == Ranked(rs, load) {
        TieFreeOrder(rs, ts, load);
      }
    }
  }

  lemma TieMatters(rs: seq<Response>, load: Loader)
    requires HasTie(rs, load) && AllSettled(rs, load)
    ensures exists ts :: multiset(ts) == multiset(rs) && Ranked(ts, load) != Ranked(rs, load)
  {
    hide Survivors, AllSettled, AsFresh, Ranked;
    var k, k' :| k != k' && UsableAt(rs, load, k) && UsableAt(rs, load, k') &&
      Tied(Survivors(rs)[k], Survivors(rs)[k']);
    var ts, p, q := ArrivesFirst(rs, load, k, k');
    var us, p', q' := ArrivesFirst(rs, load, k', k);
    RankedFacts(rs, load);
    SurvivorHasKey(rs, k);
    SurvivorHasKey(rs, k');
    assert Ranked(ts, load)[p].key == Ranked(us, load)[q'].key && Ranked(ts, load)[q].key == Ranked(us, load)[p'].key;
    if Ranked(ts, load) == Ranked(rs, load) { assert Ranked(us, load) != Ranked(rs, load); }
  }

  lemma ArrivesFirst(rs: seq<Response>, load: Loader, k: Key, k': Key) returns (ts: seq<Response>, p: nat, q: nat)
    requires AllSettled(rs, load) && k != k' && UsableAt(rs, load, k) && UsableAt(rs, load, k')
    requires Tied(Survivors(rs)[k], Survivors(rs)[k'])
    ensures multiset(ts) == multiset(rs) && p < q < |Ranked(ts, load)|
    ensures Ranked(ts, load)[p] == Survivors(rs)[k] && Ranked(ts, load)[q] == Survivors(rs)[k']
  {
    SurvivorIsNewest(rs, k);
    var i: nat :| Wins(rs, i) && rs[i].key == k;
    ts := MovedFirst(rs, i);
    MovedFirstPermutes(rs, i);
    SettledSurvivor(rs, ts, load, k);
    SettledSurvivor(rs, ts, load, k');
    hide Survivors, AllSettled, Tied, Ranked;
    p, q := FirstArrivalComesFirst(ts, load, k');
  }

  // ---------------------------------------------------------------- the candidates that are returned

  /** No order of arrival can change what a key yields: a response is numbered, or all its responses load alike. */
  ghost predicate LoadsAlike(rs: seq<Response>, load: Loader, k: Key) {
    Numbered(rs, k) ||
    forall i, j :: 0 <= i < |rs| && 0 <= j < |rs| && rs[i].key == k && rs[j].key == k ==> load(rs[i]) == load(rs[j])
  }

  ghost predicate AllLoadAlike(rs: seq<Response>, load: Loader) {
    forall i :: 0 <= i < |rs| ==> LoadsAlike(rs, load, rs[i].key)
  }

  /** Usable survivors with the same number and equally ranked sources yield the same candidate. */
  ghost predicate TiesLoadAlike(rs: seq<Response>, load: Loader) {
    forall k, k' :: UsableAt(rs, load, k) && UsableAt(rs, load, k') && Tied(Survivors(rs)[k], Survivors(rs)[k']) ==>
      load(Survivors(rs)[k]) == load(Survivors(rs)[k'])
  }

  /** What the sort sees of a response, and what is returned of it. */
  datatype Label = Label(number: int, priority: int, text: string)

  predicate Below(x: Label, y: Label) { x.number < y.number || (x.number == y.number && x.priority <= y.priority) }

  function Text(load: Loader, r: Response): string { if load(r).Some? then load(r).value else "" }

  function Labelled(load: Loader, r: Response): Label {
    Label(if r.sequence.Some? then r.sequence.value as int else -1, Priority(r.key.source), Text(load, r))
  }

  function TextOf(load: Loader): Response -> string { r => Text(load, r) }

  function LabelOf(load: Loader): Response -> Label { r => Labelled(load, r) }

  function PlaceOf(load: Loader): Response -> Label { r => Labelled(load, r).(text := "") }

  /** What `show` says of the usable response of a key. */
  function Mark<U>(responses: map<Key, Response>, load: Loader, show: Response -> U, k: Key): Option<U> {
    if k in responses && load(responses[k]).Some? then Some(show(responses[k])) else None
  }

  function Marks<U>(responses: map<Key, Response>, load: Loader, show: Response -> U): Key -> Option<U> {
    k => Mark(responses, load, show, k)
  }

  lemma {:induction false} EntriesMarked<U>(keys: seq<Key>, responses: map<Key, Response>, load: Loader,
      show: Response -> U, n: nat, u: U)
    requires n <= |keys| && AllIn(keys, responses)
    ensures multiset(Sorting.Map(Plain(EntriesUpTo(keys, responses, load, n)), show))[u] ==
      multiset(Sorting.Map(keys[..n], Marks(responses, load, show)))[Some(u)]
  {
    hide Sorting.Map, Plain;
    if n == 0 {
      assert Sorting.Map(keys[..0], Marks(responses, load, show)) == [];
      assert Sorting.Map(Plain(EntriesUpTo(keys, responses, load, 0)), show) == [];
    } else {
      EntriesMarked(keys, responses, load, show, n - 1, u);
      var before, r := EntriesUpTo(keys, responses, load, n - 1), responses[keys[n - 1]];
      assert keys[..n] == keys[..n - 1] + [keys[n - 1]];
      Sorting.MapAppend(keys[..n - 1], keys[n - 1], Marks(responses, load, show));
      if load(r).Some? {
        var e := Entry(r, n - 1, load(r).value);
        assert Plain(before + [e]) == Plain(before) + [r];
        Sorting.MapAppend(Plain(before), r, show);
      } else {
        assert EntriesUpTo(keys, responses, load, n) == before;
      }
    }
  }

  /** The output shows what the surviving keys yield. */
  lemma RankedMarked<U>(rs: seq<Response>, load: Loader, show: Response -> U, u: U)
    ensures multiset(Sorting.Map(Ranked(rs, load), show))[u] ==
      multiset(Sorting.Map(Alive(rs), Marks(Survivors(rs), load, show)))[Some(u)]
  {
    hide Survivors, Alive, Output, EntriesUpTo;
    AliveExact(rs);
    OutputPermutes(rs, load);
    var ofEntry := (e: Entry) => show(e.response);
    Sorting.MapPermutes(Output(rs, load), Entries(rs, load), ofEntry);
    assert Sorting.Map(Ranked(rs, load), show) == Sorting.Map(Output(rs, load), ofEntry);
    assert Sorting.Map(Plain(Entries(rs, load)), show) == Sorting.Map(Entries(rs, load), ofEntry);
    EntriesMarked(Alive(rs), Survivors(rs), load, show, |Alive(rs)|, u);
    assert Alive(rs)[..|Alive(rs)|] == Alive(rs);
  }

  lemma TextsShown(rs: seq<Response>, load: Loader)
    ensures Texts(Output(rs, load)) == Sorting.Map(Ranked(rs, load), TextOf(load))
  {
    OutputExact(rs, load);
    hide Survivors, Output;
    var out := Output(rs, load);
    forall i | 0 <= i < |out| ensures out[i].candidate == TextOf(load)(out[i].response) { assert out[i] in out; }
  }

  // ---------------------------------------------------------------- what does not depend on arrival

  /** Whether a key survives never depends on the order of arrival. */
  lemma SameKeysSurvive(rs: seq<Response>, ts: seq<Response>, k: Key)
    requires multiset(rs) == multiset(ts)
    ensures k in Survivors(rs) <==> k in Survivors(ts)
  {
    if !HasKey(rs, k) || Numbered(rs, k) {
      ArrivalOrderIrrelevant(rs, ts, k);
    } else {
      HasKeyPermutes(rs, ts, k);
      UnnumberedSurvives(rs, k);
      if Numbered(ts, k) { NumberedPermutes(ts, rs, k); }
      UnnumberedSurvives(ts, k);
    }
  }

  lemma NumberedPermutes(rs: seq<Response>, ts: seq<Response>, k: Key)
    requires multiset(rs) == multiset(ts) && Numbered(rs, k)
    ensures Numbered(ts, k)
  {
    var i :| 0 <= i < |rs| && rs[i].key == k && rs[i].sequence.Some?;
    var j := MemberOfPermutation(rs, ts, i);
  }

  lemma UnnumberedSurvives(rs: seq<Response>, k: Key)
    requires HasKey(rs, k) && !Numbered(rs, k)
    ensures k in Survivors(rs)
  {
    var i := FoldKeepsWinner(rs, k);
  }

  lemma {:induction false} KeysOnce(s: seq<Key>, k: Key)
    requires NoDuplicates(s)
    ensures multiset(s)[k] == if k in s then 1 else 0
  {
    if |s| > 0 {
      var init, last := s[..|s| - 1], s[|s| - 1];
      KeysOnce(init, k);
      assert s == init + [last];
      assert forall i :: 0 <= i < |init| ==> init[i] == s[i];
      assert last !in init;
    }
  }

  lemma AlivePermutes(rs: seq<Response>, ts: seq<Response>)
    requires multiset(rs) == multiset(ts)
    ensures multiset(Alive(rs)) == multiset(Alive(ts))
  {
    hide Survivors, Alive;
    AliveExact(rs);
    AliveExact(ts);
    forall k: Key ensures multiset(Alive(rs))[k] == multiset(Alive(ts))[k] {
      SameKeysSurvive(rs, ts, k);
      KeysOnce(Alive(rs), k);
      KeysOnce(Alive(ts), k);
    }
  }

  /** If every key yields the same, the output shows the same things, in whatever order. */
  lemma SameMarksShown<U(!new)>(rs: seq<Response>, ts: seq<Response>, load: Loader, show: Response -> U)
    requires multiset(rs) == multiset(ts)
    requires forall k :: Mark(Survivors(rs), load, show, k) == Mark(Survivors(ts), load, show, k)
    ensures multiset(Sorting.Map(Ranked(rs, load), show)) == multiset(Sorting.Map(Ranked(ts, load), show))
  {
    hide Survivors, Alive, Ranked, Mark;
    var f, g := Marks(Survivors(rs), load, show), Marks(Survivors(ts), load, show);
    AlivePermutes(rs, ts);
    assert Sorting.Map(Alive(rs), f) == Sorting.Map(Alive(rs), g);
    Sorting.MapPermutes(Alive(rs), Alive(ts), g);
    forall u: U
      ensures multiset(Sorting.Map(Ranked(rs, load), show))[u] == multiset(Sorting.Map(Ranked(ts, load), show))[u]
    {
      RankedMarked(rs, load, show, u);
      RankedMarked(ts, load, show, u);
    }
  }

  // ---------------------------------------------------------------- sufficiency

  lemma AlikeUnnumbered(rs: seq<Response>, ts: seq<Response>, load: Loader, k: Key)
    requires multiset(rs) == multiset(ts) && HasKey(rs, k) && !Numbered(rs, k) && LoadsAlike(rs, load, k)
    ensures k in Survivors(rs) && k in Survivors(ts)
    ensures var r, t := Survivors(rs)[k], Survivors(ts)[k];
      r.key == k == t.key && r.sequence == t.sequence == None && load(r) == load(t)
  {
    SameKeysSurvive(rs, ts, k);
    UnnumberedSurvives(rs, k);
    SurvivorIsNewest(rs, k);
    SurvivorIsNewest(ts, k);
    hide Survivors, Contested, Wins;
    var i: nat :| Wins(rs, i) && rs[i].key == k && Survivors(rs)[k] == rs[i];
    var j: nat :| Wins(ts, j) && ts[j].key == k && Survivors(ts)[k] == ts[j];
    WinnerIsThere(ts, j);
    WinnerIsThere(rs, i);
    var j' := MemberOfPermutation(ts, rs, j);
  }

  lemma WinnerIsThere(rs: seq<Response>, i: nat)
    requires Wins(rs, i)
    ensures i < |rs|
  {}

  lemma AlikeSurvivor(rs: seq<Response>, ts: seq<Response>, load: Loader, k: Key)
    requires multiset(rs) == multiset(ts) && AllLoadAlike(rs, load)
    ensures Mark(Survivors(rs), load, LabelOf(load), k) == Mark(Survivors(ts), load, LabelOf(load), k)
  {
    hide Survivors, Wins, Contested;
    if !HasKey(rs, k) || Numbered(rs, k) {
      ArrivalOrderIrrelevant(rs, ts, k);
    } else {
      var i :| 0 <= i < |rs| && rs[i].key == k;
      assert LoadsAlike(rs, load, rs[i].key);
      AlikeUnnumbered(rs, ts, load, k);
    }
  }

  /** Where equal places mean equal texts, the labels of the output leave no choice of order. */
  lemma LabelsSorted(rs: seq<Response>, load: Loader)
    ensures Sorting.Sorted(Sorting.Map(Ranked(rs, load), LabelOf(load)), Below)
    ensures Sorting.Sorted(Sorting.Map(Ranked(rs, load), PlaceOf(load)), Below)
  {
    RankedFacts(rs, load);
    hide Ranked, Survivors;
    var s := Ranked(rs, load);
    forall i, j | 0 <= i < j < |s|
      ensures Below(LabelOf(load)(s[i]), LabelOf(load)(s[j])) && Below(PlaceOf(load)(s[i]), PlaceOf(load)(s[j]))
    {
      assert AsFresh(s[i], s[j]);
    }
  }

  lemma AlikeTiesLabelled(rs: seq<Response>, load: Loader)
    requires TiesLoadAlike(rs, load)
    ensures Sorting.NoTies(Sorting.Map(Ranked(rs, load), LabelOf(load)), Below)
  {
    RankedFacts(rs, load);
    hide Ranked, Survivors, Sorting.Sorted;
    var s := Ranked(rs, load);
    var labels := Sorting.Map(s, LabelOf(load));
    forall i, j | 0 <= i < |s| && 0 <= j < |s| && Below(labels[i], labels[j]) && Below(labels[j], labels[i])
      ensures labels[i] == labels[j]
    {
      assert s[i] in s && s[j] in s;
      assert UsableAt(rs, load, s[i].key) && UsableAt(rs, load, s[j].key);
      assert Tied(s[i], s[j]);
    }
  }

  lemma AlikeInOneOrder(rs: seq<Response>, ts: seq<Response>, load: Loader)
    requires multiset(rs) == multiset(ts) && AllLoadAlike(rs, load) && TiesLoadAlike(rs, load)
    ensures Texts(Output(rs, load)) == Texts(Output(ts, load))
  {
    hide Survivors, Ranked, AllLoadAlike, TiesLoadAlike, Mark, LabelOf, TextOf, Sorting.Sorted, Sorting.NoTies, Output;
    forall k ensures Mark(Survivors(rs), load, LabelOf(load), k) == Mark(Survivors(ts), load, LabelOf(load), k) {
      AlikeSurvivor(rs, ts, load, k);
    }
    SameMarksShown(rs, ts, load, LabelOf(load));
    LabelsSorted(rs, load);
    LabelsSorted(ts, load);
    AlikeTiesLabelled(rs, load);
    var s, t := Sorting.Map(Ranked(rs, load), LabelOf(load)), Sorting.Map(Ranked(ts, load), LabelOf(load));
    Sorting.SortedUnique(s, t, Below);
    TextsLabelled(rs, load);
    TextsLabelled(ts, load);
    assert |Texts(Output(rs, load))| == |s|;
    forall i | 0 <= i < |s| ensures Texts(Output(rs, load))[i] == Texts(Output(ts, load))[i] { assert s[i] == t[i]; }
  }

  lemma TextsLabelled(rs: seq<Response>, load: Loader)
    ensures |Texts(Output(rs, load))| == |Ranked(rs, load)|
    ensures forall i :: 0 <= i < |Ranked(rs, load)| ==>
      Texts(Output(rs, load))[i] == Sorting.Map(Ranked(rs, load), LabelOf(load))[i].text
  {
    TextsShown(rs, load);
    hide Output, Ranked;
  }

  // ---------------------------------------------------------------- necessity

  predicate OfKey(r: Response, k: Key) { r.key == k }

  function ForKey(k: Key): Response -> bool { r => OfKey(r, k) }

  lemma {:induction false} LastOfKey(rs: seq<Response>, k: Key, i: nat)
    requires i < |rs| && rs[i].key == k && forall j :: i < j < |rs| ==> rs[j].key != k
    ensures var own := Sorting.Filter(rs, ForKey(k)); |own| > 0 && own[|own| - 1] == rs[i]
  {
    if i < |rs| - 1 { LastOfKey(rs[..|rs| - 1], k, i); }
  }

  /** Without numbers, only the order of the responses of a key decides what it keeps. */
  lemma SameOwnSameSurvivor(rs: seq<Response>, ts: seq<Response>, k: Key)
    requires multiset(rs) == multiset(ts) && Sorting.Filter(rs, ForKey(k)) == Sorting.Filter(ts, ForKey(k))
    ensures SameFor(Survivors(rs), Survivors(ts), k)
  {
    if !HasKey(rs, k) || Numbered(rs, k) {
      ArrivalOrderIrrelevant(rs, ts, k);
    } else {
      HasKeyPermutes(rs, ts, k);
      if Numbered(ts, k) { NumberedPermutes(ts, rs, k); }
      var i := FoldKeepsWinner(rs, k);
      var j := FoldKeepsWinner(ts, k);
      LastOfKey(rs, k, i);
      LastOfKey(ts, k, j);
    }
  }

  lemma MovedLastOwn(rs: seq<Response>, j: nat, k: Key)
    requires j < |rs| && rs[j].key != k
    ensures Sorting.Filter(MovedLast(rs, j), ForKey(k)) == Sorting.Filter(rs, ForKey(k))
  {
    hide Sorting.Filter;
    var own := ForKey(k);
    Sorting.FilterOne(rs[j], own);
    assert rs == rs[..j] + ([rs[j]] + rs[j + 1..]);
    Sorting.FilterAdds(rs[..j], [rs[j]] + rs[j + 1..], own);
    Sorting.FilterAdds([rs[j]], rs[j + 1..], own);
    Sorting.FilterAdds(rs[..j] + rs[j + 1..], [rs[j]], own);
    Sorting.FilterAdds(rs[..j], rs[j + 1..], own);
  }

  lemma SwappedLastAgree(rs: seq<Response>, load: Loader, i: nat, j: nat, k: Key)
    requires i < |rs| && j < |rs| && rs[i].key != k && rs[j].key != k
    ensures Mark(Survivors(MovedLast(rs, i)), load, TextOf(load), k) ==
      Mark(Survivors(MovedLast(rs, j)), load, TextOf(load), k)
  {
    hide Survivors, MovedLast, TextOf;
    MovedLastPermutes(rs, i);
    MovedLastPermutes(rs, j);
    MovedLastOwn(rs, i, k);
    MovedLastOwn(rs, j, k);
    SameOwnSameSurvivor(MovedLast(rs, i), MovedLast(rs, j), k);
  }

  /** If two orders differ in what one key yields, and in nothing else, they differ in what is returned. */
  lemma OneKeyDiffers(rs: seq<Response>, ts: seq<Response>, load: Loader, k: Key, c: string)
    requires multiset(rs) == multiset(ts) && k in Survivors(rs)
    requires Mark(Survivors(rs), load, TextOf(load), k) == Some(c) != Mark(Survivors(ts), load, TextOf(load), k)
    requires forall k' :: k' != k ==>
      Mark(Survivors(rs), load, TextOf(load), k') == Mark(Survivors(ts), load, TextOf(load), k')
    ensures Texts(Output(rs, load)) != Texts(Output(ts, load))
  {
    hide Survivors, Alive, Output, Ranked, Mark, TextOf;
    var f, g := Marks(Survivors(rs), load, TextOf(load)), Marks(Survivors(ts), load, TextOf(load));
    AliveExact(rs);
    var n :| 0 <= n < |Alive(rs)| && Alive(rs)[n] == k;
    Sorting.MapDiffers(Alive(rs), n, f, g);
    var a, b := multiset(Sorting.Map(Alive(rs), f)), multiset(Sorting.Map(Alive(rs), g));
    assert f(k) == Some(c) != g(k);
    assert (a + multiset{g(k)})[Some(c)] == (b + multiset{f(k)})[Some(c)];
    assert a[Some(c)] == b[Some(c)] + 1;
    AlivePermutes(rs, ts);
    Sorting.MapPermutes(Alive(rs), Alive(ts), g);
    RankedMarked(rs, load, TextOf(load), c);
    RankedMarked(ts, load, TextOf(load), c);
    TextsShown(rs, load);
    TextsShown(ts, load);
  }

  /** Responses of one key that load differently change what is returned when they swap the last place. */
  lemma DifferentLoadsMatter(rs: seq<Response>, load: Loader, i: nat, j: nat)
    requires i < |rs| && j < |rs| && rs[i].key == rs[j].key && !Numbered(rs, rs[i].key)
    requires load(rs[i]).Some? && load(rs[i]) != load(rs[j])
    ensures multiset(MovedLast(rs, i)) == multiset(rs) == multiset(MovedLast(rs, j))
    ensures Texts(Output(MovedLast(rs, i), load)) != Texts(Output(MovedLast(rs, j), load))
  {
    hide Survivors, Output, Numbered, MovedLast;
    var k, ts, us := rs[i].key, MovedLast(rs, i), MovedLast(rs, j);
    EitherCanSurvive(rs, k, i);
    EitherCanSurvive(rs, k, j);
    forall k' | k' != k
      ensures Mark(Survivors(ts), load, TextOf(load), k') == Mark(Survivors(us), load, TextOf(load), k')
    {
      SwappedLastAgree(rs, load, i, j, k');
    }
    OneKeyDiffers(ts, us, load, k, load(rs[i]).value);
  }

  lemma AlikePlaces(rs: seq<Response>, ts: seq<Response>, load: Loader)
    requires multiset(rs) == multiset(ts) && AllLoadAlike(rs, load)
    ensures Sorting.Map(Ranked(rs, load), PlaceOf(load)) == Sorting.Map(Ranked(ts, load), PlaceOf(load))
  {
    hide Survivors, Ranked, AllLoadAlike, Sorting.Sorted;
    forall k ensures Mark(Survivors(rs), load, PlaceOf(load), k) == Mark(Survivors(ts), load, PlaceOf(load), k) {
      AlikeSurvivor(rs, ts, load, k);
    }
    SameMarksShown(rs, ts, load, PlaceOf(load));
    LabelsSorted(rs, load);
    LabelsSorted(ts, load);
    Sorting.SortedUnique(Sorting.Map(Ranked(rs, load), PlaceOf(load)), Sorting.Map(Ranked(ts, load), PlaceOf(load)),
      Below);
  }

  /**
   The order in which a usable key arrives first, and its place in the output then: the first of all that tie with it.
   */
  lemma LeadsWhenFirst(rs: seq<Response>, load: Loader, k: Key) returns (ts: seq<Response>, p: nat)
    requires AllLoadAlike(rs, load) && UsableAt(rs, load, k)
    ensures multiset(ts) == multiset(rs) && p < |Ranked(ts, load)|
    ensures LabelOf(load)(Ranked(ts, load)[p]) == LabelOf(load)(Survivors(rs)[k])
    ensures forall q :: 0 <= q < p ==> !Tied(Ranked(ts, load)[q], Ranked(ts, load)[p])
  {
    hide Survivors, Ranked, AllLoadAlike, Labelled, Tied;
    SurvivorIsNewest(rs, k);
    var i: nat :| Wins(rs, i) && rs[i].key == k;
    ts := MovedFirst(rs, i);
    MovedFirstPermutes(rs, i);
    AlikeSurvivor(rs, ts, load, k);
    p := FirstArrivalLeads(ts, load);
  }

  /** Two tied survivors that load differently swap places with the order of their arrival. */
  lemma UnlikeTiesMatter(rs: seq<Response>, load: Loader, k: Key, k': Key)
    requires AllLoadAlike(rs, load) && UsableAt(rs, load, k) && UsableAt(rs, load, k')
    requires Tied(Survivors(rs)[k], Survivors(rs)[k']) && load(Survivors(rs)[k]) != load(Survivors(rs)[k'])
    ensures exists ts, us ::
      multiset(ts) == multiset(rs) == multiset(us) && Texts(Output(ts, load)) != Texts(Output(us, load))
  {
    hide Survivors, Ranked, AllLoadAlike, Output;
    var ts, p := LeadsWhenFirst(rs, load, k);
    var us, q := LeadsWhenFirst(rs, load, k');
    AlikePlaces(rs, ts, load);
    AlikePlaces(rs, us, load);
    SamePlace(Ranked(ts, load), Ranked(us, load), load, p, q);
    TextsLabelled(ts, load);
    TextsLabelled(us, load);
    assert Texts(Output(ts, load))[p] != Texts(Output(us, load))[p];
  }

  /** In lists with the same places, the first of those tied is at the same one. */
  lemma SamePlace(s: seq<Response>, t: seq<Response>, load: Loader, p: nat, q: nat)
    requires Sorting.Map(s, PlaceOf(load)) == Sorting.Map(t, PlaceOf(load)) && p < |s| && q < |t|
    requires PlaceOf(load)(s[p]) == PlaceOf(load)(t[q])
    requires forall i :: 0 <= i < p ==> !Tied(s[i], s[p])
    requires forall i :: 0 <= i < q ==> !Tied(t[i], t[q])
    ensures p == q
  {
    assert |s| == |Sorting.Map(s, PlaceOf(load))| == |t|;
    forall i | 0 <= i < |s| ensures PlaceOf(load)(s[i]) == PlaceOf(load)(t[i]) {
      assert Sorting.Map(s, PlaceOf(load))[i] == Sorting.Map(t, PlaceOf(load))[i];
    }
    forall x, y | PlaceOf(load)(x) == PlaceOf(load)(y) ensures Tied(x, y) { SamePlaceTied(load, x, y); }
  }

  lemma SamePlaceTied(load: Loader, x: Response, y: Response)
    ensures PlaceOf(load)(x) == PlaceOf(load)(y) <==> Tied(x, y)
  {}

  /**
   The candidates returned are the same whatever the order of arrival exactly when survivors that tie on number and
   source rank yield the same candidate, and so do all responses of a key without numbers.
   */
  lemma CandidateOrderIndependent(rs: seq<Response>, load: Loader)
    ensures (forall ts :: multiset(ts) == multiset(rs) ==> Texts(Output(ts, load)) == Texts(Output(rs, load)))
       <==> TiesLoadAlike(rs, load) && AllLoadAlike(rs, load)
  {
    hide Survivors, Output, Numbered, Tied;
    if !AllLoadAlike(rs, load) {
      var n :| 0 <= n < |rs| && !LoadsAlike(rs, load, rs[n].key);
      var i, j :| 0 <= i < |rs| && 0 <= j < |rs| && rs[i].key == rs[n].key == rs[j].key && load(rs[i]) != load(rs[j]);
      if load(rs[i]).Some? { DifferentLoadsMatter(rs, load, i, j); } else { DifferentLoadsMatter(rs, load, j, i); }
    } else if !TiesLoadAlike(rs, load) {
      var k, k' :| UsableAt(rs, load, k) && UsableAt(rs, load, k') && Tied(Survivors(rs)[k], Survivors(rs)[k']) &&
        load(Survivors(rs)[k]) != load(Survivors(rs)[k']);
      UnlikeTiesMatter(rs, load, k, k');
    } else {
      forall ts | multiset(ts) == multiset(rs) ensures Texts(Output(ts, load)) == Texts(Output(rs, load)) {
        AlikeInOneOrder(rs, ts, load);
      }
    }
  }

  /** Every response is usable, and all of its content is the candidate. */
  function Whole(): Loader { (r: Response) => Some(r.content) }

  /** Two sources with the same address and number are returned in the order of their arrival. */
  lemma TiedSourcesKeepArrivalOrder(u: string, n: nat, c: string, d: string)
    ensures var x, y := Response(Key("", u), Some(n), c), Response(Key("page-hook", u), Some(n), d);
      Texts(Output([x, y], Whole())) == [c, d] && Texts(Output([y, x], Whole())) == [d, c]
  {
    var x, y := Response(Key("", u), Some(n), c), Response(Key("page-hook", u), Some(n), d);
    OutputOfTwo(x, y, Whole());
    OutputOfTwo(y, x, Whole());
  }

  lemma FoldOfTwo(x: Response, y: Response)
    requires x.key != y.key
    ensures FoldOf([x, y]) == Fold([x.key, y.key], map[x.key := x, y.key := y],
      map[x.key := x.sequence, y.key := y.sequence], {})
  {
    assert [x][..0] == [] && [x, y][..1] == [x];
    assert FoldOf([x]) == Fold([x.key], map[x.key := x], map[x.key := x.sequence], {});
  }

  lemma AliveOfTwo(x: Response, y: Response)
    requires x.key != y.key
    ensures Alive([x, y]) == [x.key, y.key] && Survivors([x, y]) == map[x.key := x, y.key := y]
  {
    FoldOfTwo(x, y);
    hide FoldOf, Sorting.Filter;
    Sorting.FilterOne(x.key, Without({}));
    Sorting.FilterOne(y.key, Without({}));
    Sorting.FilterAdds([x.key], [y.key], Without({}));
    assert [x.key] + [y.key] == [x.key, y.key];
  }

  lemma EntriesOfTwo(x: Response, y: Response, load: Loader)
    requires x.key != y.key && load(x).Some? && load(y).Some?
    ensures Entries([x, y], load) == [Entry(x, 0, load(x).value), Entry(y, 1, load(y).value)]
  {
    AliveOfTwo(x, y);
    hide FoldOf, Alive, Survivors;
    var keys, responses := [x.key, y.key], map[x.key := x, y.key := y];
    assert EntriesUpTo(keys, responses, load, 1) == [Entry(x, 0, load(x).value)];
  }

  lemma OutputOfTwo(x: Response, y: Response, load: Loader)
    requires x.key != y.key && load(x).Some? && load(y).Some? && Tied(x, y)
    ensures Texts(Output([x, y], load)) == [load(x).value, load(y).value]
  {
    hide Entries, AsFresh;
    EntriesOfTwo(x, y, load);
    Sorting.SortedIsFixed(Entries([x, y], load), Precedes);
  }
}
