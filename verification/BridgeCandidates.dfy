/** Keeping one response per source and address from an ingest payload, and ordering what survives by freshness. */
module BridgeCandidates {
  import opened Wrappers
  import Sorting

  const MAX_RESPONSES := 50
  const KNOWN_SOURCES := {"content-probe", "page-fetch", "page-hook", "page-refresh"}

  datatype Key = Key(source: string, url: string)

  /** A captured response; `content` is everything it holds besides its sequence number. */
  datatype Response = Response(key: Key, sequence: Option<nat>, content: string)

  datatype SequenceField = NoSequence | Sequence(value: int) | MalformedSequence

  /** A raw item: fields that are not strings are None, and a missing source is the empty one. */
  datatype Item = NotAnObject
                | Item(source: Option<string>, url: Option<string>, sequence: SequenceField, content: string)

  function SourceOf(source: Option<string>): Option<string> {
    if source.Some? && (source.value == "" || source.value in KNOWN_SOURCES) then source else None
  }

  /** `redact` stands for the address redaction; it yields an empty text for an unusable address. */
  function Accept(item: Item, redact: string -> string): Option<Response> {
    if item.NotAnObject? || SourceOf(item.source).None? || item.url.None? || redact(item.url.value) == "" then None
    else
      var key := Key(item.source.value, redact(item.url.value));
      match item.sequence
      case NoSequence => Some(Response(key, None, item.content))
      case Sequence(n) => if n >= 0 then Some(Response(key, Some(n), item.content)) else None
      case MalformedSequence => None
  }

  // ---------------------------------------------------------------- the fold

  /** The loop's dictionaries and conflict set, with the order in which keys entered. */
  datatype Fold = Fold(order: seq<Key>, responses: map<Key, Response>, sequences: map<Key, Option<nat>>,
      conflicts: set<Key>)

  const EMPTY := Fold([], map[], map[], {})

  function Store(f: Fold, r: Response): Fold {
    f.(order := if r.key in f.responses then f.order else f.order + [r.key],
       responses := f.responses[r.key := r], sequences := f.sequences[r.key := r.sequence])
  }

  function Step(f: Fold, r: Response): Fold
    requires r.key in f.responses ==> r.key in f.sequences
  {
    if r.key !in f.responses then Store(f, r)
    else
      var previous := f.sequences[r.key];
      if previous.Some? && (r.sequence.None? || r.sequence.value < previous.value) then f
      else if r.sequence.None? then Store(f, r)
      else if r.sequence == previous then
        if f.responses[r.key].content != r.content then f.(conflicts := f.conflicts + {r.key}) else f
      else Store(f.(conflicts := f.conflicts - {r.key}), r)
  }

  function FoldOf(rs: seq<Response>): (f: Fold)
    ensures f.responses.Keys == f.sequences.Keys
  {
    if |rs| == 0 then EMPTY else Step(FoldOf(rs[..|rs| - 1]), rs[|rs| - 1])
  }

  /** The responses that survive: one per key, unless its newest responses disagree. */
  function Survivors(rs: seq<Response>): map<Key, Response> {
    var f := FoldOf(rs);
    f.responses - f.conflicts
  }

  type Redactor = string -> string

  function AcceptAll(items: seq<Item>, redact: Redactor): seq<Response> {
    if |items| == 0 then []
    else
      var r := Accept(items[|items| - 1], redact);
      AcceptAll(items[..|items| - 1], redact) + (if r.Some? then [r.value] else [])
  }

  function Flatten(fields: seq<Option<seq<Item>>>): seq<Item> {
    if |fields| == 0 then []
    else Flatten(fields[..|fields| - 1]) + (if fields[|fields| - 1].Some? then fields[|fields| - 1].value else [])
  }

  /**
   The first half: the dictionaries after every item of every field that is a list; None when there are too many items.
   */
  method Collect(fields: seq<Option<seq<Item>>>, redact: Redactor) returns (f: Option<Fold>)
    ensures f == if |Flatten(fields)| > MAX_RESPONSES then None else Some(FoldOf(AcceptAll(Flatten(fields), redact)))
  {
    hide Accept, AcceptAll, Flatten, FoldOf;
    NothingCollected(fields, redact);
    var order: seq<Key>, responses: map<Key, Response>, sequences: map<Key, Option<nat>>, conflicts: set<Key> :=
      [], map[], map[], {};
    ghost var done: seq<Item> := [];
    var count := 0;
    for n := 0 to |fields|
      invariant done == Flatten(fields[..n]) && count == |done| <= MAX_RESPONSES
      invariant Fold(order, responses, sequences, conflicts) == FoldOf(AcceptAll(done, redact))
    {
      FlattenStep(fields, n);
      if fields[n].None? {
        continue;
      }
      var items := fields[n].value;
      count := count + |items|;
      if count > MAX_RESPONSES {
        FlattenGrows(fields, n + 1);
        return None;
      }
      for i := 0 to |items|
        invariant done == Flatten(fields[..n]) + items[..i]
        invariant Fold(order, responses, sequences, conflicts) == FoldOf(AcceptAll(done, redact))
      {
        var accepted := Accept(items[i], redact);
        AcceptExtends(done, items[i], redact);
        done := done + [items[i]];
        assert done == Flatten(fields[..n]) + items[..i + 1];
        if accepted.None? {
          continue;
        }
        var r := accepted.value;
        if r.key in responses {
          var previous := sequences[r.key];
          if previous.Some? && (r.sequence.None? || r.sequence.value < previous.value) {
            continue;
          }
          if r.sequence.None? {
            responses, sequences := responses[r.key := r], sequences[r.key := r.sequence];
            continue;
          }
          if r.sequence == previous {
            if responses[r.key].content != r.content {
              conflicts := conflicts + {r.key};
            }
            continue;
          }
          conflicts := conflicts - {r.key};
        } else {
          order := order + [r.key];
        }
        responses, sequences := responses[r.key := r], sequences[r.key := r.sequence];
      }
      assert items[..|items|] == items;
    }
    assert fields[..|fields|] == fields;
    return Some(Fold(order, responses, sequences, conflicts));
  }

  lemma NothingCollected(fields: seq<Option<seq<Item>>>, redact: Redactor)
    ensures Flatten(fields[..0]) == [] && FoldOf(AcceptAll([], redact)) == Fold([], map[], map[], {})
  {}

  lemma FlattenStep(fields: seq<Option<seq<Item>>>, n: nat)
    requires n < |fields|
    ensures Flatten(fields[..n + 1]) == if fields[n].None? then Flatten(fields[..n])
      else Flatten(fields[..n]) + fields[n].value
  {
    assert fields[..n + 1][..n] == fields[..n];
  }

  lemma AcceptExtends(done: seq<Item>, item: Item, redact: Redactor)
    ensures var rs, r := AcceptAll(done, redact), Accept(item, redact);
            && AcceptAll(done + [item], redact) == (if r.Some? then rs + [r.value] else rs)
            && (r.Some? ==> FoldOf(rs + [r.value]) == Step(FoldOf(rs), r.value))
  {
    assert (done + [item])[..|done|] == done;
    var rs, r := AcceptAll(done, redact), Accept(item, redact);
    if r.Some? { assert (rs + [r.value])[..|rs|] == rs; }
  }

  lemma {:induction false} FlattenGrows(fields: seq<Option<seq<Item>>>, n: nat)
    requires n <= |fields|
    ensures |Flatten(fields[..n])| <= |Flatten(fields)|
    decreases |fields| - n
  {
    if n < |fields| {
      assert fields[..n + 1][..n] == fields[..n];
      FlattenGrows(fields, n + 1);
    } else {
      assert fields[..n] == fields;
    }
  }

  // ---------------------------------------------------------------- which response wins

  ghost predicate HasKey(rs: seq<Response>, k: Key) { exists i :: 0 <= i < |rs| && rs[i].key == k }

  /** Position `i` wins for its key: the first with the highest sequence number, or the last when none is numbered. */
  ghost predicate Wins(rs: seq<Response>, i: nat) {
    i < |rs| && forall j :: 0 <= j < |rs| && rs[j].key == rs[i].key ==>
      if rs[i].sequence.None? then rs[j].sequence.None? && j <= i
      else rs[j].sequence.None? || rs[j].sequence.value < rs[i].sequence.value
           || (rs[j].sequence == rs[i].sequence && i <= j)
  }

  /** Another response with the winner's key and number has a different content. */
  ghost predicate Contested(rs: seq<Response>, i: nat)
    requires i < |rs|
  {
    rs[i].sequence.Some? &&
    exists j :: 0 <= j < |rs| && rs[j].key == rs[i].key && rs[j].sequence == rs[i].sequence &&
      rs[j].content != rs[i].content
  }

  /** A new response takes the place of the winner so far. */
  predicate Replaces(r: Response, previous: Response) {
    previous.sequence.None? || (r.sequence.Some? && r.sequence.value > previous.sequence.value)
  }

  lemma OldWinnerStays(rs: seq<Response>, i: nat)
    requires 0 <= i < |rs| - 1 && Wins(rs[..|rs| - 1], i)
    requires var r := rs[|rs| - 1]; r.key == rs[i].key ==> !Replaces(r, rs[i])
    ensures Wins(rs, i)
    ensures var r := rs[|rs| - 1];
            Contested(rs, i) <==> Contested(rs[..|rs| - 1], i)
                                  || (r.key == rs[i].key && r.sequence == rs[i].sequence && r.content != rs[i].content)
  {
    var init := rs[..|rs| - 1];
    assert forall j :: 0 <= j < |init| ==> init[j] == rs[j];
  }

  lemma NewWinner(rs: seq<Response>, i: nat)
    requires 0 <= i < |rs| - 1 && Wins(rs[..|rs| - 1], i)
    requires var r := rs[|rs| - 1]; r.key == rs[i].key && Replaces(r, rs[i])
    ensures Wins(rs, |rs| - 1) && !Contested(rs, |rs| - 1)
  {
    var init := rs[..|rs| - 1];
    assert forall j :: 0 <= j < |init| ==> init[j] == rs[j];
  }

  lemma FirstWinner(rs: seq<Response>)
    requires |rs| > 0 && !HasKey(rs[..|rs| - 1], rs[|rs| - 1].key)
    ensures Wins(rs, |rs| - 1) && !Contested(rs, |rs| - 1)
  {
    var init := rs[..|rs| - 1];
    assert forall j :: 0 <= j < |init| ==> init[j] == rs[j];
  }

  lemma HasKeyExtends(rs: seq<Response>, k: Key)
    requires |rs| > 0
    ensures HasKey(rs, k) <==> HasKey(rs[..|rs| - 1], k) || rs[|rs| - 1].key == k
  {
    var init := rs[..|rs| - 1];
    if HasKey(rs, k) {
      var j :| 0 <= j < |rs| && rs[j].key == k;
      assert j < |init| ==> init[j].key == k;
    }
    if HasKey(init, k) {
      var j :| 0 <= j < |init| && init[j].key == k;
      assert rs[j].key == k;
    }
  }

  /** The fold keeps exactly the winner of each key and marks the key exactly when the winner is contested. */
  lemma {:induction false} FoldKeepsWinner(rs: seq<Response>, k: Key) returns (i: nat)
    requires HasKey(rs, k)
    ensures Wins(rs, i) && rs[i].key == k
    ensures k in FoldOf(rs).responses && FoldOf(rs).responses[k] == rs[i] && FoldOf(rs).sequences[k] == rs[i].sequence
    ensures k in FoldOf(rs).conflicts <==> Contested(rs, i)
  {
    var n := |rs| - 1;
    var init, r := rs[..n], rs[n];
    HasKeyExtends(rs, k);
    var f := FoldOf(init);
    if HasKey(init, k) {
      i := FoldKeepsWinner(init, k);
      hide Wins, Contested, HasKey;
      assert rs[i] == init[i];
      if r.key == k && Replaces(r, rs[i]) {
        NewWinner(rs, i);
        NoneUncontested(init, i);
        i := n;
      } else {
        OldWinnerStays(rs, i);
      }
    } else {
      FoldIgnores(init, k);
      FirstWinner(rs);
      i := n;
    }
  }

  lemma NoneUncontested(rs: seq<Response>, i: nat)
    requires i < |rs|
    ensures rs[i].sequence.None? ==> !Contested(rs, i)
  {}

  lemma {:induction false} FoldIgnores(rs: seq<Response>, k: Key)
    requires !HasKey(rs, k)
    ensures k !in FoldOf(rs).responses && k !in FoldOf(rs).conflicts
  {
    if |rs| > 0 {
      HasKeyExtends(rs, k);
      FoldIgnores(rs[..|rs| - 1], k);
    }
  }

  // ---------------------------------------------------------------- arrival order

  /** Some response for `k` carries a sequence number. */
  ghost predicate Numbered(rs: seq<Response>, k: Key) {
    exists i :: 0 <= i < |rs| && rs[i].key == k && rs[i].sequence.Some?
  }

  ghost predicate SameFor(m: map<Key, Response>, m': map<Key, Response>, k: Key) {
    (k in m <==> k in m') && (k in m ==> m[k] == m'[k])
  }

  /** A survivor is an uncontested winner: no older response is ever used in place of the newest one. */
  lemma SurvivorIsNewest(rs: seq<Response>, k: Key)
    requires k in Survivors(rs)
    ensures exists i: nat :: Wins(rs, i) && rs[i].key == k && !Contested(rs, i) && Survivors(rs)[k] == rs[i]
  {
    if !HasKey(rs, k) { FoldIgnores(rs, k); }
    var i := FoldKeepsWinner(rs, k);
  }

  lemma MemberOfPermutation(rs: seq<Response>, ts: seq<Response>, i: nat) returns (j: nat)
    requires multiset(rs) == multiset(ts) && i < |rs|
    ensures j < |ts| && ts[j] == rs[i]
  {
    assert rs[i] in multiset(ts);
    j :| 0 <= j < |ts| && ts[j] == rs[i];
  }

  lemma HasKeyPermutes(rs: seq<Response>, ts: seq<Response>, k: Key)
    requires multiset(rs) == multiset(ts) && HasKey(rs, k)
    ensures HasKey(ts, k)
  {
    var i :| 0 <= i < |rs| && rs[i].key == k;
    var j := MemberOfPermutation(rs, ts, i);
  }

  /** The highest number and what it says do not depend on the order of arrival. */
  lemma WinnersAgree(rs: seq<Response>, ts: seq<Response>, i: nat, j: nat)
    requires multiset(rs) == multiset(ts) && Wins(rs, i) && Wins(ts, j) && rs[i].key == ts[j].key
    requires Numbered(rs, rs[i].key)
    ensures rs[i].sequence == ts[j].sequence
    ensures !Contested(ts, j) ==> !Contested(rs, i) && rs[i] == ts[j]
  {
    var i' := MemberOfPermutation(rs, ts, i);
    var j' := MemberOfPermutation(ts, rs, j);
    var n :| 0 <= n < |rs| && rs[n].key == rs[i].key && rs[n].sequence.Some?;
    assert rs[j'].key == rs[i].key && ts[i'].key == ts[j].key;
    if Contested(rs, i) {
      var x :| 0 <= x < |rs| && rs[x].key == rs[i].key && rs[x].sequence == rs[i].sequence &&
        rs[x].content != rs[i].content;
      var x' := MemberOfPermutation(rs, ts, x);
      assert ts[x'].content != ts[j].content || ts[i'].content != ts[j].content;
    }
  }

  /** For a key with a numbered response, every order of arrival leaves the same survivor, or none. */
  lemma ArrivalOrderIrrelevant(rs: seq<Response>, ts: seq<Response>, k: Key)
    requires multiset(rs) == multiset(ts) && (Numbered(rs, k) || !HasKey(rs, k))
    ensures SameFor(Survivors(rs), Survivors(ts), k)
  {
    if HasKey(rs, k) {
      HasKeyPermutes(rs, ts, k);
      var i := FoldKeepsWinner(rs, k);
      var j := FoldKeepsWinner(ts, k);
      var n :| 0 <= n < |rs| && rs[n].key == k && rs[n].sequence.Some?;
      var n' := MemberOfPermutation(rs, ts, n);
      WinnersAgree(rs, ts, i, j);
      WinnersAgree(ts, rs, j, i);
    } else {
      if HasKey(ts, k) { HasKeyPermutes(ts, rs, k); }
      FoldIgnores(rs, k);
      FoldIgnores(ts, k);
    }
  }

  /** All responses for `k` hold the same. */
  ghost predicate OneContent(rs: seq<Response>, k: Key) {
    forall i, j :: 0 <= i < |rs| && 0 <= j < |rs| && rs[i].key == k && rs[j].key == k ==> rs[i].content == rs[j].content
  }

  /** `rs` with the response at position `j` arriving last. */
  function MovedLast(rs: seq<Response>, j: nat): seq<Response>
    requires j < |rs|
  {
    rs[..j] + rs[j + 1..] + [rs[j]]
  }

  lemma MovedLastPermutes(rs: seq<Response>, j: nat)
    requires j < |rs|
    ensures multiset(MovedLast(rs, j)) == multiset(rs)
  {
    assert rs == rs[..j] + [rs[j]] + rs[j + 1..];
  }

  /** Without any number the last response to arrive survives. */
  lemma UnnumberedKeepsLast(rs: seq<Response>, k: Key)
    requires |rs| > 0 && rs[|rs| - 1].key == k && !Numbered(rs, k)
    ensures k in Survivors(rs) && Survivors(rs)[k] == rs[|rs| - 1]
  {
    assert HasKey(rs, k);
    var i := FoldKeepsWinner(rs, k);
  }

  /**
   The survivor of a key is independent of the order of arrival exactly when some response is numbered or all agree.
   */
  lemma ArrivalOrderMatters(rs: seq<Response>, k: Key)
    requires HasKey(rs, k)
    ensures (forall ts :: multiset(ts) == multiset(rs) ==> SameFor(Survivors(rs), Survivors(ts), k))
       <==> Numbered(rs, k) || OneContent(rs, k)
  {
    if Numbered(rs, k) {
      forall ts | multiset(ts) == multiset(rs) ensures SameFor(Survivors(rs), Survivors(ts), k) {
        ArrivalOrderIrrelevant(rs, ts, k);
      }
    } else if OneContent(rs, k) {
      forall ts | multiset(ts) == multiset(rs) ensures SameFor(Survivors(rs), Survivors(ts), k) {
        UnanimousSurvivor(rs, ts, k);
      }
    } else {
      var i, j :| 0 <= i < |rs| && 0 <= j < |rs| && rs[i].key == k && rs[j].key == k && rs[i].content != rs[j].content;
      EitherCanSurvive(rs, k, i);
      EitherCanSurvive(rs, k, j);
    }
  }

  lemma UnanimousSurvivor(rs: seq<Response>, ts: seq<Response>, k: Key)
    requires multiset(rs) == multiset(ts) && HasKey(rs, k) && !Numbered(rs, k) && OneContent(rs, k)
    ensures SameFor(Survivors(rs), Survivors(ts), k)
  {
    HasKeyPermutes(rs, ts, k);
    var i := FoldKeepsWinner(rs, k);
    var j := FoldKeepsWinner(ts, k);
    var j' := MemberOfPermutation(ts, rs, j);
    assert rs[j'].key == k && rs[j'].sequence.None? && rs[i].sequence.None?;
  }

  lemma EitherCanSurvive(rs: seq<Response>, k: Key, j: nat)
    requires j < |rs| && rs[j].key == k && !Numbered(rs, k)
    ensures multiset(MovedLast(rs, j)) == multiset(rs)
    ensures k in Survivors(MovedLast(rs, j)) && Survivors(MovedLast(rs, j))[k] == rs[j]
  {
    var ts := MovedLast(rs, j);
    MovedLastPermutes(rs, j);
    if Numbered(ts, k) {
      var n :| 0 <= n < |ts| && ts[n].key == k && ts[n].sequence.Some?;
      var n' := MemberOfPermutation(ts, rs, n);
    }
    UnnumberedKeepsLast(ts, k);
  }

  // ---------------------------------------------------------------- candidates in order of freshness

  function Priority(source: string): int {
    if source == "content-probe" then 10
    else if source == "page-refresh" then 20
    else if source == "page-fetch" then 30
    else 0
  }

  /** A usable survivor; `index` is its place among the surviving responses. */
  datatype Entry = Entry(response: Response, index: nat, candidate: string)

  predicate AsFresh(x: Response, y: Response) {
    var sx := if x.sequence.Some? then x.sequence.value as int else -1;
    var sy := if y.sequence.Some? then y.sequence.value as int else -1;
    sx < sy || (sx == sy && Priority(x.key.source) <= Priority(y.key.source))
  }

  /** The order of the sort keys: numbered last, by number, then by source, then by place. */
  predicate Precedes(x: Entry, y: Entry) {
    AsFresh(x.response, y.response) && (AsFresh(y.response, x.response) ==> x.index <= y.index)
  }

  predicate NoDuplicates(s: seq<Key>) { forall i, j :: 0 <= i < j < |s| ==> s[i] != s[j] }

  function Without(keys: set<Key>): Key -> bool { k => k !in keys }

  /** The keys of the surviving responses, in dictionary order. */
  function Alive(rs: seq<Response>): seq<Key> { Sorting.Filter(FoldOf(rs).order, Without(FoldOf(rs).conflicts)) }

  ghost predicate OrderOk(f: Fold) { (forall k :: k in f.order <==> k in f.responses) && NoDuplicates(f.order) }

  lemma StepKeepsOrder(f: Fold, r: Response)
    requires OrderOk(f) && f.responses.Keys == f.sequences.Keys
    ensures OrderOk(Step(f, r))
  {
    var g := Step(f, r);
    assert g.order == f.order || g.order == f.order + [r.key];
  }

  lemma {:induction false} OrderExact(rs: seq<Response>)
    ensures OrderOk(FoldOf(rs))
  {
    if |rs| > 0 {
      OrderExact(rs[..|rs| - 1]);
      StepKeepsOrder(FoldOf(rs[..|rs| - 1]), rs[|rs| - 1]);
    }
  }

  lemma {:induction false} FilterExact(s: seq<Key>, p: Key -> bool, k: Key)
    ensures k in Sorting.Filter(s, p) <==> k in s && p(k)
  {
    if |s| > 0 {
      FilterExact(s[..|s| - 1], p, k);
      assert s == s[..|s| - 1] + [s[|s| - 1]];
    }
  }

  lemma {:induction false} FilterDistinct(s: seq<Key>, p: Key -> bool)
    requires NoDuplicates(s)
    ensures NoDuplicates(Sorting.Filter(s, p))
  {
    if |s| > 0 {
      FilterDistinct(s[..|s| - 1], p);
      FilterExact(s[..|s| - 1], p, s[|s| - 1]);
    }
  }

  /** The surviving keys, each once. */
  lemma AliveExact(rs: seq<Response>)
    ensures forall k :: k in Alive(rs) <==> k in Survivors(rs)
    ensures NoDuplicates(Alive(rs))
  {
    var f := FoldOf(rs);
    OrderExact(rs);
    FilterDistinct(f.order, Without(f.conflicts));
    forall k ensures k in Alive(rs) <==> k in Survivors(rs) {
      FilterExact(f.order, Without(f.conflicts), k);
    }
  }

  type Loader = Response -> Option<string>

  ghost predicate AllIn(keys: seq<Key>, responses: map<Key, Response>) {
    forall i :: 0 <= i < |keys| ==> keys[i] in responses
  }

  /** The usable ones among the first `n` surviving responses. */
  function EntriesUpTo(keys: seq<Key>, responses: map<Key, Response>, load: Loader, n: nat): seq<Entry>
    requires n <= |keys| && AllIn(keys, responses)
  {
    if n == 0 then []
    else
      var r := responses[keys[n - 1]];
      EntriesUpTo(keys, responses, load, n - 1) +
      (if load(r).Some? then [Entry(r, n - 1, load(r).value)] else [])
  }

  function Entries(rs: seq<Response>, load: Loader): seq<Entry> {
    AliveExact(rs);
    EntriesUpTo(Alive(rs), Survivors(rs), load, |Alive(rs)|)
  }

  function Output(rs: seq<Response>, load: Loader): seq<Entry> {
    Sorting.StableSort(Entries(rs, load), Precedes)
  }

  ghost predicate EntryFits(e: Entry, keys: seq<Key>, responses: map<Key, Response>, load: Loader)
    requires AllIn(keys, responses)
  {
    e.index < |keys| && e.response == responses[keys[e.index]] && load(e.response) == Some(e.candidate)
  }

  ghost predicate Ascend(es: seq<Entry>) { forall i, j :: 0 <= i < j < |es| ==> es[i].index < es[j].index }

  ghost predicate AllFit(es: seq<Entry>, keys: seq<Key>, responses: map<Key, Response>, load: Loader, n: nat)
    requires AllIn(keys, responses)
  {
    forall i :: 0 <= i < |es| ==> es[i].index < n && EntryFits(es[i], keys, responses, load)
  }

  lemma {:induction false} EntriesFit(keys: seq<Key>, responses: map<Key, Response>, load: Loader, n: nat)
    requires n <= |keys| && AllIn(keys, responses)
    ensures Ascend(EntriesUpTo(keys, responses, load, n))
    ensures AllFit(EntriesUpTo(keys, responses, load, n), keys, responses, load, n)
  {
    if n > 0 {
      EntriesFit(keys, responses, load, n - 1);
      var before, es := EntriesUpTo(keys, responses, load, n - 1), EntriesUpTo(keys, responses, load, n);
      assert es == before || es == before + [Entry(responses[keys[n - 1]], n - 1, load(responses[keys[n - 1]]).value)];
    }
  }

  lemma {:induction false} EntriesComplete(keys: seq<Key>, responses: map<Key, Response>, load: Loader, n: nat, m: nat)
    requires m < n <= |keys| && AllIn(keys, responses) && load(responses[keys[m]]).Some?
    ensures Entry(responses[keys[m]], m, load(responses[keys[m]]).value) in EntriesUpTo(keys, responses, load, n)
  {
    if m < n - 1 {
      EntriesComplete(keys, responses, load, n - 1, m);
    }
  }

  lemma PrecedesRanks()
    ensures Sorting.Ranking(Precedes)
  {}

  lemma {:induction false} Once(es: seq<Entry>, e: Entry)
    requires Ascend(es)
    ensures multiset(es)[e] <= 1
  {
    if |es| > 0 {
      var init, last := es[..|es| - 1], es[|es| - 1];
      Once(init, e);
      assert es == init + [last];
      assert forall i :: 0 <= i < |init| ==> es[i] == init[i];
      assert last !in init;
    }
  }

  /** Facts about one entry of the unsorted list. */
  lemma EntryFacts(rs: seq<Response>, load: Loader, e: Entry)
    requires e in Entries(rs, load)
    ensures e.index < |Alive(rs)| && e.response.key == Alive(rs)[e.index] && e.response.key in Survivors(rs)
    ensures e.response == Survivors(rs)[e.response.key] && load(e.response) == Some(e.candidate)
  {
    hide FoldOf, Survivors, Alive, EntriesUpTo;
    AliveExact(rs);
    EntriesFit(Alive(rs), Survivors(rs), load, |Alive(rs)|);
    assert EntryFits(e, Alive(rs), Survivors(rs), load);
    SurvivorIsNewest(rs, Alive(rs)[e.index]);
  }

  lemma EntriesAscend(rs: seq<Response>, load: Loader)
    ensures Ascend(Entries(rs, load))
  {
    AliveExact(rs);
    EntriesFit(Alive(rs), Survivors(rs), load, |Alive(rs)|);
  }

  lemma OutputPermutes(rs: seq<Response>, load: Loader)
    ensures multiset(Output(rs, load)) == multiset(Entries(rs, load)) && Sorting.Sorted(Output(rs, load), Precedes)
    ensures forall e :: e in Output(rs, load) <==> e in Entries(rs, load)
  {
    PrecedesRanks();
    Sorting.StableSortCorrect(Entries(rs, load), Precedes);
    forall e ensures e in Output(rs, load) <==> e in Entries(rs, load) {
      assert e in multiset(Output(rs, load)) <==> e in multiset(Entries(rs, load));
    }
  }

  /** The place of a usable survivor in the output. */
  lemma OutputHas(rs: seq<Response>, load: Loader, k: Key) returns (p: nat)
    requires k in Survivors(rs) && load(Survivors(rs)[k]).Some?
    ensures p < |Output(rs, load)| && Output(rs, load)[p].response == Survivors(rs)[k]
    ensures Output(rs, load)[p].response.key == k
  {
    AliveExact(rs);
    var m :| 0 <= m < |Alive(rs)| && Alive(rs)[m] == k;
    EntriesComplete(Alive(rs), Survivors(rs), load, |Alive(rs)|, m);
    OutputPermutes(rs, load);
    SurvivorIsNewest(rs, k);
    var e := Entry(Survivors(rs)[k], m, load(Survivors(rs)[k]).value);
    p :| 0 <= p < |Output(rs, load)| && Output(rs, load)[p] == e;
  }

  /** Different places of the output hold different keys, the later one at least as fresh. */
  lemma OutputOrdered(rs: seq<Response>, load: Loader, i: nat, j: nat)
    requires i < j < |Output(rs, load)|
    ensures AsFresh(Output(rs, load)[i].response, Output(rs, load)[j].response)
    ensures Output(rs, load)[i].response.key != Output(rs, load)[j].response.key
  {
    hide FoldOf, Survivors, Alive, EntriesUpTo, Output, Entries;
    OutputPermutes(rs, load);
    var x, y := Output(rs, load)[i], Output(rs, load)[j];
    assert Precedes(x, y);
    if x.response.key == y.response.key {
      EntryFacts(rs, load, x);
      EntryFacts(rs, load, y);
      AliveExact(rs);
      assert x.index == y.index;
      Sorting.Repeats(Output(rs, load), i, j);
      EntriesAscend(rs, load);
      Once(Entries(rs, load), x);
    }
  }

  /** The output lists the usable survivors, each exactly once, from the least to the most recent. */
  lemma OutputExact(rs: seq<Response>, load: Loader)
    ensures forall e :: e in Output(rs, load) ==>
      e.response.key in Survivors(rs) && e.response == Survivors(rs)[e.response.key] &&
        load(e.response) == Some(e.candidate)
    ensures forall k :: k in Survivors(rs) && load(Survivors(rs)[k]).Some? ==>
      exists e :: e in Output(rs, load) && e.response == Survivors(rs)[k]
    ensures forall i, j :: 0 <= i < j < |Output(rs, load)| ==>
      && AsFresh(Output(rs, load)[i].response, Output(rs, load)[j].response)
      && Output(rs, load)[i].response.key != Output(rs, load)[j].response.key
  {
    OutputPermutes(rs, load);
    forall e | e in Output(rs, load)
      ensures e.response.key in Survivors(rs)
      ensures e.response == Survivors(rs)[e.response.key] && load(e.response) == Some(e.candidate)
    {
      EntryFacts(rs, load, e);
    }
    forall k | k in Survivors(rs) && load(Survivors(rs)[k]).Some?
      ensures exists e :: e in Output(rs, load) && e.response == Survivors(rs)[k]
    {
      var p := OutputHas(rs, load, k);
      assert Output(rs, load)[p] in Output(rs, load);
    }
    forall i, j | 0 <= i < j < |Output(rs, load)|
      ensures AsFresh(Output(rs, load)[i].response, Output(rs, load)[j].response)
      ensures Output(rs, load)[i].response.key != Output(rs, load)[j].response.key
    {
      OutputOrdered(rs, load, i, j);
    }
  }

  method CandidatesFromPayload(fields: seq<Option<seq<Item>>>, redact: Redactor, load: Loader) returns (r: seq<string>)
    ensures r == if |Flatten(fields)| > 50 then []
                 else Texts(Output(AcceptAll(Flatten(fields), redact), load))
  {
    var collected := Collect(fields, redact);
    if collected.None? {
      return [];
    }
    ghost var rs := AcceptAll(Flatten(fields), redact);
    var f := collected.value;
    var responses := f.responses - f.conflicts;
    var keys := Sorting.Filter(f.order, Without(f.conflicts));
    AliveExact(rs);
    var entries: seq<Entry> := [];
    for i := 0 to |keys|
      invariant AllIn(keys, Survivors(rs)) && entries == EntriesUpTo(keys, Survivors(rs), load, i)
    {
      var response := responses[keys[i]];
      var candidate := load(response);
      if candidate.Some? {
        entries := entries + [Entry(response, i, candidate.value)];
      }
    }
    return Texts(Sorting.StableSort(entries, Precedes));
  }

  function Texts(es: seq<Entry>): (r: seq<string>)
    ensures |r| == |es| && forall i :: 0 <= i < |es| ==> r[i] == es[i].candidate
  {
    seq(|es|, i requires 0 <= i < |es| => es[i].candidate)
  }
}
