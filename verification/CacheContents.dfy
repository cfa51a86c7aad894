/**
 * What the page hook's cache holds besides the main response: every newest response as long as they all fit, and always
 * the one that has just arrived.
 */
module CacheContents {
  import opened Wrappers
  import opened PageHook

  // ---------------------------------------------------------------- responses without bounds

  function WithoutUrl(s: seq<Item>, url: string): seq<Item> {
    if |s| == 0 then []
    else
      var last, before := s[|s| - 1], WithoutUrl(s[..|s| - 1], url);
      if last.url == url then before else before + [last]
  }

  /** A response of the same address from a later fetch is there. */
  predicate Overtaken(s: seq<Item>, x: Item) {
    exists i :: 0 <= i < |s| && s[i].url == x.url && s[i].sequence.Some? && x.sequence.Some? &&
      s[i].sequence.value > x.sequence.value
  }

  /** The newest response of every address, without any bound; a refresh forgets the main one and bars older ones. */
  ghost function Unbounded(events: seq<Event>): seq<Item> {
    if |events| == 0 then []
    else
      var init := events[..|events| - 1];
      var before := Unbounded(init);
      match events[|events| - 1]
      case FetchStarts => before
      case RefreshStarts => WithoutUrl(before, MAIN_URL)
      case Arrives(x) =>
        if Barred(init, x) || Overtaken(before, x) then before else WithoutUrl(before, x.url) + [Compact(x)]
  }

  /** A main response from a fetch begun before the latest refresh. */
  ghost predicate Barred(events: seq<Event>, x: Item) {
    x.url == MAIN_URL && x.sequence.Some? && x.sequence.value <= After(events).before
  }

  /** Event `i` brings the most recently started response of its address; of equal numbers, the later arrival counts. */
  predicate NewestArrival(events: seq<Event>, i: nat) {
    && i < |events| && events[i].Arrives? && events[i].item.sequence.Some?
    && forall j: nat :: j < |events| && SameAddress(events, i, j) ==>
         j == i || events[j].item.sequence.value < events[i].item.sequence.value ||
           (events[j].item.sequence == events[i].item.sequence && j < i)
  }

  predicate SameAddress(events: seq<Event>, i: nat, j: nat)
    requires i < |events| && j < |events| && events[i].Arrives?
  {
    events[j].Arrives? && events[j].item.sequence.Some? && events[j].item.url == events[i].item.url
  }

  // ---------------------------------------------------------------- lists of responses

  lemma {:induction false} WithoutUrlExact(s: seq<Item>, url: string, y: Item)
    ensures multiset(WithoutUrl(s, url))[y] == if y.url == url then 0 else multiset(s)[y]
  {
    if |s| > 0 {
      WithoutUrlExact(s[..|s| - 1], url, y);
      assert s == s[..|s| - 1] + [s[|s| - 1]];
    }
  }

  lemma {:induction false} NotMainExact(s: seq<Item>, y: Item)
    ensures multiset(NotMain(s))[y] == if IsMain(y) then 0 else multiset(s)[y]
  {
    if |s| > 0 {
      NotMainExact(s[..|s| - 1], y);
      assert s == s[..|s| - 1] + [s[|s| - 1]];
    }
  }

  lemma TotalWithout(s: seq<Item>, i: nat)
    requires i < |s|
    ensures Total(s) == Total(s[..i] + s[i + 1..]) + Size(s[i])
  {
    hide Size, Total;
    assert s == s[..i] + ([s[i]] + s[i + 1..]);
    TotalAdds(s[..i], [s[i]] + s[i + 1..]);
    TotalAdds([s[i]], s[i + 1..]);
    TotalAdds(s[..i], s[i + 1..]);
    TotalOne(s[i]);
  }

  lemma {:induction false} TotalPermutes(s: seq<Item>, t: seq<Item>)
    requires multiset(s) == multiset(t)
    ensures Total(s) == Total(t)
  {
    assert |s| == |multiset(s)| && |t| == |multiset(t)|;
    if |s| > 0 {
      hide Size, Total;
      var i := |s| - 1;
      assert s[i] in multiset(t);
      var j :| 0 <= j < |t| && t[j] == s[i];
      RemoveKeeps(s, i);
      RemoveKeeps(t, j);
      TotalPermutes(Remove(s, i), Remove(t, j));
      TotalWithout(s, i);
      TotalWithout(t, j);
    }
  }

  lemma {:induction false} FitAll(s: seq<Item>, n: nat)
    requires n <= |s| && Total(s[..n]) <= MAX_CHARS
    ensures Fit(s, n) == s[..n]
  {
    if n > 0 {
      hide Size;
      assert s[..n][..n - 1] == s[..n - 1];
      FitAll(s, n - 1);
      assert s[..n] == s[..n - 1] + [s[n - 1]];
    }
  }

  /** Trimming drops nothing while everything fits. */
  lemma TrimKeepsAll(s: seq<Item>)
    requires Total(s) <= MAX_CHARS
    ensures multiset(Trim(s)) == multiset(s)
  {
    var all := Lead(s, 0) + Others(s, 0);
    hide Size, Total, Lead, Others;
    SplitKeeps(s, 0);
    assert s[0..] == s && all[..|all|] == all;
    TotalPermutes(all, s);
    FitAll(all, |all|);
    ReverseKeeps(all);
  }

  lemma AddKeepsAll(s: seq<Item>, x: Item)
    requires |s| < LIMIT && Total(s) + Size(x) <= MAX_CHARS
    ensures multiset(Add(s, x)) == multiset(s) + multiset{x}
  {
    hide Size, Total, Trim;
    TotalAdds(s, [x]);
    TotalOne(x);
    TrimKeepsAll(s + [x]);
  }

  // ---------------------------------------------------------------- while everything fits

  /** At every moment of the run the newest responses are at most 50 and their texts together fit the cap. */
  ghost predicate AllFit(events: seq<Event>) {
    forall n: nat :: n <= |events| ==> FitsAt(events, n)
  }

  ghost predicate FitsAt(events: seq<Event>, n: nat)
    requires n <= |events|
  {
    |Unbounded(events[..n])| <= 50 && Total(Unbounded(events[..n])) <= 4_000_000
  }

  lemma AllFitPart(events: seq<Event>)
    requires AllFit(events) && |events| > 0
    ensures AllFit(events[..|events| - 1])
    ensures |Unbounded(events)| <= LIMIT && Total(Unbounded(events)) <= MAX_CHARS
  {
    hide Total, Unbounded;
    var init := events[..|events| - 1];
    forall n: nat | n <= |init| ensures FitsAt(init, n) {
      assert FitsAt(events, n) && init[..n] == events[..n];
    }
    assert FitsAt(events, |events|) && events[..|events|] == events;
  }

  /** The cached responses that a new one does not replace. */
  function Rest(h: Hook, x: Item): seq<Item> {
    match Find(h.captured, x) case None => h.captured case Some(i) => Remove(h.captured, i)
  }

  /** In a cache of fetched responses the key is the address. */
  lemma RestIsWithoutUrl(h: Hook, x: Item, all: seq<Item>)
    requires Inv(h) && FromFetch(x, h) && multiset(h.captured) == multiset(all)
    ensures multiset(Rest(h, x)) == multiset(WithoutUrl(all, x.url))
    ensures |Rest(h, x)| <= |h.captured| && (forall y: Item :: y in Rest(h, x) ==> y.url != x.url)
  {
    hide Total, FromFetch, Inv;
    RestExact(h, x);
    forall y: Item ensures multiset(Rest(h, x))[y] == multiset(WithoutUrl(all, x.url))[y] {
      WithoutUrlExact(all, x.url, y);
    }
  }

  lemma RestExact(h: Hook, x: Item)
    requires Inv(h) && FromFetch(x, h)
    ensures forall y: Item :: multiset(Rest(h, x))[y] == if y.url == x.url then 0 else multiset(h.captured)[y]
    ensures |Rest(h, x)| <= |h.captured| && (forall y: Item :: y in Rest(h, x) ==> y.url != x.url)
  {
    hide Total, Items, Remove;
    match Find(h.captured, x)
    case None => MissedAddress(h, x);
    case Some(i) =>
      forall y: Item
        ensures multiset(Remove(h.captured, i))[y] == if y.url == x.url then 0 else multiset(h.captured)[y]
      {
        FoundAddress(h, x, i, y);
      }
      OtherAddresses(h, x, i);
  }

  lemma MissedAddress(h: Hook, x: Item)
    requires Items(h.captured, h) && FromFetch(x, h) && Find(h.captured, x).None?
    ensures forall y: Item :: y in multiset(h.captured) ==> y.url != x.url
  {
    hide OnePerKey, Find;
    FindMisses(h.captured, x);
    forall y: Item | y in multiset(h.captured) ensures y.url != x.url { assert y in h.captured && FromFetch(y, h); }
  }

  lemma FoundAddress(h: Hook, x: Item, i: nat, y: Item)
    requires Items(h.captured, h) && FromFetch(x, h) && Find(h.captured, x) == Some(i)
    ensures multiset(Remove(h.captured, i))[y] == if y.url == x.url then 0 else multiset(h.captured)[y]
  {
    var s := h.captured;
    RemoveKeeps(s, i);
    hide Remove;
    assert s[i] in multiset(s) && s[i] in s;
    if y.url == x.url && y in multiset(s) {
      assert y in s && SameKey(y, s[i]);
    }
  }

  lemma OtherAddresses(h: Hook, x: Item, i: nat)
    requires i < |h.captured|
    requires forall y: Item :: y.url == x.url ==> multiset(Remove(h.captured, i))[y] == 0
    ensures |Remove(h.captured, i)| <= |h.captured|
    ensures forall y: Item :: y in Remove(h.captured, i) ==> y.url != x.url
  {
    forall y: Item | y in Remove(h.captured, i) ensures y.url != x.url { assert y in multiset(Remove(h.captured, i)); }
  }

  lemma OvertakenExactly(h: Hook, x: Item, all: seq<Item>)
    requires Inv(h) && FromFetch(x, h) && multiset(h.captured) == multiset(all)
    ensures Overtaken(all, x) <==> Find(h.captured, x).Some? && !IsNewer(x, h.captured[Find(h.captured, x).value])
  {
    hide Total;
    var s := h.captured;
    assert forall y :: y in s ==> FromFetch(y, h);
    if Overtaken(all, x) {
      var i :| 0 <= i < |all| && all[i].url == x.url && all[i].sequence.Some? &&
        all[i].sequence.value > x.sequence.value;
      assert all[i] in multiset(s);
      assert all[i] in s && FromFetch(all[i], h);
      if Find(s, x).None? {
        FindMisses(s, x);
      } else {
        var k := Find(s, x).value;
        assert s[k] in multiset(s) && SameKey(s[k], all[i]);
      }
    }
    if Find(s, x).Some? && !IsNewer(x, s[Find(s, x).value]) {
      var k := Find(s, x).value;
      assert s[k] in multiset(all);
      var i :| 0 <= i < |all| && all[i] == s[k];
      assert all[i].url == x.url && all[i].sequence.value > x.sequence.value;
    }
  }

  lemma ArrivalKeepsAll(events: seq<Event>, item: Item, all: seq<Item>)
    requires Legal(events) && FromFetch(item, After(events).hook)
    requires multiset(After(events).hook.captured) == multiset(all)
    requires var next := if Barred(events, item) || Overtaken(all, item) then all
               else WithoutUrl(all, item.url) + [Compact(item)];
             |next| <= LIMIT && Total(next) <= MAX_CHARS
    ensures var next := if Barred(events, item) || Overtaken(all, item) then all
              else WithoutUrl(all, item.url) + [Compact(item)];
            multiset(Remember(After(events).hook, item).captured) == multiset(next)
  {
    RunsStayOk(events);
    var h, x := After(events).hook, Compact(item);
    CompactBounded(item, h);
    OvertakenExactly(h, x, all);
    assert Overtaken(all, x) <==> Overtaken(all, item);
    hide Total, Inv, FromFetch, Compact, Add, Size, Overtaken;
    if !Barred(events, item) && !Overtaken(all, item) {
      var rest := WithoutUrl(all, item.url);
      RestIsWithoutUrl(h, x, all);
      TotalAdds(rest, [x]);
      TotalOne(x);
      TotalPermutes(Rest(h, x), rest);
      assert |Rest(h, x)| == |multiset(Rest(h, x))| == |rest|;
      AddKeepsAll(Rest(h, x), x);
      Snoc(rest, x);
    }
  }

  /** While everything fits, the cache holds exactly the newest responses. */
  lemma {:induction false} HoldsEverything(events: seq<Event>)
    requires Legal(events) && AllFit(events)
    ensures multiset(After(events).hook.captured) == multiset(Unbounded(events))
  {
    if |events| > 0 {
      var init, last := events[..|events| - 1], events[|events| - 1];
      AllFitPart(events);
      HoldsEverything(init);
      hide Total, Remember, Overtaken, Barred, FromFetch, NotMain, AllFit;
      match last
      case FetchStarts =>
      case RefreshStarts =>
        var s, all := After(init).hook.captured, Unbounded(init);
        forall y: Item ensures multiset(NotMain(s))[y] == multiset(WithoutUrl(all, MAIN_URL))[y] {
          NotMainExact(s, y);
          WithoutUrlExact(all, MAIN_URL, y);
        }
      case Arrives(x) => ArrivalKeepsAll(init, x, Unbounded(init));
    }
  }

  // ---------------------------------------------------------------- which responses are the newest

  ghost predicate NewestFor(events: seq<Event>, y: Item) {
    exists i: nat :: Brings(events, i, y)
  }

  /** The newest arrival at its address is event `i`, and brings `y`. */
  predicate Brings(events: seq<Event>, i: nat, y: Item) {
    NewestArrival(events, i) && y == Compact(events[i].item)
  }

  lemma MembersWithoutUrl(s: seq<Item>, url: string)
    ensures forall y: Item :: y in WithoutUrl(s, url) <==> y in s && y.url != url
  {
    forall y: Item ensures y in WithoutUrl(s, url) <==> y in s && y.url != url {
      WithoutUrlExact(s, url, y);
      assert y in WithoutUrl(s, url) <==> y in multiset(WithoutUrl(s, url));
      assert y in s <==> y in multiset(s);
    }
  }

  /** The event brings a response of the same address that is not from an earlier fetch. */
  predicate Outdates(e: Event, earlier: Event) {
    && e.Arrives? && earlier.Arrives? && e.item.url == earlier.item.url
    && e.item.sequence.Some? && earlier.item.sequence.Some? && e.item.sequence.value >= earlier.item.sequence.value
  }

  lemma NewestExtends(events: seq<Event>, i: nat)
    requires |events| > 0 && i < |events| - 1
    ensures var init, e := events[..|events| - 1], events[|events| - 1];
      NewestArrival(events, i) <==> (NewestArrival(init, i) && !Outdates(e, events[i]))
  {
    var init, n := events[..|events| - 1], |events| - 1;
    if NewestArrival(events, i) {
      forall j: nat | j < |init| && SameAddress(init, i, j)
        ensures j == i || init[j].item.sequence.value < init[i].item.sequence.value ||
          (init[j].item.sequence == init[i].item.sequence && j < i)
      {
        assert SameAddress(events, i, j);
      }
      assert SameAddress(events, i, n) ==> events[n].item.sequence.value < events[i].item.sequence.value;
    }
    if NewestArrival(init, i) && !NewestArrival(events, i) {
      var j: nat :| j < |events| && SameAddress(events, i, j) && !(j == i ||
        events[j].item.sequence.value < events[i].item.sequence.value ||
        (events[j].item.sequence == events[i].item.sequence && j < i));
      if j < n { assert SameAddress(init, i, j); }
    }
  }

  lemma CompactKeepsNumber(x: Item)
    ensures Compact(x).url == x.url && Compact(x).sequence == x.sequence
  {}

  /** Among the arrivals at one address there is a newest one. */
  lemma {:induction false} NewestExists(events: seq<Event>, j: nat) returns (i: nat)
    requires j < |events| && events[j].Arrives? && events[j].item.sequence.Some?
    ensures NewestArrival(events, i) && SameAddress(events, i, j)
  {
    var n := |events| - 1;
    var init, url := events[..n], events[j].item.url;
    if k: nat :| k < n && events[k].Arrives? && events[k].item.sequence.Some? && events[k].item.url == url {
      i := NewestExists(init, k);
      assert SameAddress(init, i, k);
      NewestExtends(events, i);
      if Outdates(events[n], events[i]) {
        LastIsNewest(events, i);
        i := n;
      }
    } else {
      i := n;
    }
  }

  /** A last arrival that outdates the newest before it is the newest. */
  lemma LastIsNewest(events: seq<Event>, i: nat)
    requires i < |events| - 1 && NewestArrival(events[..|events| - 1], i) && Outdates(events[|events| - 1], events[i])
    ensures NewestArrival(events, |events| - 1)
  {
    var n := |events| - 1;
    var init := events[..n];
    forall j: nat | j < |events| && SameAddress(events, n, j)
      ensures j == n || events[j].item.sequence.value < events[n].item.sequence.value ||
        (events[j].item.sequence == events[n].item.sequence && j < n)
    {
      if j < n { assert SameAddress(init, i, j); }
    }
  }

  /** Two newest arrivals at one address are the same. */
  lemma NewestUnique(events: seq<Event>, i: nat, j: nat)
    requires NewestArrival(events, i) && NewestArrival(events, j) && events[i].item.url == events[j].item.url
    ensures i == j
  {
    assert SameAddress(events, i, j) && SameAddress(events, j, i);
  }

  lemma OtherAddress(events: seq<Event>, y: Item)
    requires |events| > 0 && !(events[|events| - 1].Arrives? && events[|events| - 1].item.url == y.url)
    ensures NewestFor(events, y) <==> NewestFor(events[..|events| - 1], y)
  {
    hide NewestArrival, Compact;
    var init, n := events[..|events| - 1], |events| - 1;
    if NewestFor(events, y) {
      var i: nat :| Brings(events, i, y);
      InRun(events, i);
      CompactKeepsNumber(events[i].item);
      NewestExtends(events, i);
      assert init[i] == events[i];
      assert Brings(init, i, y);
    }
    if NewestFor(init, y) {
      var i: nat :| Brings(init, i, y);
      InRun(init, i);
      CompactKeepsNumber(events[i].item);
      NewestExtends(events, i);
      assert init[i] == events[i];
      assert Brings(events, i, y);
    }
  }

  lemma InRun(events: seq<Event>, i: nat)
    requires NewestArrival(events, i)
    ensures i < |events| && events[i].Arrives? && events[i].item.sequence.Some?
  {}

  /** The newest response at an address after an arrival there. */
  lemma SameAddressArrives(events: seq<Event>, all: seq<Item>, y: Item)
    requires |events| > 0 && events[|events| - 1].Arrives? && events[|events| - 1].item.url == y.url
    requires events[|events| - 1].item.sequence.Some?
    requires forall z: Item :: z.url == y.url ==> (z in all <==> NewestFor(events[..|events| - 1], z))
    ensures NewestFor(events, y) <==>
      if Overtaken(all, events[|events| - 1].item) then NewestFor(events[..|events| - 1], y)
      else y == Compact(events[|events| - 1].item)
  {
    var init, n := events[..|events| - 1], |events| - 1;
    var x := events[n].item;
    if k: nat :| k < n && events[k].Arrives? && events[k].item.sequence.Some? && events[k].item.url == x.url {
      var i := NewestExists(init, k);
      assert SameAddress(init, i, k) && init[i] == events[i];
      CompactKeepsNumber(events[i].item);
      var z := Compact(events[i].item);
      assert Brings(init, i, z);
      assert NewestFor(init, z) && z in all;
      hide Compact;
      OnlyNewest(events, all, i);
      NewestExtends(events, i);
      if Outdates(events[n], events[i]) { LastIsNewest(events, i); }
      NewestIs(events, if Outdates(events[n], events[i]) then n else i, y);
      NewestIs(init, i, y);
    } else {
      assert NewestArrival(events, n);
      NewestIs(events, n, y);
      NothingThere(events, all);
    }
  }

  lemma NewestIs(events: seq<Event>, i: nat, y: Item)
    requires NewestArrival(events, i) && events[i].item.url == y.url
    ensures NewestFor(events, y) <==> y == Compact(events[i].item)
  {
    hide Compact, NewestArrival;
    InRun(events, i);
    if NewestFor(events, y) {
      var j: nat :| Brings(events, j, y);
      InRun(events, j);
      CompactKeepsNumber(events[j].item);
      NewestUnique(events, i, j);
    }
    if y == Compact(events[i].item) { assert Brings(events, i, y); }
  }

  /** Whether the last arrival is overtaken depends on the newest one before it at its address. */
  lemma OnlyNewest(events: seq<Event>, all: seq<Item>, i: nat)
    requires |events| > 0 && events[|events| - 1].Arrives? && events[|events| - 1].item.sequence.Some?
    requires NewestArrival(events[..|events| - 1], i) && events[i].item.url == events[|events| - 1].item.url
    requires forall z: Item :: z.url == events[i].item.url ==> (z in all <==> NewestFor(events[..|events| - 1], z))
    ensures Overtaken(all, events[|events| - 1].item) <==> !Outdates(events[|events| - 1], events[i])
  {
    hide Compact, NewestArrival;
    var init, x := events[..|events| - 1], events[|events| - 1].item;
    InRun(init, i);
    var z := Compact(init[i].item);
    CompactKeepsNumber(init[i].item);
    assert Brings(init, i, z);
    assert NewestFor(init, z) && z in all;
    forall w: Item | w in all && w.url == x.url ensures w == z { NewestIs(init, i, w); }
    if !Outdates(events[|events| - 1], events[i]) {
      var k :| 0 <= k < |all| && all[k] == z;
      assert all[k].url == x.url;
    }
  }

  lemma NothingThere(events: seq<Event>, all: seq<Item>)
    requires |events| > 0 && events[|events| - 1].Arrives?
    requires forall k: nat :: k < |events| - 1 && events[k].Arrives? && events[k].item.sequence.Some? ==>
      events[k].item.url != events[|events| - 1].item.url
    requires forall z: Item :: z.url == events[|events| - 1].item.url ==>
      (z in all <==> NewestFor(events[..|events| - 1], z))
    ensures !Overtaken(all, events[|events| - 1].item)
  {
    hide Compact, NewestArrival;
    var init, x := events[..|events| - 1], events[|events| - 1].item;
    if Overtaken(all, x) {
      var k :| 0 <= k < |all| && all[k].url == x.url && all[k].sequence.Some? && x.sequence.Some? &&
        all[k].sequence.value > x.sequence.value;
      assert all[k] in all && NewestFor(init, all[k]);
      var i: nat :| Brings(init, i, all[k]);
      InRun(init, i);
      CompactKeepsNumber(init[i].item);
    }
  }

  // ---------------------------------------------------------------- main results

  /** Unbounded, the responses at every address but the main one are the newest arrivals. */
  lemma {:induction false} UnboundedIsNewest(events: seq<Event>, y: Item)
    requires Legal(events) && y.url != MAIN_URL
    ensures y in Unbounded(events) <==> NewestFor(events, y)
  {
    if |events| > 0 {
      var init, last := events[..|events| - 1], events[|events| - 1];
      UnboundedIsNewest(init, y);
      hide NewestFor, Compact, Overtaken;
      match last
      case FetchStarts => OtherAddress(events, y);
      case RefreshStarts =>
        OtherAddress(events, y);
        MembersWithoutUrl(Unbounded(init), MAIN_URL);
      case Arrives(x) =>
        MembersWithoutUrl(Unbounded(init), x.url);
        CompactKeepsNumber(x);
        if x.url != y.url {
          OtherAddress(events, y);
        } else {
          forall z: Item | z.url == y.url ensures z in Unbounded(init) <==> NewestFor(init, z) {
            UnboundedIsNewest(init, z);
          }
          SameAddressArrives(events, Unbounded(init), y);
        }
    }
  }

  /**
   While the newest responses are at most 50 and their texts fit the cap, the cache holds at every address but the main
   one exactly the most recently started response that has arrived.
   */
  lemma HoldsNewest(events: seq<Event>, y: Item)
    requires Legal(events) && AllFit(events) && y.url != MAIN_URL
    ensures y in After(events).hook.captured <==> NewestFor(events, y)
  {
    hide Unbounded, NewestFor, AllFit;
    HoldsEverything(events);
    UnboundedIsNewest(events, y);
    assert y in After(events).hook.captured <==> y in multiset(After(events).hook.captured);
    assert y in Unbounded(events) <==> y in multiset(Unbounded(events));
  }

  /** Whatever is cached has arrived. */
  lemma {:induction false} CachedHasArrived(events: seq<Event>, y: Item)
    requires Legal(events) && y in After(events).hook.captured
    ensures Brought(events, y)
  {
    var init, last := events[..|events| - 1], events[|events| - 1];
    RunsStayOk(init);
    hide Compact;
    if y in After(init).hook.captured {
      CachedHasArrived(init, y);
      var i: nat :| i < |init| && init[i].Arrives? && y == Compact(init[i].item);
      assert events[i].Arrives? && y == Compact(events[i].item);
    } else {
      match last
      case FetchStarts =>
      case RefreshStarts => NotMainKeeps(After(init).hook.captured);
        MembersOf(NotMain(After(init).hook.captured), After(init).hook.captured);
      case Arrives(x) =>
        RememberMembers(After(init).hook, x, y);
        assert events[|events| - 1].Arrives? && y == Compact(events[|events| - 1].item);
    }
  }

  /** Some event brings the response. */
  ghost predicate Brought(events: seq<Event>, y: Item) {
    exists i: nat :: i < |events| && events[i].Arrives? && y == Compact(events[i].item)
  }

  lemma RememberMembers(h: Hook, item: Item, y: Item)
    requires y in Remember(h, item).captured
    ensures y in h.captured || y == Compact(item)
  {
    hide Compact, Trim;
    var x := Compact(item);
    var rest := Rest(h, x);
    if y !in h.captured {
      var r := Newest(rest + [x]);
      TrimKeeps(r);
      MembersOf(Trim(r), r);
      assert y in r && y in rest + [x];
    }
  }

  lemma {:induction false} LastOtherFirst(s: seq<Item>, k: nat)
    requires k < |s| && !IsMain(s[|s| - 1])
    ensures |Others(s, k)| > 0 && Others(s, k)[0] == s[|s| - 1]
    decreases |s| - k
  {
    hide IsMain;
    if k + 1 < |s| { LastOtherFirst(s, k + 1); }
  }

  lemma {:induction false} FitKeepsSecond(s: seq<Item>, n: nat)
    requires 2 <= n <= |s| && Size(s[0]) + Size(s[1]) <= MAX_CHARS
    ensures |Fit(s, n)| > 1 && Fit(s, n)[1] == s[1]
  {
    hide Size;
    if n > 2 {
      FitKeepsSecond(s, n - 1);
    } else {
      assert Fit(s, 0) == [] && Fit(s, 1) == [] + [s[0]] && [s[0]][..0] == [];
      assert Total([s[0]]) == Size(s[0]);
    }
  }

  /** Trimming keeps a last response that fits beside the main one. */
  lemma TrimKeepsLast(s: seq<Item>)
    requires |s| > 0 && !IsMain(s[|s| - 1])
    requires Size(s[|s| - 1]) + (if LastMain(s).Some? then Size(LastMain(s).value) else 0) <= MAX_CHARS
    ensures s[|s| - 1] in Trim(s)
  {
    hide Size, Total, Others, IsMain;
    var all := Lead(s, 0) + Others(s, 0);
    LastOtherFirst(s, 0);
    ReverseKeeps(Fit(all, |all|));
    if LastMain(s).Some? {
      FitKeepsSecond(all, |all|);
      assert s[|s| - 1] in multiset(Fit(all, |all|));
    } else {
      FitKeepsFirst(all, |all|);
      assert s[|s| - 1] in multiset(Fit(all, |all|));
    }
  }

  /** An arrival of the run comes from a later fetch than `x`, at the same address. */
  predicate OvertakenInRun(events: seq<Event>, x: Item) {
    exists i :: 0 <= i < |events| && events[i].Arrives? && events[i].item.url == x.url &&
      events[i].item.sequence.Some? && x.sequence.Some? && events[i].item.sequence.value > x.sequence.value
  }

  /** The text of the main response that is held, if any. */
  function MainSize(main: Option<Item>): nat { if main.Some? then Size(main.value) else 0 }

  lemma AddHolds(h: Hook, s: seq<Item>, x: Item)
    requires Placed(s, h) && FromFetch(x, h) && !IsMain(x) && (forall y :: y in s ==> !SameKey(y, x))
    requires Size(x) + MainSize(LastMain(s)) <= MAX_CHARS
    ensures x in Add(s, x)
  {
    hide OnePerKey, Size, SameKey, Trim, LastMain, Total, FromFetch;
    PlacedMain(s, h);
    AddItem(s, x, h);
    NewestKeeps(s, x);
    var t := s + [x];
    var r := Newest(t);
    assert r[|r| - 1] == x;
    LastMainExact(s);
    LastMainExact(r);
    MembersOf(r, t);
    if LastMain(r).Some? {
      assert LastMain(r).value in t && LastMain(s).Some?;
      assert LastMain(s).value in t && LastMain(s).value in r;
      MainOf(t, h, LastMain(s).value, r);
    }
    TrimKeepsLast(r);
  }

  /**
   A response at any address but the main one is held right after its arrival, in every run, unless one from a later
   fetch arrived there before, or its text does not fit beside the main response.
   */
  lemma HeldOnArrival(events: seq<Event>, x: Item)
    requires Legal(events) && FromFetch(x, After(events).hook) && !IsMain(x) && !OvertakenInRun(events, x)
    requires Size(Compact(x)) + MainSize(After(events).main) <= 4_000_000
    ensures Compact(x) in After(events + [Arrives(x)]).hook.captured
  {
    var h, c := After(events).hook, Compact(x);
    assert (events + [Arrives(x)])[..|events|] == events;
    RunsStayOk(events);
    CompactBounded(x, h);
    CompactKeepsNumber(x);
    NotOvertaken(events, x);
    RestPlaced(h, c);
    hide Compact, Add, LastMain, Size, Inv, FromFetch;
    AddHolds(h, Rest(h, c), c);
  }

  lemma NotOvertaken(events: seq<Event>, x: Item)
    requires Legal(events) && FromFetch(x, After(events).hook) && !OvertakenInRun(events, x)
    ensures var s, c := After(events).hook.captured, Compact(x);
      Find(s, c).Some? ==> IsNewer(c, s[Find(s, c).value])
  {
    var s, c := After(events).hook.captured, Compact(x);
    CompactKeepsNumber(x);
    if Find(s, c).Some? {
      var y := s[Find(s, c).value];
      CachedHasArrived(events, y);
      hide Compact;
      var i: nat :| i < |events| && events[i].Arrives? && y == Compact(events[i].item);
      CompactKeepsNumber(events[i].item);
    }
  }

  lemma RestPlaced(h: Hook, x: Item)
    requires Inv(h) && FromFetch(x, h) && !IsMain(x)
    ensures Placed(Rest(h, x), h) && (forall y :: y in Rest(h, x) ==> !SameKey(y, x))
    ensures LastMain(Rest(h, x)) == LastMain(h.captured)
  {
    hide Total, LastMain, OnePerKey;
    match Find(h.captured, x)
    case None => FindMisses(h.captured, x);
    case Some(i) => RemoveForReplacement(h, x, i);
  }

  /** A truncated response keeps the first 500 characters of its text and nothing else of it; others are kept whole. */
  lemma CompactExactly(x: Item)
    ensures !x.truncated ==> Compact(x) == x
    ensures x.truncated ==> var c := Compact(x);
      && c == x.(bodyText := "", body := "", text := "", excerpt := c.excerpt) && |c.excerpt| <= 500
      && (x.bodyText != "" ==> c.excerpt <= x.bodyText && (|c.excerpt| < 500 ==> c.excerpt == x.bodyText))
      && (x.bodyText == "" && x.body != "" ==> c.excerpt <= x.body && (|c.excerpt| < 500 ==> c.excerpt == x.body))
      && (x.bodyText == x.body == "" ==> c.excerpt <= x.text && (|c.excerpt| < 500 ==> c.excerpt == x.text))
  {}
}
