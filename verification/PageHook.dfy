/** The page hook's bounded cache of captured responses, with the fence that a refresh puts before older fetches. */
module PageHook {
  import opened Wrappers

  const LIMIT := 50
  const MAX_CHARS := 4_000_000
  const EXCERPT_CHARS := 500
  const PAGE_FETCH := "page-fetch"

  /** Addresses are normalised to origin and path; this one is the main usage endpoint. */
  const MAIN_URL := "/backend-api/wham/usage"

  datatype Item = Item(source: string, url: string, sequence: Option<nat>, truncated: bool,
                       bodyText: string, body: string, text: string, excerpt: string)

  predicate IsMain(x: Item) { x.url == MAIN_URL }

  predicate SameKey(x: Item, y: Item) { x.source == y.source && x.url == y.url }

  function Size(x: Item): nat { |x.bodyText| + |x.body| + |x.text| + |x.excerpt| }

  /** A truncated response keeps only the head of its text. */
  function Compact(x: Item): Item {
    if !x.truncated then x
    else
      var whole := if x.bodyText != "" then x.bodyText else if x.body != "" then x.body else x.text;
      x.(bodyText := "", body := "", text := "",
         excerpt := if |whole| > EXCERPT_CHARS then whole[..EXCERPT_CHARS] else whole)
  }

  predicate IsNewer(candidate: Item, current: Item) {
    !(current.sequence.Some? && (candidate.sequence.None? || candidate.sequence.value < current.sequence.value))
  }

  // ---------------------------------------------------------------- trimming

  function Reverse(s: seq<Item>): seq<Item> {
    if |s| == 0 then [] else [s[|s| - 1]] + Reverse(s[..|s| - 1])
  }

  function Total(s: seq<Item>): nat {
    if |s| == 0 then 0 else Total(s[..|s| - 1]) + Size(s[|s| - 1])
  }

  /** The newest main response among the items from position `k` on. */
  function MainFrom(s: seq<Item>, k: nat): Option<Item>
    requires k <= |s|
    decreases |s| - k
  {
    if k == |s| then None
    else if MainFrom(s, k + 1).Some? then MainFrom(s, k + 1)
    else if IsMain(s[k]) then Some(s[k]) else None
  }

  function LastMain(s: seq<Item>): Option<Item> { MainFrom(s, 0) }

  function Lead(s: seq<Item>, k: nat): seq<Item>
    requires k <= |s|
  {
    if MainFrom(s, k).Some? then [MainFrom(s, k).value] else []
  }

  /** Everything from position `k` on but the newest main response, newest first. */
  function Others(s: seq<Item>, k: nat): seq<Item>
    requires k <= |s|
    decreases |s| - k
  {
    if k == |s| then []
    else if MainFrom(s, k + 1).None? && IsMain(s[k]) then Others(s, k + 1)
    else Others(s, k + 1) + [s[k]]
  }

  /** Of the first `n` items, each in turn that still fits under the character cap. */
  function Fit(s: seq<Item>, n: nat): seq<Item>
    requires n <= |s|
  {
    if n == 0 then []
    else
      var kept := Fit(s, n - 1);
      if Total(kept) + Size(s[n - 1]) > MAX_CHARS then kept else kept + [s[n - 1]]
  }

  function Trim(s: seq<Item>): seq<Item> {
    var all := Lead(s, 0) + Others(s, 0);
    Reverse(Fit(all, |all|))
  }

  method TrimResponses(items: seq<Item>) returns (r: seq<Item>)
    ensures r == Trim(items)
  {
    hide IsMain, Size;
    var main: seq<Item>, others: seq<Item> := [], [];
    var index := |items| - 1;
    while index >= 0
      invariant -1 <= index < |items|
      invariant main == Lead(items, index + 1) && others == Others(items, index + 1)
    {
      var item := items[index];
      if |main| == 0 && IsMain(item) {
        main := main + [item];
      } else {
        others := others + [item];
      }
      index := index - 1;
    }
    var retained := Retain(main + others);
    r := Reverse(retained);
  }

  method Retain(all: seq<Item>) returns (retained: seq<Item>)
    ensures retained == Fit(all, |all|)
  {
    hide Size;
    retained := [];
    var total: nat := 0;
    for i := 0 to |all|
      invariant retained == Fit(all, i) && total == Total(retained)
    {
      var size := Size(all[i]);
      if total + size > MAX_CHARS {
        continue;
      }
      assert (retained + [all[i]])[..|retained|] == retained;
      retained := retained + [all[i]];
      total := total + size;
    }
  }

  method ShiftToLimit(items: seq<Item>) returns (r: seq<Item>)
    ensures r == Newest(items)
  {
    r := items;
    while |r| > LIMIT
      invariant |r| <= |items| && r == items[|items| - |r|..]
      invariant |r| >= LIMIT || |r| == |items|
    {
      r := r[1..];
    }
  }

  // ---------------------------------------------------------------- the cache's transitions

  datatype Hook = Hook(captured: seq<Item>, minimum: nat, fetched: nat)

  const START := Hook([], 0, 0)

  /** The place of the last item with the key of `x`. */
  function Find(s: seq<Item>, x: Item): (r: Option<nat>)
    ensures r.Some? ==> r.value < |s| && SameKey(s[r.value], x)
  {
    if |s| == 0 then None
    else if SameKey(s[|s| - 1], x) then Some(|s| - 1)
    else Find(s[..|s| - 1], x)
  }

  function Remove(s: seq<Item>, i: nat): seq<Item>
    requires i < |s|
  {
    s[..i] + s[i + 1..]
  }

  function Newest(s: seq<Item>): seq<Item> { if |s| > LIMIT then s[|s| - LIMIT..] else s }

  function Add(s: seq<Item>, x: Item): seq<Item> { Trim(Newest(s + [x])) }

  function Remember(h: Hook, item: Item): Hook {
    var x := Compact(item);
    if IsMain(x) && x.sequence.Some? && x.sequence.value < h.minimum then h
    else
      match Find(h.captured, x)
      case None => h.(captured := Add(h.captured, x))
      case Some(i) =>
        if !IsNewer(x, h.captured[i]) then h else h.(captured := Add(Remove(h.captured, i), x))
  }

  function NotMain(s: seq<Item>): seq<Item> {
    if |s| == 0 then []
    else NotMain(s[..|s| - 1]) + (if IsMain(s[|s| - 1]) then [] else [s[|s| - 1]])
  }

  function StartFetch(h: Hook): Hook { h.(fetched := h.fetched + 1) }

  function Forget(h: Hook): Hook { h.(minimum := h.fetched + 1, captured := NotMain(h.captured)) }

  function Refresh(h: Hook): Hook { StartFetch(Forget(h)) }

  /** Drops the response that `x` replaces, unless that one is newer. */
  method WithoutOlder(items: seq<Item>, x: Item) returns (stale: bool, rest: seq<Item>)
    ensures stale <==> Find(items, x).Some? && !IsNewer(x, items[Find(items, x).value])
    ensures !stale ==> rest == match Find(items, x) case None => items case Some(i) => Remove(items, i)
  {
    hide IsNewer, SameKey;
    stale, rest := false, items;
    var index := |items| - 1;
    assert items[..|items|] == items;
    while index >= 0
      invariant -1 <= index < |items| && rest == items && !stale
      invariant Find(items, x) == Find(items[..index + 1], x)
    {
      assert items[..index + 1][..index] == items[..index];
      if SameKey(items[index], x) {
        if !IsNewer(x, items[index]) {
          stale := true;
          return;
        }
        rest := items[..index] + items[index + 1..];
        return;
      }
      index := index - 1;
    }
  }

  method WithoutMain(items: seq<Item>) returns (r: seq<Item>)
    ensures r == NotMain(items)
  {
    r := items;
    var index := |items| - 1;
    while index >= 0
      invariant -1 <= index < |items|
      invariant r == items[..index + 1] + NotMainTail(items, index + 1)
    {
      hide IsMain;
      assert items[..index + 1] == items[..index] + [items[index]];
      if IsMain(r[index]) {
        r := r[..index] + r[index + 1..];
      }
      assert r == items[..index] + NotMainTail(items, index);
      index := index - 1;
    }
    NotMainSplits(items, 0);
    assert items[..0] == [];
  }

  /** The hook itself: one array and two counters that its functions change in place. */
  class Cache {
    var captured: seq<Item>
    var minimum: nat
    var fetched: nat

    ghost function State(): Hook
      reads this
    {
      Hook(captured, minimum, fetched)
    }

    constructor ()
      ensures State() == START
    {
      captured, minimum, fetched := [], 0, 0;
    }

    method RememberResponse(item: Item)
      modifies this`captured
      ensures State() == Remember(old(State()), item)
    {
      var x := Compact(item);
      if IsMain(x) && x.sequence.Some? && x.sequence.value < minimum {
        return;
      }
      var stale, rest := WithoutOlder(captured, x);
      if stale {
        return;
      }
      captured := rest;
      captured := captured + [x];
      captured := ShiftToLimit(captured);
      captured := TrimResponses(captured);
    }

    method StartRequest() returns (sequence: nat)
      modifies this`fetched
      ensures State() == StartFetch(old(State())) && sequence == fetched
    {
      fetched := fetched + 1;
      sequence := fetched;
    }

    method ForgetMainResponses()
      modifies this`minimum, this`captured
      ensures State() == Forget(old(State()))
    {
      minimum := fetched + 1;
      captured := WithoutMain(captured);
    }

    method RefreshUsage() returns (sequence: nat)
      modifies this
      ensures State() == Refresh(old(State())) && sequence == fetched
    {
      ForgetMainResponses();
      sequence := StartRequest();
    }
  }

  /** The items from position `i` on that are not main responses. */
  ghost function NotMainTail(s: seq<Item>, i: nat): seq<Item>
    requires i <= |s|
    decreases |s| - i
  {
    if i == |s| then [] else (if IsMain(s[i]) then [] else [s[i]]) + NotMainTail(s, i + 1)
  }

  lemma {:induction false} NotMainSplits(s: seq<Item>, i: nat)
    requires i <= |s|
    ensures NotMain(s) == NotMain(s[..i]) + NotMainTail(s, i)
    decreases |s| - i
  {
    if i < |s| {
      assert s[..i + 1][..i] == s[..i];
      NotMainSplits(s, i + 1);
    } else {
      assert s[..i] == s;
    }
  }

  // ---------------------------------------------------------------- what trimming keeps

  lemma {:induction false} TotalAdds(s: seq<Item>, t: seq<Item>)
    ensures Total(s + t) == Total(s) + Total(t)
  {
    hide Size;
    if |t| == 0 {
      assert s + t == s;
    } else {
      assert (s + t)[..|s + t| - 1] == s + t[..|t| - 1];
      TotalAdds(s, t[..|t| - 1]);
    }
  }

  lemma TotalOne(x: Item)
    ensures Total([x]) == Size(x)
  {
    assert [x][..0] == [];
  }

  lemma {:induction false} ReverseKeeps(s: seq<Item>)
    ensures |Reverse(s)| == |s| && multiset(Reverse(s)) == multiset(s)
    ensures |s| > 0 ==> Reverse(s)[|s| - 1] == s[0]
  {
    if |s| > 0 {
      var init, last := s[..|s| - 1], s[|s| - 1];
      ReverseKeeps(init);
      assert s == init + [last];
    }
  }

  lemma {:induction false} ReverseTotal(s: seq<Item>)
    ensures Total(Reverse(s)) == Total(s)
  {
    if |s| > 0 {
      hide Size;
      var init, last := s[..|s| - 1], s[|s| - 1];
      ReverseTotal(init);
      TotalAdds([last], Reverse(init));
      TotalOne(last);
    }
  }

  lemma Snoc<T>(s: seq<T>, x: T)
    ensures multiset(s + [x]) == multiset(s) + multiset{x}
  {}

  lemma {:induction false} FitKeeps(s: seq<Item>, n: nat)
    requires n <= |s|
    ensures multiset(Fit(s, n)) <= multiset(s[..n]) && |Fit(s, n)| <= n
  {
    hide Size, Total;
    if n > 0 {
      FitKeeps(s, n - 1);
      Snoc(Fit(s, n - 1), s[n - 1]);
      Snoc(s[..n - 1], s[n - 1]);
      assert s[..n] == s[..n - 1] + [s[n - 1]];
    }
  }

  lemma {:induction false} FitCaps(s: seq<Item>, n: nat)
    requires n <= |s|
    ensures Total(Fit(s, n)) <= MAX_CHARS
  {
    if n > 0 {
      hide Size;
      FitCaps(s, n - 1);
      TotalAdds(Fit(s, n - 1), [s[n - 1]]);
      TotalOne(s[n - 1]);
    }
  }

  lemma {:induction false} FitKeepsFirst(s: seq<Item>, n: nat)
    requires 0 < n <= |s| && Size(s[0]) <= MAX_CHARS
    ensures |Fit(s, n)| > 0 && Fit(s, n)[0] == s[0]
  {
    hide Size;
    if n > 1 { FitKeepsFirst(s, n - 1); } else { assert Fit(s, 0) == []; }
  }

  lemma DropOne<T>(s: seq<T>, k: nat)
    requires k < |s|
    ensures multiset(s[k..]) == multiset(s[k + 1..]) + multiset{s[k]}
  {
    assert s[k..] == [s[k]] + s[k + 1..];
  }

  lemma PrependOne<T>(x: T, s: seq<T>)
    ensures multiset([x] + s) == multiset(s) + multiset{x}
  {}

  lemma AppendOne<T>(s: seq<T>, t: seq<T>, x: T)
    ensures multiset(s + (t + [x])) == multiset(s + t) + multiset{x}
  {
    assert s + (t + [x]) == (s + t) + [x];
  }

  lemma {:induction false} SplitKeeps(s: seq<Item>, k: nat)
    requires k <= |s|
    ensures multiset(Lead(s, k) + Others(s, k)) == multiset(s[k..]) && |Lead(s, k) + Others(s, k)| == |s| - k
    decreases |s| - k
  {
    if k < |s| {
      SplitKeeps(s, k + 1);
      SplitAdds(s, k);
      DropOne(s, k);
      hide Lead, Others;
    }
  }

  lemma SplitAdds(s: seq<Item>, k: nat)
    requires k < |s|
    ensures multiset(Lead(s, k) + Others(s, k)) == multiset(Lead(s, k + 1) + Others(s, k + 1)) + multiset{s[k]}
    ensures |Lead(s, k) + Others(s, k)| == |Lead(s, k + 1) + Others(s, k + 1)| + 1
  {
    hide IsMain;
    var lead, others := Lead(s, k + 1), Others(s, k + 1);
    if MainFrom(s, k + 1).None? && IsMain(s[k]) {
      assert Lead(s, k) == [s[k]] && Others(s, k) == others && lead + others == others;
      PrependOne(s[k], others);
    } else {
      assert Lead(s, k) == lead && Others(s, k) == others + [s[k]];
      AppendOne(lead, others, s[k]);
    }
  }

  /**
   Trimming keeps some of the items, within the cap; the newest main response stays, in last place, if it fits at all.
   */
  lemma TrimKeeps(s: seq<Item>)
    ensures multiset(Trim(s)) <= multiset(s) && |Trim(s)| <= |s| && Total(Trim(s)) <= MAX_CHARS
    ensures LastMain(s).Some? && Size(LastMain(s).value) <= MAX_CHARS ==>
      |Trim(s)| > 0 && Trim(s)[|Trim(s)| - 1] == LastMain(s).value
  {
    var all := Lead(s, 0) + Others(s, 0);
    var kept := Fit(all, |all|);
    SplitKeeps(s, 0);
    assert s[0..] == s && all[..|all|] == all;
    FitKeeps(all, |all|);
    FitCaps(all, |all|);
    ReverseKeeps(kept);
    ReverseTotal(kept);
    if LastMain(s).Some? && Size(LastMain(s).value) <= MAX_CHARS {
      FitKeepsFirst(all, |all|);
    }
  }

  /** Each key occurs once. */
  ghost predicate OnePerKey(m: multiset<Item>) {
    && (forall x :: x in m ==> m[x] == 1)
    && (forall x, y :: x in m && y in m && SameKey(x, y) ==> x == y)
  }

  lemma FewerKeys(m: multiset<Item>, n: multiset<Item>)
    requires n <= m && OnePerKey(m)
    ensures OnePerKey(n)
  {
    forall x | x in n ensures n[x] == 1 { assert n[x] <= m[x]; }
    forall x, y | x in n && y in n && SameKey(x, y) ensures x == y { assert n[x] <= m[x] && n[y] <= m[y]; }
  }

  lemma {:induction false} FindMisses(s: seq<Item>, x: Item)
    requires Find(s, x).None?
    ensures forall y :: y in s ==> !SameKey(y, x)
  {
    if |s| > 0 {
      FindMisses(s[..|s| - 1], x);
      assert s == s[..|s| - 1] + [s[|s| - 1]];
    }
  }

  lemma RemoveKeeps(s: seq<Item>, i: nat)
    requires i < |s|
    ensures multiset(Remove(s, i)) == multiset(s) - multiset{s[i]}
  {
    assert s == s[..i] + [s[i]] + s[i + 1..];
  }

  // ---------------------------------------------------------------- the invariant

  /** A response as the fetch hook builds it: from a numbered fetch that has started, with bounded text. */
  predicate FromFetch(x: Item, h: Hook) {
    && x.source == PAGE_FETCH && x.sequence.Some? && 0 < x.sequence.value <= h.fetched
    && |x.bodyText| <= 2_000_000 && x.body == "" && x.text == "" && |x.excerpt| <= EXCERPT_CHARS
  }

  lemma CompactBounded(x: Item, h: Hook)
    requires FromFetch(x, h)
    ensures FromFetch(Compact(x), h) && Size(Compact(x)) <= MAX_CHARS && Compact(x).url == x.url
    ensures Compact(x).sequence == x.sequence
  {}

  /** Everything that holds of the items but their number and places. */
  ghost predicate Items(s: seq<Item>, h: Hook) {
    && OnePerKey(multiset(s))
    && (forall x :: x in s ==> FromFetch(x, h))
    && (forall x :: x in s && IsMain(x) ==> x.sequence.value >= h.minimum)
  }

  ghost predicate MainLast(s: seq<Item>) { forall i :: 0 <= i < |s| && IsMain(s[i]) ==> i == |s| - 1 }

  ghost predicate Placed(s: seq<Item>, h: Hook) { |s| <= LIMIT && Items(s, h) && MainLast(s) }

  ghost predicate Inv(h: Hook) {
    h.minimum <= h.fetched && Placed(h.captured, h) && Total(h.captured) <= MAX_CHARS
  }

  lemma LastMainExact(s: seq<Item>)
    ensures LastMain(s).None? <==> forall x :: x in s ==> !IsMain(x)
    ensures LastMain(s).Some? ==> LastMain(s).value in s && IsMain(LastMain(s).value)
    ensures |s| > 0 && IsMain(s[|s| - 1]) ==> LastMain(s) == Some(s[|s| - 1])
  {
    MainFromExact(s, 0);
    hide IsMain;
    if LastMain(s).None? {
      forall x | x in s ensures !IsMain(x) {
        var i :| 0 <= i < |s| && s[i] == x;
      }
    }
  }

  lemma {:induction false} MainFromExact(s: seq<Item>, k: nat)
    requires k <= |s|
    ensures MainFrom(s, k).None? ==> forall i :: k <= i < |s| ==> !IsMain(s[i])
    ensures MainFrom(s, k).Some? ==> exists i :: k <= i < |s| && s[i] == MainFrom(s, k).value && IsMain(s[i])
    ensures k < |s| && IsMain(s[|s| - 1]) ==> MainFrom(s, k) == Some(s[|s| - 1])
    decreases |s| - k
  {
    hide IsMain;
    if k < |s| {
      MainFromExact(s, k + 1);
    }
  }

  lemma Repeats(s: seq<Item>, i: nat, j: nat)
    requires i < j < |s| && OnePerKey(multiset(s))
    ensures !SameKey(s[i], s[j])
  {
    assert s == s[..j] + [s[j]] + s[j + 1..];
    assert s[i] in s[..j];
    assert s[i] in multiset(s) && s[j] in multiset(s);
    assert s[i] == s[j] ==> multiset(s)[s[i]] >= 2;
  }

  lemma MembersOf(m: seq<Item>, n: seq<Item>)
    requires multiset(m) <= multiset(n)
    ensures forall x :: x in m ==> x in n
  {
    forall x | x in m ensures x in n { assert multiset(m)[x] <= multiset(n)[x]; }
  }

  lemma FewerItems(m: seq<Item>, n: seq<Item>, h: Hook)
    requires multiset(m) <= multiset(n) && Items(n, h)
    ensures Items(m, h)
  {
    MembersOf(m, n);
    FewerKeys(multiset(n), multiset(m));
  }

  /** A list whose last element is a main response holds no other. */
  lemma OnlyMain(s: seq<Item>, h: Hook, i: nat)
    requires Items(s, h) && i < |s| && IsMain(s[i]) && IsMain(s[|s| - 1])
    ensures i == |s| - 1
  {
    assert s[i] in s && s[|s| - 1] in s;
    if i < |s| - 1 { Repeats(s, i, |s| - 1); }
  }

  lemma NewestKeeps(s: seq<Item>, x: Item)
    requires |s| <= LIMIT
    ensures var r := Newest(s + [x]);
            && multiset(r) <= multiset(s + [x]) && |r| <= LIMIT
            && (LastMain(s).Some? && IsMain(s[|s| - 1]) ==> s[|s| - 1] in r)
            && x in r
  {
    var t := s + [x];
    var r := Newest(t);
    assert t[|s|] == x && r[|r| - 1] == x;
    if |t| > LIMIT {
      assert r == t[1..] && t == [t[0]] + r;
      assert r[|s| - 2] == s[|s| - 1];
    }
  }

  lemma AddContents(h: Hook, s: seq<Item>, x: Item)
    requires Items(s + [x], h) && |s| <= LIMIT
    ensures var c := Add(s, x);
            && Items(c, h) && |c| <= LIMIT && Total(c) <= MAX_CHARS && multiset(c) <= multiset(s + [x])
  {
    var t := s + [x];
    var r := Newest(t);
    NewestKeeps(s, x);
    TrimKeeps(r);
    hide Trim, Newest, Total, Items;
    FewerItems(r, t, h);
    FewerItems(Trim(r), r, h);
  }

  /** The main response among the old items and the new one ends up last. */
  lemma AddPlacesMain(h: Hook, s: seq<Item>, x: Item, main: Item)
    requires Items(s + [x], h) && |s| <= LIMIT && IsMain(main)
    requires main == x || (|s| > 0 && main == s[|s| - 1] && LastMain(s).Some?)
    ensures var c := Add(s, x);
            |c| > 0 && c[|c| - 1] == main && LastMain(c) == Some(main) && MainLast(c)
  {
    hide OnePerKey, FromFetch, Size, SameKey, Trim, Newest, LastMain, Total;
    var t := s + [x];
    var r := Newest(t);
    NewestKeeps(s, x);
    assert main in t && main in r;
    MainOf(t, h, main, r);
    TrimKeeps(r);
    AddContents(h, s, x);
    var c := Add(s, x);
    LastMainExact(c);
    hide Items, Add;
    forall i | 0 <= i < |c| && IsMain(c[i]) ensures i == |c| - 1 { OnlyMain(c, h, i); }
  }

  lemma PlacedMain(s: seq<Item>, h: Hook)
    requires Placed(s, h)
    ensures LastMain(s).Some? ==>
      |s| > 0 && LastMain(s).value == s[|s| - 1] && IsMain(s[|s| - 1]) && s[|s| - 1].sequence.Some?
  {
    hide OnePerKey;
    LastMainExact(s);
  }

  /** Adding a response of a new key keeps the invariant, and the current main response unless a main one is added. */
  lemma AddKeeps(h: Hook, s: seq<Item>, x: Item)
    requires Placed(s, h) && FromFetch(x, h) && h.minimum <= h.fetched
    requires (forall y :: y in s ==> !SameKey(y, x)) && (IsMain(x) ==> x.sequence.value >= h.minimum)
    ensures Inv(h.(captured := Add(s, x)))
    ensures LastMain(Add(s, x)) == if IsMain(x) then Some(x) else LastMain(s)
  {
    hide Total, Add, LastMain;
    PlacedMain(s, h);
    AddItem(s, x, h);
    AddContents(h, s, x);
    hide FromFetch, SameKey, OnePerKey;
    if IsMain(x) {
      AddPlacesMain(h, s, x, x);
    } else if LastMain(s).Some? {
      AddPlacesMain(h, s, x, s[|s| - 1]);
    } else {
      NoMainAdded(s, x);
    }
    FenceDependsOnly(Add(s, x), h, h.(captured := Add(s, x)));
  }

  /** The fence and the fetch counter are all that the contents are measured against. */
  lemma FenceDependsOnly(s: seq<Item>, h: Hook, g: Hook)
    requires Items(s, h) && g.minimum <= h.minimum && h.fetched <= g.fetched
    ensures Items(s, g)
  {}

  lemma NoMainAdded(s: seq<Item>, x: Item)
    requires LastMain(s).None? && !IsMain(x) && |s| <= LIMIT
    ensures LastMain(Add(s, x)).None? && forall y :: y in Add(s, x) ==> !IsMain(y)
  {
    LastMainExact(s);
    NewestKeeps(s, x);
    TrimKeeps(Newest(s + [x]));
    MembersOf(Newest(s + [x]), s + [x]);
    MembersOf(Add(s, x), Newest(s + [x]));
    LastMainExact(Add(s, x));
  }

  lemma AddItem(s: seq<Item>, x: Item, h: Hook)
    requires Items(s, h) && FromFetch(x, h) && (forall y :: y in s ==> !SameKey(y, x))
    requires IsMain(x) ==> x.sequence.value >= h.minimum
    ensures Items(s + [x], h)
  {
    hide FromFetch;
    Snoc(s, x);
    OneMoreKey(multiset(s), x);
    hide OnePerKey, SameKey;
    assert forall y :: y in s + [x] <==> y in s || y == x;
  }

  lemma OneMoreKey(m: multiset<Item>, x: Item)
    requires OnePerKey(m) && forall y :: y in m ==> !SameKey(y, x)
    ensures OnePerKey(m + multiset{x})
  {
    assert SameKey(x, x);
    assert m[x] == 0;
    forall y, z | y in m + multiset{x} && z in m + multiset{x} && SameKey(y, z) ensures y == z {
      assert SameKey(z, y);
    }
  }

  /** The main response of a list, seen in a part of it. */
  lemma MainOf(t: seq<Item>, h: Hook, main: Item, r: seq<Item>)
    requires Items(t, h) && main in t && IsMain(main) && multiset(r) <= multiset(t) && main in r
    ensures LastMain(r) == Some(main) && Size(main) <= MAX_CHARS
  {
    MembersOf(r, t);
    LastMainExact(r);
    var found := LastMain(r).value;
    assert found in multiset(t) && main in multiset(t);
    assert SameKey(found, main);
  }

  /** Taking out the response that is being replaced. */
  lemma RemoveForReplacement(h: Hook, x: Item, i: nat)
    requires Placed(h.captured, h) && i < |h.captured| && SameKey(h.captured[i], x)
    ensures Placed(Remove(h.captured, i), h)
    ensures forall y :: y in Remove(h.captured, i) ==> !SameKey(y, x)
    ensures !IsMain(x) ==> LastMain(Remove(h.captured, i)) == LastMain(h.captured)
  {
    var s := Remove(h.captured, i);
    RemoveKeeps(h.captured, i);
    assert h.captured[i] in multiset(h.captured);
    forall y | y in s ensures !SameKey(y, x) {
      assert y in multiset(s) && y in multiset(h.captured);
    }
    FewerItems(s, h.captured, h);
    RemoveMain(h.captured, i);
  }

  lemma RemoveMain(s: seq<Item>, i: nat)
    requires i < |s| && MainLast(s)
    ensures MainLast(Remove(s, i)) && |Remove(s, i)| < |s|
    ensures !IsMain(s[i]) ==> LastMain(Remove(s, i)) == LastMain(s)
  {
    var r := Remove(s, i);
    assert forall j :: 0 <= j < |r| ==> r[j] == s[if j < i then j else j + 1];
    LastMainExact(r);
    LastMainExact(s);
    if LastMain(s).Some? {
      var j :| 0 <= j < |s| && s[j] == LastMain(s).value;
      if !IsMain(s[i]) { assert r[|r| - 1] == s[|s| - 1]; }
    } else {
      forall j | 0 <= j < |r| ensures !IsMain(r[j]) {
        assert s[if j < i then j else j + 1] in s;
      }
    }
  }

  /**
   The main response after one arrival: the arriving one if it is main, not from before the fence and not overtaken.
   */
  function NextMain(main: Option<Item>, item: Item, minimum: nat): Option<Item>
    requires item.sequence.Some? && (main.Some? ==> main.value.sequence.Some?)
  {
    if !IsMain(item) || item.sequence.value < minimum then main
    else if main.Some? && item.sequence.value < main.value.sequence.value then main
    else Some(Compact(item))
  }

  lemma RememberNew(h: Hook, item: Item)
    requires Inv(h) && FromFetch(item, h) && Find(h.captured, Compact(item)).None?
    requires LastMain(h.captured).Some? ==> LastMain(h.captured).value.sequence.Some?
    ensures Inv(Remember(h, item))
    ensures LastMain(Remember(h, item).captured) == NextMain(LastMain(h.captured), item, h.minimum)
  {
    hide Compact, Add, LastMain, Total, OnePerKey;
    var x := Compact(item);
    CompactBounded(item, h);
    PlacedMain(h.captured, h);
    FindMisses(h.captured, x);
    if !(IsMain(x) && x.sequence.value < h.minimum) {
      AddKeeps(h, h.captured, x);
      assert LastMain(h.captured).Some? ==> h.captured[|h.captured| - 1] in h.captured;
    }
  }

  lemma RememberAgain(h: Hook, item: Item, i: nat)
    requires Inv(h) && FromFetch(item, h) && Find(h.captured, Compact(item)) == Some(i)
    requires LastMain(h.captured).Some? ==> LastMain(h.captured).value.sequence.Some?
    ensures Inv(Remember(h, item))
    ensures LastMain(Remember(h, item).captured) == NextMain(LastMain(h.captured), item, h.minimum)
  {
    hide Compact, Add, LastMain, Total, OnePerKey, Remove;
    var x := Compact(item);
    CompactBounded(item, h);
    RemoveForReplacement(h, x, i);
    MainFound(h, x, i);
    if !(IsMain(x) && x.sequence.value < h.minimum) && IsNewer(x, h.captured[i]) {
      AddKeeps(h, Remove(h.captured, i), x);
    }
  }

  lemma RememberKeeps(h: Hook, item: Item)
    requires Inv(h) && FromFetch(item, h)
    ensures LastMain(h.captured).Some? ==> LastMain(h.captured).value.sequence.Some?
    ensures Inv(Remember(h, item))
    ensures LastMain(Remember(h, item).captured) == NextMain(LastMain(h.captured), item, h.minimum)
  {
    PlacedMain(h.captured, h);
    hide Inv, FromFetch, Remember, LastMain, Compact, NextMain;
    match Find(h.captured, Compact(item))
    case None => RememberNew(h, item);
    case Some(i) => RememberAgain(h, item, i);
  }

  /** A cached response with the key of a main one is the main response. */
  lemma MainFound(h: Hook, x: Item, i: nat)
    requires Placed(h.captured, h) && i < |h.captured| && SameKey(h.captured[i], x)
    ensures h.captured[i].sequence.Some?
    ensures IsMain(x) ==> LastMain(h.captured) == Some(h.captured[i])
  {
    hide OnePerKey;
    LastMainExact(h.captured);
    assert h.captured[i] in h.captured;
  }

  lemma ForgetKeeps(h: Hook)
    requires Inv(h)
    ensures Inv(Refresh(h)) && LastMain(Refresh(h).captured).None?
  {
    hide OnePerKey, FromFetch, NotMain, Total, LastMain;
    var s := NotMain(h.captured);
    NotMainKeeps(h.captured);
    NotMainTotal(h.captured);
    FewerItems(s, h.captured, h);
    LastMainExact(s);
    MovedFence(s, h, Refresh(h));
  }

  /** Without a main response only the fetch counter matters. */
  lemma MovedFence(s: seq<Item>, h: Hook, g: Hook)
    requires Items(s, h) && h.fetched <= g.fetched && forall x :: x in s ==> !IsMain(x)
    ensures Items(s, g)
  {
    hide OnePerKey;
  }

  lemma {:induction false} NotMainKeeps(s: seq<Item>)
    ensures multiset(NotMain(s)) <= multiset(s) && |NotMain(s)| <= |s|
    ensures forall x :: x in NotMain(s) ==> !IsMain(x)
  {
    if |s| > 0 {
      NotMainKeeps(s[..|s| - 1]);
      assert s == s[..|s| - 1] + [s[|s| - 1]];
    }
  }

  lemma {:induction false} NotMainTotal(s: seq<Item>)
    ensures Total(NotMain(s)) <= Total(s)
  {
    if |s| > 0 {
      hide Size;
      var rest, last := NotMain(s[..|s| - 1]), s[|s| - 1];
      NotMainTotal(s[..|s| - 1]);
      TotalAdds(rest, [last]);
      TotalOne(last);
      assert rest + [] == rest;
    }
  }

  // ---------------------------------------------------------------- runs

  /**
   What can happen to the hook: a page fetch starts, a refresh starts, a response of some started fetch arrives, however
   late.
   */
  datatype Event = FetchStarts | RefreshStarts | Arrives(item: Item)

  /**
   The hook after a run, the number of fetches begun before the latest refresh, and the main response it should hold.
   */
  datatype Run = Run(hook: Hook, before: nat, main: Option<Item>)

  ghost predicate Legal(events: seq<Event>) {
    |events| > 0 ==>
      var init, last := events[..|events| - 1], events[|events| - 1];
      Legal(init) && (last.Arrives? ==> FromFetch(last.item, After(init).hook))
  }

  /**
   `main` is followed by its own rule, without the cache: the newest arrival among the main responses since the refresh.
   */
  function After(events: seq<Event>): Run {
    if |events| == 0 then Run(START, 0, None) else Next(After(events[..|events| - 1]), events[|events| - 1])
  }

  function Next(r: Run, event: Event): Run {
    match event
    case FetchStarts => r.(hook := StartFetch(r.hook))
    case RefreshStarts => Run(Refresh(r.hook), r.hook.fetched, None)
    case Arrives(x) =>
      r.(hook := Remember(r.hook, x),
         main := if IsMain(x) && x.sequence.Some? && x.sequence.value > r.before
                    && (r.main.None? || r.main.value.sequence.None? || x.sequence.value >= r.main.value.sequence.value)
                 then Some(Compact(x)) else r.main)
  }

  ghost predicate RunOk(r: Run) {
    && Inv(r.hook) && LastMain(r.hook.captured) == r.main
    && (r.hook.minimum == r.before + 1 || (r.hook.minimum == 0 && r.before == 0))
  }

  lemma {:induction false} RunsStayOk(events: seq<Event>)
    requires Legal(events)
    ensures RunOk(After(events))
  {
    if |events| > 0 {
      RunsStayOk(events[..|events| - 1]);
      EventKeeps(After(events[..|events| - 1]), events[|events| - 1]);
      hide RunOk, Next;
    }
  }

  lemma EventKeeps(r: Run, event: Event)
    requires RunOk(r) && (event.Arrives? ==> FromFetch(event.item, r.hook))
    ensures RunOk(Next(r, event))
  {
    match event
    case FetchStarts =>
      FenceDependsOnly(r.hook.captured, r.hook, StartFetch(r.hook));
    case RefreshStarts =>
      ForgetKeeps(r.hook);
    case Arrives(x) =>
      RememberKeeps(r.hook, x);
      hide Remember, LastMain, Inv, Compact;
  }

  /**
   In every run of fetches, refreshes and late arrivals: at most one entry per key, at most 50 of them, the text within
   its cap, no main response from a fetch started before the latest refresh, and the main response held is exactly the
   most recently started one that has arrived since, so that no other traffic evicts it.
   */
  lemma EveryRunIsSafe(events: seq<Event>)
    requires Legal(events)
    ensures var r := After(events); var s := r.hook.captured;
            && |s| <= LIMIT && Total(s) <= MAX_CHARS
            && (forall i, j :: 0 <= i < j < |s| ==> !SameKey(s[i], s[j]))
            && (forall i :: 0 <= i < |s| && IsMain(s[i]) ==> s[i].sequence.Some? && s[i].sequence.value > r.before)
            && LastMain(s) == r.main
  {
    RunsStayOk(events);
    var s := After(events).hook.captured;
    forall i, j | 0 <= i < j < |s| ensures !SameKey(s[i], s[j]) { Repeats(s, i, j); }
    forall i | 0 <= i < |s| && IsMain(s[i]) ensures s[i].sequence.Some? && s[i].sequence.value > After(events).before {
      assert s[i] in s;
    }
  }
}
