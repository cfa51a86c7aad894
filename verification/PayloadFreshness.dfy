/**
 * What an ingest payload offers for loading, on the fields of its raw items: of each source and address the content
 * with the highest request number, and nothing else.
 */
module PayloadFreshness {
  import opened Wrappers
  import opened BridgeCandidates
  import opened CandidateOrder

  // ---------------------------------------------------------------- single items

  /** The item is from the source, and its address is redacted to `url`. */
  predicate About(x: Item, redact: Redactor, source: string, url: string) {
    && x.Item? && x.source == Some(source) && x.url.Some? && redact(x.url.value) == url && url != ""
    && source in {"", "content-probe", "page-fetch", "page-hook", "page-refresh"}
  }

  predicate NumberedItem(x: Item) { x.Item? && x.sequence.Sequence? && x.sequence.value >= 0 }

  predicate UnnumberedItem(x: Item) { x.Item? && x.sequence.NoSequence? }

  /** An item that counts for the source and address: its number is well formed, or it has none. */
  predicate Counts(x: Item, redact: Redactor, source: string, url: string) {
    About(x, redact, source, url) && (NumberedItem(x) || UnnumberedItem(x))
  }

  /** No object, an unknown source, no usable address, or a malformed number. */
  predicate Useless(x: Item, redact: Redactor) {
    || x.NotAnObject?
    || x.source.None? || x.source.value !in {"", "content-probe", "page-fetch", "page-hook", "page-refresh"}
    || x.url.None? || redact(x.url.value) == ""
    || x.sequence.MalformedSequence? || (x.sequence.Sequence? && x.sequence.value < 0)
  }

  function NumberOf(x: Item): Option<nat>
    requires NumberedItem(x) || UnnumberedItem(x)
  {
    if x.sequence.NoSequence? then None else Some(x.sequence.value)
  }

  lemma AcceptExactly(x: Item, redact: Redactor)
    ensures Accept(x, redact).None? <==> Useless(x, redact)
    ensures forall source, url :: Counts(x, redact, source, url) ==>
      Accept(x, redact) == Some(Response(Key(source, url), NumberOf(x), x.content))
    ensures Accept(x, redact).Some? ==>
      Counts(x, redact, Accept(x, redact).value.key.source, Accept(x, redact).value.key.url)
  {}

  // ---------------------------------------------------------------- all items

  /** Items that do not count for anything change nothing. */
  lemma {:induction false} UselessChangesNothing(items: seq<Item>, i: nat, redact: Redactor)
    requires i < |items| && Useless(items[i], redact)
    ensures AcceptAll(items[..i] + items[i + 1..], redact) == AcceptAll(items, redact)
  {
    var n := |items| - 1;
    hide Accept, Useless;
    if i == n {
      AcceptExactly(items[n], redact);
      assert items[..i] + items[i + 1..] == items[..n];
    } else {
      UselessChangesNothing(items[..n], i, redact);
      var rest := items[..i] + items[i + 1..];
      assert rest[..|rest| - 1] == items[..n][..i] + items[..n][i + 1..] && rest[|rest| - 1] == items[n];
    }
  }

  lemma {:induction false} Accepted(items: seq<Item>, redact: Redactor, i: nat)
    requires i < |items| && Accept(items[i], redact).Some?
    ensures Accept(items[i], redact).value in AcceptAll(items, redact)
  {
    var n := |items| - 1;
    hide Accept;
    if i < n { Accepted(items[..n], redact, i); }
  }

  lemma {:induction false} AcceptedFrom(items: seq<Item>, redact: Redactor, r: Response) returns (i: nat)
    requires r in AcceptAll(items, redact)
    ensures i < |items| && Accept(items[i], redact) == Some(r)
  {
    var n := |items| - 1;
    hide Accept;
    if Accept(items[n], redact) == Some(r) { i := n; } else { i := AcceptedFrom(items[..n], redact, r); }
  }

  /** Where a counting item appears among the accepted responses. */
  lemma CountingAccepted(items: seq<Item>, redact: Redactor, source: string, url: string, i: nat) returns (p: nat)
    requires i < |items| && Counts(items[i], redact, source, url)
    ensures var rs := AcceptAll(items, redact);
      p < |rs| && rs[p] == Response(Key(source, url), NumberOf(items[i]), items[i].content)
  {
    AcceptExactly(items[i], redact);
    hide Accept, AcceptAll, Counts;
    Accepted(items, redact, i);
    var rs := AcceptAll(items, redact);
    p :| 0 <= p < |rs| && rs[p] == Response(Key(source, url), NumberOf(items[i]), items[i].content);
  }

  /** The counting item behind an accepted response. */
  lemma ItemBehind(items: seq<Item>, redact: Redactor, p: nat) returns (i: nat)
    requires p < |AcceptAll(items, redact)|
    ensures var r := AcceptAll(items, redact)[p];
      && i < |items| && Counts(items[i], redact, r.key.source, r.key.url)
      && NumberOf(items[i]) == r.sequence && items[i].content == r.content
  {
    i := AcceptedFrom(items, redact, AcceptAll(items, redact)[p]);
    AcceptExactly(items[i], redact);
  }

  /** `n` is the highest number of an item for the source and address. */
  ghost predicate Highest(items: seq<Item>, redact: Redactor, source: string, url: string, n: nat) {
    && (exists i :: 0 <= i < |items| && Carries(items[i], redact, source, url, n))
    && forall i :: 0 <= i < |items| && Counts(items[i], redact, source, url) && NumberedItem(items[i]) ==>
         items[i].sequence.value <= n
  }

  /** The item counts for the source and address, with number `n`. */
  predicate Carries(x: Item, redact: Redactor, source: string, url: string, n: nat) {
    Counts(x, redact, source, url) && x.sequence == Sequence(n)
  }

  /** All items with number `n` hold the same. */
  ghost predicate Agree(items: seq<Item>, redact: Redactor, source: string, url: string, n: nat) {
    forall i, j ::
      && 0 <= i < |items| && 0 <= j < |items|
      && Carries(items[i], redact, source, url, n) && Carries(items[j], redact, source, url, n)
      ==> items[i].content == items[j].content
  }

  /** All items with number `n` hold `content`. */
  ghost predicate AllHold(items: seq<Item>, redact: Redactor, source: string, url: string, n: nat, content: string) {
    forall i :: 0 <= i < |items| && Carries(items[i], redact, source, url, n) ==> items[i].content == content
  }

  /** What the payload offers for loading, by source and address. */
  function Offered(items: seq<Item>, redact: Redactor): map<Key, Response> { Survivors(AcceptAll(items, redact)) }

  /** The winner of a numbered key has the highest number. */
  lemma WinnerIsHighest(items: seq<Item>, redact: Redactor, source: string, url: string, n: nat) returns (w: nat)
    requires Highest(items, redact, source, url, n)
    ensures var rs, k := AcceptAll(items, redact), Key(source, url);
      && Wins(rs, w) && rs[w].key == k && rs[w].sequence == Some(n)
      && (k in Survivors(rs) <==> !Contested(rs, w)) && (k in Survivors(rs) ==> Survivors(rs)[k] == rs[w])
  {
    var rs, k := AcceptAll(items, redact), Key(source, url);
    var i :| 0 <= i < |items| && Carries(items[i], redact, source, url, n);
    var p := CountingAccepted(items, redact, source, url, i);
    hide AcceptAll, FoldOf, About, Contested;
    assert HasKey(rs, k);
    w := FoldKeepsWinner(rs, k);
    assert Wins(rs, w) && rs[p].key == rs[w].key;
    var j := ItemBehind(items, redact, w);
  }

  /**
   Of a source and address with a numbered item, only the content of an item with the highest number is ever offered,
   and it is offered exactly if no other item with that number differs.
   */
  lemma HighestIsOffered(items: seq<Item>, redact: Redactor, source: string, url: string, n: nat)
    requires Highest(items, redact, source, url, n)
    ensures Key(source, url) in Offered(items, redact) <==> Agree(items, redact, source, url, n)
    ensures Key(source, url) in Offered(items, redact) ==>
      var r := Offered(items, redact)[Key(source, url)];
      r.key == Key(source, url) && r.sequence == Some(n) && AllHold(items, redact, source, url, n, r.content)
  {
    var rs, k := AcceptAll(items, redact), Key(source, url);
    var w := WinnerIsHighest(items, redact, source, url, n);
    hide AcceptAll, FoldOf, About, Survivors;
    var v := ItemBehind(items, redact, w);
    if Contested(rs, w) {
      var x :| 0 <= x < |rs| && rs[x].key == rs[w].key && rs[x].sequence == rs[w].sequence &&
        rs[x].content != rs[w].content;
      var j := ItemBehind(items, redact, x);
      assert Carries(items[v], redact, source, url, n) && Carries(items[j], redact, source, url, n);
    } else {
      forall i | 0 <= i < |items| && Carries(items[i], redact, source, url, n)
        ensures items[i].content == rs[w].content
      {
        var p := CountingAccepted(items, redact, source, url, i);
      }
    }
  }

  /** No item after position `i` counts for the source and address. */
  ghost predicate LastFor(items: seq<Item>, redact: Redactor, source: string, url: string, i: nat) {
    i < |items| && Counts(items[i], redact, source, url) &&
      forall j :: i < j < |items| ==> !Counts(items[j], redact, source, url)
  }

  lemma {:induction false} LastAccepted(items: seq<Item>, redact: Redactor, source: string, url: string, i: nat)
    returns (p: nat)
    requires LastFor(items, redact, source, url, i)
    ensures var rs := AcceptAll(items, redact);
      && p < |rs| && rs[p] == Response(Key(source, url), NumberOf(items[i]), items[i].content)
      && forall q :: p < q < |rs| ==> rs[q].key != Key(source, url)
  {
    var n := |items| - 1;
    AcceptExactly(items[n], redact);
    hide Accept, Counts;
    if i == n {
      p := |AcceptAll(items[..n], redact)|;
    } else {
      p := LastAccepted(items[..n], redact, source, url, i);
    }
  }

  /** Of a source and address without any number, the last item to arrive is offered. */
  lemma LastIsOffered(items: seq<Item>, redact: Redactor, source: string, url: string, i: nat)
    requires LastFor(items, redact, source, url, i)
    requires forall j :: 0 <= j < |items| && Counts(items[j], redact, source, url) ==> UnnumberedItem(items[j])
    ensures Key(source, url) in Offered(items, redact)
    ensures Offered(items, redact)[Key(source, url)] == Response(Key(source, url), None, items[i].content)
  {
    var rs, k := AcceptAll(items, redact), Key(source, url);
    var p := LastAccepted(items, redact, source, url, i);
    hide AcceptAll, FoldOf, About;
    assert HasKey(rs, k);
    var w := FoldKeepsWinner(rs, k);
    var j := ItemBehind(items, redact, w);
    assert Wins(rs, w) && rs[p].key == rs[w].key;
  }

  ghost predicate SomeHolds(items: seq<Item>, redact: Redactor, source: string, url: string, content: string) {
    exists i :: 0 <= i < |items| && Counts(items[i], redact, source, url) && items[i].content == content
  }

  /** Nothing is offered of a source and address without an item that counts. */
  lemma OnlyCountingIsOffered(items: seq<Item>, redact: Redactor, source: string, url: string)
    requires Key(source, url) in Offered(items, redact)
    ensures SomeHolds(items, redact, source, url, Offered(items, redact)[Key(source, url)].content)
  {
    var rs := AcceptAll(items, redact);
    SurvivorIsNewest(rs, Key(source, url));
    hide AcceptAll, Survivors, About;
    var w: nat :| Wins(rs, w) && rs[w].key == Key(source, url) && Survivors(rs)[Key(source, url)] == rs[w];
    var i := ItemBehind(items, redact, w);
  }

  // ---------------------------------------------------------------- the list that is returned

  function SourceRank(source: string): nat {
    match source
    case "content-probe" => 1
    case "page-refresh" => 2
    case "page-fetch" => 3
    case _ => 0
  }

  /** `x` is at most as fresh as `y`: by number, none being the lowest, and then by source. */
  predicate AtMostAsFresh(x: Response, y: Response) {
    || (x.sequence.None? && y.sequence.Some?)
    || (x.sequence.Some? && y.sequence.Some? && x.sequence.value < y.sequence.value)
    || (x.sequence == y.sequence && SourceRank(x.key.source) <= SourceRank(y.key.source))
  }

  lemma FreshExactly(x: Response, y: Response)
    ensures AsFresh(x, y) <==> AtMostAsFresh(x, y)
  {}

  ghost predicate Once(order: seq<Response>) { forall i, j :: 0 <= i < j < |order| ==> order[i].key != order[j].key }

  ghost predicate FreshestLast(order: seq<Response>) {
    forall i, j :: 0 <= i < j < |order| ==> AtMostAsFresh(order[i], order[j])
  }

  /**
   The candidates returned for a payload are what the offered responses load to: each usable one once, ordered by number
   and then by source, and no other.
   */
  lemma CandidatesAreOffered(items: seq<Item>, redact: Redactor, load: Loader) returns (order: seq<Response>)
    ensures var texts := Texts(Output(AcceptAll(items, redact), load));
      |texts| == |order| && forall i :: 0 <= i < |order| ==> load(order[i]) == Some(texts[i])
    ensures forall k :: k in Offered(items, redact) && load(Offered(items, redact)[k]).Some? ==>
      Offered(items, redact)[k] in order
    ensures forall r :: r in order ==> r.key in Offered(items, redact) && Offered(items, redact)[r.key] == r
    ensures Once(order) && FreshestLast(order)
  {
    var rs := AcceptAll(items, redact);
    OutputExact(rs, load);
    hide AcceptAll, Survivors, Output, AsFresh, AtMostAsFresh;
    var out := Output(rs, load);
    order := Plain(out);
    forall i | 0 <= i < |order|
      ensures load(order[i]) == Some(Texts(out)[i])
      ensures order[i].key in Survivors(rs) && Survivors(rs)[order[i].key] == order[i]
    {
      assert out[i] in out;
    }
    forall k | k in Survivors(rs) && load(Survivors(rs)[k]).Some? ensures Survivors(rs)[k] in order {
      var e :| e in out && e.response == Survivors(rs)[k];
      var i :| 0 <= i < |out| && out[i] == e;
      assert order[i] == Survivors(rs)[k];
    }
    forall i, j | 0 <= i < j < |order| ensures AtMostAsFresh(order[i], order[j]) {
      FreshExactly(order[i], order[j]);
      assert AsFresh(out[i].response, out[j].response);
    }
  }

  function ItemsOf(field: Option<seq<Item>>): seq<Item> { if field.Some? then field.value else [] }

  /** The items of a payload are those of its two fields, one after the other; a field that is no list has none. */
  lemma ItemsOfFields(first: Option<seq<Item>>, second: Option<seq<Item>>)
    ensures Flatten([first, second]) == ItemsOf(first) + ItemsOf(second)
  {
    assert [first][..0] == [] && [first, second][..1] == [first];
    assert Flatten([first]) == [] + ItemsOf(first);
  }

  /** A newer response that arrives first is kept: the older one that arrives later is never offered. */
  lemma LateArrivalIsNotOffered(redact: Redactor, address: string)
    requires redact(address) != ""
    ensures var newer := Item(Some("page-hook"), Some(address), Sequence(2), "new");
      var older := Item(Some("page-hook"), Some(address), Sequence(1), "old");
      Offered([newer, older], redact) == map[Key("page-hook", redact(address)) :=
        Response(Key("page-hook", redact(address)), Some(2), "new")]
  {
    var newer := Item(Some("page-hook"), Some(address), Sequence(2), "new");
    var older := Item(Some("page-hook"), Some(address), Sequence(1), "old");
    var items, k := [newer, older], Key("page-hook", redact(address));
    assert Carries(items[0], redact, "page-hook", redact(address), 2);
    HighestIsOffered(items, redact, "page-hook", redact(address), 2);
    forall other | other in Offered(items, redact) ensures other == k {
      OnlyCountingIsOffered(items, redact, other.source, other.url);
    }
    hide Offered;
    assert Key("page-hook", redact(address)) in Offered(items, redact);
  }
}
