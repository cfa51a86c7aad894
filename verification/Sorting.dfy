/** The stable sort behind Python's `sorted` and `list.sort`, with the three facts that fix its result. */
module Sorting {

  /** `leq` ranks values: any two are comparable, and ranking is transitive. */
  ghost predicate Ranking<T(!new)>(leq: (T, T) -> bool) {
    && (forall x, y :: leq(x, y) || leq(y, x))
    && (forall x, y, z :: leq(x, y) && leq(y, z) ==> leq(x, z))
  }

  ghost predicate Sorted<T>(s: seq<T>, leq: (T, T) -> bool) {
    forall i, j :: 0 <= i < j < |s| ==> leq(s[i], s[j])
  }

  /** Puts `x` after every element that ranks at or below it. */
  function Insert<T>(s: seq<T>, x: T, leq: (T, T) -> bool): seq<T> {
    if |s| == 0 then [x]
    else if leq(s[|s| - 1], x) then s + [x]
    else Insert(s[..|s| - 1], x, leq) + [s[|s| - 1]]
  }

  function StableSort<T>(s: seq<T>, leq: (T, T) -> bool): seq<T> {
    if |s| == 0 then [] else Insert(StableSort(s[..|s| - 1], leq), s[|s| - 1], leq)
  }

  /** The elements satisfying `p`, in order. */
  function Filter<T>(s: seq<T>, p: T -> bool): seq<T> {
    if |s| == 0 then []
    else Filter(s[..|s| - 1], p) + (if p(s[|s| - 1]) then [s[|s| - 1]] else [])
  }

  lemma {:induction false} InsertContents<T>(s: seq<T>, x: T, leq: (T, T) -> bool)
    ensures multiset(Insert(s, x, leq)) == multiset(s) + multiset{x}
  {
    if |s| > 0 {
      var init, last := s[..|s| - 1], s[|s| - 1];
      assert s == init + [last];
      if !leq(last, x) {
        InsertContents(init, x, leq);
      }
    }
  }

  lemma {:induction false} InsertSorted<T(!new)>(s: seq<T>, x: T, leq: (T, T) -> bool)
    requires Ranking(leq) && Sorted(s, leq)
    ensures Sorted(Insert(s, x, leq), leq)
  {
    if |s| > 0 && !leq(s[|s| - 1], x) {
      var init, last := s[..|s| - 1], s[|s| - 1];
      InsertSorted(init, x, leq);
      InsertContents(init, x, leq);
      var r := Insert(init, x, leq);
      forall i | 0 <= i < |r| ensures leq(r[i], last) {
        assert r[i] in multiset(r);
      }
    }
  }

  /** The elements that `leq` cannot tell from `e`, in order. */
  function Peers<T>(s: seq<T>, e: T, leq: (T, T) -> bool): seq<T> {
    Filter(s, y => leq(e, y) && leq(y, e))
  }

  lemma {:induction false} InsertStable<T(!new)>(s: seq<T>, x: T, leq: (T, T) -> bool, e: T)
    requires Ranking(leq) && Sorted(s, leq)
    ensures Peers(Insert(s, x, leq), e, leq) == Peers(s + [x], e, leq)
  {
    var same := y => leq(e, y) && leq(y, e);
    assert (s + [x])[..|s|] == s;
    if |s| > 0 && !leq(s[|s| - 1], x) {
      var init, last := s[..|s| - 1], s[|s| - 1];
      InsertStable(init, x, leq, e);
      var r := Insert(init, x, leq);
      assert (r + [last])[..|r|] == r;
      assert (init + [x])[..|init|] == init;
      assert Filter(s, same) == Filter(init, same) + (if same(last) then [last] else []);
    }
  }

  /** StableSort orders its input, keeps exactly its elements, and keeps equally ranked ones in their input order. */
  lemma {:induction false} StableSortCorrect<T(!new)>(s: seq<T>, leq: (T, T) -> bool)
    requires Ranking(leq)
    ensures Sorted(StableSort(s, leq), leq)
    ensures multiset(StableSort(s, leq)) == multiset(s)
    ensures |StableSort(s, leq)| == |s|
    ensures forall e :: Peers(StableSort(s, leq), e, leq) == Peers(s, e, leq)
  {
    if |s| > 0 {
      var init, last := s[..|s| - 1], s[|s| - 1];
      assert s == init + [last];
      StableSortCorrect(init, leq);
      var r := StableSort(init, leq);
      InsertContents(r, last, leq);
      InsertSorted(r, last, leq);
      assert |StableSort(s, leq)| == |multiset(StableSort(s, leq))|;
      forall e ensures Peers(StableSort(s, leq), e, leq) == Peers(s, e, leq) {
        InsertStable(r, last, leq, e);
        assert (r + [last])[..|r|] == r;
        assert Peers(r, e, leq) == Peers(init, e, leq);
      }
    }
  }

  /** A list that is already in order is returned as it is. */
  lemma {:induction false} SortedIsFixed<T(!new)>(s: seq<T>, leq: (T, T) -> bool)
    requires Sorted(s, leq)
    ensures StableSort(s, leq) == s
  {
    if |s| > 0 {
      SortedIsFixed(s[..|s| - 1], leq);
      assert s == s[..|s| - 1] + [s[|s| - 1]];
    }
  }

  /** Different elements of `s` never rank equally. */
  ghost predicate NoTies<T>(s: seq<T>, leq: (T, T) -> bool) {
    forall i, j :: 0 <= i < |s| && 0 <= j < |s| && leq(s[i], s[j]) && leq(s[j], s[i]) ==> s[i] == s[j]
  }

  /** Two sorted lists with the same elements are equal when different elements never rank equally. */
  lemma {:induction false} SortedUnique<T(!new)>(s: seq<T>, t: seq<T>, leq: (T, T) -> bool)
    requires Sorted(s, leq) && Sorted(t, leq) && multiset(s) == multiset(t) && NoTies(s, leq)
    ensures s == t
  {
    hide Sorted, NoTies;
    assert |s| == |multiset(s)| && |t| == |multiset(t)|;
    if |s| > 0 {
      var init, init' := s[..|s| - 1], t[..|t| - 1];
      PeelLast(s, t, leq);
      SortedUnique(init, init', leq);
      Rejoin(s);
      Rejoin(t);
    }
  }

  lemma Rejoin<T>(s: seq<T>)
    requires |s| > 0
    ensures s == s[..|s| - 1] + [s[|s| - 1]]
  {}

  lemma PeelLast<T(!new)>(s: seq<T>, t: seq<T>, leq: (T, T) -> bool)
    requires Sorted(s, leq) && Sorted(t, leq) && multiset(s) == multiset(t) && NoTies(s, leq)
    requires |s| == |t| > 0
    ensures s[|s| - 1] == t[|t| - 1] && multiset(s[..|s| - 1]) == multiset(t[..|t| - 1])
    ensures Sorted(s[..|s| - 1], leq) && Sorted(t[..|t| - 1], leq) && NoTies(s[..|s| - 1], leq)
  {
    hide Sorted, NoTies;
    SameLast(s, t, leq);
    DropLast(s, leq);
    DropLast(t, leq);
    LastTakenOut(s);
    LastTakenOut(t);
  }

  lemma DropLast<T>(s: seq<T>, leq: (T, T) -> bool)
    requires |s| > 0 && Sorted(s, leq)
    ensures Sorted(s[..|s| - 1], leq) && (NoTies(s, leq) ==> NoTies(s[..|s| - 1], leq))
  {}

  lemma LastTakenOut<T>(s: seq<T>)
    requires |s| > 0
    ensures multiset(s[..|s| - 1]) == multiset(s) - multiset{s[|s| - 1]}
  {
    Rejoin(s);
  }

  lemma SameLast<T(!new)>(s: seq<T>, t: seq<T>, leq: (T, T) -> bool)
    requires Sorted(s, leq) && Sorted(t, leq) && multiset(s) == multiset(t) && NoTies(s, leq)
    requires |s| == |t| > 0
    ensures s[|s| - 1] == t[|t| - 1]
  {
    var last, last' := s[|s| - 1], t[|t| - 1];
    assert last in multiset(t) && last' in multiset(s);
    var i :| 0 <= i < |t| && t[i] == last;
    var j :| 0 <= j < |s| && s[j] == last';
    assert i == |t| - 1 || leq(t[i], last');
    assert j == |s| - 1 || leq(s[j], last);
  }

  /** An element at two places occurs at least twice. */
  lemma Repeats<T>(s: seq<T>, i: nat, j: nat)
    requires i < j < |s| && s[i] == s[j]
    ensures multiset(s)[s[i]] >= 2
  {
    assert s == s[..j] + [s[j]] + s[j + 1..];
    assert s[i] in s[..j];
  }

  /** What `f` says of each element. */
  function Map<T, U>(s: seq<T>, f: T -> U): (r: seq<U>)
    ensures |r| == |s| && forall i :: 0 <= i < |s| ==> r[i] == f(s[i])
  {
    seq(|s|, i requires 0 <= i < |s| => f(s[i]))
  }

  lemma MapAppend<T, U>(s: seq<T>, x: T, f: T -> U)
    ensures Map(s + [x], f) == Map(s, f) + [f(x)]
  {}

  lemma MapParts<T, U>(s: seq<T>, i: nat, f: T -> U)
    requires i < |s|
    ensures multiset(Map(s, f)) == multiset(Map(s[..i], f)) + multiset{f(s[i])} + multiset(Map(s[i + 1..], f))
    ensures multiset(Map(s, f)) == multiset(Map(s[..i] + s[i + 1..], f)) + multiset{f(s[i])}
  {
    assert Map(s, f) == Map(s[..i], f) + [f(s[i])] + Map(s[i + 1..], f);
    assert Map(s[..i] + s[i + 1..], f) == Map(s[..i], f) + Map(s[i + 1..], f);
  }

  lemma TakenOut<T>(s: seq<T>, i: nat)
    requires i < |s|
    ensures multiset(s[..i] + s[i + 1..]) == multiset(s) - multiset{s[i]}
  {
    assert s == s[..i] + [s[i]] + s[i + 1..];
  }

  lemma {:induction false} MapPermutes<T, U>(s: seq<T>, t: seq<T>, f: T -> U)
    requires multiset(s) == multiset(t)
    ensures multiset(Map(s, f)) == multiset(Map(t, f))
  {
    assert |s| == |multiset(s)| && |t| == |multiset(t)|;
    if |s| > 0 {
      var i := |s| - 1;
      assert s[i] in multiset(t);
      var j :| 0 <= j < |t| && t[j] == s[i];
      TakenOut(s, i);
      TakenOut(t, j);
      MapPermutes(s[..i] + s[i + 1..], t[..j] + t[j + 1..], f);
      MapParts(s, i, f);
      MapParts(t, j, f);
    }
  }

  /** Functions that differ at one element only. */
  lemma MapDiffers<T, U>(s: seq<T>, i: nat, f: T -> U, g: T -> U)
    requires i < |s| && forall j :: 0 <= j < |s| && j != i ==> f(s[j]) == g(s[j])
    ensures multiset(Map(s, f)) + multiset{g(s[i])} == multiset(Map(s, g)) + multiset{f(s[i])}
  {
    MapParts(s, i, f);
    MapParts(s, i, g);
    assert Map(s[..i], f) == Map(s[..i], g) && Map(s[i + 1..], f) == Map(s[i + 1..], g);
  }

  lemma FilterOne<T>(x: T, p: T -> bool)
    ensures Filter([x], p) == if p(x) then [x] else []
  {
    assert [x][..0] == [];
  }

  lemma {:induction false} FilterAdds<T>(s: seq<T>, t: seq<T>, p: T -> bool)
    ensures Filter(s + t, p) == Filter(s, p) + Filter(t, p)
  {
    if |t| == 0 {
      assert s + t == s;
    } else {
      assert (s + t)[..|s + t| - 1] == s + t[..|t| - 1];
      FilterAdds(s, t[..|t| - 1], p);
    }
  }
}
