/**
 The two uses of Python's `random` module, with the random numbers supplied by
 the caller so that every property holds for every outcome.

 `random.shuffle(x)` walks `i` from `len(x) - 1` down to 1, draws
 `j = randbelow(i + 1)` and swaps `x[i]` with `x[j]`. Here `draws[i]` is the
 number drawn at step `i`; `draws[0]` is never used.

 `random.sample(population, k)` returns `k` elements taken from distinct
 positions; here `picks` lists those positions.
 */
module Shuffling {
  import opened Base

  /** Every draw lies in the range `randbelow(i + 1)` can return. */
  predicate ValidDraws(draws: seq<nat>, n: nat) {
    |draws| == n && forall i :: 0 <= i < n ==> draws[i] <= i
  }

  function Swap<T>(xs: seq<T>, i: nat, j: nat): (r: seq<T>)
    requires i < |xs| && j < |xs|
    ensures |r| == |xs|
    ensures multiset(r) == multiset(xs)
    ensures r[i] == xs[j] && r[j] == xs[i]
    ensures forall k :: 0 <= k < |xs| && k != i && k != j ==> r[k] == xs[k]
  {
    xs[i := xs[j]][j := xs[i]]
  }

  /** The swaps of steps `i - 1` down to 1. */
  function ShuffleDown<T>(xs: seq<T>, draws: seq<nat>, i: nat): (r: seq<T>)
    requires i <= |xs| && ValidDraws(draws, |xs|)
    ensures |r| == |xs|
    ensures multiset(r) == multiset(xs)
    decreases i
  {
    if i <= 1 then xs else ShuffleDown(Swap(xs, i - 1, draws[i - 1]), draws, i - 1)
  }

  /** `random.shuffle`: a permutation of `xs` chosen by `draws`. */
  function Shuffle<T>(xs: seq<T>, draws: seq<nat>): (r: seq<T>)
    requires ValidDraws(draws, |xs|)
    ensures |r| == |xs|
    ensures multiset(r) == multiset(xs)
  {
    ShuffleDown(xs, draws, |xs|)
  }

  /** One swap keeps the word ids and keeps them repetition-free. */
  lemma SwapKeepsIds(xs: seq<Word>, i: nat, j: nat)
    requires i < |xs| && j < |xs| && DistinctIds(xs)
    ensures DistinctIds(Swap(xs, i, j))
    ensures Ids(Swap(xs, i, j)) == Ids(xs)
  {
    var ys := Swap(xs, i, j);
    forall a, b | 0 <= a < b < |ys| ensures ys[a].id != ys[b].id {
      var a' := if a == i then j else if a == j then i else a;
      var b' := if b == i then j else if b == j then i else b;
      assert ys[a] == xs[a'] && ys[b] == xs[b'];
    }
    SameElements(ys, xs);
  }

  /** Sequences with the same multiset hold the same elements. */
  lemma SameElements<T>(ys: seq<T>, xs: seq<T>)
    requires multiset(ys) == multiset(xs)
    ensures forall w :: w in ys <==> w in xs
  {
    assert forall w :: w in ys <==> w in multiset(ys);
    assert forall w :: w in xs <==> w in multiset(xs);
  }

  /** Shuffling keeps the word ids repetition-free. */
  lemma {:induction false} ShuffleDownKeepsIds(xs: seq<Word>, draws: seq<nat>, i: nat)
    requires i <= |xs| && ValidDraws(draws, |xs|)
    requires DistinctIds(xs)
    ensures DistinctIds(ShuffleDown(xs, draws, i))
    ensures Ids(ShuffleDown(xs, draws, i)) == Ids(xs)
    decreases i
  {
    if i > 1 {
      SwapKeepsIds(xs, i - 1, draws[i - 1]);
      ShuffleDownKeepsIds(Swap(xs, i - 1, draws[i - 1]), draws, i - 1);
    }
  }

  lemma ShuffleKeepsIds(xs: seq<Word>, draws: seq<nat>)
    requires ValidDraws(draws, |xs|) && DistinctIds(xs)
    ensures DistinctIds(Shuffle(xs, draws))
    ensures Ids(Shuffle(xs, draws)) == Ids(xs)
  {
    ShuffleDownKeepsIds(xs, draws, |xs|);
  }

  /** The draws that leave every element where it is. */
  function StayDraws(n: nat): (draws: seq<nat>)
    ensures ValidDraws(draws, n)
  {
    seq(n, i => i)
  }

  lemma {:induction false} StayDrawsKeepOrder<T>(xs: seq<T>, i: nat)
    requires i <= |xs|
    ensures ShuffleDown(xs, StayDraws(|xs|), i) == xs
    decreases i
  {
    if i > 1 {
      var draws := StayDraws(|xs|);
      assert draws[i - 1] == i - 1;
      assert Swap(xs, i - 1, i - 1) == xs;
      assert ShuffleDown(xs, draws, i) == ShuffleDown(xs, draws, i - 1);
      StayDrawsKeepOrder(xs, i - 1);
    }
  }

  /** Sample positions are in range and pairwise different. */
  predicate ValidPicks(picks: seq<nat>, n: nat) {
    && (forall k :: 0 <= k < |picks| ==> picks[k] < n)
    && Distinct(picks)
  }

  /** `random.sample(population, |picks|)`. */
  function Sample<T>(population: seq<T>, picks: seq<nat>): (r: seq<T>)
    requires ValidPicks(picks, |population|)
    ensures |r| == |picks|
    ensures forall k :: 0 <= k < |r| ==> r[k] == population[picks[k]] && r[k] in population
  {
    seq(|picks|, k requires 0 <= k < |picks| => population[picks[k]])
  }

  /** Dropping the pick of the last position leaves valid picks into the
      population without its last element. */
  lemma DropLastPick(picks: seq<nat>, k: nat, last: nat)
    requires ValidPicks(picks, last + 1) && k < |picks| && picks[k] == last
    ensures var rest := picks[..k] + picks[k + 1..];
      && ValidPicks(rest, last)
      && forall j :: 0 <= j < |rest| ==> rest[j] == if j < k then picks[j] else picks[j + 1]
  {
    var rest := picks[..k] + picks[k + 1..];
    assert forall j :: 0 <= j < |rest| ==> rest[j] == if j < k then picks[j] else picks[j + 1];
    forall j | 0 <= j < |rest| ensures rest[j] < last {
      var j' := if j < k then j else j + 1;
      assert rest[j] == picks[j'] && j' != k;
    }
    forall a, b | 0 <= a < b < |rest| ensures rest[a] != rest[b] {
      var a' := if a < k then a else a + 1;
      var b' := if b < k then b else b + 1;
      assert rest[a] == picks[a'] && rest[b] == picks[b'] && a' < b';
    }
  }

  /** The sample that picks the last position at `k` is the sample of the
      remaining picks with that element put back at `k`. */
  lemma SampleAsInsert<T>(population: seq<T>, picks: seq<nat>, k: nat)
    requires |population| > 0 && ValidPicks(picks, |population|)
    requires k < |picks| && picks[k] == |population| - 1
    ensures var last := |population| - 1;
      var rest := picks[..k] + picks[k + 1..];
      var s := Sample(population[..last], rest);
      && ValidPicks(rest, last)
      && Sample(population, picks) == s[..k] + [population[last]] + s[k..]
  {
    var last := |population| - 1;
    var rest := picks[..k] + picks[k + 1..];
    DropLastPick(picks, k, last);
    var r := Sample(population, picks);
    var s := Sample(population[..last], rest);
    var t := s[..k] + [population[last]] + s[k..];
    assert |t| == |r|;
    forall j | 0 <= j < |r| ensures r[j] == t[j] {
      if j < k {
        assert t[j] == s[j] && rest[j] == picks[j];
      } else if j > k {
        assert t[j] == s[j - 1] && rest[j - 1] == picks[j];
      }
    }
  }

  /** Putting an element into a sequence adds it to the multiset. */
  lemma InsertMultiset<T>(a: seq<T>, x: T, b: seq<T>)
    ensures multiset(a + [x] + b) == multiset(a + b) + multiset{x}
  {
  }

  /** So that sample's multiset is the smaller sample's plus the last element. */
  lemma SampleWithLast<T>(population: seq<T>, picks: seq<nat>, k: nat)
    requires |population| > 0 && ValidPicks(picks, |population|)
    requires k < |picks| && picks[k] == |population| - 1
    ensures var last := |population| - 1;
      var rest := picks[..k] + picks[k + 1..];
      ValidPicks(rest, last) &&
      multiset(Sample(population, picks))
        == multiset(Sample(population[..last], rest)) + multiset{population[last]}
  {
    var last := |population| - 1;
    var rest := picks[..k] + picks[k + 1..];
    SampleAsInsert(population, picks, k);
    var s := Sample(population[..last], rest);
    InsertMultiset(s[..k], population[last], s[k..]);
    assert s[..k] + s[k..] == s;
  }

  /** Sampling is without replacement: no element occurs in the sample more
      often than in the population. */
  lemma {:induction false} SampleWithin<T>(population: seq<T>, picks: seq<nat>)
    requires ValidPicks(picks, |population|)
    ensures multiset(Sample(population, picks)) <= multiset(population)
    decreases |population|
  {
    if picks != [] {
      assert picks[0] < |population|;
      var last := |population| - 1;
      var init := population[..last];
      assert population == init + [population[last]];
      if k :| 0 <= k < |picks| && picks[k] == last {
        SampleWithLast(population, picks, k);
        SampleWithin(init, picks[..k] + picks[k + 1..]);
      } else {
        assert ValidPicks(picks, last) by {
          forall j | 0 <= j < |picks| ensures picks[j] < last {
            assert picks[j] != last;
          }
        }
        SampleWithin(init, picks);
        assert Sample(population, picks) == Sample(init, picks);
      }
    }
  }

  /** A sample of words with distinct ids has distinct ids, all of them ids of
      the population. */
  lemma SampleKeepsIds(population: seq<Word>, picks: seq<nat>)
    requires ValidPicks(picks, |population|) && DistinctIds(population)
    ensures DistinctIds(Sample(population, picks))
    ensures Ids(Sample(population, picks)) <= Ids(population)
  {
    var r := Sample(population, picks);
    forall a, b | 0 <= a < b < |r| ensures r[a].id != r[b].id {
      assert picks[a] != picks[b];
      if picks[a] < picks[b] {
        assert population[picks[a]].id != population[picks[b]].id;
      } else {
        assert population[picks[b]].id != population[picks[a]].id;
      }
    }
  }
}
