/** Permutations, selections by index and flattened maps over sequences. */
module Collections {
  ghost predicate Distinct<T>(s: seq<T>) {
    forall i, j | 0 <= i < j < |s| :: s[i] != s[j]
  }

  function Iota(n: nat): (s: seq<nat>)
    ensures |s| == n
    ensures forall i | 0 <= i < n :: s[i] == i
  {
    seq(n, i => i)
  }

  predicate Below(ids: seq<nat>, n: nat) {
    forall k | 0 <= k < |ids| :: ids[k] < n
  }

  lemma {:induction false} DistinctCounts<T>(s: seq<T>, v: T)
    requires Distinct(s)
    ensures multiset(s)[v] == if v in s then 1 else 0
  {
    if s != [] {
      assert s == [s[0]] + s[1..];
      assert Distinct(s[1..]);
      DistinctCounts(s[1..], v);
    }
  }

  /** Distinct indices below n are at most n, and fewer when one of them is missing. */
  lemma DistinctIndicesBounded(s: seq<nat>, n: nat)
    requires Distinct(s) && Below(s, n)
    ensures |s| <= n
    ensures (exists i: nat | i < n :: i !in s) ==> |s| < n
    ensures (forall i: nat | i < n :: i in s) ==> multiset(s) == multiset(Iota(n))
  {
    var all := Iota(n);
    forall v: nat ensures multiset(s)[v] <= multiset(all)[v] {
      DistinctCounts(s, v);
      DistinctCounts(all, v);
      if v in s {
        assert all[v] == v;
      }
    }
    SubMultisetBounded(s, all);
    forall v | v in multiset(all) ensures v < n {
      assert v in all;
    }
    forall i: nat | i < n ensures i in multiset(all) {
      assert all[i] == i;
    }
    if exists i: nat :: i < n && i !in s {
      var i: nat :| i < n && i !in s;
      assert i in multiset(all) && i !in multiset(s);
    }
    if forall i: nat | i < n :: i in s {
      forall v: nat ensures multiset(s)[v] == multiset(all)[v] {
        DistinctCounts(s, v);
        DistinctCounts(all, v);
        if v in all {
          assert v in multiset(all);
        }
      }
    }
  }

  lemma SubMultisetBounded<T>(s: seq<T>, t: seq<T>)
    requires multiset(s) <= multiset(t)
    ensures |s| <= |t|
    ensures multiset(s) != multiset(t) ==> |s| < |t|
  {
    var rest := multiset(t) - multiset(s);
    assert multiset(t) == multiset(s) + rest;
    assert |multiset(t)| == |t| && |multiset(s)| == |s|;
    if |rest| == 0 {
      assert multiset(t) == multiset(s);
    }
  }

  // ----- selection by index -----

  function Pick<T>(xs: seq<T>, ids: seq<nat>): (ys: seq<T>)
    requires Below(ids, |xs|)
    ensures |ys| == |ids| && forall k | 0 <= k < |ids| :: ys[k] == xs[ids[k]]
  {
    seq(|ids|, k requires 0 <= k < |ids| => xs[ids[k]])
  }

  lemma MultisetWithout<T>(s: seq<T>, k: nat)
    requires k < |s|
    ensures multiset(s[..k] + s[k + 1..]) == multiset(s) - multiset{s[k]}
  {
    assert s == s[..k] + [s[k]] + s[k + 1..];
  }

  // The way permutations are taken apart: the head of s somewhere in t.
  lemma HeadInPermutation<T>(s: seq<T>, t: seq<T>) returns (k: nat)
    requires s != [] && multiset(s) == multiset(t)
    ensures k < |t| && t[k] == s[0]
    ensures multiset(s[1..]) == multiset(t[..k] + t[k + 1..])
  {
    assert s[0] in multiset(t);
    k :| 0 <= k < |t| && t[k] == s[0];
    MultisetWithout(t, k);
    assert multiset(s) == multiset{s[0]} + multiset(s[1..]) by {
      assert s == [s[0]] + s[1..];
    }
  }

  lemma {:induction false} PickOfPermutation<T>(xs: seq<T>, s: seq<nat>, t: seq<nat>)
    requires multiset(s) == multiset(t)
    requires Below(s, |xs|) && Below(t, |xs|)
    ensures multiset(Pick(xs, s)) == multiset(Pick(xs, t))
  {
    if s == [] {
      assert |multiset(t)| == |t|;
    } else {
      var k := HeadInPermutation(s, t);
      PickOfPermutation(xs, s[1..], t[..k] + t[k + 1..]);
      assert Pick(xs, s) == [xs[s[0]]] + Pick(xs, s[1..]);
      assert Pick(xs, t) == Pick(xs, t[..k]) + [xs[s[0]]] + Pick(xs, t[k + 1..]);
      assert Pick(xs, t[..k] + t[k + 1..]) == Pick(xs, t[..k]) + Pick(xs, t[k + 1..]);
    }
  }

  /** Picking every index once gives a permutation. */
  lemma PickEveryOne<T>(xs: seq<T>, ids: seq<nat>)
    requires Distinct(ids) && Below(ids, |xs|) && (forall i: nat | i < |xs| :: i in ids)
    ensures multiset(Pick(xs, ids)) == multiset(xs)
  {
    DistinctIndicesBounded(ids, |xs|);
    PickOfPermutation(xs, ids, Iota(|xs|));
    assert Pick(xs, Iota(|xs|)) == xs;
  }

  // ----- flattened map -----

  function FlatMap<T, U>(f: T -> seq<U>, xs: seq<T>): seq<U> {
    if xs == [] then [] else f(xs[0]) + FlatMap(f, xs[1..])
  }

  lemma {:induction false} FlatMapConcat<T, U>(f: T -> seq<U>, xs: seq<T>, ys: seq<T>)
    ensures FlatMap(f, xs + ys) == FlatMap(f, xs) + FlatMap(f, ys)
  {
    if xs == [] {
      assert xs + ys == ys;
    } else {
      assert (xs + ys)[1..] == xs[1..] + ys;
      FlatMapConcat(f, xs[1..], ys);
    }
  }

  lemma {:induction false} FlatMapIsEmptyIff<T, U>(f: T -> seq<U>, xs: seq<T>)
    ensures FlatMap(f, xs) == [] <==> forall i | 0 <= i < |xs| :: f(xs[i]) == []
  {
    if xs != [] {
      FlatMapIsEmptyIff(f, xs[1..]);
      assert forall i | 0 < i < |xs| :: xs[i] == xs[1..][i - 1];
      assert |FlatMap(f, xs)| == |f(xs[0])| + |FlatMap(f, xs[1..])|;
    }
  }

  lemma FlatMapSnoc<T, U>(f: T -> seq<U>, xs: seq<T>, x: T)
    ensures FlatMap(f, xs + [x]) == FlatMap(f, xs) + f(x)
  {
    FlatMapConcat(f, xs, [x]);
    assert FlatMap(f, [x]) == f(x) + [];
  }

  lemma FlatMapWithout<T, U>(f: T -> seq<U>, xs: seq<T>, k: nat)
    requires k < |xs|
    ensures multiset(FlatMap(f, xs)) == multiset(f(xs[k])) + multiset(FlatMap(f, xs[..k] + xs[k + 1..]))
  {
    assert xs == xs[..k] + ([xs[k]] + xs[k + 1..]);
    FlatMapConcat(f, xs[..k], [xs[k]] + xs[k + 1..]);
    FlatMapConcat(f, xs[..k], xs[k + 1..]);
  }

  lemma {:induction false} FlatMapOfPermutation<T, U>(f: T -> seq<U>, xs: seq<T>, ys: seq<T>)
    requires multiset(xs) == multiset(ys)
    ensures multiset(FlatMap(f, xs)) == multiset(FlatMap(f, ys))
  {
    if xs == [] {
      assert |multiset(ys)| == |ys|;
    } else {
      var k := HeadInPermutation(xs, ys);
      FlatMapOfPermutation(f, xs[1..], ys[..k] + ys[k + 1..]);
      FlatMapWithout(f, ys, k);
    }
  }

  // ----- what a selection keeps -----

  ghost predicate Increasing(ids: seq<nat>) {
    forall i, j | 0 <= i < j < |ids| :: ids[i] < ids[j]
  }

  /** `ids` are the places of xs where f gives something, in order. */
  ghost predicate Places<T, U>(f: T -> seq<U>, xs: seq<T>, ids: seq<nat>) {
    Increasing(ids) && Below(ids, |xs|) && forall i: nat | i < |xs| :: i in ids <==> f(xs[i]) != []
  }

  function Shifted(ids: seq<nat>): (r: seq<nat>)
    ensures |r| == |ids| && forall k | 0 <= k < |ids| :: r[k] == ids[k] + 1
  {
    seq(|ids|, k requires 0 <= k < |ids| => ids[k] + 1)
  }

  lemma PlacesCons<T, U>(f: T -> seq<U>, xs: seq<T>, rest: seq<nat>) returns (ids: seq<nat>)
    requires xs != [] && Places(f, xs[1..], rest)
    ensures Places(f, xs, ids) && ids == (if f(xs[0]) == [] then [] else [0]) + Shifted(rest)
  {
    ids := (if f(xs[0]) == [] then [] else [0]) + Shifted(rest);
    forall i: nat | i < |xs| ensures i in ids <==> f(xs[i]) != [] {
      if i > 0 {
        assert xs[i] == xs[1..][i - 1];
        ShiftedHas(rest, i);
      } else {
        assert 0 !in Shifted(rest);
      }
    }
  }

  lemma ShiftedHas(ids: seq<nat>, i: nat)
    requires i > 0
    ensures i in Shifted(ids) <==> i - 1 in ids
  {
    if i - 1 in ids {
      var k :| 0 <= k < |ids| && ids[k] == i - 1;
      assert Shifted(ids)[k] == i;
    }
  }

  /** A function that gives at most one value keeps exactly its values, one for each of its places
      and in their order. */
  lemma {:induction false} FlatMapPlaces<T, U>(f: T -> seq<U>, xs: seq<T>) returns (ids: seq<nat>)
    requires forall i | 0 <= i < |xs| :: |f(xs[i])| <= 1
    ensures Places(f, xs, ids) && FromPlaces(f, xs, ids, FlatMap(f, xs))
  {
    if xs == [] {
      ids := [];
    } else {
      forall i | 0 <= i < |xs[1..]| ensures |f(xs[1..][i])| <= 1 {
        assert xs[1..][i] == xs[i + 1];
      }
      var rest := FlatMapPlaces(f, xs[1..]);
      ids := PlacesCons(f, xs, rest);
      FlatMapFirst(f, xs, rest, ids);
    }
  }

  // The k-th value comes from place ids[k].
  ghost predicate FromPlaces<T, U>(f: T -> seq<U>, xs: seq<T>, ids: seq<nat>, values: seq<U>) {
    && |values| == |ids| && Below(ids, |xs|)
    && forall k | 0 <= k < |ids| :: f(xs[ids[k]]) == [values[k]]
  }

  lemma FromShifted<T, U>(f: T -> seq<U>, xs: seq<T>, rest: seq<nat>, values: seq<U>)
    requires xs != [] && FromPlaces(f, xs[1..], rest, values)
    ensures FromPlaces(f, xs, Shifted(rest), values)
  {
    forall k | 0 <= k < |rest| ensures f(xs[Shifted(rest)[k]]) == [values[k]] {
      assert xs[1..][rest[k]] == xs[rest[k] + 1];
    }
  }

  lemma FromFirst<T, U>(f: T -> seq<U>, xs: seq<T>, ids: seq<nat>, v: U, values: seq<U>)
    requires xs != [] && f(xs[0]) == [v] && FromPlaces(f, xs, ids, values)
    ensures FromPlaces(f, xs, [0] + ids, [v] + values)
  {
  }

  lemma FlatMapFirst<T, U>(f: T -> seq<U>, xs: seq<T>, rest: seq<nat>, ids: seq<nat>)
    requires xs != [] && |f(xs[0])| <= 1 && FromPlaces(f, xs[1..], rest, FlatMap(f, xs[1..]))
    requires ids == (if f(xs[0]) == [] then [] else [0]) + Shifted(rest)
    ensures FromPlaces(f, xs, ids, FlatMap(f, xs))
  {
    var tail := FlatMap(f, xs[1..]);
    FromShifted(f, xs, rest, tail);
    if f(xs[0]) == [] {
      assert ids == Shifted(rest) && FlatMap(f, xs) == tail;
    } else {
      var v := f(xs[0])[0];
      assert f(xs[0]) == [v];
      FromFirst(f, xs, Shifted(rest), v, tail);
    }
  }
}
