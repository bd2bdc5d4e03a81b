/** Strict weak orders and what a stable sort must produce, for any element type. */
module Ordering {
  import opened Collections

  ghost predicate Tied<T>(less: (T, T) -> bool, a: T, b: T) {
    !less(a, b) && !less(b, a)
  }

  ghost predicate StrictWeakOrder<T(!new)>(less: (T, T) -> bool) {
    && (forall a :: !less(a, a))
    && (forall a, b, c :: less(a, b) && less(b, c) ==> less(a, c))
    && (forall a, b, c :: Tied(less, a, b) && Tied(less, b, c) ==> Tied(less, a, c))
  }

  lemma TiedThenLess<T(!new)>(less: (T, T) -> bool, a: T, b: T, c: T)
    requires StrictWeakOrder(less) && Tied(less, a, b)
    ensures less(b, c) ==> less(a, c)
    ensures less(c, b) ==> less(c, a)
  {
    assert Tied(less, b, a);
    assert Tied(less, a, c) ==> Tied(less, b, c);
  }

  // !less(b, a) reads "a is no worse than b".
  lemma NotLessTransitive<T(!new)>(less: (T, T) -> bool, a: T, b: T, c: T)
    requires StrictWeakOrder(less) && !less(b, a) && !less(c, b)
    ensures !less(c, a)
    ensures less(a, b) || less(b, c) ==> less(a, c)
  {
    if Tied(less, a, b) {
      TiedThenLess(less, a, b, c);
    }
    if Tied(less, b, c) {
      TiedThenLess(less, c, b, a);
    }
  }

  ghost predicate Sorted<T>(less: (T, T) -> bool, s: seq<T>) {
    forall i, j | 0 <= i < j < |s| :: !less(s[j], s[i])
  }

  /** The elements of s tied with x, in the order in which they stand in s. */
  ghost function TieClass<T>(less: (T, T) -> bool, x: T, s: seq<T>): seq<T> {
    if s == [] then []
    else (if Tied(less, x, s[0]) then [s[0]] else []) + TieClass(less, x, s[1..])
  }

  /** s and t hold the same elements and no two tied ones in a different order. */
  ghost predicate SameTies<T(!new)>(less: (T, T) -> bool, s: seq<T>, t: seq<T>) {
    forall x :: TieClass(less, x, s) == TieClass(less, x, t)
  }

  ghost predicate IsStableSort<T(!new)>(less: (T, T) -> bool, s: seq<T>, t: seq<T>) {
    Sorted(less, t) && SameTies(less, s, t)
  }

  lemma {:induction false} TieClassConcat<T>(less: (T, T) -> bool, x: T, s: seq<T>, t: seq<T>)
    ensures TieClass(less, x, s + t) == TieClass(less, x, s) + TieClass(less, x, t)
  {
    if s == [] {
      assert s + t == t;
    } else {
      var h := if Tied(less, x, s[0]) then [s[0]] else [];
      assert (s + t)[0] == s[0] && (s + t)[1..] == s[1..] + t;
      TieClassConcat(less, x, s[1..], t);
      assert TieClass(less, x, s + t) == h + (TieClass(less, x, s[1..]) + TieClass(less, x, t));
    }
  }

  lemma {:induction false} TieClassCounts<T>(less: (T, T) -> bool, x: T, s: seq<T>, v: T)
    requires Tied(less, x, v)
    ensures multiset(TieClass(less, x, s))[v] == multiset(s)[v]
  {
    if s != [] {
      TieClassCounts(less, x, s[1..], v);
      assert s == [s[0]] + s[1..];
    }
  }

  lemma {:induction false} TieClassMember<T>(less: (T, T) -> bool, x: T, s: seq<T>) returns (i: nat)
    requires TieClass(less, x, s) != []
    ensures i < |s| && Tied(less, x, s[i])
  {
    if Tied(less, x, s[0]) {
      i := 0;
    } else {
      var j := TieClassMember(less, x, s[1..]);
      i := j + 1;
    }
  }

  /** Keeping the tie classes keeps the elements: a stable sort is a permutation. */
  lemma SameTiesIsPermutation<T(!new)>(less: (T, T) -> bool, s: seq<T>, t: seq<T>)
    requires StrictWeakOrder(less) && SameTies(less, s, t)
    ensures multiset(s) == multiset(t) && |s| == |t|
  {
    forall v ensures multiset(s)[v] == multiset(t)[v] {
      assert Tied(less, v, v);
      TieClassCounts(less, v, s, v);
      TieClassCounts(less, v, t, v);
    }
    assert multiset(s) == multiset(t);
    assert |multiset(s)| == |s| && |multiset(t)| == |t|;
  }

  /** Exchanging two neighbours that are out of order keeps every tie class. */
  lemma AdjacentSwapKeepsTies<T(!new)>(less: (T, T) -> bool, s: seq<T>, i: nat)
    requires StrictWeakOrder(less) && i + 1 < |s| && less(s[i + 1], s[i])
    ensures SameTies(less, s, s[i := s[i + 1]][i + 1 := s[i]])
  {
    var t := s[i := s[i + 1]][i + 1 := s[i]];
    var p, q := s[..i], s[i + 2..];
    assert s == p + ([s[i]] + [s[i + 1]]) + q;
    assert t == p + ([s[i + 1]] + [s[i]]) + q;
    forall x ensures TieClass(less, x, s) == TieClass(less, x, t) {
      TieClassConcat(less, x, p + ([s[i]] + [s[i + 1]]), q);
      TieClassConcat(less, x, p, [s[i]] + [s[i + 1]]);
      TieClassConcat(less, x, [s[i]], [s[i + 1]]);
      TieClassConcat(less, x, p + ([s[i + 1]] + [s[i]]), q);
      TieClassConcat(less, x, p, [s[i + 1]] + [s[i]]);
      TieClassConcat(less, x, [s[i + 1]], [s[i]]);
      assert Tied(less, x, s[i]) ==> Tied(less, s[i], x);
      assert Tied(less, x, s[i]) && Tied(less, x, s[i + 1]) ==> Tied(less, s[i], s[i + 1]);
    }
  }

  lemma HeadsAreTied<T(!new)>(less: (T, T) -> bool, s: seq<T>, t: seq<T>)
    requires StrictWeakOrder(less) && Sorted(less, s) && Sorted(less, t)
    requires s != [] && t != [] && SameTies(less, s, t)
    ensures !less(t[0], s[0])
  {
    assert Tied(less, t[0], t[0]);
    assert TieClass(less, t[0], s) == TieClass(less, t[0], t) != [];
    var k := TieClassMember(less, t[0], s);
    TiedThenLess(less, s[k], t[0], s[0]);
    assert Tied(less, s[k], t[0]);
  }

  /** A stable sort has exactly one outcome, whatever algorithm produces it. */
  lemma {:induction false} StableSortIsUnique<T(!new)>(less: (T, T) -> bool, s: seq<T>, t: seq<T>)
    requires StrictWeakOrder(less) && Sorted(less, s) && Sorted(less, t) && SameTies(less, s, t)
    ensures s == t
  {
    SameTiesIsPermutation(less, s, t);
    if s != [] {
      HeadsAreTied(less, s, t);
      HeadsAreTied(less, t, s);
      assert Tied(less, s[0], s[0]) && Tied(less, s[0], t[0]);
      assert TieClass(less, s[0], s)[0] == s[0] && TieClass(less, s[0], t)[0] == t[0];
      forall x ensures TieClass(less, x, s[1..]) == TieClass(less, x, t[1..]) {
        assert TieClass(less, x, s) == TieClass(less, x, t);
        var h := if Tied(less, x, s[0]) then [s[0]] else [];
        assert TieClass(less, x, s) == h + TieClass(less, x, s[1..]);
        assert TieClass(less, x, t) == h + TieClass(less, x, t[1..]);
        assert TieClass(less, x, s[1..]) == TieClass(less, x, s)[|h|..];
      }
      StableSortIsUnique(less, s[1..], t[1..]);
      assert s == [s[0]] + s[1..] && t == [t[0]] + t[1..];
    }
  }

  lemma {:induction false} NoneTied<T>(less: (T, T) -> bool, x: T, s: seq<T>)
    requires forall y | y in s :: !Tied(less, x, y)
    ensures TieClass(less, x, s) == []
  {
    if s != [] {
      assert s[0] in s;
      NoneTied(less, x, s[1..]);
    }
  }

  /** There always is a stable arrangement. */
  lemma {:induction false} StableSortExists<T(!new)>(less: (T, T) -> bool, s: seq<T>) returns (t: seq<T>)
    requires StrictWeakOrder(less)
    ensures IsStableSort(less, s, t)
  {
    if s == [] {
      t := [];
    } else {
      var x := s[|s| - 1];
      var u := StableSortExists(less, s[..|s| - 1]);
      assert s == s[..|s| - 1] + [x];
      var p := |u|;
      while p > 0 && less(x, u[p - 1])
        invariant 0 <= p <= |u| && forall q | p <= q < |u| :: less(x, u[q])
      {
        p := p - 1;
      }
      t := u[..p] + ([x] + u[p..]);
      forall q | 0 <= q < p ensures !less(x, u[q]) {
        NotLessTransitive(less, u[q], u[p - 1], x);
      }
      InsertKeepsTies(less, s[..|s| - 1], u, p, x);
    }
  }

  lemma InsertKeepsTies<T(!new)>(less: (T, T) -> bool, s: seq<T>, u: seq<T>, p: nat, x: T)
    requires StrictWeakOrder(less) && SameTies(less, s, u)
    requires p <= |u| && forall q | p <= q < |u| :: less(x, u[q])
    ensures SameTies(less, s + [x], u[..p] + ([x] + u[p..]))
  {
    assert u == u[..p] + u[p..];
    forall y ensures TieClass(less, y, s + [x]) == TieClass(less, y, u[..p] + ([x] + u[p..])) {
      assert TieClass(less, y, s) == TieClass(less, y, u);
      TieClassConcat(less, y, s, [x]);
      TieClassConcat(less, y, u[..p], [x] + u[p..]);
      TieClassConcat(less, y, [x], u[p..]);
      TieClassConcat(less, y, u[..p], u[p..]);
      if Tied(less, y, x) {
        forall z | z in u[p..] ensures !Tied(less, y, z) {
          TiedThenLess(less, y, x, z);
        }
        NoneTied(less, y, u[p..]);
      } else {
        assert TieClass(less, y, [x]) == [];
      }
    }
  }

  // ----- stability in terms of places -----

  /** t is s rearranged: its k-th element is the one at place ids[k] of s, and of two tied elements
      the one that comes first in t comes first in s. */
  ghost predicate StableRearrangement<T>(less: (T, T) -> bool, s: seq<T>, t: seq<T>, ids: seq<nat>) {
    && |ids| == |t| == |s| && Below(ids, |s|) && Distinct(ids)
    && (forall k | 0 <= k < |t| :: t[k] == s[ids[k]])
    && forall i, j | 0 <= i < j < |t| && Tied(less, t[i], t[j]) :: ids[i] < ids[j]
  }

  // The first element tied with x.
  lemma {:induction false} FirstTied<T>(less: (T, T) -> bool, x: T, s: seq<T>) returns (k: nat)
    requires TieClass(less, x, s) != []
    ensures k < |s| && Tied(less, x, s[k]) && s[k] == TieClass(less, x, s)[0]
    ensures forall i | 0 <= i < k :: !Tied(less, x, s[i])
    ensures TieClass(less, x, s[..k]) == []
  {
    if Tied(less, x, s[0]) {
      k := 0;
    } else {
      var j := FirstTied(less, x, s[1..]);
      k := j + 1;
      assert s[..k] == [s[0]] + s[1..][..j] && s[..k][1..] == s[1..][..j];
      forall i | 0 <= i < k ensures !Tied(less, x, s[i]) {
        assert i > 0 ==> s[i] == s[1..][i - 1];
      }
    }
  }

  lemma TieClassAround<T>(less: (T, T) -> bool, y: T, front: seq<T>, x: T, rest: seq<T>)
    ensures TieClass(less, y, front + ([x] + rest)) == TieClass(less, y, front)
      + ((if Tied(less, y, x) then [x] else []) + TieClass(less, y, rest))
  {
    TieClassConcat(less, y, front, [x] + rest);
    assert ([x] + rest)[1..] == rest;
  }

  // Taking the first element of t out of both lists leaves the tie classes alike.
  lemma SameTiesWithoutFirst<T(!new)>(less: (T, T) -> bool, s: seq<T>, t: seq<T>, k: nat)
    requires StrictWeakOrder(less) && SameTies(less, s, t) && t != [] && k < |s|
    requires s[k] == t[0] && TieClass(less, t[0], s[..k]) == []
    ensures SameTies(less, s[..k] + s[k + 1..], t[1..])
  {
    var front, x, rest := s[..k], t[0], s[k + 1..];
    assert s == front + ([x] + rest) && t == [x] + t[1..];
    forall y ensures TieClass(less, y, front + rest) == TieClass(less, y, t[1..]) {
      assert TieClass(less, y, s) == TieClass(less, y, t);
      ClassWithoutFirst(less, front, x, rest, t[1..], y);
    }
  }

  lemma ClassWithoutFirst<T(!new)>(less: (T, T) -> bool, front: seq<T>, x: T, rest: seq<T>, tail: seq<T>, y: T)
    requires StrictWeakOrder(less) && TieClass(less, x, front) == []
    requires TieClass(less, y, front + ([x] + rest)) == TieClass(less, y, [x] + tail)
    ensures TieClass(less, y, front + rest) == TieClass(less, y, tail)
  {
    TieClassAround(less, y, front, x, rest);
    TieClassAround(less, y, [], x, tail);
    TieClassConcat(less, y, front, rest);
    assert [] + ([x] + tail) == [x] + tail;
    var a, b := TieClass(less, y, rest), TieClass(less, y, tail);
    if Tied(less, y, x) {
      SameClass(less, x, y, front);
      assert [] + ([x] + a) == [x] + a && [] + a == a;
      SameRest(x, a, b);
    } else {
      assert [] + a == a && [] + ([] + b) == b;
    }
  }

  lemma SameRest<T>(x: T, y: seq<T>, z: seq<T>)
    requires [x] + y == [x] + z
    ensures y == z
  {
    assert y == ([x] + y)[1..] && z == ([x] + z)[1..];
  }

  lemma {:induction false} SameClass<T(!new)>(less: (T, T) -> bool, x: T, y: T, s: seq<T>)
    requires StrictWeakOrder(less) && Tied(less, y, x)
    ensures TieClass(less, x, s) == TieClass(less, y, s)
  {
    if s != [] {
      SameClass(less, x, y, s[1..]);
      assert Tied(less, x, y);
      assert Tied(less, x, s[0]) <==> Tied(less, y, s[0]);
    }
  }

  // Places in s without its k-th element, as places in s.
  function Around(ids: seq<nat>, k: nat): (r: seq<nat>)
    ensures |r| == |ids|
    ensures forall i | 0 <= i < |ids| :: r[i] == if ids[i] < k then ids[i] else ids[i] + 1
  {
    seq(|ids|, i requires 0 <= i < |ids| => if ids[i] < k then ids[i] else ids[i] + 1)
  }

  lemma RearrangeOneMore<T>(less: (T, T) -> bool, s: seq<T>, t: seq<T>, k: nat, rest: seq<nat>)
    requires t != [] && k < |s| && s[k] == t[0] && forall i | 0 <= i < k :: !Tied(less, t[0], s[i])
    requires StableRearrangement(less, s[..k] + s[k + 1..], t[1..], rest)
    ensures StableRearrangement(less, s, t, [k] + Around(rest, k))
  {
    var around := Around(rest, k);
    AroundIsRearrangement(s, t[1..], k, rest);
    AroundKeepsOrder(less, s, t[1..], k, rest);
    ConsPlaces(s, t, k, around);
    ConsKeepsOrder(less, s, t, k, around);
  }

  lemma ConsPlaces<T>(s: seq<T>, t: seq<T>, k: nat, around: seq<nat>)
    requires t != [] && k < |s| && s[k] == t[0] && |around| == |t| - 1
    requires forall i | 0 <= i < |around| :: around[i] < |s| && around[i] != k && t[1..][i] == s[around[i]]
    requires Distinct(around)
    ensures Below([k] + around, |s|) && Distinct([k] + around)
    ensures forall i | 0 <= i < |t| :: t[i] == s[([k] + around)[i]]
  {
    var ids := [k] + around;
    forall i | 0 <= i < |t| ensures ids[i] < |s| && t[i] == s[ids[i]] {
      assert i > 0 ==> t[i] == t[1..][i - 1];
    }
    forall i, j | 0 <= i < j < |ids| ensures ids[i] != ids[j] {
      assert i > 0 ==> around[i - 1] != around[j - 1];
    }
  }

  lemma ConsKeepsOrder<T>(less: (T, T) -> bool, s: seq<T>, t: seq<T>, k: nat, around: seq<nat>)
    requires t != [] && |around| == |t| - 1
    requires forall i | 0 <= i < |around| :: around[i] < |s| && around[i] != k && t[1..][i] == s[around[i]]
    requires forall i | 0 <= i < k && i < |s| :: !Tied(less, t[0], s[i])
    requires forall i, j | 0 <= i < j < |around| && Tied(less, t[1..][i], t[1..][j]) :: around[i] < around[j]
    ensures forall i, j | 0 <= i < j < |t| && Tied(less, t[i], t[j]) :: ([k] + around)[i] < ([k] + around)[j]
  {
    forall i, j | 0 <= i < j < |t| && Tied(less, t[i], t[j])
      ensures ([k] + around)[i] < ([k] + around)[j]
    {
      assert t[j] == t[1..][j - 1];
      assert i > 0 ==> t[i] == t[1..][i - 1];
    }
  }

  lemma AroundIsRearrangement<T>(s: seq<T>, t: seq<T>, k: nat, rest: seq<nat>)
    requires k < |s| && |rest| == |t| == |s| - 1 && Below(rest, |s| - 1)
    requires forall i | 0 <= i < |t| :: t[i] == (s[..k] + s[k + 1..])[rest[i]]
    ensures forall i | 0 <= i < |t| :: Around(rest, k)[i] < |s| && t[i] == s[Around(rest, k)[i]]
  {
    forall i | 0 <= i < |t| ensures Around(rest, k)[i] < |s| && t[i] == s[Around(rest, k)[i]] {
      ElementAround(s, k, rest[i]);
    }
  }

  lemma AroundKeepsOrder<T>(less: (T, T) -> bool, s: seq<T>, t: seq<T>, k: nat, rest: seq<nat>)
    requires |rest| == |t| && Distinct(rest)
    requires forall i, j | 0 <= i < j < |t| && Tied(less, t[i], t[j]) :: rest[i] < rest[j]
    ensures forall i | 0 <= i < |t| :: Around(rest, k)[i] != k
    ensures Distinct(Around(rest, k))
    ensures forall i, j | 0 <= i < j < |t| && Tied(less, t[i], t[j]) :: Around(rest, k)[i] < Around(rest, k)[j]
  {
    forall i, j | 0 <= i < j < |t|
      ensures Around(rest, k)[i] != Around(rest, k)[j]
      ensures Tied(less, t[i], t[j]) ==> Around(rest, k)[i] < Around(rest, k)[j]
    {
      assert rest[i] != rest[j];
    }
  }

  lemma ElementAround<T>(s: seq<T>, k: nat, i: nat)
    requires k < |s| && i < |s| - 1
    ensures (s[..k] + s[k + 1..])[i] == s[if i < k then i else i + 1]
  {
  }

  /** What IsStableSort means: the outcome is a rearrangement that keeps tied elements in order. */
  lemma {:induction false} SameTiesKeepOrder<T(!new)>(less: (T, T) -> bool, s: seq<T>, t: seq<T>)
    returns (ids: seq<nat>)
    requires StrictWeakOrder(less) && SameTies(less, s, t)
    ensures StableRearrangement(less, s, t, ids)
    decreases |t|
  {
    SameTiesIsPermutation(less, s, t);
    if t == [] {
      ids := [];
    } else {
      assert Tied(less, t[0], t[0]) && TieClass(less, t[0], s) == TieClass(less, t[0], t);
      var k := FirstTied(less, t[0], s);
      SameTiesWithoutFirst(less, s, t, k);
      var rest := SameTiesKeepOrder(less, s[..k] + s[k + 1..], t[1..]);
      RearrangeOneMore(less, s, t, k, rest);
      ids := [k] + Around(rest, k);
    }
  }

  // ----- ranks -----

  ghost function CountBelow<T>(less: (T, T) -> bool, v: T, s: seq<T>): nat {
    if s == [] then 0 else (if less(s[0], v) then 1 else 0) + CountBelow(less, v, s[1..])
  }

  lemma {:induction false} CountBelowConcat<T>(less: (T, T) -> bool, v: T, s: seq<T>, t: seq<T>)
    ensures CountBelow(less, v, s + t) == CountBelow(less, v, s) + CountBelow(less, v, t)
  {
    if s == [] {
      assert s + t == t;
    } else {
      assert (s + t)[1..] == s[1..] + t;
      CountBelowConcat(less, v, s[1..], t);
    }
  }

  lemma {:induction false} CountBelowBounds<T>(less: (T, T) -> bool, v: T, s: seq<T>)
    ensures CountBelow(less, v, s) <= |s|
    ensures (forall x | x in s :: less(x, v)) ==> CountBelow(less, v, s) == |s|
    ensures (forall x | x in s :: !less(x, v)) ==> CountBelow(less, v, s) == 0
  {
    if s != [] {
      CountBelowBounds(less, v, s[1..]);
      assert s[0] in s;
      assert forall x | x in s[1..] :: x in s;
    }
  }

  lemma CountBelowWithout<T>(less: (T, T) -> bool, v: T, s: seq<T>, k: nat)
    requires k < |s|
    ensures CountBelow(less, v, s)
         == CountBelow(less, v, s[..k] + s[k + 1..]) + (if less(s[k], v) then 1 else 0)
  {
    assert s == s[..k] + ([s[k]] + s[k + 1..]);
    CountBelowConcat(less, v, s[..k], [s[k]] + s[k + 1..]);
    CountBelowConcat(less, v, s[..k], s[k + 1..]);
  }

  lemma {:induction false} CountBelowOfPermutation<T>(less: (T, T) -> bool, v: T, s: seq<T>, t: seq<T>)
    requires multiset(s) == multiset(t)
    ensures CountBelow(less, v, s) == CountBelow(less, v, t)
  {
    if s == [] {
      assert |multiset(t)| == |t|;
    } else {
      var k := HeadInPermutation(s, t);
      CountBelowWithout(less, v, t, k);
      CountBelowOfPermutation(less, v, s[1..], t[..k] + t[k + 1..]);
    }
  }

  lemma NoBetterAt<T(!new)>(less: (T, T) -> bool, s: seq<T>, t: seq<T>, i: nat)
    requires StrictWeakOrder(less) && Sorted(less, s) && Sorted(less, t)
    requires multiset(s) == multiset(t) && i < |s| && i < |t|
    ensures !less(s[i], t[i])
  {
    if less(s[i], t[i]) {
      CountBelowOfPermutation(less, t[i], s, t);
      MoreThanBelow(less, t[i], s, i);
      AtMostBelow(less, t, i);
    }
  }

  lemma MoreThanBelow<T(!new)>(less: (T, T) -> bool, v: T, s: seq<T>, i: nat)
    requires StrictWeakOrder(less) && Sorted(less, s) && i < |s| && less(s[i], v)
    ensures CountBelow(less, v, s) > i
  {
    forall x | x in s[..i + 1] ensures less(x, v) {
      var j :| 0 <= j <= i && s[j] == x;
      NotLessTransitive(less, s[j], s[i], v);
    }
    assert s == s[..i + 1] + s[i + 1..];
    CountBelowConcat(less, v, s[..i + 1], s[i + 1..]);
    CountBelowBounds(less, v, s[..i + 1]);
  }

  lemma AtMostBelow<T(!new)>(less: (T, T) -> bool, t: seq<T>, i: nat)
    requires StrictWeakOrder(less) && Sorted(less, t) && i < |t|
    ensures CountBelow(less, t[i], t) <= i
  {
    assert t == t[..i] + t[i..];
    CountBelowConcat(less, t[i], t[..i], t[i..]);
    CountBelowBounds(less, t[i], t[..i]);
    forall x | x in t[i..] ensures !less(x, t[i]) {
      var j :| i <= j < |t| && t[j] == x;
    }
    CountBelowBounds(less, t[i], t[i..]);
  }

  /** Two sorted arrangements of the same elements have tied elements at every place. */
  lemma SortedArrangementsRankAlike<T(!new)>(less: (T, T) -> bool, s: seq<T>, t: seq<T>)
    requires StrictWeakOrder(less) && Sorted(less, s) && Sorted(less, t)
    requires multiset(s) == multiset(t)
    ensures |s| == |t|
    ensures forall i | 0 <= i < |s| :: Tied(less, s[i], t[i])
  {
    assert |multiset(s)| == |s| && |multiset(t)| == |t|;
    forall i | 0 <= i < |s| ensures Tied(less, s[i], t[i]) {
      NoBetterAt(less, s, t, i);
      NoBetterAt(less, t, s, i);
    }
  }
}
