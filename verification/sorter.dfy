/** The in-place stable sort over four parallel slices. */
module Sorter {
  import opened NetAddr
  import opened Policy
  import opened Ordering
  import opened Selection

  /** The value handed to sort.Stable: destinations, their attributes, sources, their
      attributes, index by index. */
  class ByRFC6724 {
    const table: Table
    const addrs: array<IPAddr>
    const addrAttr: array<IpAttr>
    const srcs: array<SrcInfo>
    const srcAttr: array<IpAttr>

    ghost predicate Valid()
      reads this, addrs, addrAttr, srcs, srcAttr
    {
      && addrAttr != srcAttr
      && addrs.Length == addrAttr.Length == srcs.Length == srcAttr.Length
      && (forall i | 0 <= i < addrs.Length :: addrAttr[i] == DstAttrOf(table, addrs[i]))
      && (forall i | 0 <= i < addrs.Length :: srcAttr[i] == SrcAttrOf(table, srcs[i]))
    }

    ghost function Rows(): (rows: seq<Dest>)
      reads this, addrs, addrAttr, srcs, srcAttr
      requires Valid()
      ensures |rows| == addrs.Length
      ensures forall i | 0 <= i < addrs.Length :: rows[i].addr == addrs[i] && rows[i].src == srcs[i]
    {
      seq(addrs.Length, i requires 0 <= i < addrs.Length reads this, addrs, addrAttr, srcs, srcAttr
                          requires Valid() => Dest(addrs[i], srcs[i]))
    }

    constructor (table: Table, addrs: array<IPAddr>, addrAttr: array<IpAttr>,
                 srcs: array<SrcInfo>, srcAttr: array<IpAttr>)
      ensures this.table == table && this.addrs == addrs && this.addrAttr == addrAttr
      ensures this.srcs == srcs && this.srcAttr == srcAttr
    {
      this.table, this.addrs, this.addrAttr := table, addrs, addrAttr;
      this.srcs, this.srcAttr := srcs, srcAttr;
    }

    function Len(): nat {
      addrs.Length
    }

    /** Less reads the stored attributes; on a valid object it is the order on rows. */
    predicate Less(i: nat, j: nat)
      reads this, addrs, addrAttr, srcs, srcAttr
      requires Valid() && i < Len() && j < Len()
      ensures Less(i, j) == LessBy(table)(Rows()[i], Rows()[j])
    {
      Prefer(addrs[i].ip, addrs[j].ip, srcs[i].addr, srcs[j].addr,
             addrAttr[i], addrAttr[j], srcAttr[i], srcAttr[j])
    }

    method Swap(i: nat, j: nat)
      requires Valid() && i < Len() && j < Len()
      modifies addrs, addrAttr, srcs, srcAttr
      ensures Valid()
      ensures Rows() == old(Rows()[i := Rows()[j]][j := Rows()[i]])
    {
      addrs[i], addrs[j] := addrs[j], addrs[i];
      srcs[i], srcs[j] := srcs[j], srcs[i];
      addrAttr[i], addrAttr[j] := addrAttr[j], addrAttr[i];
      srcAttr[i], srcAttr[j] := srcAttr[j], srcAttr[i];
    }

    /** sort.Stable over Len, Less and Swap, as insertion by exchanges of neighbours. */
    method Stable()
      requires Valid() && StrictWeakOrder(LessBy(table))
      modifies addrs, addrAttr, srcs, srcAttr
      ensures Valid()
      ensures IsStableSort(LessBy(table), old(Rows()), Rows())
    {
      var i := 1;
      while i < Len()
        invariant Valid() && 1 <= i
        invariant SameTies(LessBy(table), old(Rows()), Rows())
        invariant SortedUpTo(LessBy(table), Rows(), i)
      {
        Insert(i);
        i := i + 1;
      }
    }

    /** The inner loop of the insertion: the element at i sinks to its place. */
    method Insert(i: nat)
      requires Valid() && StrictWeakOrder(LessBy(table))
      requires i < Len() && SortedUpTo(LessBy(table), Rows(), i)
      modifies addrs, addrAttr, srcs, srcAttr
      ensures Valid()
      ensures SameTies(LessBy(table), old(Rows()), Rows())
      ensures SortedUpTo(LessBy(table), Rows(), i + 1)
    {
      var j := i;
      while j > 0 && Less(j, j - 1)
        invariant Valid() && 0 <= j <= i
        invariant SameTies(LessBy(table), old(Rows()), Rows())
        invariant SortedExcept(LessBy(table), Rows(), i + 1, j)
      {
        Sink(j, i, old(Rows()));
        j := j - 1;
      }
      InsertionDone(LessBy(table), Rows(), i + 1, j);
    }

    /** One exchange of the inner loop. */
    method Sink(j: nat, ghost i: nat, ghost original: seq<Dest>)
      requires Valid() && StrictWeakOrder(LessBy(table))
      requires 0 < j <= i < Len() && Less(j, j - 1)
      requires SameTies(LessBy(table), original, Rows())
      requires SortedExcept(LessBy(table), Rows(), i + 1, j)
      modifies addrs, addrAttr, srcs, srcAttr
      ensures Valid()
      ensures SameTies(LessBy(table), original, Rows())
      ensures SortedExcept(LessBy(table), Rows(), i + 1, j - 1)
    {
      SinkOne(LessBy(table), original, Rows(), i + 1, j);
      Swap(j - 1, j);
    }
  }

  function Pairs(addrs: seq<IPAddr>, srcs: seq<SrcInfo>): (rows: seq<Dest>)
    requires |addrs| == |srcs|
    ensures |rows| == |addrs| && forall i | 0 <= i < |rows| :: rows[i].addr == addrs[i] && rows[i].src == srcs[i]
  {
    seq(|addrs|, i requires 0 <= i < |addrs| => Dest(addrs[i], srcs[i]))
  }

  /** Unequal lengths make the Go code panic; that demand is the precondition. */
  method SortByRFC6724WithSrcs(addrs: array<IPAddr>, srcs: array<SrcInfo>)
    requires addrs.Length == srcs.Length
    modifies addrs, srcs
    ensures IsStableSort(LessBy(RFC6724), Pairs(old(addrs[..]), old(srcs[..])), Pairs(addrs[..], srcs[..]))
  {
    var s := NewByRFC6724(addrs, srcs);
    RealTableSeparates();
    LessIsStrictWeakOrder(RFC6724);
    assert s.Rows() == Pairs(addrs[..], srcs[..]);
    s.Stable();
    assert s.Rows() == Pairs(addrs[..], srcs[..]);
  }

  /** The attributes of every destination and of every source. */
  method NewByRFC6724(addrs: array<IPAddr>, srcs: array<SrcInfo>) returns (s: ByRFC6724)
    requires addrs.Length == srcs.Length
    ensures s.Valid() && s.table == RFC6724 && s.addrs == addrs && s.srcs == srcs
    ensures fresh(s.addrAttr) && fresh(s.srcAttr)
    ensures forall i | 0 <= i < srcs.Length ::
      && s.srcAttr[i].isNative == srcs[i].isNative && s.srcAttr[i].isDeprecated == srcs[i].isDeprecated
      && s.srcAttr[i].isHome == srcs[i].isHome
  {
    var addrAttr := new IpAttr[addrs.Length];
    var srcAttr := new IpAttr[srcs.Length];
    for i := 0 to addrs.Length
      invariant forall k | 0 <= k < i :: addrAttr[k] == DstAttrOf(RFC6724, addrs[k])
      invariant forall k | 0 <= k < i :: srcAttr[k] == SrcAttrOf(RFC6724, srcs[k])
    {
      addrAttr[i] := IpAttrOf(RFC6724, AddrFromSlice(addrs[i].ip));
      srcAttr[i] := IpAttrOf(RFC6724, srcs[i].addr);
      srcAttr[i] := srcAttr[i].(isNative := srcs[i].isNative);
      srcAttr[i] := srcAttr[i].(isDeprecated := srcs[i].isDeprecated);
      srcAttr[i] := srcAttr[i].(isHome := srcs[i].isHome);
    }
    s := new ByRFC6724(RFC6724, addrs, addrAttr, srcs, srcAttr);
  }

  /** Each destination with the source information srcAddrs gives for it. */
  function WithSrcs(addrs: seq<IPAddr>, srcAddrs: IPAddr -> SrcInfo): (rows: seq<Dest>)
    ensures |rows| == |addrs|
    ensures forall i | 0 <= i < |rows| :: rows[i].addr == addrs[i] && rows[i].src == srcAddrs(addrs[i])
  {
    seq(|addrs|, i requires 0 <= i < |addrs| => Dest(addrs[i], srcAddrs(addrs[i])))
  }

  /** `sorted` is what sorting `addrs` must give. */
  ghost predicate IsSelection(addrs: seq<IPAddr>, srcAddrs: IPAddr -> SrcInfo, sorted: seq<IPAddr>) {
    IsStableSort(LessBy(RFC6724), WithSrcs(addrs, srcAddrs), WithSrcs(sorted, srcAddrs))
  }

  method SortByRFC6724(addrs: array<IPAddr>, srcAddrs: IPAddr -> SrcInfo)
    modifies addrs
    ensures IsSelection(old(addrs[..]), srcAddrs, addrs[..])
    ensures multiset(addrs[..]) == multiset(old(addrs[..]))
  {
    ghost var before := addrs[..];
    RealTableSeparates();
    LessIsStrictWeakOrder(RFC6724);
    if addrs.Length < 2 {
      return;
    }
    var srcs := new SrcInfo[addrs.Length](i requires 0 <= i < addrs.Length reads addrs => srcAddrs(addrs[i]));
    assert Pairs(addrs[..], srcs[..]) == WithSrcs(before, srcAddrs);
    SortByRFC6724WithSrcs(addrs, srcs);
    SameTiesIsPermutation(LessBy(RFC6724), WithSrcs(before, srcAddrs), Pairs(addrs[..], srcs[..]));
    PairsStayTogether(before, srcAddrs, addrs[..], srcs[..]);
    SelectionIsPermutation(before, srcAddrs, addrs[..]);
  }

  lemma PairsStayTogether(before: seq<IPAddr>, srcAddrs: IPAddr -> SrcInfo, addrs: seq<IPAddr>, srcs: seq<SrcInfo>)
    requires |addrs| == |srcs| && multiset(Pairs(addrs, srcs)) == multiset(WithSrcs(before, srcAddrs))
    ensures Pairs(addrs, srcs) == WithSrcs(addrs, srcAddrs)
  {
    forall i | 0 <= i < |addrs| ensures srcs[i] == srcAddrs(addrs[i]) {
      var row := Pairs(addrs, srcs)[i];
      assert row in multiset(Pairs(addrs, srcs));
      assert row in WithSrcs(before, srcAddrs);
    }
  }

  lemma SelectionExists(addrs: seq<IPAddr>, srcAddrs: IPAddr -> SrcInfo) returns (sorted: seq<IPAddr>)
    ensures IsSelection(addrs, srcAddrs, sorted)
  {
    RealTableSeparates();
    LessIsStrictWeakOrder(RFC6724);
    var rows := StableSortExists(LessBy(RFC6724), WithSrcs(addrs, srcAddrs));
    SameTiesIsPermutation(LessBy(RFC6724), WithSrcs(addrs, srcAddrs), rows);
    sorted := seq(|rows|, i requires 0 <= i < |rows| => rows[i].addr);
    var srcs := seq(|rows|, i requires 0 <= i < |rows| => rows[i].src);
    assert Pairs(sorted, srcs) == rows;
    PairsStayTogether(addrs, srcAddrs, sorted, srcs);
  }

  lemma WithSrcsCons(x: seq<IPAddr>, srcAddrs: IPAddr -> SrcInfo)
    requires x != []
    ensures WithSrcs(x, srcAddrs) == [Dest(x[0], srcAddrs(x[0]))] + WithSrcs(x[1..], srcAddrs)
  {
  }

  lemma CountCons<T>(first: T, rest: seq<T>, v: T)
    ensures multiset([first] + rest)[v] == (if v == first then 1 else 0) + multiset(rest)[v]
  {
  }

  lemma {:induction false} CountWithSrcs(x: seq<IPAddr>, srcAddrs: IPAddr -> SrcInfo, v: IPAddr)
    ensures multiset(WithSrcs(x, srcAddrs))[Dest(v, srcAddrs(v))] == multiset(x)[v]
  {
    if x != [] {
      CountWithSrcs(x[1..], srcAddrs, v);
      WithSrcsCons(x, srcAddrs);
      CountCons(Dest(x[0], srcAddrs(x[0])), WithSrcs(x[1..], srcAddrs), Dest(v, srcAddrs(v)));
      CountCons(x[0], x[1..], v);
      assert x == [x[0]] + x[1..];
    }
  }

  lemma SelectionIsPermutation(addrs: seq<IPAddr>, srcAddrs: IPAddr -> SrcInfo, sorted: seq<IPAddr>)
    requires IsSelection(addrs, srcAddrs, sorted)
    ensures multiset(addrs) == multiset(sorted) && |addrs| == |sorted|
  {
    RealTableSeparates();
    LessIsStrictWeakOrder(RFC6724);
    SameTiesIsPermutation(LessBy(RFC6724), WithSrcs(addrs, srcAddrs), WithSrcs(sorted, srcAddrs));
    forall v ensures multiset(addrs)[v] == multiset(sorted)[v] {
      CountWithSrcs(addrs, srcAddrs, v);
      CountWithSrcs(sorted, srcAddrs, v);
    }
  }

  /** Sorting has one outcome, and sorting again changes nothing. */
  lemma SelectionIsUnique(addrs: seq<IPAddr>, srcAddrs: IPAddr -> SrcInfo, once: seq<IPAddr>, other: seq<IPAddr>)
    requires IsSelection(addrs, srcAddrs, once)
    requires IsSelection(addrs, srcAddrs, other) || IsSelection(once, srcAddrs, other)
    ensures once == other
  {
    RealTableSeparates();
    LessIsStrictWeakOrder(RFC6724);
    var a, b := WithSrcs(once, srcAddrs), WithSrcs(other, srcAddrs);
    forall x ensures TieClass(LessBy(RFC6724), x, a) == TieClass(LessBy(RFC6724), x, b) {
      assert TieClass(LessBy(RFC6724), x, WithSrcs(addrs, srcAddrs)) == TieClass(LessBy(RFC6724), x, a);
    }
    StableSortIsUnique(LessBy(RFC6724), a, b);
    forall i | 0 <= i < |once| ensures once[i] == other[i] {
      assert a[i] == b[i];
    }
  }

  /** The preference rank of a destination. */
  function Rank(a: IPAddr, srcAddrs: IPAddr -> SrcInfo): seq<int> {
    Key(RFC6724, Dest(a, srcAddrs(a)))
  }

  /** The order in which the same addresses come in does not show in the ranks that go out. */
  lemma RanksIgnoreArrivalOrder(x: seq<IPAddr>, y: seq<IPAddr>, srcAddrs: IPAddr -> SrcInfo,
                                sx: seq<IPAddr>, sy: seq<IPAddr>)
    requires multiset(x) == multiset(y)
    requires IsSelection(x, srcAddrs, sx) && IsSelection(y, srcAddrs, sy)
    ensures |sx| == |sy|
    ensures forall i | 0 <= i < |sx| :: Rank(sx[i], srcAddrs) == Rank(sy[i], srcAddrs)
  {
    RealTableSeparates();
    LessIsStrictWeakOrder(RFC6724);
    SelectionIsPermutation(x, srcAddrs, sx);
    SelectionIsPermutation(y, srcAddrs, sy);
    var a, b := WithSrcs(sx, srcAddrs), WithSrcs(sy, srcAddrs);
    WithSrcsOfPermutation(sx, sy, srcAddrs);
    SortedArrangementsRankAlike(LessBy(RFC6724), a, b);
    forall i | 0 <= i < |sx| ensures Rank(sx[i], srcAddrs) == Rank(sy[i], srcAddrs) {
      assert Tied(LessBy(RFC6724), a[i], b[i]);
      TiedMeansSameKey(RFC6724, a[i], b[i]);
    }
  }

  lemma WithSrcsOfPermutation(x: seq<IPAddr>, y: seq<IPAddr>, srcAddrs: IPAddr -> SrcInfo)
    requires multiset(x) == multiset(y)
    ensures multiset(WithSrcs(x, srcAddrs)) == multiset(WithSrcs(y, srcAddrs))
  {
    var a, b := WithSrcs(x, srcAddrs), WithSrcs(y, srcAddrs);
    forall d: Dest ensures multiset(a)[d] == multiset(b)[d] {
      if d.src == srcAddrs(d.addr) {
        CountWithSrcs(x, srcAddrs, d.addr);
        CountWithSrcs(y, srcAddrs, d.addr);
      } else {
        assert d !in a && d !in b;
      }
    }
  }

  ghost predicate SortedUpTo<T>(less: (T, T) -> bool, s: seq<T>, n: nat) {
    forall a, b | 0 <= a < b < n && b < |s| :: !less(s[b], s[a])
  }

  // While the element at j sinks, the first n are sorted but for it, and it is no worse than
  // those after it.
  ghost predicate SortedExcept<T>(less: (T, T) -> bool, s: seq<T>, n: nat, j: nat) {
    forall a, b | 0 <= a < b < n && b < |s| && b != j :: !less(s[b], s[a])
  }

  lemma SinkOne<T(!new)>(less: (T, T) -> bool, original: seq<T>, s: seq<T>, n: nat, j: nat)
    requires StrictWeakOrder(less) && 0 < j < n <= |s|
    requires SameTies(less, original, s)
    requires SortedExcept(less, s, n, j) && less(s[j], s[j - 1])
    ensures SameTies(less, original, s[j - 1 := s[j]][j := s[j - 1]])
    ensures SortedExcept(less, s[j - 1 := s[j]][j := s[j - 1]], n, j - 1)
  {
    AdjacentSwapKeepsTies(less, s, j - 1);
    var t := s[j - 1 := s[j]][j := s[j - 1]];
    forall x ensures TieClass(less, x, original) == TieClass(less, x, t) {
      assert TieClass(less, x, original) == TieClass(less, x, s);
    }
  }

  lemma InsertionDone<T(!new)>(less: (T, T) -> bool, s: seq<T>, n: nat, j: nat)
    requires StrictWeakOrder(less) && j < n <= |s| && SortedExcept(less, s, n, j)
    requires j == 0 || !less(s[j], s[j - 1])
    ensures SortedUpTo(less, s, n)
  {
    forall a | 0 <= a < j ensures !less(s[j], s[a]) {
      if a < j - 1 {
        NotLessTransitive(less, s[a], s[j - 1], s[j]);
      }
    }
  }
}
