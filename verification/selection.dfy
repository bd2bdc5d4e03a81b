/** The destination ordering of RFC 6724 section 6. */
module Selection {
  import opened NetAddr
  import opened AddrBits
  import opened Policy
  import opened LexOrder
  import opened Ordering

  /** What is known about the source address used for a destination; `addr` is Invalid for an
      unreachable destination. */
  datatype SrcInfo = SrcInfo(addr: Addr, isNative: bool, isDeprecated: bool, isHome: bool)

  datatype IpAttr = IpAttr(scope: nat, precedence: nat, policyLabel: nat,
                           isNative: bool, isDeprecated: bool, isHome: bool)

  const NO_ATTR := IpAttr(0, 0, 0, false, false, false)

  function IpAttrOf(t: Table, a: Addr): IpAttr {
    if a == Invalid then NO_ATTR
    else
      var e := Classify(t, a);
      IpAttr(ClassifyScope(a), e.precedence, e.policyLabel, false, false, false)
  }

  function DstAttrOf(t: Table, dst: IPAddr): IpAttr {
    IpAttrOf(t, AddrFromSlice(dst.ip))
  }

  function SrcAttrOf(t: Table, src: SrcInfo): IpAttr {
    IpAttrOf(t, src.addr).(isNative := src.isNative, isDeprecated := src.isDeprecated, isHome := src.isHome)
  }

  /** The ladder of rules 1 to 10: true when the first destination is the better one. */
  predicate Prefer(da: IP, db: IP, srcA: Addr, srcB: Addr,
                   attrA: IpAttr, attrB: IpAttr, attrSrcA: IpAttr, attrSrcB: IpAttr)
  {
    // Rule 1: avoid unusable destinations.
    if srcA == Invalid && srcB == Invalid then false
    else if srcB == Invalid then true
    else if srcA == Invalid then false
    // Rule 2: prefer matching scope.
    else if attrA.scope == attrSrcA.scope && attrB.scope != attrSrcB.scope then true
    else if attrA.scope != attrSrcA.scope && attrB.scope == attrSrcB.scope then false
    // Rule 3: avoid deprecated addresses.
    else if attrSrcA.isDeprecated && !attrSrcB.isDeprecated then false
    else if !attrSrcA.isDeprecated && attrSrcB.isDeprecated then true
    // Rule 4: prefer home addresses.
    else if attrSrcA.isHome && !attrSrcB.isHome then true
    else if !attrSrcA.isHome && attrSrcB.isHome then false
    // Rule 5: prefer matching label.
    else if attrSrcA.policyLabel == attrA.policyLabel && attrSrcB.policyLabel != attrB.policyLabel then true
    else if attrSrcA.policyLabel != attrA.policyLabel && attrSrcB.policyLabel == attrB.policyLabel then false
    // Rule 6: prefer higher precedence.
    else if attrA.precedence > attrB.precedence then true
    else if attrA.precedence < attrB.precedence then false
    // Rule 7: prefer native transport.
    else if attrSrcA.isNative && !attrSrcB.isNative then true
    else if !attrSrcA.isNative && attrSrcB.isNative then false
    // Rule 8: prefer smaller scope.
    else if attrA.scope < attrB.scope then true
    else if attrA.scope > attrB.scope then false
    // Rule 9: longest matching prefix, only when both are IPv6.
    else if To4(da).None? && To4(db).None? then PrefixLen(srcA, da) > PrefixLen(srcB, db)
    // Rule 10: leave the order unchanged.
    else false
  }

  /** One row of the four parallel arrays; the attributes are determined by it. */
  datatype Dest = Dest(addr: IPAddr, src: SrcInfo)

  predicate Less(t: Table, a: Dest, b: Dest) {
    Prefer(a.addr.ip, b.addr.ip, a.src.addr, b.src.addr,
           DstAttrOf(t, a.addr), DstAttrOf(t, b.addr), SrcAttrOf(t, a.src), SrcAttrOf(t, b.src))
  }

  function LessBy(t: Table): (Dest, Dest) -> bool {
    (a, b) => Less(t, a, b)
  }

  // ----- one key per destination -----

  const UNREACHABLE_KEY: seq<int> := [0, 0, 0, 0, 0, 0, 0, 0, 0]

  function Flag(b: bool): int {
    if b then 1 else 0
  }

  /** The preference key of RFC 6724: reachable, scope match, not deprecated, home, label match,
      precedence, native, smaller scope, IPv6 prefix length.  It looks at one destination only. */
  function Key(t: Table, d: Dest): (k: seq<int>)
    ensures |k| == 9
  {
    KeyFrom(d.addr.ip, d.src.addr, DstAttrOf(t, d.addr), SrcAttrOf(t, d.src))
  }

  function KeyFrom(ip: IP, srcAddr: Addr, dst: IpAttr, src: IpAttr): (k: seq<int>)
    ensures |k| == 9
  {
    if srcAddr == Invalid then UNREACHABLE_KEY
    else [
      1,
      Flag(dst.scope == src.scope),
      Flag(!src.isDeprecated),
      Flag(src.isHome),
      Flag(dst.policyLabel == src.policyLabel),
      dst.precedence,
      Flag(src.isNative),
      0 - dst.scope,
      if To4(ip).None? then PrefixLen(srcAddr, ip) else 0
    ]
  }

  // The address a destination is taken for; it has no scope, label or precedence if it has none of
  // the two lengths.
  function DstAddr(d: Dest): Addr {
    AddrFromSlice(d.addr.ip)
  }

  /** What the nine parts of a reachable destination's key say, in terms of its own record. */
  lemma KeyParts(t: Table, d: Dest)
    requires d.src.addr != Invalid
    ensures var k, dst := Key(t, d), DstAddr(d);
      && k[0] == 1
      && (k[1] == 1 <==> ClassifyScope(d.src.addr) == if dst == Invalid then 0 else ClassifyScope(dst))
      && (k[2] == 1 <==> !d.src.isDeprecated)
      && (k[3] == 1 <==> d.src.isHome)
      && (k[4] == 1 <==>
            Classify(t, d.src.addr).policyLabel == if dst == Invalid then 0 else Classify(t, dst).policyLabel)
      && k[5] == (if dst == Invalid then 0 else Classify(t, dst).precedence)
      && (k[6] == 1 <==> d.src.isNative)
      && k[7] == 0 - (if dst == Invalid then 0 else ClassifyScope(dst))
      && k[8] == (if To4(d.addr.ip).Some? then 0 else PrefixLen(d.src.addr, d.addr.ip))
    ensures forall i | i in {1, 2, 3, 4, 6} :: Key(t, d)[i] in {0, 1}
  {
  }

  /** An unreachable destination's key is nine zeros, which no reachable one has. */
  lemma UnreachableKey(t: Table, d: Dest)
    ensures d.src.addr == Invalid <==> Key(t, d) == [0, 0, 0, 0, 0, 0, 0, 0, 0]
    ensures d.src.addr == Invalid <==> Key(t, d)[0] == 0
  {
  }

  const SRC_OLD := SrcInfo(V6([0x2a, 0x01, 0, 0, 0, 0, 0, 0, 0, 0, 0, 0, 0, 0, 0, 9]), true, true, false)
  const SRC_NEW := SrcInfo(V6([0x2a, 0x01, 0, 0, 0, 0, 0, 0, 0, 0, 0, 0, 0, 0, 0, 8]), true, false, false)

  // ----- the rules, one by one -----

  /** Of two reachable destinations that agree in all earlier respects the better one is decided by
      the first respect in which they differ: scope match, then a source that is not deprecated, a
      home address, label match, higher precedence, native transport, smaller scope and, for two
      IPv6 destinations, the longer common prefix. */
  lemma RulesInOrder(t: Table, a: Dest, b: Dest, i: nat)
    requires SeparatesFamilies(t) && i < 9 && Key(t, a)[..i] == Key(t, b)[..i]
    ensures Key(t, a)[i] > Key(t, b)[i] ==> Less(t, a, b) && !Less(t, b, a)
    ensures i == 8 && Key(t, a)[8] == Key(t, b)[8] ==> !Less(t, a, b) && !Less(t, b, a)
  {
    var x, y := Key(t, a), Key(t, b);
    LessIsLexOrder(t, a, b);
    LessIsLexOrder(t, b, a);
    if x[i] > y[i] {
      LexLessIff(y, x);
      LexIrreflexive(x);
      if LexLess(x, y) {
        LexTransitive(x, y, x);
      }
    } else if i == 8 && x[8] == y[8] {
      assert x == x[..8] + [x[8]] && y == y[..8] + [y[8]];
      LexIrreflexive(x);
    }
  }

  /** Rule 3 for instance: of 2a02::1 with a deprecated source and 2a02::2 with one that is not, the
      second is better, although nothing else but the last byte differs. */
  lemma DeprecatedSourceLoses()
    ensures var a := Dest(IPAddr([0x2a, 0x02, 0, 0, 0, 0, 0, 0, 0, 0, 0, 0, 0, 0, 0, 1], ""), SRC_OLD);
      var b := Dest(IPAddr([0x2a, 0x02, 0, 0, 0, 0, 0, 0, 0, 0, 0, 0, 0, 0, 0, 2], ""), SRC_NEW);
      Less(RFC6724, b, a) && !Less(RFC6724, a, b)
  {
    var a := Dest(IPAddr([0x2a, 0x02, 0, 0, 0, 0, 0, 0, 0, 0, 0, 0, 0, 0, 0, 1], ""), SRC_OLD);
    var b := Dest(IPAddr([0x2a, 0x02, 0, 0, 0, 0, 0, 0, 0, 0, 0, 0, 0, 0, 0, 2], ""), SRC_NEW);
    NotMapped(a.addr.ip);
    NotMapped(b.addr.ip);
    NotMapped(SRC_OLD.addr.b16);
    NotMapped(SRC_NEW.addr.b16);
    assert ClassifyScope(SRC_OLD.addr) == ClassifyScope(SRC_NEW.addr) == SCOPE_GLOBAL;
    assert ClassifyScope(DstAddr(a)) == ClassifyScope(DstAddr(b)) == SCOPE_GLOBAL;
  }

  /** The table tells the two families apart by precedence. */
  ghost predicate SeparatesFamilies(t: Table) {
    forall p: IP, q: IP :: To4(p).Some? && To4(q).None? ==> PrecedenceOf(t, p) != PrecedenceOf(t, q)
  }

  lemma RealTableSeparates()
    ensures SeparatesFamilies(RFC6724)
  {
    forall p: IP, q: IP | To4(p).Some? && To4(q).None?
      ensures PrecedenceOf(RFC6724, p) != PrecedenceOf(RFC6724, q)
    {
      Precedence35IsIPv4(p);
      Precedence35IsIPv4(q);
    }
  }

  lemma PrecedenceInAttr(t: Table, dst: IPAddr)
    ensures DstAttrOf(t, dst).precedence == PrecedenceOf(t, dst.ip)
  {
  }

  /** The ladder compares keys: under a separating table the better destination is the one with
      the lexicographically greater key. */
  lemma LessIsLexOrder(t: Table, a: Dest, b: Dest)
    requires SeparatesFamilies(t)
    ensures Less(t, a, b) <==> LexLess(Key(t, b), Key(t, a))
  {
    PrecedenceInAttr(t, a.addr);
    PrecedenceInAttr(t, b.addr);
    LadderIsLexOrder(a.addr.ip, b.addr.ip, a.src.addr, b.src.addr,
                     DstAttrOf(t, a.addr), DstAttrOf(t, b.addr), SrcAttrOf(t, a.src), SrcAttrOf(t, b.src));
  }

  lemma LadderIsLexOrder(da: IP, db: IP, srcA: Addr, srcB: Addr,
                         attrA: IpAttr, attrB: IpAttr, attrSrcA: IpAttr, attrSrcB: IpAttr)
    requires To4(da).Some? != To4(db).Some? ==> attrA.precedence != attrB.precedence
    ensures Prefer(da, db, srcA, srcB, attrA, attrB, attrSrcA, attrSrcB)
       <==> LexLess(KeyFrom(db, srcB, attrB, attrSrcB), KeyFrom(da, srcA, attrA, attrSrcA))
  {
    var x, y := KeyFrom(db, srcB, attrB, attrSrcB), KeyFrom(da, srcA, attrA, attrSrcA);
    LexNine(x, y);
  }

  // The order on nine components, written out.
  lemma LexNine(x: seq<int>, y: seq<int>)
    requires |x| == |y| == 9
    ensures LexLess(x, y) <==>
      || x[0] < y[0] || (x[0] == y[0] && (
      || x[1] < y[1] || (x[1] == y[1] && (
      || x[2] < y[2] || (x[2] == y[2] && (
      || x[3] < y[3] || (x[3] == y[3] && (
      || x[4] < y[4] || (x[4] == y[4] && (
      || x[5] < y[5] || (x[5] == y[5] && (
      || x[6] < y[6] || (x[6] == y[6] && (
      || x[7] < y[7] || (x[7] == y[7] && x[8] < y[8])))))))))))))))
  {
    assert x[0..] == x && y[0..] == y;
    LexFrom(x, y, 0);
    LexFrom(x, y, 1);
    LexFrom(x, y, 2);
    LexFrom(x, y, 3);
    LexFrom(x, y, 4);
    LexFrom(x, y, 5);
    LexFrom(x, y, 6);
    LexFrom(x, y, 7);
    LexFrom(x, y, 8);
  }

  lemma {:induction false} LessIsStrictWeakOrder(t: Table)
    requires SeparatesFamilies(t)
    ensures StrictWeakOrder(LessBy(t))
  {
    var less := LessBy(t);
    forall a: Dest, b: Dest ensures less(a, b) <==> LexLess(Key(t, b), Key(t, a)) {
      LessIsLexOrder(t, a, b);
    }
    forall a: Dest ensures !less(a, a) {
      LexIrreflexive(Key(t, a));
    }
    forall a: Dest, b: Dest, c: Dest | less(a, b) && less(b, c) ensures less(a, c) {
      LexTransitive(Key(t, c), Key(t, b), Key(t, a));
    }
    forall a: Dest, b: Dest, c: Dest | Tied(less, a, b) && Tied(less, b, c) ensures Tied(less, a, c) {
      LexTotal(Key(t, a), Key(t, b));
      LexTotal(Key(t, b), Key(t, c));
      LexIrreflexive(Key(t, a));
    }
  }

  lemma TiedMeansSameKey(t: Table, a: Dest, b: Dest)
    requires SeparatesFamilies(t)
    ensures Tied(LessBy(t), a, b) <==> Key(t, a) == Key(t, b)
  {
    LessIsLexOrder(t, a, b);
    LessIsLexOrder(t, b, a);
    LexTotal(Key(t, a), Key(t, b));
    LexIrreflexive(Key(t, a));
  }

  /** In a sorted list every reachable destination stands before every unreachable one. */
  lemma ReachableFirst(t: Table, rows: seq<Dest>, i: nat, j: nat)
    requires Sorted(LessBy(t), rows) && i < j < |rows| && rows[i].src.addr == Invalid
    ensures rows[j].src.addr == Invalid
  {
  }

  // ----- why the separation is needed -----

  const ONLY_DEFAULT: Table := [DEFAULT]

  const SRC_A := SrcInfo(V6([0x20, 0x01, 0, 0, 0, 0, 0, 0, 0, 0, 0, 0, 0, 0, 0, 1]), true, false, false)
  const SRC_4 := SrcInfo(V4([9, 9, 9, 9]), true, false, false)
  const FAR := Dest(IPAddr([0x2a, 0, 0, 0, 0, 0, 0, 0, 0, 0, 0, 0, 0, 0, 0, 1], ""), SRC_A)
  const NEAR := Dest(IPAddr([0x20, 0x01, 0, 0, 0, 0, 0, 0, 0, 0, 0, 0, 0, 0, 0, 2], ""), SRC_A)
  const V4_DEST := Dest(IPAddr([8, 8, 8, 8], ""), SRC_4)

  /** With a table that does not separate the families, two IPv6 destinations of different prefix
      length are both tied with an IPv4 destination: the comparator is then no weak order. */
  lemma {:induction false} SeparationIsNeeded()
    ensures Tied(LessBy(ONLY_DEFAULT), FAR, V4_DEST) && Tied(LessBy(ONLY_DEFAULT), V4_DEST, NEAR)
    ensures Less(ONLY_DEFAULT, NEAR, FAR)
    ensures !SeparatesFamilies(ONLY_DEFAULT) && !StrictWeakOrder(LessBy(ONLY_DEFAULT))
  {
    ExampleAttributes();
    NearIsNearer();
    TiesAcrossFamilies(FAR, V4_DEST);
    TiesAcrossFamilies(NEAR, V4_DEST);
    PrecedenceInAttr(ONLY_DEFAULT, FAR.addr);
    PrecedenceInAttr(ONLY_DEFAULT, V4_DEST.addr);
    assert Tied(LessBy(ONLY_DEFAULT), FAR, V4_DEST) && Tied(LessBy(ONLY_DEFAULT), V4_DEST, NEAR);
    assert !Tied(LessBy(ONLY_DEFAULT), FAR, NEAR);
  }

  const EXAMPLE_ATTR := IpAttr(SCOPE_GLOBAL, 40, 1, false, false, false)

  ghost predicate IsExample(d: Dest) {
    && d.src.addr != Invalid && d.src == SrcInfo(d.src.addr, true, false, false)
    && DstAttrOf(ONLY_DEFAULT, d.addr) == EXAMPLE_ATTR
    && IpAttrOf(ONLY_DEFAULT, d.src.addr) == EXAMPLE_ATTR
  }

  lemma TiesAcrossFamilies(a: Dest, b: Dest)
    requires IsExample(a) && IsExample(b) && To4(b.addr.ip).Some?
    ensures Tied(LessBy(ONLY_DEFAULT), a, b) && Tied(LessBy(ONLY_DEFAULT), b, a)
  {
  }

  lemma GlobalAttribute(a: Addr)
    requires a != Invalid && ClassifyScope(a) == SCOPE_GLOBAL
    ensures IpAttrOf(ONLY_DEFAULT, a) == EXAMPLE_ATTR
  {
  }

  lemma ExampleAttributes()
    ensures IsExample(FAR) && IsExample(NEAR) && IsExample(V4_DEST)
  {
    NotMapped(FAR.addr.ip);
    NotMapped(NEAR.addr.ip);
    NotMapped(SRC_A.addr.b16);
    GlobalAttribute(V6(FAR.addr.ip));
    GlobalAttribute(V6(NEAR.addr.ip));
    GlobalAttribute(SRC_A.addr);
    GlobalAttribute(V4(V4_DEST.addr.ip));
    GlobalAttribute(SRC_4.addr);
  }

  lemma NotMapped(b: Octets16)
    requires b[0] != 0
    ensures !Is4In6(V6(b)) && To4(b).None?
  {
  }

  lemma NearIsNearer()
    ensures To4(FAR.addr.ip).None? && To4(NEAR.addr.ip).None?
    ensures PrefixLen(SRC_A.addr, NEAR.addr.ip) > PrefixLen(SRC_A.addr, FAR.addr.ip)
  {
    var src, far, near := Capped(AsSlice(SRC_A.addr)), Capped(FAR.addr.ip), Capped(NEAR.addr.ip);
    NotMapped(FAR.addr.ip);
    NotMapped(NEAR.addr.ip);
    AgreeByOctets(src, near, 2, 0);
    assert src[..2] == near[..2] == [0x20, 0x01];
    LongestAgreementIsGreatest(src, near, PrefixLen(SRC_A.addr, NEAR.addr.ip), 16);
    AgreeByOctets(src, far, 1, 0);
    assert src[..1] == [0x20] && far[..1] == [0x2a];
    LongestAgreementIsGreatest(src, far, PrefixLen(SRC_A.addr, FAR.addr.ip), 8);
  }

  // ----- the two written forms of an IPv4 destination -----

  /** The destination with an IPv4 address in 4 bytes replaced by its 16-byte form. */
  function Rewritten(d: Dest): (r: Dest)
    ensures r.src == d.src && r.addr.zone == d.addr.zone
    ensures |d.addr.ip| == 4 ==> r.addr.ip == [0, 0, 0, 0, 0, 0, 0, 0, 0, 0, 0xff, 0xff] + d.addr.ip
    ensures |d.addr.ip| != 4 ==> r == d
  {
    if |d.addr.ip| == 4 then d.(addr := d.addr.(ip := MappedForm(d.addr.ip))) else d
  }

  lemma RewritingKeepsPreference(t: Table, d: Dest)
    ensures DstAttrOf(t, Rewritten(d).addr) == DstAttrOf(t, d.addr)
    ensures To4(Rewritten(d).addr.ip) == To4(d.addr.ip)
    ensures Key(t, Rewritten(d)) == Key(t, d)
  {
  }

  lemma RewritingKeepsLess(t: Table, a: Dest, b: Dest)
    ensures Less(t, Rewritten(a), b) == Less(t, a, b)
    ensures Less(t, a, Rewritten(b)) == Less(t, a, b)
  {
    RewritingKeepsPreference(t, a);
    RewritingKeepsPreference(t, b);
  }

  function RewrittenAll(s: seq<Dest>): seq<Dest> {
    seq(|s|, i requires 0 <= i < |s| => Rewritten(s[i]))
  }

  lemma {:induction false} RewritingMapsTies(t: Table, x: Dest, s: seq<Dest>)
    ensures TieClass(LessBy(t), x, RewrittenAll(s)) == RewrittenAll(TieClass(LessBy(t), x, s))
  {
    if s != [] {
      RewritingKeepsTied(t, x, s[0]);
      assert RewrittenAll(s)[1..] == RewrittenAll(s[1..]);
      RewritingMapsTies(t, x, s[1..]);
      var h := if Tied(LessBy(t), x, s[0]) then [s[0]] else [];
      RewritingConcat(h, TieClass(LessBy(t), x, s[1..]));
    }
  }

  lemma RewritingKeepsTied(t: Table, x: Dest, d: Dest)
    ensures Tied(LessBy(t), x, Rewritten(d)) == Tied(LessBy(t), x, d)
  {
    RewritingKeepsLess(t, x, d);
    RewritingKeepsLess(t, d, x);
  }

  lemma RewritingConcat(x: seq<Dest>, y: seq<Dest>)
    ensures RewrittenAll(x + y) == RewrittenAll(x) + RewrittenAll(y)
  {
  }

  /** Whichever IPv4 destinations are rewritten: if two lists are the same but for the written form of
      their IPv4 destinations, their sorted arrangements are the same but for it. */
  lemma WrittenFormKeepsSortedOrder(t: Table, s: seq<Dest>, u: seq<Dest>, sortedS: seq<Dest>, sortedU: seq<Dest>)
    requires SeparatesFamilies(t) && RewrittenAll(s) == RewrittenAll(u)
    requires IsStableSort(LessBy(t), s, sortedS) && IsStableSort(LessBy(t), u, sortedU)
    ensures RewrittenAll(sortedS) == RewrittenAll(sortedU)
  {
    var less, x, y := LessBy(t), RewrittenAll(sortedS), RewrittenAll(sortedU);
    RewritingKeepsSortedOrder(t, s, sortedS);
    RewritingKeepsSortedOrder(t, u, sortedU);
    LessIsStrictWeakOrder(t);
    forall d ensures TieClass(less, d, x) == TieClass(less, d, y) {
      assert TieClass(less, d, RewrittenAll(s)) == TieClass(less, d, x);
    }
    StableSortIsUnique(less, x, y);
  }

  /** Rewriting every IPv4 destination in 16 bytes commutes with sorting. */
  lemma {:induction false} RewritingKeepsSortedOrder(t: Table, s: seq<Dest>, sorted: seq<Dest>)
    requires IsStableSort(LessBy(t), s, sorted)
    ensures IsStableSort(LessBy(t), RewrittenAll(s), RewrittenAll(sorted))
  {
    forall i, j | 0 <= i < j < |sorted|
      ensures !Less(t, Rewritten(sorted[j]), Rewritten(sorted[i]))
    {
      RewritingKeepsLess(t, sorted[j], sorted[i]);
      RewritingKeepsLess(t, Rewritten(sorted[j]), sorted[i]);
      assert !LessBy(t)(sorted[j], sorted[i]);
    }
    forall x ensures TieClass(LessBy(t), x, RewrittenAll(s)) == TieClass(LessBy(t), x, RewrittenAll(sorted)) {
      RewritingMapsTies(t, x, s);
      RewritingMapsTies(t, x, sorted);
      assert TieClass(LessBy(t), x, s) == TieClass(LessBy(t), x, sorted);
    }
  }
}
