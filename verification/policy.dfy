/** The policy table of RFC 6724 section 2.1 and the scope classes of section 3.1. */
module Policy {
  import opened NetAddr
  import opened AddrBits

  datatype Prefix = Prefix(base: Octets16, bits: nat)

  datatype Entry = Entry(prefix: Prefix, precedence: nat, policyLabel: nat)

  type Table = seq<Entry>

  const NO_ENTRY := Entry(Prefix([0, 0, 0, 0, 0, 0, 0, 0, 0, 0, 0, 0, 0, 0, 0, 0], 0), 0, 0)

  /** netip.Prefix.Contains for an IPv6 prefix: the first `bits` bits agree.  It never matches
      a 4-byte address, and a prefix longer than its address is not valid. */
  predicate Contains(p: Prefix, a: Addr) {
    a.V6? && p.bits <= 128 && Agree(p.base, a.b16, p.bits)
  }

  function Lookup(t: Table, a: Addr): Entry {
    if t == [] then NO_ENTRY
    else if Contains(t[0].prefix, a) then t[0]
    else Lookup(t[1..], a)
  }

  function Classify(t: Table, a: Addr): Entry {
    Lookup(t, if a.V4? then V6(MappedForm(a.b4)) else a)
  }

  // The order the comment on the table demands: longest prefix first.
  predicate LongestFirst(t: Table) {
    forall i, j | 0 <= i < j < |t| :: t[j].prefix.bits <= t[i].prefix.bits
  }

  /** Lookup answers with the first entry that contains a, and with the zero entry exactly
      when none does. */
  lemma {:induction false} LookupFindsFirst(t: Table, a: Addr) returns (n: nat)
    ensures n <= |t|
    ensures forall i | 0 <= i < n :: !Contains(t[i].prefix, a)
    ensures n < |t| ==> Contains(t[n].prefix, a) && Lookup(t, a) == t[n]
    ensures n == |t| ==> Lookup(t, a) == NO_ENTRY
  {
    if t == [] {
      n := 0;
    } else if Contains(t[0].prefix, a) {
      n := 0;
    } else {
      var m := LookupFindsFirst(t[1..], a);
      n := m + 1;
      forall i | 0 <= i < n ensures !Contains(t[i].prefix, a) {
        if i > 0 {
          assert t[i] == t[1..][i - 1];
        }
      }
    }
  }

  /** In a table ordered by decreasing prefix length Lookup finds a longest matching prefix. */
  lemma LookupIsLongestMatch(t: Table, a: Addr, i: nat)
    requires LongestFirst(t) && i < |t| && Contains(t[i].prefix, a)
    ensures Lookup(t, a) in t
    ensures Contains(Lookup(t, a).prefix, a)
    ensures t[i].prefix.bits <= Lookup(t, a).prefix.bits
  {
    var n := LookupFindsFirst(t, a);
  }

  // ----- the table of the program -----

  const LOOPBACK := Entry(Prefix([0, 0, 0, 0, 0, 0, 0, 0, 0, 0, 0, 0, 0, 0, 0, 1], 128), 50, 0)
  const MAPPED := Entry(Prefix([0, 0, 0, 0, 0, 0, 0, 0, 0, 0, 0xff, 0xff, 0, 0, 0, 0], 96), 35, 4)
  const COMPATIBLE := Entry(Prefix([0, 0, 0, 0, 0, 0, 0, 0, 0, 0, 0, 0, 0, 0, 0, 0], 96), 1, 3)
  const TEREDO := Entry(Prefix([0x20, 0x01, 0, 0, 0, 0, 0, 0, 0, 0, 0, 0, 0, 0, 0, 0], 32), 5, 5)
  const SIX_TO_FOUR := Entry(Prefix([0x20, 0x02, 0, 0, 0, 0, 0, 0, 0, 0, 0, 0, 0, 0, 0, 0], 16), 30, 2)
  const SIX_BONE := Entry(Prefix([0x3f, 0xfe, 0, 0, 0, 0, 0, 0, 0, 0, 0, 0, 0, 0, 0, 0], 16), 1, 12)
  const SITE_LOCAL := Entry(Prefix([0xfe, 0xc0, 0, 0, 0, 0, 0, 0, 0, 0, 0, 0, 0, 0, 0, 0], 10), 1, 11)
  const UNIQUE_LOCAL := Entry(Prefix([0xfc, 0, 0, 0, 0, 0, 0, 0, 0, 0, 0, 0, 0, 0, 0, 0], 7), 3, 13)
  const DEFAULT := Entry(Prefix([0, 0, 0, 0, 0, 0, 0, 0, 0, 0, 0, 0, 0, 0, 0, 0], 0), 40, 1)

  const RFC6724: Table :=
    [LOOPBACK, MAPPED, COMPATIBLE, TEREDO, SIX_TO_FOUR, SIX_BONE, SITE_LOCAL, UNIQUE_LOCAL, DEFAULT]

  // Containment in a prefix of whole octets.
  lemma ContainsWholeOctets(p: Prefix, a: Octets16, k: nat)
    requires k <= 16 && p.bits == 8 * k
    ensures Contains(p, V6(a)) <==> p.base[..k] == a[..k]
  {
    AgreeByOctets(p.base, a, k, 0);
  }

  lemma TopTwoBits(a: bv8, b: bv8)
    ensures OctetAgree(a, b, 2) <==> a & 0xc0 == b & 0xc0
  {
    assert OctetAgree(a, b, 2) <==> OctetBit(a, 0) == OctetBit(b, 0) && OctetBit(a, 1) == OctetBit(b, 1);
  }

  lemma ContainsMapped(a: Octets16)
    ensures Contains(MAPPED.prefix, V6(a)) <==> a[..12] == MAPPED_PREFIX
  {
    ContainsWholeOctets(MAPPED.prefix, a, 12);
    assert MAPPED.prefix.base[..12] == MAPPED_PREFIX;
  }

  lemma ContainsSiteLocal(a: Octets16)
    ensures Contains(SITE_LOCAL.prefix, V6(a)) <==> a[0] == 0xfe && a[1] & 0xc0 == 0xc0
  {
    AgreeByOctets(SITE_LOCAL.prefix.base, a, 1, 2);
    TopTwoBits(SITE_LOCAL.prefix.base[1], a[1]);
    assert SITE_LOCAL.prefix.base[..1] == [0xfe];
    assert a[..1] == [a[0]];
  }

  lemma TableOrdered()
    ensures LongestFirst(RFC6724)
  {
  }

  lemma DefaultContainsAll(a: Octets16)
    ensures Contains(DEFAULT.prefix, V6(a))
  {
  }

  /** Two entries with prefixes of the same length never contain the same address. */
  lemma EqualLengthsAreDisjoint(i: nat, j: nat, a: Addr)
    requires i < j < |RFC6724| && RFC6724[i].prefix.bits == RFC6724[j].prefix.bits
    requires Contains(RFC6724[i].prefix, a)
    ensures !Contains(RFC6724[j].prefix, a)
  {
    if i == 1 {
      ContainsMapped(a.b16);
      ContainsWholeOctets(COMPATIBLE.prefix, a.b16, 12);
      assert COMPATIBLE.prefix.base[..12][11] == 0;
      assert MAPPED_PREFIX[11] == 0xff;
    } else {
      assert i == 4 && j == 5;
      ContainsWholeOctets(SIX_TO_FOUR.prefix, a.b16, 2);
      ContainsWholeOctets(SIX_BONE.prefix, a.b16, 2);
      assert SIX_TO_FOUR.prefix.base[..2][0] == 0x20;
      assert SIX_BONE.prefix.base[..2][0] == 0x3f;
    }
  }

  /** RFC 6724 section 2.1 in the program's table: every valid address matches, and Classify
      answers with the one entry that matches with the greatest length. */
  lemma ClassifyIsTheLongestMatch(a: Addr, i: nat)
    requires a != Invalid && i < |RFC6724|
    ensures Classify(RFC6724, a) in RFC6724
    ensures Contains(Classify(RFC6724, a).prefix, V6(As16(a)))
    ensures Contains(RFC6724[i].prefix, V6(As16(a))) ==>
      || RFC6724[i] == Classify(RFC6724, a)
      || RFC6724[i].prefix.bits < Classify(RFC6724, a).prefix.bits
  {
    var x := V6(As16(a));
    DefaultContainsAll(As16(a));
    assert RFC6724[8] == DEFAULT;
    var n := LookupFindsFirst(RFC6724, x);
    TableOrdered();
    if Contains(RFC6724[i].prefix, x) && n < i && RFC6724[i].prefix.bits == RFC6724[n].prefix.bits {
      EqualLengthsAreDisjoint(n, i, x);
    }
  }

  // The precedence ipAttrOf stores for a destination; 0 for a `net.IP` of a wrong length.
  function PrecedenceOf(t: Table, ip: IP): nat {
    var a := AddrFromSlice(ip);
    if a == Invalid then 0 else Classify(t, a).precedence
  }

  /** What the comparator relies on: the table gives precedence 35 to the IPv4 addresses, in
      either written form, and to nothing else. */
  lemma Precedence35IsIPv4(ip: IP)
    ensures PrecedenceOf(RFC6724, ip) == 35 <==> To4(ip).Some?
  {
    var a := AddrFromSlice(ip);
    if a != Invalid {
      var b := As16(a);
      var n := LookupFindsFirst(RFC6724, V6(b));
      DefaultContainsAll(b);
      assert RFC6724[8] == DEFAULT;
      ContainsMapped(b);
      ContainsWholeOctets(LOOPBACK.prefix, b, 16);
      assert RFC6724[0] == LOOPBACK && RFC6724[1] == MAPPED;
      if a.V4? {
        UnmapMappedForm(a.b4);
      } else {
        assert AddrFromSlice(ip).b16 == ip;
      }
      if b[..12] == MAPPED_PREFIX {
        assert b[11] == MAPPED_PREFIX[11] == 0xff;
        assert LOOPBACK.prefix.base[..16][11] == 0;
      }
    }
  }

  // ----- scopes -----

  const SCOPE_LINK_LOCAL: nat := 0x2
  const SCOPE_SITE_LOCAL: nat := 0x5
  const SCOPE_GLOBAL: nat := 0xe

  function ClassifyScope(a: Addr): nat
    requires a != Invalid
  {
    if IsLoopback(a) || IsLinkLocalUnicast(a) then SCOPE_LINK_LOCAL
    else
      var ipv6 := a.V6? && !Is4In6(a);
      var b := As16(a);
      if ipv6 && IsMulticast(a) then (b[1] & 0xf) as nat
      else if ipv6 && b[0] == 0xfe && b[1] & 0xc0 == 0xc0 then SCOPE_SITE_LOCAL
      else SCOPE_GLOBAL
  }

  /** The scope rule and the table agree on what is site-local (multicast addresses carry
      their scope in the address and are set apart). */
  lemma SiteLocalScopeIsTableEntry(b: Octets16)
    requires !IsMulticast(V6(b))
    ensures ClassifyScope(V6(b)) == SCOPE_SITE_LOCAL <==> Classify(RFC6724, V6(b)) == SITE_LOCAL
  {
    ContainsSiteLocal(b);
    var n := LookupFindsFirst(RFC6724, V6(b));
    assert RFC6724[6] == SITE_LOCAL;
    if Contains(SITE_LOCAL.prefix, V6(b)) {
      if n < 6 {
        SiteLocalMatchesNothingEarlier(b, n);
      }
      assert b[..12][0] == b[0] && MAPPED_PREFIX[0] == 0;
      assert ClassifyScope(V6(b)) == SCOPE_SITE_LOCAL;
    }
  }

  lemma SiteLocalMatchesNothingEarlier(b: Octets16, n: nat)
    requires b[0] == 0xfe && n < 6
    ensures !Contains(RFC6724[n].prefix, V6(b))
  {
    var p := RFC6724[n].prefix;
    ContainsWholeOctets(p, b, p.bits / 8);
    assert b[..p.bits / 8][0] == 0xfe;
    assert p.base[..p.bits / 8][0] == p.base[0];
  }

  /** Writing an IPv4 address in 16 bytes changes neither its table entry nor its scope. */
  lemma MappedFormIsClassifiedAlike(t: Table, b: Octets4)
    ensures Classify(t, V6(MappedForm(b))) == Classify(t, V4(b))
    ensures ClassifyScope(V6(MappedForm(b))) == ClassifyScope(V4(b))
  {
  }

  // ----- table and scopes byte by byte -----

  // Precedence and label.
  datatype PolicyValue = PolicyValue(precedence: nat, policyLabel: nat)

  /** RFC 6724 section 2.1, the longest prefix first, read off the bytes of an address. */
  function PolicyOf(b: Octets16): PolicyValue {
    if b[..15] == [0, 0, 0, 0, 0, 0, 0, 0, 0, 0, 0, 0, 0, 0, 0] && b[15] == 1 then PolicyValue(50, 0)
    else if b[..12] == [0, 0, 0, 0, 0, 0, 0, 0, 0, 0, 0xff, 0xff] then PolicyValue(35, 4)
    else if b[..12] == [0, 0, 0, 0, 0, 0, 0, 0, 0, 0, 0, 0] then PolicyValue(1, 3)
    else if b[..4] == [0x20, 0x01, 0, 0] then PolicyValue(5, 5)
    else if b[..2] == [0x20, 0x02] then PolicyValue(30, 2)
    else if b[..2] == [0x3f, 0xfe] then PolicyValue(1, 12)
    else if b[0] == 0xfe && b[1] >= 0xc0 then PolicyValue(1, 11)
    else if b[0] == 0xfc || b[0] == 0xfd then PolicyValue(3, 13)
    else PolicyValue(40, 1)
  }

  lemma HighBits(x: bv8)
    ensures x & 0xc0 == 0xc0 <==> x >= 0xc0
    ensures x & 0xc0 == 0x80 <==> 0x80 <= x < 0xc0
    ensures x & 0xfe == 0xfc <==> x == 0xfc || x == 0xfd
  {
  }

  lemma TopSevenBits(a: bv8, b: bv8)
    ensures OctetAgree(a, b, 7) <==> a & 0xfe == b & 0xfe
  {
    assert OctetAgree(a, b, 7) <==>
      && OctetBit(a, 0) == OctetBit(b, 0) && OctetBit(a, 1) == OctetBit(b, 1)
      && OctetBit(a, 2) == OctetBit(b, 2) && OctetBit(a, 3) == OctetBit(b, 3)
      && OctetBit(a, 4) == OctetBit(b, 4) && OctetBit(a, 5) == OctetBit(b, 5)
      && OctetBit(a, 6) == OctetBit(b, 6);
  }

  lemma ContainsUniqueLocal(a: Octets16)
    ensures Contains(UNIQUE_LOCAL.prefix, V6(a)) <==> a[0] & 0xfe == 0xfc
  {
    AgreeByOctets(UNIQUE_LOCAL.prefix.base, a, 0, 7);
    TopSevenBits(UNIQUE_LOCAL.prefix.base[0], a[0]);
  }

  // Which entries contain b, the first three and the others.
  lemma LongPrefixes(b: Octets16)
    ensures Contains(LOOPBACK.prefix, V6(b)) <==>
      b[..15] == [0, 0, 0, 0, 0, 0, 0, 0, 0, 0, 0, 0, 0, 0, 0] && b[15] == 1
    ensures Contains(MAPPED.prefix, V6(b)) <==> b[..12] == [0, 0, 0, 0, 0, 0, 0, 0, 0, 0, 0xff, 0xff]
    ensures Contains(COMPATIBLE.prefix, V6(b)) <==> b[..12] == [0, 0, 0, 0, 0, 0, 0, 0, 0, 0, 0, 0]
  {
    ContainsWholeOctets(LOOPBACK.prefix, b, 16);
    assert b[..16] == b[..15] + [b[15]];
    assert LOOPBACK.prefix.base[..16] == LOOPBACK.prefix.base[..15] + [1];
    ContainsMapped(b);
    ContainsWholeOctets(COMPATIBLE.prefix, b, 12);
    assert COMPATIBLE.prefix.base[..12] == [0, 0, 0, 0, 0, 0, 0, 0, 0, 0, 0, 0];
  }

  lemma ShortPrefixes(b: Octets16)
    ensures Contains(TEREDO.prefix, V6(b)) <==> b[..4] == [0x20, 0x01, 0, 0]
    ensures Contains(SIX_TO_FOUR.prefix, V6(b)) <==> b[..2] == [0x20, 0x02]
    ensures Contains(SIX_BONE.prefix, V6(b)) <==> b[..2] == [0x3f, 0xfe]
    ensures Contains(SITE_LOCAL.prefix, V6(b)) <==> b[0] == 0xfe && b[1] >= 0xc0
    ensures Contains(UNIQUE_LOCAL.prefix, V6(b)) <==> b[0] == 0xfc || b[0] == 0xfd
  {
    ContainsWholeOctets(TEREDO.prefix, b, 4);
    assert TEREDO.prefix.base[..4] == [0x20, 0x01, 0, 0];
    ContainsWholeOctets(SIX_TO_FOUR.prefix, b, 2);
    assert SIX_TO_FOUR.prefix.base[..2] == [0x20, 0x02];
    ContainsWholeOctets(SIX_BONE.prefix, b, 2);
    assert SIX_BONE.prefix.base[..2] == [0x3f, 0xfe];
    ContainsSiteLocal(b);
    ContainsUniqueLocal(b);
    HighBits(b[0]);
    HighBits(b[1]);
  }

  /** The program's table gives every address its precedence and label. */
  lemma ClassifyIsPolicyOf(a: Addr)
    requires a != Invalid
    ensures var e := Classify(RFC6724, a);
      PolicyValue(e.precedence, e.policyLabel) == PolicyOf(As16(a))
  {
    var b := As16(a);
    LongPrefixes(b);
    ShortPrefixes(b);
    DefaultContainsAll(b);
    var n := LookupFindsFirst(RFC6724, V6(b));
    assert RFC6724[8] == DEFAULT && n <= 8;
    EntryAt(n);
    forall i: nat | i < n ensures !Contains(RFC6724[i].prefix, V6(b)) && EntryIs(i) {
      EntryAt(i);
    }
    FirstOfNine(b, n);
  }

  // The table by index.
  predicate EntryIs(i: nat)
    requires i < 9
  {
    RFC6724[i] ==
      if i == 0 then LOOPBACK else if i == 1 then MAPPED else if i == 2 then COMPATIBLE
      else if i == 3 then TEREDO else if i == 4 then SIX_TO_FOUR else if i == 5 then SIX_BONE
      else if i == 6 then SITE_LOCAL else if i == 7 then UNIQUE_LOCAL else DEFAULT
  }

  lemma EntryAt(i: nat)
    requires i < 9
    ensures EntryIs(i)
  {
  }

  lemma FirstOfNine(b: Octets16, n: nat)
    requires n < 9 && Contains(RFC6724[n].prefix, V6(b))
    requires forall i: nat | i < n :: !Contains(RFC6724[i].prefix, V6(b))
    ensures PolicyValue(RFC6724[n].precedence, RFC6724[n].policyLabel) == PolicyOf(b)
  {
    LongPrefixes(b);
    ShortPrefixes(b);
    EntryAt(0);
    EntryAt(1);
    EntryAt(2);
    EntryAt(3);
    EntryAt(4);
    EntryAt(5);
    EntryAt(6);
    EntryAt(7);
    EntryAt(n);
  }

  /** The scope of an IPv4 address: link-local for 127.0.0.0/8 and 169.254.0.0/16, else global. */
  lemma ScopeOfIPv4(b: Octets4)
    ensures ClassifyScope(V4(b)) == if b[0] == 127 || (b[0] == 169 && b[1] == 254) then 2 else 14
  {
  }

  /** The scope of a native IPv6 address: link-local for ::1 and fe80::/10, the low half of the second
      byte for multicast, site-local for fec0::/10, else global. */
  lemma ScopeOfIPv6(b: Octets16)
    requires b[..12] != [0, 0, 0, 0, 0, 0, 0, 0, 0, 0, 0xff, 0xff]
    ensures ClassifyScope(V6(b)) ==
      if b == [0, 0, 0, 0, 0, 0, 0, 0, 0, 0, 0, 0, 0, 0, 0, 1] then 2
      else if b[0] == 0xfe && 0x80 <= b[1] < 0xc0 then 2
      else if b[0] == 0xff then (b[1] % 16) as nat
      else if b[0] == 0xfe && b[1] >= 0xc0 then 5
      else 14
  {
    HighBits(b[1]);
    LowHalf(b[1]);
  }

  lemma LowHalf(x: bv8)
    ensures x & 0xf == x % 16
  {
  }
}
