/** The two address representations of the Go code, kept apart as the code keeps them:
    a `net.IP` is a byte sequence of any length, a `netip.Addr` is invalid, 4 bytes or
    16 bytes.  Zones of a `netip.Addr` never occur here: AddrFromSlice makes none. */
module NetAddr {
  import opened Options

  type IP = seq<bv8>
  type Octets4 = b: seq<bv8> | |b| == 4 witness [0, 0, 0, 0]
  type Octets16 = b: seq<bv8> | |b| == 16 witness [0, 0, 0, 0, 0, 0, 0, 0, 0, 0, 0, 0, 0, 0, 0, 0]

  datatype IPAddr = IPAddr(ip: IP, zone: string)

  datatype Addr = Invalid | V4(b4: Octets4) | V6(b16: Octets16)

  // The twelve bytes in front of an IPv4 address written in 16 bytes.
  const MAPPED_PREFIX: seq<bv8> := [0, 0, 0, 0, 0, 0, 0, 0, 0, 0, 0xff, 0xff]

  function AddrFromSlice(ip: IP): Addr {
    if |ip| == 4 then V4(ip) else if |ip| == 16 then V6(ip) else Invalid
  }

  function AsSlice(a: Addr): IP {
    match a
    case Invalid => []
    case V4(b) => b
    case V6(b) => b
  }

  function MappedForm(b: Octets4): Octets16 {
    MAPPED_PREFIX + b
  }

  /** net.IP.To4: the 4-byte form of an IPv4 address given in 4 or in 16 bytes. */
  function To4(ip: IP): Option<IP> {
    if |ip| == 4 then Some(ip)
    else if |ip| == 16 && ip[..12] == MAPPED_PREFIX then Some(ip[12..])
    else None
  }

  predicate Is4In6(a: Addr) {
    a.V6? && a.b16[..12] == MAPPED_PREFIX
  }

  function Unmap(a: Addr): Addr {
    if Is4In6(a) then V4(a.b16[12..]) else a
  }

  function As16(a: Addr): Octets16
    requires a != Invalid
  {
    if a.V4? then MappedForm(a.b4) else a.b16
  }

  // The netip predicates look at the unmapped address (Go 1.22.4 and later).

  predicate IsLoopback(a: Addr) {
    match Unmap(a)
    case Invalid => false
    case V4(b) => b[0] == 127
    case V6(b) => b == [0, 0, 0, 0, 0, 0, 0, 0, 0, 0, 0, 0, 0, 0, 0, 1]
  }

  predicate IsLinkLocalUnicast(a: Addr) {
    match Unmap(a)
    case Invalid => false
    case V4(b) => b[0] == 169 && b[1] == 254
    case V6(b) => b[0] == 0xfe && b[1] & 0xc0 == 0x80
  }

  predicate IsMulticast(a: Addr) {
    match Unmap(a)
    case Invalid => false
    case V4(b) => b[0] & 0xf0 == 0xe0
    case V6(b) => b[0] == 0xff
  }

  lemma UnmapMappedForm(b: Octets4)
    ensures Is4In6(V6(MappedForm(b))) && Unmap(V6(MappedForm(b))) == V4(b)
    ensures To4(MappedForm(b)) == Some(b)
  {
  }
}

/** Addresses as bit strings, most significant bit first. */
module AddrBits {
  import opened Options
  import opened NetAddr

  predicate OctetBit(b: bv8, i: nat)
    requires i < 8
  {
    if i == 0 then b & 0x80 != 0 else if i == 1 then b & 0x40 != 0
    else if i == 2 then b & 0x20 != 0 else if i == 3 then b & 0x10 != 0
    else if i == 4 then b & 0x08 != 0 else if i == 5 then b & 0x04 != 0
    else if i == 6 then b & 0x02 != 0 else b & 0x01 != 0
  }

  predicate Bit(x: IP, i: nat)
    requires i < 8 * |x|
  {
    OctetBit(x[i / 8], i % 8)
  }

  /** The first n bits of x and y are the same. */
  predicate Agree(x: IP, y: IP, n: nat)
    requires n <= 8 * |x| && n <= 8 * |y|
  {
    forall i | 0 <= i < n :: Bit(x, i) == Bit(y, i)
  }

  predicate OctetAgree(a: bv8, b: bv8, n: nat)
    requires n <= 8
  {
    forall i | 0 <= i < n :: OctetBit(a, i) == OctetBit(b, i)
  }

  /** math/bits.LeadingZeros8. */
  function LeadingZeros8(d: bv8): (z: nat)
    ensures z <= 8
    ensures forall i | 0 <= i < z :: !OctetBit(d, i)
    ensures z < 8 ==> OctetBit(d, z)
  {
    if d & 0x80 != 0 then 0 else if d & 0x40 != 0 then 1 else if d & 0x20 != 0 then 2
    else if d & 0x10 != 0 then 3 else if d & 0x08 != 0 then 4 else if d & 0x04 != 0 then 5
    else if d & 0x02 != 0 then 6 else if d & 0x01 != 0 then 7 else 8
  }

  lemma OctetAgree8(a: bv8, b: bv8)
    ensures OctetAgree(a, b, 8) <==> a == b
  {
    if OctetAgree(a, b, 8) {
      assert OctetBit(a, 0) == OctetBit(b, 0) && OctetBit(a, 1) == OctetBit(b, 1);
      assert OctetBit(a, 2) == OctetBit(b, 2) && OctetBit(a, 3) == OctetBit(b, 3);
      assert OctetBit(a, 4) == OctetBit(b, 4) && OctetBit(a, 5) == OctetBit(b, 5);
      assert OctetBit(a, 6) == OctetBit(b, 6) && OctetBit(a, 7) == OctetBit(b, 7);
    }
  }

  lemma XorBit(a: bv8, b: bv8, i: nat)
    requires i < 8
    ensures OctetBit(a ^ b, i) <==> OctetBit(a, i) != OctetBit(b, i)
  {
    if i == 0 {
    } else if i == 1 {
    } else if i == 2 {
    } else if i == 3 {
    } else if i == 4 {
    } else if i == 5 {
    } else if i == 6 {
    } else {
    }
  }

  lemma XorZero(a: bv8, b: bv8)
    ensures a ^ b == 0 <==> a == b
  {
  }

  lemma ZeroOctet(d: bv8)
    ensures LeadingZeros8(d) == 8 <==> d == 0
  {
  }

  /** The leading zeros of a ^ b count the leading bits on which a and b agree. */
  lemma LeadingZerosOfXor(a: bv8, b: bv8)
    requires a != b
    ensures LeadingZeros8(a ^ b) < 8
    ensures OctetAgree(a, b, LeadingZeros8(a ^ b))
    ensures OctetBit(a, LeadingZeros8(a ^ b)) != OctetBit(b, LeadingZeros8(a ^ b))
  {
    XorZero(a, b);
    ZeroOctet(a ^ b);
    forall i | 0 <= i < 8 ensures OctetBit(a ^ b, i) <==> OctetBit(a, i) != OctetBit(b, i) {
      XorBit(a, b, i);
    }
  }

  /** Agreement on n bits is equality of the whole octets and agreement inside the next one. */
  lemma AgreeByOctets(x: IP, y: IP, k: nat, r: nat)
    requires r < 8 && k <= |x| && k <= |y|
    requires r > 0 ==> k < |x| && k < |y|
    ensures Agree(x, y, 8 * k + r) <==> x[..k] == y[..k] && (r > 0 ==> OctetAgree(x[k], y[k], r))
  {
    if Agree(x, y, 8 * k + r) {
      forall j | 0 <= j < k ensures x[j] == y[j] {
        forall i | 0 <= i < 8 ensures OctetBit(x[j], i) == OctetBit(y[j], i) {
          assert Bit(x, 8 * j + i) == Bit(y, 8 * j + i);
        }
        OctetAgree8(x[j], y[j]);
      }
      if r > 0 {
        forall i | 0 <= i < r ensures OctetBit(x[k], i) == OctetBit(y[k], i) {
          assert Bit(x, 8 * k + i) == Bit(y, 8 * k + i);
        }
      }
    }
    if x[..k] == y[..k] && (r > 0 ==> OctetAgree(x[k], y[k], r)) {
      forall i | 0 <= i < 8 * k + r ensures Bit(x, i) == Bit(y, i) {
        if i < 8 * k {
          assert x[i / 8] == x[..k][i / 8] && y[i / 8] == y[..k][i / 8];
        } else {
          assert i / 8 == k && i % 8 < r;
        }
      }
    }
  }

  /** cpl is the length of the longest common bit prefix of x and y. */
  predicate LongestAgreement(x: IP, y: IP, cpl: nat)
    requires |x| == |y|
  {
    && cpl <= 8 * |x|
    && Agree(x, y, cpl)
    && (cpl < 8 * |x| ==> Bit(x, cpl) != Bit(y, cpl))
  }

  function AgreementFrom(x: IP, y: IP, i: nat): (n: nat)
    requires |x| == |y| && i <= 8 * |x| && Agree(x, y, i)
    ensures LongestAgreement(x, y, n)
    decreases 8 * |x| - i
  {
    if i < 8 * |x| && Bit(x, i) == Bit(y, i) then AgreementFrom(x, y, i + 1) else i
  }

  lemma LongestAgreementIsGreatest(x: IP, y: IP, n: nat, k: nat)
    requires |x| == |y| && LongestAgreement(x, y, n) && k <= 8 * |x|
    ensures Agree(x, y, k) <==> k <= n
  {
  }

  // At most the network half of an IPv6 address is compared.
  function Capped(x: IP): IP {
    if |x| > 8 then x[..8] else x
  }

  // What the comparison sees of its second argument: the 4-byte form where there is one.
  function Comparand(b: IP): IP {
    match To4(b)
    case Some(b4) => b4
    case None => b
  }

  /** The number commonPrefixLen computes, bit by bit. */
  function PrefixLen(a: Addr, b: IP): nat {
    var x, y := Capped(AsSlice(a)), Capped(Comparand(b));
    if |AsSlice(a)| != |Comparand(b)| then 0 else AgreementFrom(x, y, 0)
  }

  method CommonPrefixLen(a: Addr, b: IP) returns (cpl: nat)
    ensures cpl == PrefixLen(a, b)
  {
    var b4 := To4(b);
    var b' := if b4.Some? then b4.value else b;
    var aAsSlice := AsSlice(a);
    if |aAsSlice| != |b'| {
      return 0;
    }
    if |aAsSlice| > 8 {
      aAsSlice, b' := aAsSlice[..8], b'[..8];
    }
    cpl := CountAgreement(aAsSlice, b');
    PrefixLenIsLongest(a, b, cpl);
  }

  /** The counting loop of commonPrefixLen: whole octets first, then the leading zeros of
      the xor of the first two octets that differ. */
  method CountAgreement(a: IP, b: IP) returns (cpl: nat)
    requires |a| == |b|
    ensures LongestAgreement(a, b, cpl)
  {
    var aAsSlice, b' := a, b;
    cpl := 0;
    ghost var c := 0;
    while |aAsSlice| > 0
      invariant c <= |a| && aAsSlice == a[c..] && b' == b[c..]
      invariant a[..c] == b[..c] && cpl == 8 * c
    {
      var diff := aAsSlice[0] ^ b'[0];
      XorZero(a[c], b[c]);
      if diff == 0 {
        cpl := cpl + 8;
        aAsSlice, b' := aAsSlice[1..], b'[1..];
        OneMoreOctet(a, b, c);
        c := c + 1;
        continue;
      }
      FirstDifferentOctet(a, b, c);
      cpl := cpl + LeadingZeros8(diff);
      return;
    }
    NoDifferentOctet(a, b);
  }

  lemma OneMoreOctet(x: IP, y: IP, c: nat)
    requires c < |x| && c < |y| && x[..c] == y[..c] && x[c] == y[c]
    ensures x[..c + 1] == y[..c + 1] && x[c..][1..] == x[c + 1..] && y[c..][1..] == y[c + 1..]
  {
    assert x[..c + 1] == x[..c] + [x[c]] && y[..c + 1] == y[..c] + [y[c]];
  }

  lemma PrefixLenIsLongest(a: Addr, b: IP, cpl: nat)
    requires |AsSlice(a)| == |Comparand(b)|
    requires LongestAgreement(Capped(AsSlice(a)), Capped(Comparand(b)), cpl)
    ensures cpl == PrefixLen(a, b)
  {
  }

  lemma FirstDifferentOctet(x: IP, y: IP, c: nat)
    requires |x| == |y| && c < |x| && x[..c] == y[..c] && x[c] != y[c]
    ensures LongestAgreement(x, y, 8 * c + LeadingZeros8(x[c] ^ y[c]))
  {
    LeadingZerosOfXor(x[c], y[c]);
    DifferenceInOctet(x, y, c, LeadingZeros8(x[c] ^ y[c]));
  }

  lemma DifferenceInOctet(x: IP, y: IP, c: nat, z: nat)
    requires |x| == |y| && c < |x| && x[..c] == y[..c]
    requires z < 8 && OctetAgree(x[c], y[c], z) && OctetBit(x[c], z) != OctetBit(y[c], z)
    ensures LongestAgreement(x, y, 8 * c + z)
  {
  }

  lemma NoDifferentOctet(x: IP, y: IP)
    requires |x| == |y| && x[..|x|] == y[..|x|]
    ensures LongestAgreement(x, y, 8 * |x|)
  {
  }

  // ----- the algebra of common prefixes -----

  // A 4-byte address, or a 16-byte one that is not a mapped IPv4 address.
  predicate Native(a: Addr) {
    a.V4? || (a.V6? && !Is4In6(a))
  }

  predicate SameFamily(a: Addr, b: Addr) {
    Native(a) && Native(b) && a.V4? == b.V4?
  }

  function MaxPrefixLen(a: Addr): nat {
    match a
    case Invalid => 0
    case V4(_) => 32
    case V6(_) => 64
  }

  /** For any two addresses: the result is the greatest number of leading bits, up to 32 or 64, on
      which the source agrees with what the comparison sees of the destination; and 0 when the two
      are not of one length. */
  lemma PrefixLenIsGreatest(a: Addr, b: IP, k: nat)
    requires k <= MaxPrefixLen(a)
    ensures PrefixLen(a, b) <= MaxPrefixLen(a)
    ensures |AsSlice(a)| == |Comparand(b)| ==>
      (Agree(Capped(AsSlice(a)), Capped(Comparand(b)), k) <==> k <= PrefixLen(a, b))
    ensures |AsSlice(a)| != |Comparand(b)| ==> PrefixLen(a, b) == 0
  {
  }

  /** The same in terms of the addresses alone: a 4-byte destination, written in 4 or 16 bytes, with
      a 4-byte source, and another 16-byte destination with a 16-byte source. */
  lemma PrefixLenInBits(a: Addr, b: IP, k: nat)
    ensures a.V4? && |b| == 4 && k <= 32 ==> (Agree(a.b4, b, k) <==> k <= PrefixLen(a, b) <= 32)
    ensures a.V4? && |b| == 16 && b[..12] == [0, 0, 0, 0, 0, 0, 0, 0, 0, 0, 0xff, 0xff] ==>
      PrefixLen(a, b) == PrefixLen(a, b[12..])
    ensures a.V6? && |b| == 16 && b[..12] != [0, 0, 0, 0, 0, 0, 0, 0, 0, 0, 0xff, 0xff] && k <= 64 ==>
      (Agree(a.b16, b, k) <==> k <= PrefixLen(a, b) <= 64)
  {
    if a.V4? && |b| == 4 && k <= 32 {
      LongestAgreementIsGreatest(a.b4, b, PrefixLen(a, b), k);
    }
    if a.V6? && |b| == 16 && b[..12] != MAPPED_PREFIX && k <= 64 {
      AgreementOfFront(a.b16, b, k);
      LongestAgreementIsGreatest(a.b16[..8], b[..8], PrefixLen(a, b), k);
    }
  }

  lemma AgreementOfFront(x: IP, y: IP, k: nat)
    requires |x| == |y| == 16 && k <= 64
    ensures Agree(x, y, k) <==> Agree(x[..8], y[..8], k)
  {
    forall i | 0 <= i < k ensures Bit(x[..8], i) == Bit(x, i) && Bit(y[..8], i) == Bit(y, i) {
    }
  }

  lemma PrefixLenSymmetric(a: Addr, b: Addr)
    requires SameFamily(a, b)
    ensures PrefixLen(a, AsSlice(b)) == PrefixLen(b, AsSlice(a))
  {
  }

  lemma PrefixLenUltrametric(a: Addr, b: Addr, c: Addr)
    requires SameFamily(a, b) && SameFamily(b, c)
    ensures PrefixLen(a, AsSlice(c)) >= PrefixLen(a, AsSlice(b))
         || PrefixLen(a, AsSlice(c)) >= PrefixLen(b, AsSlice(c))
  {
  }

  // ----- the comment above commonPrefixLen -----

  /** The comment promises that an IPv4 address in 16-byte form is compared as IPv4, on either side,
      and that different IP versions give 0: the result would be that of the unmapped source.  The
      code unmaps b only.  It keeps the promise exactly when the source is not in mapped form, when
      the destination is no address, or when the first bits differ: those of the IPv4 addresses for
      an IPv4 destination, those of the 16-byte forms for an IPv6 one. */
  lemma UnmappedComparisonIff(a: Addr, b: IP)
    ensures PrefixLen(a, b) == PrefixLen(Unmap(a), b) <==>
      || !Is4In6(a)
      || |Comparand(b)| !in {4, 16}
      || (|Comparand(b)| == 4 && Bit(AsSlice(Unmap(a)), 0) != Bit(Comparand(b), 0))
      || (|Comparand(b)| == 16 && Bit(AsSlice(a), 0) != Bit(Comparand(b), 0))
  {
    if Is4In6(a) && |Comparand(b)| == 4 {
      LongestAgreementIsGreatest(AsSlice(Unmap(a)), Comparand(b), PrefixLen(Unmap(a), b), 1);
    } else if Is4In6(a) && |Comparand(b)| == 16 {
      LongestAgreementIsGreatest(Capped(AsSlice(a)), Capped(Comparand(b)), PrefixLen(a, b), 1);
    }
  }

  /** Against an IPv4 destination a mapped source always gives 0, even against itself. */
  lemma MappedSourceNeverCompared(a: Octets4, b: IP)
    requires To4(b).Some?
    ensures PrefixLen(V6(MappedForm(a)), b) == 0
    ensures To4(b) == Some(a) ==> PrefixLen(V4(a), b) == 32
  {
  }

  const LOOPBACK_6: Octets16 := [0, 0, 0, 0, 0, 0, 0, 0, 0, 0, 0, 0, 0, 0, 0, 1]

  /** Against an IPv6 destination, the only kind for which rule 9 asks, a mapped source gives up to
      64 where the comment promises 0: ::ffff:1.2.3.4 and ::1 begin with the same 64 bits. */
  lemma MappedSourceAgainstIPv6()
    ensures To4(LOOPBACK_6).None?
    ensures PrefixLen(V6(MappedForm([1, 2, 3, 4])), LOOPBACK_6) == 64
    ensures PrefixLen(Unmap(V6(MappedForm([1, 2, 3, 4]))), LOOPBACK_6) == 0
  {
    var a := MappedForm([1, 2, 3, 4]);
    UnmapMappedForm([1, 2, 3, 4]);
    assert LOOPBACK_6[..12][11] == 0 && MAPPED_PREFIX[11] == 0xff;
    assert Capped(a) == Capped(LOOPBACK_6);
    LongestAgreementIsGreatest(Capped(a), Capped(LOOPBACK_6), PrefixLen(V6(a), LOOPBACK_6), 64);
  }
}
