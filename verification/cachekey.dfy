/** The key under which the cache files a query. */
module CacheKeys {
  type Byte = b: int | 0 <= b < 256
  type QType = q: int | 0 <= q < 0x1_0000

  datatype Query = Query(host: seq<Byte>, qTypes: seq<QType>)

  function Encode(qTypes: seq<QType>): (b: seq<Byte>)
    ensures |b| == 2 * |qTypes|
  {
    if qTypes == [] then [] else [qTypes[0] / 256, qTypes[0] % 256] + Encode(qTypes[1..])
  }

  function KeyOf(q: Query): seq<Byte> {
    q.host + Encode(q.qTypes)
  }

  method CacheKey(q: Query) returns (key: seq<Byte>)
    ensures key == KeyOf(q)
  {
    var n := |q.host|;
    var b := new Byte[n + 2 * |q.qTypes|];
    forall i | 0 <= i < n {
      b[i] := q.host[i];
    }
    for i := 0 to |q.qTypes|
      invariant b[..n + 2 * i] == q.host + Encode(q.qTypes[..i])
    {
      b[n + 2 * i] := q.qTypes[i] / 256;
      b[n + 2 * i + 1] := q.qTypes[i] % 256;
      EncodeConcat(q.qTypes[..i], [q.qTypes[i]]);
      assert q.qTypes[..i + 1] == q.qTypes[..i] + [q.qTypes[i]];
      assert Encode([q.qTypes[i]]) == [q.qTypes[i] / 256, q.qTypes[i] % 256];
      assert b[..n + 2 * (i + 1)] == b[..n + 2 * i] + [q.qTypes[i] / 256, q.qTypes[i] % 256];
    }
    assert q.qTypes[..|q.qTypes|] == q.qTypes;
    key := b[..];
  }

  lemma {:induction false} EncodeConcat(p: seq<QType>, q: seq<QType>)
    ensures Encode(p + q) == Encode(p) + Encode(q)
  {
    if p == [] {
      assert p + q == q;
    } else {
      assert (p + q)[0] == p[0] && (p + q)[1..] == p[1..] + q;
      EncodeConcat(p[1..], q);
    }
  }

  lemma {:induction false} EncodeInjective(p: seq<QType>, q: seq<QType>)
    requires Encode(p) == Encode(q)
    ensures p == q
  {
    if p != [] && q != [] {
      var x, y := Encode(p), Encode(q);
      assert x[0] == p[0] / 256 && x[1] == p[0] % 256 && x[2..] == Encode(p[1..]);
      assert y[0] == q[0] / 256 && y[1] == q[0] % 256 && y[2..] == Encode(q[1..]);
      EncodeInjective(p[1..], q[1..]);
      assert p == [p[0]] + p[1..] && q == [q[0]] + q[1..];
    }
  }

  /** Two queries share a key exactly when some leading query types of the one with the shorter
      host, written out, are the tail of the other's host. */
  lemma KeysCollideIff(p: Query, q: Query)
    requires |p.host| <= |q.host|
    ensures KeyOf(p) == KeyOf(q) <==> exists k ::
      && 0 <= k <= |p.qTypes| && q.host == p.host + Encode(p.qTypes[..k]) && q.qTypes == p.qTypes[k..]
  {
    if KeyOf(p) == KeyOf(q) {
      var k := |p.qTypes| - |q.qTypes|;
      assert |KeyOf(p)| == |KeyOf(q)|;
      SplitEncoding(p, k);
      var n := |q.host|;
      assert q.host == KeyOf(q)[..n] && Encode(q.qTypes) == KeyOf(q)[n..];
      EncodeInjective(q.qTypes, p.qTypes[k..]);
    }
    if k :| 0 <= k <= |p.qTypes| && q.host == p.host + Encode(p.qTypes[..k]) && q.qTypes == p.qTypes[k..] {
      SplitEncoding(p, k);
    }
  }

  lemma SplitEncoding(p: Query, k: nat)
    requires k <= |p.qTypes|
    ensures KeyOf(p) == (p.host + Encode(p.qTypes[..k])) + Encode(p.qTypes[k..])
    ensures |p.host + Encode(p.qTypes[..k])| == |p.host| + 2 * k
  {
    EncodeConcat(p.qTypes[..k], p.qTypes[k..]);
    assert p.qTypes == p.qTypes[..k] + p.qTypes[k..];
  }

  /** The program's own queries all ask for the same number of types: their keys are injective. */
  lemma SameCountInjective(p: Query, q: Query)
    requires |p.qTypes| == |q.qTypes| && KeyOf(p) == KeyOf(q)
    ensures p == q
  {
    if |p.host| <= |q.host| {
      KeysCollideIff(p, q);
    } else {
      KeysCollideIff(q, p);
    }
  }

  predicate PlainName(q: Query) {
    0 !in q.host && forall i | 0 <= i < |q.qTypes| :: q.qTypes[i] < 256
  }

  /** So are the keys of NUL-free names with query types below 256, in any number. */
  lemma PlainNamesInjective(p: Query, q: Query)
    requires PlainName(p) && PlainName(q) && KeyOf(p) == KeyOf(q)
    ensures p == q
  {
    if |p.host| > |q.host| {
      ShorterFirst(q, p);
    } else {
      ShorterFirst(p, q);
    }
  }

  lemma ShorterFirst(p: Query, q: Query)
    requires PlainName(p) && PlainName(q) && KeyOf(p) == KeyOf(q) && |p.host| <= |q.host|
    ensures p == q
  {
    KeysCollideIff(p, q);
    var k :| 0 <= k <= |p.qTypes| && q.host == p.host + Encode(p.qTypes[..k]) && q.qTypes == p.qTypes[k..];
    if k > 0 {
      NulInside(p.host, p.qTypes[..k]);
    }
  }

  lemma NulInside(host: seq<Byte>, types: seq<QType>)
    requires types != [] && types[0] < 256
    ensures 0 in host + Encode(types)
  {
    assert (host + Encode(types))[|host|] == Encode(types)[0] == 0;
  }

  /** In general they are not: "a" asked for type 0x6263 shares its key with "abc" asked for none. */
  lemma KeysCanCollide()
    ensures KeyOf(Query([0x61], [0x6263])) == KeyOf(Query([0x61, 0x62, 0x63], []))
  {
  }
}
