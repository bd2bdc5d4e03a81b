/** Reading one TLS record. */
module Tls {
  import opened Streams

  const HEADER_LEN: nat := 5
  const MAX_PAYLOAD_LEN: nat := 16384
  const HANDSHAKE: Byte := 0x16

  datatype TLSMessage = TLSMessage(typ: Byte, protoVersion: nat, payloadLen: nat, raw: seq<Byte>)

  function Uint16(hi: Byte, lo: Byte): nat {
    hi * 256 + lo
  }

  /** m is the record at the head of b. */
  predicate IsRecordAt(b: seq<Byte>, m: TLSMessage) {
    && |m.raw| == HEADER_LEN + m.payloadLen <= |b| && m.raw == b[..|m.raw|]
    && m.payloadLen <= MAX_PAYLOAD_LEN
    && m.typ == b[0] && m.protoVersion == Uint16(b[1], b[2]) && m.payloadLen == Uint16(b[3], b[4])
  }

  // A whole record stands at the head of b.
  predicate HasRecord(b: seq<Byte>) {
    && |b| >= HEADER_LEN && Uint16(b[3], b[4]) <= MAX_PAYLOAD_LEN
    && |b| >= HEADER_LEN + Uint16(b[3], b[4])
  }

  // Two bytes, the high one first.
  function Length(b: seq<Byte>): nat
    requires |b| >= 5
  {
    (b[3] as int) * 256 + b[4]
  }

  /** What a record is, byte by byte: type, two bytes of version, two of length with the high byte
      first, and that many bytes, at most 16384. */
  lemma RecordBytes(b: seq<Byte>, m: TLSMessage)
    ensures IsRecordAt(b, m) <==>
      && |b| >= 5 && Length(b) <= 16384 && |b| >= 5 + Length(b)
      && m == TLSMessage(b[0], (b[1] as int) * 256 + b[2], (b[3] as int) * 256 + b[4], b[..5 + Length(b)])
    ensures HasRecord(b) <==> |b| >= 5 && Length(b) <= 16384 && |b| >= 5 + Length(b)
  {
  }

  // A ClientHello, or at least its first byte, stands at the head of b.
  predicate HasClientHello(b: seq<Byte>) {
    && |b| >= 6 && b[0] == 0x16 && b[5] == 0x01
    && 1 <= Length(b) <= 16384 && |b| >= 5 + Length(b)
  }

  lemma ClientHelloIff(b: seq<Byte>, m: TLSMessage)
    requires IsRecordAt(b, m)
    ensures IsClientHello(m) <==> HasClientHello(b)
  {
    RecordBytes(b, m);
  }

  lemma RecordIsUnique(b: seq<Byte>, m: TLSMessage, m': TLSMessage)
    requires IsRecordAt(b, m) && IsRecordAt(b, m')
    ensures m == m' && HasRecord(b)
  {
  }

  datatype ReadResult = Record(m: TLSMessage) | Failed(err: IoErr) | TooLong

  /** ReadTLSMessage: it consumes exactly the record it returns.  `faulted` tells whether the
      stream failed; if it did not, the result depends on the bytes alone. */
  method ReadTLSMessage(r: Reader) returns (res: ReadResult)
    requires r.Valid()
    modifies r`pos, r`faults
    ensures r.Valid() && old(r.pos) <= r.pos
    ensures res.Record? ==> IsRecordAt(r.data[old(r.pos)..], res.m) && res.m.raw == r.data[old(r.pos)..r.pos]
    ensures res != Failed(Fault) ==> (res.Record? <==> HasRecord(r.data[old(r.pos)..]))
    ensures old(r.faults) <= r.faults && (res == Failed(Fault) ==> old(r.faults) < r.faults)
  {
    ghost var rest := r.data[r.pos..];
    var rawHeader := new Byte[HEADER_LEN];
    var err := r.ReadFull(rawHeader, 0);
    if err != NoError {
      return Failed(err);
    }
    assert rawHeader[0..] == rest[..5];
    assert forall i | 0 <= i < 5 :: rawHeader[i] == rawHeader[0..][i] == rest[i];
    var protoVersion := Uint16(rawHeader[1], rawHeader[2]);
    var payloadLen := Uint16(rawHeader[3], rawHeader[4]);
    if payloadLen > MAX_PAYLOAD_LEN {
      return TooLong;
    }
    var size := RecordSize(payloadLen);
    RecordSizeExact(payloadLen);
    var raw := new Byte[size];
    forall i | 0 <= i < HEADER_LEN {
      raw[i] := rawHeader[i];
    }
    assert raw[..5] == rest[..5];
    err := r.ReadFull(raw, HEADER_LEN);
    if err != NoError {
      return Failed(err);
    }
    assert raw[..] == raw[..5] + raw[5..];
    assert raw[5..] == rest[5..size];
    assert raw[..] == rest[..size];
    res := Record(TLSMessage(rawHeader[0], protoVersion, payloadLen, raw[..]));
  }

  /** The length of the record buffer is a sum of 16-bit numbers. */
  function RecordSize(payloadLen: nat): nat {
    (payloadLen + HEADER_LEN) % 0x1_0000
  }

  /** The length check in front of it is what keeps the sum from wrapping round. */
  lemma RecordSizeExact(payloadLen: nat)
    requires payloadLen < 0x1_0000
    ensures payloadLen <= MAX_PAYLOAD_LEN ==> RecordSize(payloadLen) == payloadLen + HEADER_LEN
    ensures RecordSize(payloadLen) < HEADER_LEN <==> payloadLen >= 0x1_0000 - HEADER_LEN
  {
  }

  predicate IsClientHello(m: TLSMessage) {
    |m.raw| > HEADER_LEN && m.typ == HANDSHAKE && m.raw[5] == 0x01
  }
}
