/** The sending side of the tunnel up to the pipe: chunks, the copy loop, and the stages of Serve. */
module Tunnel {
  import opened Options
  import opened Collections
  import opened Streams
  import opened Tls

  // ----- chunks -----

  /** slices.Chunk. */
  function Chunk(raw: seq<Byte>, size: nat): (chunks: seq<seq<Byte>>)
    requires size > 0
    decreases |raw|
  {
    if raw == [] then []
    else if |raw| <= size then [raw]
    else [raw[..size]] + Chunk(raw[size..], size)
  }

  function SplitInChunks(raw: seq<Byte>, size: int): seq<seq<Byte>> {
    if size <= 0 then
      if |raw| == 0 then [] else if |raw| < 2 then [raw] else [raw[..1], raw[1..]]
    else Chunk(raw, size)
  }

  function Bytes(chunk: seq<Byte>): seq<Byte> {
    chunk
  }

  function Flat(chunks: seq<seq<Byte>>): seq<Byte> {
    FlatMap(Bytes, chunks)
  }

  // Non-empty chunks of at most the size, all but the last of it exactly.
  predicate Sized(chunks: seq<seq<Byte>>, size: nat) {
    && (forall i | 0 <= i < |chunks| :: 0 < |chunks[i]| <= size)
    && (forall i | 0 <= i < |chunks| - 1 :: |chunks[i]| == size)
  }

  lemma {:induction false} ChunkCovers(raw: seq<Byte>, size: nat)
    requires size > 0
    ensures Flat(Chunk(raw, size)) == raw && Sized(Chunk(raw, size), size)
    decreases |raw|
  {
    if |raw| > size {
      ChunkCovers(raw[size..], size);
      OneMoreChunk(raw[..size], Chunk(raw[size..], size), size);
      assert raw == raw[..size] + raw[size..];
    } else if raw != [] {
      OneMoreChunk(raw, [], size);
      assert raw + [] == raw && [raw] + [] == [raw];
    }
  }

  lemma OneMoreChunk(chunk: seq<Byte>, chunks: seq<seq<Byte>>, size: nat)
    requires 0 < |chunk| <= size && (chunks != [] ==> |chunk| == size) && Sized(chunks, size)
    ensures Flat([chunk] + chunks) == chunk + Flat(chunks) && Sized([chunk] + chunks, size)
  {
    var all := [chunk] + chunks;
    assert all[1..] == chunks;
    assert forall i | 0 < i < |all| :: all[i] == chunks[i - 1];
  }

  /** The record in pieces: non-empty ones that together are the record, byte for byte.  With a
      window size all but the last have it, without one they are one byte and the rest. */
  ghost predicate InPieces(chunks: seq<seq<Byte>>, raw: seq<Byte>, size: int) {
    && Flat(chunks) == raw
    && (forall i | 0 <= i < |chunks| :: chunks[i] != [])
    && (size > 0 ==> Sized(chunks, size))
    && (size <= 0 && |raw| >= 2 ==> |chunks| == 2 && |chunks[0]| == 1)
  }

  /** Either chunking mode gives such pieces. */
  lemma SplitCovers(raw: seq<Byte>, size: int)
    ensures InPieces(SplitInChunks(raw, size), raw, size)
  {
    if size > 0 {
      ChunkCovers(raw, size);
    } else if |raw| >= 2 {
      var chunks := [raw[..1], raw[1..]];
      assert chunks[1..] == [raw[1..]];
      assert FlatMap(Bytes, chunks[1..]) == raw[1..] + [];
      assert raw == raw[..1] + raw[1..];
    } else if |raw| == 1 {
      assert FlatMap(Bytes, [raw]) == raw + [];
    }
  }

  // The first n bytes of the i-th chunk, behind the chunks before it.
  lemma PartOfChunk(chunks: seq<seq<Byte>>, i: nat, n: nat)
    requires i < |chunks| && n <= |chunks[i]|
    ensures var done := |Flat(chunks[..i])| + n;
      done <= |Flat(chunks)| && Flat(chunks)[..done] == Flat(chunks[..i]) + chunks[i][..n]
    ensures Flat(chunks[..i + 1]) == Flat(chunks[..i]) + chunks[i]
  {
    FlatMapSnoc(Bytes, chunks[..i], chunks[i]);
    assert chunks[..i + 1] == chunks[..i] + [chunks[i]];
    FlatMapConcat(Bytes, chunks[..i + 1], chunks[i + 1..]);
    assert chunks == chunks[..i + 1] + chunks[i + 1..];
  }

  /** Whatever the writes do, the connection gets the first `total` bytes of the chunks in order,
      and all of them unless a write failed. */
  method WriteChunks(conn: Conn, chunks: seq<seq<Byte>>) returns (total: nat, failed: bool)
    modifies conn`written, conn`writes, conn`faults
    ensures total <= |Flat(chunks)|
    ensures conn.written == old(conn.written) + Flat(chunks)[..total]
    ensures !failed ==> total == |Flat(chunks)| && conn.writes == old(conn.writes) + chunks
    ensures failed <==> old(conn.faults) < conn.faults
  {
    total := 0;
    for i := 0 to |chunks|
      invariant total == |Flat(chunks[..i])|
      invariant conn.written == old(conn.written) + Flat(chunks[..i])
      invariant conn.writes == old(conn.writes) + chunks[..i]
      invariant conn.faults == old(conn.faults)
    {
      var n, bad := conn.Write(chunks[i]);
      PartOfChunk(chunks, i, n);
      total := total + n;
      if bad {
        return total, true;
      }
      assert chunks[i][..n] == chunks[i] && chunks[..i + 1] == chunks[..i] + [chunks[i]];
    }
    assert chunks[..|chunks|] == chunks;
    assert Flat(chunks)[..total] == Flat(chunks);
    return total, false;
  }

  // ----- the copy loop -----

  /** Where a copy stands that began at `start` of its source, with `base` sent before it: of what
      was read up to `pos` the bytes up to `sent` have gone out, in order and without a gap; and
      without a fault it stops only when everything has. */
  predicate Forwarded(data: seq<Byte>, start: nat, base: seq<Byte>,
                      sent: nat, pos: nat, out: seq<Byte>, stopped: bool, faulted: bool)
  {
    && start <= sent <= pos <= |data|
    && out == base + data[start..sent]
    && (stopped && !faulted ==> sent == |data|)
  }

  // Of what was read from `sent` to `pos` another m bytes go out.
  lemma MoreForwarded(data: seq<Byte>, start: nat, base: seq<Byte>, sent: nat, pos: nat, out: seq<Byte>, m: nat)
    requires Forwarded(data, start, base, sent, sent, out, false, false) && sent + m <= pos <= |data|
    ensures Forwarded(data, start, base, sent + m, pos, out + data[sent..pos][..m], false, false)
  {
    assert data[sent..pos][..m] == data[sent..sent + m];
    assert data[start..sent + m] == data[start..sent] + data[sent..sent + m];
  }

  datatype Stop = AtEof | ReadFault | WriteFault | DeadlineFault

  /** copyWithTimeout: what it has read it writes, dropping at most the tail of the last read when a
      write fails. */
  method CopyWithTimeout(from: Reader, to: Conn, bufSize: nat, timeoutMs: int) returns (stop: Stop, ghost sent: nat)
    requires from.Valid() && bufSize > 0
    modifies from`pos, from`faults, to`written, to`writes, to`faults
    ensures from.Valid()
    ensures Forwarded(from.data, old(from.pos), old(to.written), sent, from.pos, to.written, true, stop != AtEof)
    ensures stop != WriteFault ==> sent == from.pos
    ensures stop == AtEof <==> from.faults == old(from.faults) && to.faults == old(to.faults)
    ensures stop == WriteFault <==> old(to.faults) < to.faults
  {
    var buf := new Byte[bufSize];
    sent := from.pos;
    while true
      invariant from.Valid() && from.pos == sent
      invariant from.faults == old(from.faults) && to.faults == old(to.faults)
      invariant Forwarded(from.data, old(from.pos), old(to.written), sent, from.pos, to.written, false, false)
      decreases |from.data| - from.pos
    {
      if timeoutMs > 0 {
        var deadlineFails := from.SetDeadline();
        if deadlineFails {
          return DeadlineFault, sent;
        }
      }
      ghost var p, before := from.pos, to.written;
      var n, err := from.Read(buf, 0);
      if n > 0 {
        var m, bad := to.Write(buf[..n]);
        assert buf[..n] == buf[0..0 + n] == from.data[p..from.pos];
        MoreForwarded(from.data, old(from.pos), old(to.written), p, from.pos, before, m);
        sent := p + m;
        if bad {
          return WriteFault, sent;
        }
      }
      if err == Eof {
        return AtEof, sent;
      }
      if err == Fault {
        return ReadFault, sent;
      }
    }
  }

  // ----- the stages of Serve -----

  datatype PortField = Absent | NotANumber | Number(value: int)

  function TargetPort(p: PortField): Option<nat> {
    match p
    case Absent => Some(443)
    case NotANumber => None
    case Number(v) => if v <= 0 || v > 65535 then None else Some(v)
  }

  // " 200 Connection Established" and an empty line
  const ESTABLISHED: seq<Byte> := [
    0x20, 0x32, 0x30, 0x30, 0x20, 0x43, 0x6F, 0x6E, 0x6E, 0x65, 0x63, 0x74, 0x69, 0x6F, 0x6E, 0x20,
    0x45, 0x73, 0x74, 0x61, 0x62, 0x6C, 0x69, 0x73, 0x68, 0x65, 0x64, 0x0D, 0x0A, 0x0D, 0x0A]

  lemma EstablishedIsItsText()
    ensures ESTABLISHED == Ascii(" 200 Connection Established\r\n\r\n")
  {
  }

  datatype Stage = Aborted | Piping

  lemma HelloFound(b: seq<Byte>, res: ReadResult)
    requires res.Record? ==> IsRecordAt(b, res.m)
    requires res != Failed(Fault) ==> (res.Record? <==> HasRecord(b))
    ensures res != Failed(Fault) ==> (res.Record? && IsClientHello(res.m) <==> HasClientHello(b))
  {
    if res.Record? {
      ClientHelloIff(b, res.m);
    }
  }

  /** The port is the one that was asked for, if it is a port, and 443 by default. */
  lemma TargetPortIff(p: PortField, port: nat)
    ensures TargetPort(p) == Some(port) <==>
      (p == Absent && port == 443) || (p == Number(port) && 0 < port < 65536)
  {
  }

  /** Serve up to the call of pipe.  `dialed` is the connection the dial made, if any.  The server
      sees nothing but the first bytes of the client's first record, and nothing at all unless it
      is a ClientHello; the pipe starts when it has all of that record, with the reader right
      behind it.  An aborted tunnel leaves both connections closed. */
  method Serve(port: PortField, version: seq<Byte>, lConn: Conn, lReader: Reader, dialed: Option<Conn>,
               exploit: bool, windowSize: int)
    returns (stage: Stage)
    requires lReader.Valid() && !lConn.closed
    requires dialed.Some? ==> dialed.value != lConn && !dialed.value.closed
    requires dialed.Some? ==> dialed.value.written == [] && dialed.value.writes == []
    modifies lConn, lReader`pos, lReader`faults, if dialed.Some? then {dialed.value} else {}
    ensures lReader.Valid() && old(lReader.pos) <= lReader.pos
    ensures dialed.Some? ==> dialed.value.written <= lReader.data[old(lReader.pos)..lReader.pos]
    ensures dialed.Some? && dialed.value.written != [] ==>
      exists m :: IsRecordAt(lReader.data[old(lReader.pos)..], m) && IsClientHello(m)
    ensures stage == Piping ==>
      && dialed.Some? && TargetPort(port).Some? && !lConn.closed && !dialed.value.closed
      && dialed.value.written == lReader.data[old(lReader.pos)..lReader.pos]
      && lConn.written == old(lConn.written) + version + ESTABLISHED
    ensures stage == Piping ==> SentAs(dialed.value.writes, dialed.value.written, exploit, windowSize)
    ensures stage == Aborted ==> lConn.closed
    ensures stage == Aborted && dialed.Some? && TargetPort(port).Some? ==> dialed.value.closed
    ensures old(lReader.faults) <= lReader.faults && old(lConn.faults) <= lConn.faults
    ensures lReader.faults == old(lReader.faults) && lConn.faults == old(lConn.faults) ==>
      (dialed.Some? ==> dialed.value.faults == old(dialed.value.faults)) ==>
        (stage == Piping <==>
           dialed.Some? && TargetPort(port).Some? && HasClientHello(lReader.data[old(lReader.pos)..]))
  {
    if TargetPort(port).None? || dialed.None? {
      lConn.Close();
      return Aborted;
    }
    var rConn := dialed.value;
    var _, failed := lConn.Write(version + ESTABLISHED);
    if failed {
      lConn.Close();
      rConn.Close();
      return Aborted;
    }
    assert lConn.written == old(lConn.written) + version + ESTABLISHED;
    var res := ReadTLSMessage(lReader);
    HelloFound(lReader.data[old(lReader.pos)..], res);
    if !res.Record? || !IsClientHello(res.m) {
      lConn.Close();
      rConn.Close();
      return Aborted;
    }
    var clientHello := res.m.raw;
    failed := SendHello(rConn, clientHello, exploit, windowSize);
    if failed {
      lConn.Close();
      rConn.Close();
      return Aborted;
    }
    ghost var sent :| rConn.writes == [] + sent && SentAs(sent, clientHello, exploit, windowSize);
    assert rConn.writes == sent && rConn.written == clientHello;
    return Piping;
  }

  /** The writes that send a ClientHello: in pieces if it is to be hidden, else one. */
  ghost predicate SentAs(writes: seq<seq<Byte>>, hello: seq<Byte>, exploit: bool, windowSize: int) {
    if exploit then InPieces(writes, hello, windowSize) else writes == [hello]
  }

  method SendHello(rConn: Conn, clientHello: seq<Byte>, exploit: bool, windowSize: int) returns (failed: bool)
    modifies rConn`written, rConn`writes, rConn`faults
    ensures exists n: nat :: n <= |clientHello| && rConn.written == old(rConn.written) + clientHello[..n]
    ensures !failed ==> exists sent ::
      rConn.writes == old(rConn.writes) + sent && SentAs(sent, clientHello, exploit, windowSize)
    ensures !failed ==> rConn.written == old(rConn.written) + clientHello
    ensures failed <==> old(rConn.faults) < rConn.faults
  {
    SplitCovers(clientHello, windowSize);
    var n: nat;
    if exploit {
      n, failed := WriteChunks(rConn, SplitInChunks(clientHello, windowSize));
    } else {
      n, failed := rConn.Write(clientHello);
    }
    assert n == |clientHello| ==> clientHello[..n] == clientHello;
  }
}
