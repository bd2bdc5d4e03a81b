/** Byte streams as a reader and a connection see them.  The environment decides how many bytes
    a call moves and when it fails. */
module Streams {

  type Byte = b: int | 0 <= b < 256

  // The bytes of an ASCII text.
  function Ascii(s: string): seq<Byte>
    requires forall i | 0 <= i < |s| :: s[i] as int < 128
  {
    seq(|s|, i requires 0 <= i < |s| => s[i] as int)
  }

  datatype IoErr = NoError | Eof | Fault

  /** A reader over everything the peer will ever send; `pos` is what has been consumed, `faults`
      counts the calls that failed. */
  class Reader {
    const data: seq<Byte>
    var pos: nat
    ghost var faults: nat

    constructor (data: seq<Byte>)
      ensures this.data == data && pos == 0 && faults == 0
    {
      this.data, pos, faults := data, 0, 0;
    }

    /** SetReadDeadline on the connection that is read. */
    method SetDeadline() returns (failed: bool)
      modifies this`faults
      ensures faults == old(faults) + if failed then 1 else 0
    {
      failed := *;
      if failed {
        faults := faults + 1;
      }
    }

    ghost predicate Valid()
      reads this
    {
      pos <= |data|
    }

    /** io.Reader.Read into buf[from..]: without an error at least one byte, end of file only at
        the end, possibly together with the last bytes. */
    method Read(buf: array<Byte>, from: nat) returns (n: nat, err: IoErr)
      requires Valid() && from < buf.Length
      modifies this`pos, this`faults, buf
      ensures Valid() && pos == old(pos) + n && from + n <= buf.Length
      ensures buf[..from] == old(buf[..from]) && buf[from..from + n] == data[old(pos)..pos]
      ensures err.NoError? ==> n > 0
      ensures err.Eof? ==> pos == |data|
      ensures faults == old(faults) + if err.Fault? then 1 else 0
    {
      var room := buf.Length - from;
      var left := |data| - pos;
      n :| 0 <= n <= room && n <= left;
      forall i | 0 <= i < n {
        buf[from + i] := data[pos + i];
      }
      pos := pos + n;
      assert buf[from..from + n] == data[old(pos)..pos];
      err :| (err.NoError? ==> n > 0) && (err.Eof? ==> pos == |data|);
      if err.Fault? {
        faults := faults + 1;
      }
    }

    /** The next byte, as a buffered reader hands it out. */
    method Next() returns (b: Byte, err: IoErr)
      requires Valid()
      modifies this`pos, this`faults
      ensures Valid()
      ensures err.NoError? ==> pos == old(pos) + 1 && b == data[old(pos)]
      ensures !err.NoError? ==> pos == old(pos)
      ensures err.Eof? ==> pos == |data|
      ensures old(faults) <= faults && (err.Fault? ==> old(faults) < faults)
    {
      var one := new Byte[1];
      err := ReadFull(one, 0);
      assert one[0] == one[0..][0];
      b := one[0];
    }

    /** io.ReadFull into buf[from..]. */
    method ReadFull(buf: array<Byte>, from: nat) returns (err: IoErr)
      requires Valid() && from <= buf.Length
      modifies this`pos, this`faults, buf
      ensures Valid() && old(pos) <= pos
      ensures old(faults) <= faults && (err.Fault? ==> old(faults) < faults)
      ensures buf[..from] == old(buf[..from])
      ensures err.NoError? ==> pos == old(pos) + buf.Length - from && buf[from..] == data[old(pos)..pos]
      ensures !err.NoError? ==> pos - old(pos) < buf.Length - from
      ensures err.Eof? ==> pos == |data|
    {
      var n := from;
      err := NoError;
      while n < buf.Length && err.NoError?
        invariant Valid() && from <= n <= buf.Length && pos == old(pos) + n - from
        invariant buf[..from] == old(buf[..from]) && buf[from..n] == data[old(pos)..pos]
        invariant err.Eof? ==> pos == |data|
        invariant old(faults) <= faults && (err.Fault? ==> old(faults) < faults)
        decreases buf.Length - n, err.NoError?
      {
        ghost var before, p := buf[from..n], pos;
        var k;
        k, err := Read(buf, n);
        assert buf[from..n] == before;
        assert buf[from..n + k] == buf[from..n] + buf[n..n + k];
        assert data[old(pos)..pos] == data[old(pos)..p] + data[p..pos];
        n := n + k;
      }
      if n == buf.Length {
        err := NoError;
      }
    }
  }

  /** The sending side of a TCP connection; `writes` lists what each write sent, `faults` counts
      the writes that failed. */
  class Conn {
    var written: seq<Byte>
    var closed: bool
    ghost var writes: seq<seq<Byte>>
    ghost var faults: nat

    constructor ()
      ensures written == [] && !closed && writes == [] && faults == 0
    {
      written, closed, writes, faults := [], false, [], 0;
    }

    /** io.Writer.Write: fewer bytes than asked for come with an error. */
    method Write(b: seq<Byte>) returns (n: nat, failed: bool)
      modifies this`written, this`writes, this`faults
      ensures n <= |b| && written == old(written) + b[..n] && writes == old(writes) + [b[..n]]
      ensures !failed ==> n == |b|
      ensures faults == old(faults) + if failed then 1 else 0
    {
      n :| 0 <= n <= |b|;
      written, writes := written + b[..n], writes + [b[..n]];
      failed :| n < |b| ==> failed;
      if failed {
        faults := faults + 1;
      }
    }

    method Close()
      modifies this`closed
      ensures closed
    {
      closed := true;
    }
  }
}
