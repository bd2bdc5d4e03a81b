/** The header block of a request: lines up to and including the first empty one. */
module HttpHeader {
  import opened Options
  import opened Streams

  const LF: Byte := 0x0A
  const CR: Byte := 0x0D
  const MAX_HEADER_SIZE: nat := 65536

  /** The position after the first line feed at or after i. */
  function LineEnd(d: seq<Byte>, i: nat): (e: Option<nat>)
    requires i <= |d|
    ensures e.Some? ==> i < e.value <= |d| && d[e.value - 1] == LF
    decreases |d| - i
  {
    if i == |d| then None else if d[i] == LF then Some(i + 1) else LineEnd(d, i + 1)
  }

  predicate IsBlank(line: seq<Byte>) {
    line == [CR, LF] || line == [LF]
  }

  /** The position after the first blank line, counting lines from i. */
  function BlockEnd(d: seq<Byte>, i: nat): (e: Option<nat>)
    requires i <= |d|
    ensures e.Some? ==> i < e.value <= |d|
    decreases |d| - i
  {
    match LineEnd(d, i)
    case None => None
    case Some(j) => if IsBlank(d[i..j]) then Some(j) else BlockEnd(d, j)
  }

  /** LineEnd finds the first line feed, and none only where there is none. */
  lemma {:induction false} LineEndIsFirst(d: seq<Byte>, i: nat)
    requires i <= |d|
    ensures LineEnd(d, i).Some? ==> forall k | i <= k < LineEnd(d, i).value - 1 :: d[k] != LF
    ensures LineEnd(d, i).None? ==> forall k | i <= k < |d| :: d[k] != LF
    decreases |d| - i
  {
    if i < |d| && d[i] != LF {
      LineEndIsFirst(d, i + 1);
    }
  }

  predicate LineStart(d: seq<Byte>, i: nat, k: nat) {
    i <= k <= |d| && (k == i || d[k - 1] == LF)
  }

  /** BlockEnd stops after a blank line, and no earlier line is blank. */
  lemma {:induction false} BlockEndIsFirstBlankLine(d: seq<Byte>, i: nat, k: nat, m: nat)
    requires i <= |d| && LineStart(d, i, k) && LineEnd(d, k) == Some(m) && IsBlank(d[k..m])
    ensures BlockEnd(d, i).Some? && BlockEnd(d, i).value <= m
    ensures BlockEnd(d, i).value == m || BlockEnd(d, i).value <= k
    decreases |d| - i
  {
    LineEndIsFirst(d, i);
    if k > i {
      assert LineEnd(d, i).Some? && LineEnd(d, i).value <= k;
      var j := LineEnd(d, i).value;
      if !IsBlank(d[i..j]) {
        BlockEndIsFirstBlankLine(d, j, k, m);
      }
    }
  }

  lemma {:induction false} BlockEndsWithBlankLine(d: seq<Byte>, i: nat) returns (k: nat)
    requires i <= |d| && BlockEnd(d, i).Some?
    ensures LineStart(d, i, k) && k < BlockEnd(d, i).value && IsBlank(d[k..BlockEnd(d, i).value])
    decreases |d| - i
  {
    var j := LineEnd(d, i).value;
    LineEndIsFirst(d, i);
    if IsBlank(d[i..j]) {
      k := i;
    } else {
      k := BlockEndsWithBlankLine(d, j);
    }
  }

  /** bufio.Reader.ReadString('\n'). */
  method ReadLine(r: Reader) returns (line: seq<Byte>, err: IoErr)
    requires r.Valid()
    modifies r`pos, r`faults
    ensures r.Valid() && old(r.pos) <= r.pos && line == r.data[old(r.pos)..r.pos]
    ensures err.NoError? ==> LineEnd(r.data, old(r.pos)) == Some(r.pos)
    ensures err.Eof? ==> LineEnd(r.data, old(r.pos)) == None
    ensures old(r.faults) <= r.faults && (err.Fault? ==> old(r.faults) < r.faults)
  {
    line := [];
    while true
      invariant r.Valid() && old(r.pos) <= r.pos && line == r.data[old(r.pos)..r.pos]
      invariant LineEnd(r.data, old(r.pos)) == LineEnd(r.data, r.pos)
      invariant old(r.faults) <= r.faults
      decreases |r.data| - r.pos
    {
      var b;
      b, err := r.Next();
      if err != NoError {
        return;
      }
      line := line + [b];
      if b == LF {
        return;
      }
    }
  }

  datatype HeaderErr = ReadErr(err: IoErr) | TooLarge

  /** The reading loop of ReadHttpRequest.  Unless the stream fails, the client's bytes alone
      decide: the block is read exactly when there is one within the size limit. */
  method ReadHeaderBlock(r: Reader) returns (block: seq<Byte>, err: Option<HeaderErr>)
    requires r.Valid()
    modifies r`pos, r`faults
    ensures r.Valid() && old(r.pos) <= r.pos
    ensures err.None? ==>
      && BlockEnd(r.data, old(r.pos)) == Some(r.pos)
      && block == r.data[old(r.pos)..r.pos]
    ensures err != Some(ReadErr(Fault)) ==> (err.None? <==>
      BlockEnd(r.data, old(r.pos)).Some? && BlockEnd(r.data, old(r.pos)).value - old(r.pos) <= 65536)
    ensures old(r.faults) <= r.faults && (err == Some(ReadErr(Fault)) ==> old(r.faults) < r.faults)
  {
    block := [];
    while true
      invariant r.Valid() && old(r.pos) <= r.pos && block == r.data[old(r.pos)..r.pos]
      invariant |block| <= MAX_HEADER_SIZE && old(r.faults) <= r.faults
      invariant BlockEnd(r.data, old(r.pos)) == BlockEnd(r.data, r.pos)
      decreases |r.data| - r.pos
    {
      ghost var p := r.pos;
      var line, e := ReadLine(r);
      if e != NoError {
        return block, Some(ReadErr(e));
      }
      if |block| + |line| > MAX_HEADER_SIZE {
        return block, Some(TooLarge);
      }
      assert r.data[old(r.pos)..r.pos] == r.data[old(r.pos)..p] + r.data[p..r.pos];
      block := block + line;
      if line == [CR, LF] || line == [LF] {
        return block, None;
      }
    }
  }
}
