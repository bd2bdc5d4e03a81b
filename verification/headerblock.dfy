/** A header block as the list of its lines.  A line ends in LF, and a CR before that LF belongs to
    the line end and not to the line. */
module HeaderBlock {
  import opened Options
  import opened Collections
  import opened Streams
  import opened HttpHeader

  datatype Line = Line(text: seq<Byte>, crlf: bool)

  function Written(l: Line): seq<Byte> {
    l.text + if l.crlf then [CR, LF] else [LF]
  }

  function WrittenAll(ls: seq<Line>): seq<Byte> {
    FlatMap(Written, ls)
  }

  // Such lines are read back as they were written.
  predicate IsLine(l: Line) {
    LF !in l.text && (!l.crlf && l.text != [] ==> l.text[|l.text| - 1] != CR)
  }

  predicate AreLines(ls: seq<Line>) {
    forall i | 0 <= i < |ls| :: IsLine(ls[i])
  }

  predicate NoneBlank(ls: seq<Line>) {
    forall i | 0 <= i < |ls| :: ls[i].text != []
  }

  /** Lines up to and including the first blank one. */
  predicate IsBlock(ls: seq<Line>) {
    ls != [] && AreLines(ls) && NoneBlank(ls[..|ls| - 1]) && ls[|ls| - 1].text == []
  }

  function LineFrom(full: seq<Byte>): Line
    requires full != [] && full[|full| - 1] == LF
  {
    var n := |full| - 1;
    if n > 0 && full[n - 1] == CR then Line(full[..n - 1], true) else Line(full[..n], false)
  }

  /** The lines of the block that begins at i. */
  function BlockLines(d: seq<Byte>, i: nat): (ls: seq<Line>)
    requires i <= |d| && BlockEnd(d, i).Some?
    ensures ls != []
    decreases |d| - i
  {
    var j := LineEnd(d, i).value;
    [LineFrom(d[i..j])] + if IsBlank(d[i..j]) then [] else BlockLines(d, j)
  }

  function Texts(ls: seq<Line>): (ts: seq<seq<Byte>>)
    ensures |ts| == |ls| && forall i | 0 <= i < |ls| :: ts[i] == ls[i].text
  {
    seq(|ls|, i requires 0 <= i < |ls| => ls[i].text)
  }

  lemma LineFromIsLine(d: seq<Byte>, i: nat)
    requires i <= |d| && LineEnd(d, i).Some?
    ensures var full := d[i..LineEnd(d, i).value];
      IsLine(LineFrom(full)) && Written(LineFrom(full)) == full && (IsBlank(full) <==> LineFrom(full).text == [])
  {
    LineEndIsFirst(d, i);
    var full := d[i..LineEnd(d, i).value];
    forall k | 0 <= k < |full| - 1 ensures full[k] != LF {
      assert full[k] == d[i + k];
    }
    assert full == full[..|full| - 1] + [LF];
    if |full| > 1 && full[|full| - 2] == CR {
      assert full == full[..|full| - 2] + [CR, LF];
    }
  }

  lemma WrittenCons(l: Line, rest: seq<Line>)
    ensures WrittenAll([l] + rest) == Written(l) + WrittenAll(rest)
  {
    assert ([l] + rest)[1..] == rest;
  }

  lemma BlockCons(l: Line, rest: seq<Line>)
    requires IsLine(l) && l.text != [] && IsBlock(rest)
    ensures IsBlock([l] + rest)
  {
    var ls := [l] + rest;
    assert ls[..|ls| - 1] == [l] + rest[..|rest| - 1];
  }

  /** The lines of a block are one, and written out they are its bytes. */
  lemma {:induction false} BlockLinesAreTheBlock(d: seq<Byte>, i: nat)
    requires i <= |d| && BlockEnd(d, i).Some?
    ensures IsBlock(BlockLines(d, i)) && WrittenAll(BlockLines(d, i)) == d[i..BlockEnd(d, i).value]
    decreases |d| - i
  {
    var j := LineEnd(d, i).value;
    LineFromIsLine(d, i);
    if IsBlank(d[i..j]) {
      LastLine(LineFrom(d[i..j]));
    } else {
      BlockLinesAreTheBlock(d, j);
      LineBeforeBlock(d, i, j, BlockLines(d, j), BlockEnd(d, j).value);
    }
  }

  lemma LastLine(l: Line)
    requires IsLine(l) && l.text == []
    ensures IsBlock([l] + []) && WrittenAll([l] + []) == Written(l)
  {
    WrittenCons(l, []);
  }

  lemma LineBeforeBlock(d: seq<Byte>, i: nat, j: nat, rest: seq<Line>, e: nat)
    requires i <= j <= e <= |d| && LineEnd(d, i) == Some(j) && !IsBlank(d[i..j])
    requires IsBlock(rest) && WrittenAll(rest) == d[j..e]
    ensures var ls := [LineFrom(d[i..j])] + rest; IsBlock(ls) && WrittenAll(ls) == d[i..e]
  {
    LineFromIsLine(d, i);
    BlockCons(LineFrom(d[i..j]), rest);
    WrittenCons(LineFrom(d[i..j]), rest);
    assert d[i..j] + d[j..e] == d[i..e];
  }

  // ----- reading back -----

  lemma {:induction false} LineEndIs(d: seq<Byte>, i: nat, e: nat)
    requires i < e <= |d| && d[e - 1] == LF && forall k | i <= k < e - 1 :: d[k] != LF
    ensures LineEnd(d, i) == Some(e)
    decreases e - i
  {
    if i < e - 1 {
      LineEndIs(d, i + 1, e);
    }
  }

  lemma LineIsReadBack(d: seq<Byte>, i: nat, l: Line)
    requires IsLine(l) && i + |Written(l)| <= |d| && d[i..i + |Written(l)|] == Written(l)
    ensures LineEnd(d, i) == Some(i + |Written(l)|)
    ensures LineFrom(Written(l)) == l && (IsBlank(Written(l)) <==> l.text == [])
  {
    var w := Written(l);
    forall k | i <= k < i + |w| ensures d[k] == w[k - i] {
      assert d[i..i + |w|][k - i] == d[k];
    }
    forall k | i <= k < i + |w| - 1 ensures d[k] != LF {
      assert k - i < |l.text| ==> l.text[k - i] in l.text;
    }
    LineEndIs(d, i, i + |w|);
  }

  /** A block that stands written out from i to e is read back as that block. */
  lemma {:induction false} BlockIsReadBack(d: seq<Byte>, i: nat, e: nat, ls: seq<Line>)
    requires IsBlock(ls) && i <= e <= |d| && d[i..e] == WrittenAll(ls)
    ensures BlockEnd(d, i) == Some(e) && BlockLines(d, i) == ls
    decreases |ls|
  {
    var j := FirstOfAll(d, i, e, ls);
    LineIsReadBack(d, i, ls[0]);
    if |ls| == 1 {
      LastIsReadBack(d, i, j, ls);
    } else {
      TailIsBlock(ls);
      BlockIsReadBack(d, j, e, ls[1..]);
      OneMoreIsReadBack(d, i, j, ls);
    }
  }

  lemma FirstOfAll(d: seq<Byte>, i: nat, e: nat, ls: seq<Line>) returns (j: nat)
    requires ls != [] && i <= e <= |d| && d[i..e] == WrittenAll(ls)
    ensures j == i + |Written(ls[0])| <= e && d[i..j] == Written(ls[0]) && d[j..e] == WrittenAll(ls[1..])
    ensures |ls| == 1 ==> j == e
  {
    j := i + |Written(ls[0])|;
    assert d[i..j] == d[i..e][..|Written(ls[0])|] && d[j..e] == d[i..e][|Written(ls[0])|..];
  }

  lemma LastIsReadBack(d: seq<Byte>, i: nat, j: nat, ls: seq<Line>)
    requires |ls| == 1 && i <= |d| && LineEnd(d, i) == Some(j) && IsBlank(d[i..j]) && LineFrom(d[i..j]) == ls[0]
    ensures BlockEnd(d, i) == Some(j) && BlockLines(d, i) == ls
  {
  }

  lemma OneMoreIsReadBack(d: seq<Byte>, i: nat, j: nat, ls: seq<Line>)
    requires ls != [] && i <= |d| && LineEnd(d, i) == Some(j) && !IsBlank(d[i..j]) && LineFrom(d[i..j]) == ls[0]
    requires BlockEnd(d, j).Some? && BlockLines(d, j) == ls[1..]
    ensures BlockEnd(d, i) == BlockEnd(d, j) && BlockLines(d, i) == ls
  {
    assert ls == [ls[0]] + ls[1..];
  }

  lemma TailIsBlock(ls: seq<Line>)
    requires IsBlock(ls) && |ls| > 1
    ensures IsBlock(ls[1..]) && ls[0].text != []
  {
    assert ls[..|ls| - 1][0] == ls[0] && ls[..|ls| - 1][1..] == ls[1..][..|ls| - 2];
  }

  /** A block cut out of the stream, as the reading loop cuts it out, is a block of the same lines. */
  lemma BlockStandsAlone(d: seq<Byte>, i: nat)
    requires i <= |d| && BlockEnd(d, i).Some?
    ensures var raw := d[i..BlockEnd(d, i).value];
      BlockEnd(raw, 0) == Some(|raw|) && BlockLines(raw, 0) == BlockLines(d, i)
  {
    var raw := d[i..BlockEnd(d, i).value];
    BlockLinesAreTheBlock(d, i);
    assert raw[0..|raw|] == raw;
    BlockIsReadBack(raw, 0, |raw|, BlockLines(d, i));
  }
}
