/** HttpRequest.Tidy: split into lines, replace the first, drop some, join again. */
module Http {
  import opened Options
  import opened Collections
  import opened Streams

  type Text = seq<Byte>

  const CRLF: Text := [0x0D, 0x0A]
  const CRLF2: Text := [0x0D, 0x0A, 0x0D, 0x0A]
  const SPACE: Byte := 0x20
  // "Proxy-Connection"
  const PROXY_CONNECTION: Text :=
    [0x50, 0x72, 0x6F, 0x78, 0x79, 0x2D, 0x43, 0x6F, 0x6E, 0x6E, 0x65, 0x63, 0x74, 0x69, 0x6F, 0x6E]

  // ----- strings.Index, strings.Split, strings.HasPrefix -----

  predicate OccursAt(s: Text, pat: Text, i: nat) {
    i + |pat| <= |s| && s[i..i + |pat|] == pat
  }

  function IndexFrom(s: Text, pat: Text, i: nat): (r: Option<nat>)
    requires i <= |s|
    ensures r.Some? ==> i <= r.value && OccursAt(s, pat, r.value)
    decreases |s| - i
  {
    if OccursAt(s, pat, i) then Some(i) else if i == |s| then None else IndexFrom(s, pat, i + 1)
  }

  function Index(s: Text, pat: Text): Option<nat> {
    IndexFrom(s, pat, 0)
  }

  function Split(s: Text): (lines: seq<Text>)
    ensures lines != []
    decreases |s|
  {
    match Index(s, CRLF)
    case None => [s]
    case Some(i) => [s[..i]] + Split(s[i + 2..])
  }

  predicate HasPrefix(s: Text, p: Text) {
    |p| <= |s| && s[..|p|] == p
  }

  // ----- Tidy -----

  function Head(s: Text): Text {
    match Index(s, CRLF2)
    case None => s
    case Some(i) => s[..i]
  }

  function RequestLine(meth: Text, path: Text, version: Text): Text {
    meth + [SPACE] + path + [SPACE] + version
  }

  /** The three parts with one space between each two. */
  lemma RequestLineParts(meth: Text, path: Text, version: Text)
    ensures var r, m, p := RequestLine(meth, path, version), |meth|, |path|;
      && |r| == m + p + |version| + 2
      && r[..m] == meth && r[m] == 0x20
      && r[m + 1..m + 1 + p] == path && r[m + 1 + p] == 0x20
      && r[m + p + 2..] == version
  {
  }

  function Kept(lines: seq<Text>): seq<Text> {
    if lines == [] then []
    else (if HasPrefix(lines[0], PROXY_CONNECTION) then [] else [lines[0]]) + Kept(lines[1..])
  }

  function Terminated(line: Text): Text {
    line + CRLF
  }

  function Render(lines: seq<Text>): Text {
    FlatMap(Terminated, lines) + CRLF
  }

  // What stands between CRLFs after the first piece.  Header lines may end in a bare LF, so a
  // piece may hold several of them.
  function OtherPieces(raw: Text): seq<Text> {
    Split(Head(raw))[1..]
  }

  function Tidied(raw: Text, requestLine: Text): Text {
    Render(Kept([requestLine] + OtherPieces(raw)))
  }

  class HttpRequest {
    var raw: Text
    const meth: Text
    const path: Text
    const version: Text

    constructor (raw: Text, meth: Text, path: Text, version: Text)
      ensures this.raw == raw && this.meth == meth && this.path == path && this.version == version
    {
      this.raw, this.meth, this.path, this.version := raw, meth, path, version;
    }

    method Tidy()
      modifies this`raw
      ensures raw == Tidied(old(raw), RequestLine(meth, path, version))
      ensures var line := meth + [0x20] + path + [0x20] + version;
        !IsProxyConnection(line) ==> |raw| >= |line| + 2 && raw[..|line| + 2] == line + [0x0D, 0x0A]
    {
      if !IsProxyConnection(RequestLine(meth, path, version)) {
        TidiedBegins(raw, RequestLine(meth, path, version));
      }
      var headersEnd := Index(raw, CRLF2);
      var head := if headersEnd.None? then raw else raw[..headersEnd.value];
      var meta := Split(head);
      meta := meta[0 := meth + [SPACE] + path + [SPACE] + version];
      assert meta == [RequestLine(meth, path, version)] + OtherPieces(raw);
      var buf: Text := [];
      for i := 0 to |meta|
        invariant buf == FlatMap(Terminated, Kept(meta[..i]))
      {
        WrittenSnoc(meta, i);
        if HasPrefix(meta[i], PROXY_CONNECTION) {
          continue;
        }
        buf := buf + meta[i];
        buf := buf + CRLF;
      }
      assert meta[..|meta|] == meta;
      raw := buf + CRLF;
    }
  }

  /** Unless it is dropped the request line comes first. */
  lemma TidiedBegins(raw: Text, requestLine: Text)
    requires !IsProxyConnection(requestLine)
    ensures var t, n := Tidied(raw, requestLine), |requestLine|;
      |t| >= n + 2 && t[..n + 2] == requestLine + [0x0D, 0x0A]
  {
    KeptCons(requestLine, OtherPieces(raw));
    RenderCons(requestLine, Kept(OtherPieces(raw)));
  }

  /** Kept keeps exactly the lines without the prefix, in their order. */
  lemma KeptInOrder(lines: seq<Text>) returns (ids: seq<nat>)
    ensures Increasing(ids) && Below(ids, |lines|) && |Kept(lines)| == |ids|
    ensures forall i: nat | i < |lines| :: i in ids <==> !IsProxyConnection(lines[i])
    ensures forall k | 0 <= k < |ids| :: Kept(lines)[k] == lines[ids[k]]
  {
    KeptIsFlatMap(lines);
    ids := FlatMapPlaces(IfKept, lines);
    forall k | 0 <= k < |ids| ensures Kept(lines)[k] == lines[ids[k]] {
      assert IfKept(lines[ids[k]]) == [Kept(lines)[k]];
    }
  }

  function IfKept(line: Text): seq<Text> {
    if IsProxyConnection(line) then [] else [line]
  }

  lemma {:induction false} KeptIsFlatMap(lines: seq<Text>)
    ensures Kept(lines) == FlatMap(IfKept, lines)
  {
    if lines != [] {
      KeptIsFlatMap(lines[1..]);
    }
  }

  lemma ProxyConnectionIsItsName()
    ensures PROXY_CONNECTION == Ascii("Proxy-Connection")
  {
  }

  lemma {:induction false} KeptConcat(x: seq<Text>, y: seq<Text>)
    ensures Kept(x + y) == Kept(x) + Kept(y)
  {
    if x == [] {
      assert x + y == y;
    } else {
      assert (x + y)[0] == x[0] && (x + y)[1..] == x[1..] + y;
      KeptConcat(x[1..], y);
    }
  }

  // What the loop writes for one more line.
  lemma WrittenSnoc(lines: seq<Text>, i: nat)
    requires i < |lines|
    ensures FlatMap(Terminated, Kept(lines[..i + 1]))
         == if HasPrefix(lines[i], PROXY_CONNECTION) then FlatMap(Terminated, Kept(lines[..i]))
            else FlatMap(Terminated, Kept(lines[..i])) + lines[i] + CRLF
  {
    var front, line := lines[..i], lines[i];
    assert lines[..i + 1] == front + [line];
    KeptConcat(front, [line]);
    if HasPrefix(line, PROXY_CONNECTION) {
      assert Kept(front) + Kept([line]) == Kept(front);
    } else {
      assert Kept([line]) == [line];
      FlatMapSnoc(Terminated, Kept(front), line);
    }
  }

  lemma {:induction false} KeptTwice(x: seq<Text>)
    ensures Kept(Kept(x)) == Kept(x)
  {
    if x != [] {
      KeptTwice(x[1..]);
      if HasPrefix(x[0], PROXY_CONNECTION) {
        assert Kept(x) == Kept(x[1..]);
      } else {
        assert Kept(x)[1..] == Kept(x[1..]);
      }
    }
  }

  // ----- searching -----

  predicate Free(s: Text, pat: Text) {
    forall i | 0 <= i <= |s| :: !OccursAt(s, pat, i)
  }

  lemma {:induction false} IndexFromIsFirst(s: Text, pat: Text, i: nat)
    requires i <= |s|
    ensures match IndexFrom(s, pat, i)
      case Some(k) => forall j | i <= j < k :: !OccursAt(s, pat, j)
      case None => forall j | i <= j <= |s| :: !OccursAt(s, pat, j)
    decreases |s| - i
  {
    if !OccursAt(s, pat, i) && i < |s| {
      IndexFromIsFirst(s, pat, i + 1);
    }
  }

  lemma IndexIs(s: Text, pat: Text, i: nat)
    requires OccursAt(s, pat, i) && forall j | 0 <= j < i :: !OccursAt(s, pat, j)
    ensures Index(s, pat) == Some(i)
  {
    IndexFromIsFirst(s, pat, 0);
  }

  lemma IndexNone(s: Text, pat: Text)
    ensures Index(s, pat) == None <==> Free(s, pat)
  {
    IndexFromIsFirst(s, pat, 0);
  }

  lemma IndexOfLonger(s: Text, pat: Text, t: Text)
    requires Index(s, pat).Some?
    ensures Index(s + t, pat) == Index(s, pat)
  {
    var i := Index(s, pat).value;
    IndexFromIsFirst(s, pat, 0);
    assert (s + t)[i..i + |pat|] == s[i..i + |pat|];
    forall j | 0 <= j < i ensures !OccursAt(s + t, pat, j) {
      assert (s + t)[j..j + |pat|] == s[j..j + |pat|];
      assert !OccursAt(s, pat, j);
    }
    IndexIs(s + t, pat, i);
  }

  lemma OccursShift(front: Text, rest: Text, pat: Text, k: nat)
    ensures OccursAt(front + rest, pat, |front| + k) <==> OccursAt(rest, pat, k)
  {
  }

  lemma CrlfAt(s: Text, i: nat)
    ensures OccursAt(s, CRLF, i) <==> i + 2 <= |s| && s[i] == 0x0D && s[i + 1] == 0x0A
    ensures OccursAt(s, CRLF2, i) <==> OccursAt(s, CRLF, i) && OccursAt(s, CRLF, i + 2)
  {
    if i + 2 <= |s| {
      assert s[i..i + 2] == [s[i], s[i + 1]];
    }
    if i + 4 <= |s| {
      assert s[i..i + 4] == s[i..i + 2] + s[i + 2..i + 4];
      assert CRLF2 == CRLF + CRLF;
      assert CRLF2[..2] == CRLF && CRLF2[2..] == CRLF;
    }
  }

  /** A line without CRLF ends at the first CRLF after it. */
  lemma FirstCrlf(line: Text, rest: Text)
    requires Free(line, CRLF)
    ensures Index(line + CRLF + rest, CRLF) == Some(|line|)
    ensures forall j | 0 <= j < |line| :: !OccursAt(line + CRLF + rest, CRLF, j)
  {
    var s := line + CRLF + rest;
    CrlfAt(s, |line|);
    forall j | 0 <= j < |line| ensures !OccursAt(s, CRLF, j) {
      CrlfAt(s, j);
      CrlfAt(line, j);
    }
    IndexIs(s, CRLF, |line|);
  }

  // ----- lines and text -----

  function Join(lines: seq<Text>): Text
    requires lines != []
  {
    if |lines| == 1 then lines[0] else lines[0] + CRLF + Join(lines[1..])
  }

  // Lines that survive being written and read again.
  predicate CleanLine(line: Text) {
    line != [] && Free(line, CRLF)
  }

  predicate Clean(lines: seq<Text>) {
    forall i | 0 <= i < |lines| :: CleanLine(lines[i])
  }

  lemma {:induction false} RenderIsJoin(lines: seq<Text>)
    requires lines != []
    ensures Render(lines) == Join(lines) + CRLF2
  {
    assert Render(lines) == Terminated(lines[0]) + (FlatMap(Terminated, lines[1..]) + CRLF);
    if |lines| == 1 {
      assert lines[1..] == [];
      assert lines[0] + CRLF + CRLF == lines[0] + CRLF2;
    } else {
      RenderIsJoin(lines[1..]);
      assert lines[0] + CRLF + (Join(lines[1..]) + CRLF2) == (lines[0] + CRLF + Join(lines[1..])) + CRLF2;
    }
  }

  lemma SplitFirst(line: Text, rest: Text)
    requires Free(line, CRLF)
    ensures Split(line + CRLF + rest) == [line] + Split(rest)
  {
    var s := line + CRLF + rest;
    FirstCrlf(line, rest);
    assert s[..|line|] == line && s[|line| + 2..] == rest;
  }

  lemma {:induction false} SplitJoin(lines: seq<Text>)
    requires lines != [] && forall i | 0 <= i < |lines| :: Free(lines[i], CRLF)
    ensures Split(Join(lines)) == lines
  {
    if |lines| == 1 {
      IndexNone(lines[0], CRLF);
    } else {
      SplitFirst(lines[0], Join(lines[1..]));
      SplitJoin(lines[1..]);
      assert lines == [lines[0]] + lines[1..];
    }
  }

  /** Clean lines written out contain the empty line only at the very end. */
  lemma {:induction false} RenderedEnd(lines: seq<Text>)
    requires lines != [] && Clean(lines)
    ensures Index(Render(lines), CRLF2) == Some(|Join(lines)|)
    ensures Head(Render(lines)) == Join(lines)
  {
    RenderIsJoin(lines);
    var s, n := Render(lines), |Join(lines)|;
    assert s[n..n + 4] == CRLF2;
    forall j | 0 <= j < n ensures !OccursAt(s, CRLF2, j) {
      NoEmptyLineBefore(lines, j);
    }
    IndexIs(s, CRLF2, n);
    assert s[..n] == Join(lines);
  }

  lemma {:induction false} NoEmptyLineBefore(lines: seq<Text>, j: nat)
    requires lines != [] && Clean(lines) && j < |Join(lines)|
    ensures !OccursAt(Render(lines), CRLF2, j)
  {
    var s, line, rest := Render(lines), lines[0], Render(lines[1..]);
    assert s == line + CRLF + rest;
    if |lines| == 1 {
      CrlfAt(s, j);
      FirstCrlf(line, rest);
    } else {
      RenderIsJoin(lines);
      RenderIsJoin(lines[1..]);
      if j <= |line| + 1 {
        StartsWithLine(lines[1..]);
        NoEmptyLineAtFirst(line, rest, j);
      } else {
        var k := j - |line| - 2;
        NoEmptyLineBefore(lines[1..], k);
        OccursShift(line + CRLF, rest, CRLF2, k);
      }
    }
  }

  lemma NoEmptyLineAtFirst(line: Text, rest: Text, j: nat)
    requires Free(line, CRLF) && !OccursAt(rest, CRLF, 0) && j <= |line| + 1
    ensures !OccursAt(line + CRLF + rest, CRLF2, j)
  {
    var s := line + CRLF + rest;
    FirstCrlf(line, rest);
    CrlfAt(s, j);
    if j == |line| {
      OccursShift(line + CRLF, rest, CRLF, 0);
    } else if j == |line| + 1 {
      assert s[j] == 0x0A;
    }
  }

  lemma StartsWithLine(lines: seq<Text>)
    requires lines != [] && Clean(lines)
    ensures !OccursAt(Render(lines), CRLF, 0)
  {
    var rest := FlatMap(Terminated, lines[1..]) + CRLF;
    assert Render(lines) == lines[0] + CRLF + rest;
    FirstCrlf(lines[0], rest);
  }

  lemma OccursInFront(s: Text, i: nat, pat: Text, j: nat)
    requires i <= |s| && OccursAt(s[..i], pat, j)
    ensures OccursAt(s, pat, j)
  {
  }

  lemma FrontIsFree(s: Text, pat: Text, i: nat)
    requires pat != [] && Index(s, pat) == Some(i)
    ensures Free(s[..i], pat)
  {
    IndexFromIsFirst(s, pat, 0);
    forall j | 0 <= j <= i ensures !OccursAt(s[..i], pat, j) {
      if OccursAt(s[..i], pat, j) {
        OccursInFront(s, i, pat, j);
        assert false;
      }
    }
  }

  // ----- what Split gives -----

  lemma {:induction false} SplitPieces(s: Text)
    ensures Join(Split(s)) == s
    ensures forall i | 0 <= i < |Split(s)| :: Free(Split(s)[i], CRLF)
    decreases |s|
  {
    if |Split(s)| == 1 {
      IndexNone(s, CRLF);
    } else {
      var line, rest := FirstPiece(s);
      SplitPieces(rest);
      forall i | 0 <= i < |Split(s)| ensures Free(Split(s)[i], CRLF) {
        assert i > 0 ==> Split(s)[i] == Split(rest)[i - 1];
      }
      assert Split(s)[1..] == Split(rest);
    }
  }

  lemma FirstPiece(s: Text) returns (line: Text, rest: Text)
    requires |Split(s)| > 1
    ensures s == line + CRLF + rest && Split(s) == [line] + Split(rest) && Free(line, CRLF)
  {
    var i := Index(s, CRLF).value;
    FrontIsFree(s, CRLF, i);
    line, rest := s[..i], s[i + 2..];
    assert s[i..i + 2] == CRLF;
  }

  predicate EndsWithCrlf(s: Text) {
    |s| >= 2 && OccursAt(s, CRLF, |s| - 2)
  }

  lemma FreeOfSuffix(front: Text, rest: Text, pat: Text)
    requires Free(front + rest, pat)
    ensures Free(rest, pat)
  {
    forall j | 0 <= j <= |rest| ensures !OccursAt(rest, pat, j) {
      OccursShift(front, rest, pat, j);
    }
  }

  lemma EndOfLongerText(line: Text, rest: Text)
    ensures EndsWithCrlf(line + CRLF + rest) <==> rest == [] || EndsWithCrlf(rest)
  {
    var s := line + CRLF + rest;
    CrlfAt(s, |s| - 2);
    if |rest| >= 2 {
      OccursShift(line + CRLF, rest, CRLF, |rest| - 2);
    }
  }

  // A text that starts with CRLF after a CRLF has an empty line.
  lemma NoLeadingCrlf(line: Text, rest: Text)
    requires Free(line + CRLF + rest, CRLF2)
    ensures !OccursAt(rest, CRLF, 0)
  {
    var s := line + CRLF + rest;
    CrlfAt(s, |line|);
    OccursShift(line + CRLF, rest, CRLF, 0);
  }

  /** In a text without an empty line the pieces after the first are not empty, but for the last
      one when the text ends with CRLF. */
  lemma {:induction false} PiecesNotEmpty(s: Text, k: nat)
    requires Free(s, CRLF2) && 0 < k < |Split(s)|
    ensures Split(s)[k] == [] <==> k == |Split(s)| - 1 && EndsWithCrlf(s)
    decreases |s|
  {
    var line, rest := FirstPiece(s);
    FreeOfSuffix(line + CRLF, rest, CRLF2);
    if k > 1 {
      EndOfLongerText(line, rest);
      assert rest != [];
      PiecesNotEmpty(rest, k - 1);
    } else {
      SecondPiece(line, rest);
    }
  }

  lemma SecondPiece(line: Text, rest: Text)
    requires Free(line + CRLF + rest, CRLF2)
    ensures Split(rest)[0] == [] <==> |Split(rest)| == 1 && EndsWithCrlf(line + CRLF + rest)
  {
    IndexNone(rest, CRLF);
    NoLeadingCrlf(line, rest);
    EndOfLongerText(line, rest);
    if Index(rest, CRLF).Some? {
      assert Index(rest, CRLF).value > 0;
    } else {
      assert !EndsWithCrlf(rest);
    }
  }

  // ----- what Tidy does to a header block -----

  /** The block has its empty line or, lacking it, does not stop right after a line. */
  predicate EndsProperly(raw: Text) {
    Index(raw, CRLF2).Some? || !EndsWithCrlf(raw)
  }

  predicate IsProxyConnection(line: Text) {
    HasPrefix(line, PROXY_CONNECTION)
  }

  // Before the first empty line stands no CRLF, or the empty line would have come earlier.
  lemma NoCrlfBeforeEmptyLine(raw: Text, i: nat)
    requires Index(raw, CRLF2) == Some(i)
    ensures !EndsWithCrlf(raw[..i])
  {
    if EndsWithCrlf(raw[..i]) {
      OccursInFront(raw, i, CRLF, i - 2);
      CrlfAt(raw, i);
      CrlfAt(raw, i - 2);
      IndexFromIsFirst(raw, CRLF2, 0);
      assert false;
    }
  }

  lemma HeadHasNoEmptyLine(raw: Text)
    ensures Free(Head(raw), CRLF2)
    ensures Index(raw, CRLF2).Some? ==> !EndsWithCrlf(Head(raw))
  {
    match Index(raw, CRLF2)
    case None => IndexNone(raw, CRLF2);
    case Some(i) =>
      FrontIsFree(raw, CRLF2, i);
      NoCrlfBeforeEmptyLine(raw, i);
  }

  lemma OtherPiecesAreClean(raw: Text)
    ensures EndsProperly(raw) ==> Clean(OtherPieces(raw))
    ensures !EndsProperly(raw) ==>
      var lines := OtherPieces(raw);
      lines != [] && lines[|lines| - 1] == [] && Clean(lines[..|lines| - 1])
  {
    var head, lines := Head(raw), OtherPieces(raw);
    HeadHasNoEmptyLine(raw);
    SplitPieces(head);
    forall k | 0 <= k < |lines|
      ensures Free(lines[k], CRLF)
      ensures lines[k] == [] <==> k == |lines| - 1 && EndsWithCrlf(head)
    {
      PiecesNotEmpty(head, k + 1);
      assert lines[k] == Split(head)[k + 1];
    }
    if !EndsProperly(raw) {
      IndexNone(head, CRLF);
    }
  }

  lemma {:induction false} KeptMembers(lines: seq<Text>)
    ensures forall x | x in Kept(lines) :: x in lines && !IsProxyConnection(x)
    ensures forall x | x in lines && !IsProxyConnection(x) :: x in Kept(lines)
  {
    if lines != [] {
      KeptMembers(lines[1..]);
      assert forall x | x in lines :: x == lines[0] || x in lines[1..];
    }
  }

  lemma KeptClean(lines: seq<Text>)
    requires Clean(lines)
    ensures Clean(Kept(lines))
  {
  }

  lemma CleanCons(line: Text, lines: seq<Text>)
    requires CleanLine(line) && Clean(lines)
    ensures Clean([line] + lines)
  {
  }

  // Tidying lines that were written out clean, with or without one CRLF too many.
  lemma TidiedAgain(lines: seq<Text>, requestLine: Text)
    requires lines != [] && Clean(lines)
    ensures Tidied(Render(lines), requestLine) == Render(Kept([requestLine] + lines[1..]))
    ensures Tidied(Render(lines) + CRLF, requestLine) == Render(Kept([requestLine] + lines[1..]))
  {
    RenderedEnd(lines);
    SplitJoin(lines);
    IndexOfLonger(Render(lines), CRLF2, CRLF);
    var n := |Join(lines)|;
    assert (Render(lines) + CRLF)[..n] == Render(lines)[..n];
  }

  /** In a properly ended text Tidy replaces the first piece between CRLFs and keeps exactly those
      others that do not start with Proxy-Connection, in their order; the result has CRLFCRLF at
      the very end and nowhere else. */
  lemma TidyKeepsTheOtherPieces(raw: Text, requestLine: Text)
    requires EndsProperly(raw) && CleanLine(requestLine) && !IsProxyConnection(requestLine)
    ensures Split(Head(Tidied(raw, requestLine))) == [requestLine] + Kept(OtherPieces(raw))
    ensures Index(Tidied(raw, requestLine), CRLF2) == Some(|Tidied(raw, requestLine)| - 4)
  {
    var lines := OtherPieces(raw);
    var kept := [requestLine] + Kept(lines);
    OtherPiecesAreClean(raw);
    KeptClean(lines);
    CleanCons(requestLine, Kept(lines));
    KeptCons(requestLine, lines);
    ReadBack(kept);
  }

  lemma KeptCons(line: Text, lines: seq<Text>)
    requires !IsProxyConnection(line)
    ensures Kept([line] + lines) == [line] + Kept(lines)
  {
  }

  /** Clean lines written out are read back, and the empty line is the end. */
  lemma ReadBack(lines: seq<Text>)
    requires lines != [] && Clean(lines)
    ensures Split(Head(Render(lines))) == lines
    ensures Index(Render(lines), CRLF2) == Some(|Render(lines)| - 4)
  {
    RenderedEnd(lines);
    RenderIsJoin(lines);
    SplitJoin(lines);
  }

  // ----- tidying twice -----

  lemma RenderCons(line: Text, lines: seq<Text>)
    ensures Render([line] + lines) == line + CRLF + Render(lines)
  {
  }

  lemma RenderLastEmpty(lines: seq<Text>)
    ensures Render(lines + [EMPTY]) == Render(lines) + CRLF
  {
    FlatMapSnoc(Terminated, lines, EMPTY);
  }

  const EMPTY: Text := []

  // What follows the lines in a tidied text: one CRLF too many if the block is not properly ended.
  function Excess(proper: bool): Text {
    if proper then [] else CRLF
  }

  function Once(requestLine: Text, kept: seq<Text>, proper: bool): Text {
    Render((if IsProxyConnection(requestLine) then [] else [requestLine]) + kept) + Excess(proper)
  }

  // What Tidy writes: the request line and clean lines.
  lemma TidiedShape(raw: Text, requestLine: Text) returns (kept: seq<Text>)
    ensures Clean(kept) && Kept(kept) == kept
    ensures Tidied(raw, requestLine) == Once(requestLine, kept, EndsProperly(raw))
    ensures EndsProperly(raw) ==> kept == Kept(OtherPieces(raw))
  {
    if EndsProperly(raw) {
      OtherPiecesAreClean(raw);
      kept := KeptLines(OtherPieces(raw));
      ProperShape(OtherPieces(raw), requestLine);
    } else {
      var front := AllButEmptyPiece(raw);
      kept := KeptLines(front);
      ImproperShape(front, requestLine);
    }
  }

  lemma AllButEmptyPiece(raw: Text) returns (front: seq<Text>)
    requires !EndsProperly(raw)
    ensures OtherPieces(raw) == front + [EMPTY] && Clean(front)
  {
    OtherPiecesAreClean(raw);
    var lines := OtherPieces(raw);
    front := lines[..|lines| - 1];
  }

  lemma KeptLines(lines: seq<Text>) returns (kept: seq<Text>)
    requires Clean(lines)
    ensures kept == Kept(lines) && Clean(kept) && Kept(kept) == kept
  {
    kept := Kept(lines);
    KeptClean(lines);
    KeptTwice(lines);
  }

  lemma ProperShape(lines: seq<Text>, requestLine: Text)
    ensures Render(Kept([requestLine] + lines)) == Once(requestLine, Kept(lines), true)
  {
  }

  lemma ImproperShape(front: seq<Text>, requestLine: Text)
    ensures Render(Kept([requestLine] + (front + [EMPTY]))) == Once(requestLine, Kept(front), false)
  {
    KeptOfFirst(requestLine, front + [EMPTY]);
    KeepsLastEmpty(Kept([requestLine]), front);
  }

  lemma KeepsLastEmpty(first: seq<Text>, front: seq<Text>)
    ensures Render(first + Kept(front + [EMPTY])) == Render(first + Kept(front)) + CRLF
  {
    KeptConcat(front, [EMPTY]);
    assert Kept([EMPTY]) == [EMPTY];
    assert first + (Kept(front) + [EMPTY]) == (first + Kept(front)) + [EMPTY];
    RenderLastEmpty(first + Kept(front));
  }

  lemma KeptOfFirst(requestLine: Text, lines: seq<Text>)
    ensures Kept([requestLine] + lines) == Kept([requestLine]) + Kept(lines)
    ensures Kept([requestLine]) == if IsProxyConnection(requestLine) then [] else [requestLine]
  {
  }

  // The header lines of a block of one or two line ends.
  lemma BareHeads()
    ensures OtherPieces(CRLF) == [EMPTY] && OtherPieces(CRLF2) == []
  {
  }

  // A request line that is itself dropped takes the next line with it, each time.
  lemma DroppedLineNeverSettles(requestLine: Text, kept: seq<Text>, proper: bool)
    requires IsProxyConnection(requestLine) && Clean(kept) && Kept(kept) == kept
    ensures Tidied(Once(requestLine, kept, proper), requestLine) != Once(requestLine, kept, proper)
  {
    assert [] + kept == kept && Render(kept) + [] == Render(kept);
    if kept == [] {
      NothingLeft(requestLine);
    } else {
      TidiedAgain(kept, requestLine);
      DroppedWithLine(requestLine, kept);
    }
  }

  lemma NothingLeft(requestLine: Text)
    requires IsProxyConnection(requestLine)
    ensures Tidied(Render([]), requestLine) != Render([])
    ensures Tidied(Render([]) + CRLF, requestLine) != Render([]) + CRLF
  {
    var none: seq<Text> := [];
    assert Render(none) == CRLF && CRLF + CRLF == CRLF2;
    BareHeads();
    KeptOfFirst(requestLine, [EMPTY]);
    KeptOfFirst(requestLine, none);
    assert Kept([EMPTY]) == [EMPTY] == none + [EMPTY];
    RenderLastEmpty(none);
    assert |Render(none)| == 2;
  }

  lemma DroppedWithLine(requestLine: Text, kept: seq<Text>)
    requires IsProxyConnection(requestLine) && kept != [] && Kept(kept) == kept
    ensures |Render(Kept([requestLine] + kept[1..]))| < |Render(kept)|
  {
    KeptTail(kept);
    KeptOfFirst(requestLine, kept[1..]);
    assert [] + kept[1..] == kept[1..];
    assert kept == [kept[0]] + kept[1..];
    RenderCons(kept[0], kept[1..]);
  }

  lemma KeptTail(kept: seq<Text>)
    requires kept != [] && Kept(kept) == kept
    ensures Kept(kept[1..]) == kept[1..]
  {
    KeptMembers(kept);
    assert kept[0] in Kept(kept);
    assert Kept(kept)[1..] == Kept(kept[1..]);
  }

  // A request line with CRLF in it is read back as several lines.
  lemma RenderPieces(pieces: seq<Text>, kept: seq<Text>)
    requires pieces != []
    ensures Render(pieces + kept) == Render([Join(pieces)] + kept)
  {
    RenderIsJoin(pieces);
    FlatMapConcat(Terminated, pieces, kept);
    RenderCons(Join(pieces), kept);
    assert FlatMap(Terminated, pieces) == Join(pieces) + CRLF by {
      var x, y := FlatMap(Terminated, pieces), Join(pieces) + CRLF;
      assert x + CRLF == y + CRLF;
      assert x == (x + CRLF)[..|x|] && y == (y + CRLF)[..|y|];
    }
  }

  lemma PiecesAreClean(s: Text)
    requires s != [] && Free(s, CRLF2) && !OccursAt(s, CRLF, 0) && !EndsWithCrlf(s)
    ensures Clean(Split(s)) && Join(Split(s)) == s && Split(s)[1..] == OtherPieces(s)
  {
    IndexNone(s, CRLF2);
    SplitPieces(s);
    forall k | 0 <= k < |Split(s)| ensures CleanLine(Split(s)[k]) {
      if k > 0 {
        PiecesNotEmpty(s, k);
      }
    }
  }

  lemma CleanConcat(x: seq<Text>, y: seq<Text>)
    requires Clean(x) && Clean(y)
    ensures Clean(x + y)
  {
  }

  lemma RenderLonger(line: Text, more: seq<Text>, kept: seq<Text>)
    requires Clean(more)
    ensures |Render([line] + (more + kept))| == |Render([line] + kept)| <==> more == []
    ensures |Render([line] + (more + kept))| != |Render([line] + kept)| + 2
  {
    RenderCons(line, more + kept);
    RenderCons(line, kept);
    FlatMapConcat(Terminated, more, kept);
    if more == [] {
      assert more + kept == kept;
    } else {
      assert |more[0]| > 0;
      assert FlatMap(Terminated, more) == Terminated(more[0]) + FlatMap(Terminated, more[1..]);
    }
  }

  // The lines inside the request line are added each time, unless they are dropped.
  lemma SettlesWithoutEmptyLine(requestLine: Text, kept: seq<Text>, proper: bool)
    requires !IsProxyConnection(requestLine) && Clean(kept) && Kept(kept) == kept
    requires requestLine != [] && Free(requestLine, CRLF2)
    requires !OccursAt(requestLine, CRLF, 0) && !EndsWithCrlf(requestLine)
    ensures Tidied(Once(requestLine, kept, proper), requestLine) == Once(requestLine, kept, proper)
       <==> proper && Kept(OtherPieces(requestLine)) == []
  {
    var inner := OtherPieces(requestLine);
    InnerLinesAdded(requestLine, kept, proper);
    PiecesAreClean(requestLine);
    KeptClean(inner);
    RenderLonger(requestLine, Kept(inner), kept);
    assert [] + kept == kept && Render([requestLine] + kept) + [] == Render([requestLine] + kept);
  }

  lemma InnerLinesAdded(requestLine: Text, kept: seq<Text>, proper: bool)
    requires !IsProxyConnection(requestLine) && Clean(kept) && Kept(kept) == kept
    requires requestLine != [] && Free(requestLine, CRLF2)
    requires !OccursAt(requestLine, CRLF, 0) && !EndsWithCrlf(requestLine)
    ensures Tidied(Once(requestLine, kept, proper), requestLine)
         == Render([requestLine] + (Kept(OtherPieces(requestLine)) + kept))
  {
    var pieces := Split(requestLine);
    PiecesAreClean(requestLine);
    CleanConcat(pieces, kept);
    RenderPieces(pieces, kept);
    TidiedAgain(pieces + kept, requestLine);
    KeptInner(requestLine, pieces, kept);
    assert Render([requestLine] + kept) + [] == Render([requestLine] + kept);
  }

  lemma KeptInner(requestLine: Text, pieces: seq<Text>, kept: seq<Text>)
    requires !IsProxyConnection(requestLine) && pieces != [] && Kept(kept) == kept
    ensures Kept([requestLine] + (pieces + kept)[1..]) == [requestLine] + (Kept(pieces[1..]) + kept)
  {
    assert (pieces + kept)[1..] == pieces[1..] + kept;
    KeptCons(requestLine, pieces[1..] + kept);
    KeptConcat(pieces[1..], kept);
  }

  lemma RenderInjective(x: seq<Text>, y: seq<Text>, proper: bool)
    requires Clean(x) && Clean(y)
    ensures Render(x) == Render(y) + Excess(proper) <==> x == y && proper
  {
    if x != [] {
      ReadBack(x);
      assert x == [x[0]] + x[1..] && |x[0]| > 0;
      RenderCons(x[0], x[1..]);
    }
    if y != [] {
      ReadBack(y);
      IndexOfLonger(Render(y), CRLF2, Excess(proper));
      assert y == [y[0]] + y[1..] && |y[0]| > 0;
      RenderCons(y[0], y[1..]);
    }
    assert Render(y) + [] == Render(y);
  }

  // An empty line inside the request line hides the header lines behind it.
  lemma SettlesWithEmptyLine(requestLine: Text, kept: seq<Text>, proper: bool)
    requires !IsProxyConnection(requestLine) && Clean(kept) && Index(requestLine, CRLF2).Some?
    ensures Tidied(Once(requestLine, kept, proper), requestLine) == Once(requestLine, kept, proper)
       <==> proper && Kept(OtherPieces(requestLine)) == kept
  {
    var inner := OtherPieces(requestLine);
    OtherPiecesAreClean(requestLine);
    KeptClean(inner);
    HidesLinesBehind(requestLine, kept, proper);
    RenderInjective(Kept(inner), kept, proper);
    SameTail(requestLine + CRLF, Render(Kept(inner)), Render(kept) + Excess(proper));
  }

  lemma HidesLinesBehind(requestLine: Text, kept: seq<Text>, proper: bool)
    requires !IsProxyConnection(requestLine) && Index(requestLine, CRLF2).Some?
    ensures Once(requestLine, kept, proper) == (requestLine + CRLF) + (Render(kept) + Excess(proper))
    ensures Tidied(Once(requestLine, kept, proper), requestLine)
         == (requestLine + CRLF) + Render(Kept(OtherPieces(requestLine)))
  {
    var rest := CRLF + (Render(kept) + Excess(proper));
    OnceStartsWithLine(requestLine, kept, proper);
    TidiedBehind(requestLine, rest);
  }

  lemma OnceStartsWithLine(requestLine: Text, kept: seq<Text>, proper: bool)
    requires !IsProxyConnection(requestLine)
    ensures Once(requestLine, kept, proper) == requestLine + (CRLF + (Render(kept) + Excess(proper)))
  {
    RenderCons(requestLine, kept);
  }

  lemma TidiedBehind(requestLine: Text, rest: Text)
    requires !IsProxyConnection(requestLine) && Index(requestLine, CRLF2).Some?
    ensures Tidied(requestLine + rest, requestLine)
         == (requestLine + CRLF) + Render(Kept(OtherPieces(requestLine)))
  {
    SameOtherPieces(requestLine, rest);
    KeptCons(requestLine, OtherPieces(requestLine));
    RenderCons(requestLine, Kept(OtherPieces(requestLine)));
  }

  lemma SameOtherPieces(s: Text, rest: Text)
    requires Index(s, CRLF2).Some?
    ensures OtherPieces(s + rest) == OtherPieces(s)
  {
    IndexOfLonger(s, CRLF2, rest);
    var i := Index(s, CRLF2).value;
    assert (s + rest)[..i] == s[..i];
  }

  lemma SameTail(front: Text, x: Text, y: Text)
    ensures front + x == front + y <==> x == y
  {
    assert x == (front + x)[|front|..] && y == (front + y)[|front|..];
  }

  /** Tidying twice is tidying once exactly when the request line is not itself dropped, the block
      is properly ended, and the request line brings no header lines of its own: none that are
      kept or, if it has an empty line in it, the very lines that are kept of the block.  The parser
      leaves no CR in method and version; the path is a decoded one and may hold anything. */
  lemma TidyIdempotentIff(raw: Text, meth: Text, path: Text, version: Text)
    requires 0x0D !in meth && 0x0D !in version
    ensures var r := RequestLine(meth, path, version);
      Tidied(Tidied(raw, r), r) == Tidied(raw, r) <==>
      && !IsProxyConnection(r) && EndsProperly(raw)
      && Kept(OtherPieces(r)) == if Index(r, CRLF2).Some? then Kept(OtherPieces(raw)) else []
  {
    var r := RequestLine(meth, path, version);
    var kept := TidiedShape(raw, r);
    if IsProxyConnection(r) {
      DroppedLineNeverSettles(r, kept, EndsProperly(raw));
    } else if Index(r, CRLF2).Some? {
      SettlesWithEmptyLine(r, kept, EndsProperly(raw));
    } else {
      RequestLineEnds(meth, path, version);
      IndexNone(r, CRLF2);
      SettlesWithoutEmptyLine(r, kept, EndsProperly(raw));
    }
  }

  lemma RequestLineEnds(meth: Text, path: Text, version: Text)
    requires 0x0D !in meth && 0x0D !in version
    ensures var r := RequestLine(meth, path, version);
      r != [] && !OccursAt(r, CRLF, 0) && !EndsWithCrlf(r)
  {
    var r := RequestLine(meth, path, version);
    var n := |r| - 2;
    CrlfAt(r, 0);
    assert r[0] == if meth == [] then SPACE else meth[0];
    if n >= 0 {
      CrlfAt(r, n);
      if |version| >= 2 {
        assert r[n] == version[|version| - 2];
      } else if |version| == 1 {
        assert r[n] == SPACE;
      } else {
        assert r[n + 1] == SPACE;
      }
    }
  }

  /** So for a path without CR Tidy is idempotent on every properly ended block, unless the request
      line is dropped. */
  lemma PlainPathsAreTidiedOnce(raw: Text, meth: Text, path: Text, version: Text)
    requires 0x0D !in meth && 0x0D !in path && 0x0D !in version
    ensures var r := RequestLine(meth, path, version);
      Tidied(Tidied(raw, r), r) == Tidied(raw, r) <==> !IsProxyConnection(r) && EndsProperly(raw)
  {
    var r := RequestLine(meth, path, version);
    CrFree(r);
    forall i | 0 <= i <= |r| ensures !OccursAt(r, CRLF2, i) {
      CrlfAt(r, i);
    }
    IndexNone(r, CRLF);
    IndexNone(r, CRLF2);
    TidyIdempotentIff(raw, meth, path, version);
  }

  lemma TwoLines(first: Text, second: Text)
    requires 0x0D !in first && 0x0D !in second && second != []
    ensures Index(first + CRLF + second, CRLF2) == None && OtherPieces(first + CRLF + second) == [second]
  {
    var s := first + CRLF + second;
    CrFree(first);
    CrFree(second);
    forall i | 0 <= i <= |s| ensures !OccursAt(s, CRLF2, i) {
      CrlfAt(s, i);
      if i + 2 < |s| && s[i + 2] == 0x0D {
        assert i + 2 == |first|;
      }
    }
    IndexNone(s, CRLF2);
    SplitFirst(first, second);
    IndexNone(second, CRLF);
  }

  lemma CrFree(s: Text)
    requires 0x0D !in s
    ensures Free(s, CRLF)
  {
    forall i | 0 <= i <= |s| ensures !OccursAt(s, CRLF, i) {
      CrlfAt(s, i);
      if i + 2 <= |s| {
        assert s[i] in s;
      }
    }
  }
}
