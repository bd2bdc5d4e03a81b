/** What Tidy does to the lines of a header block, whatever their line ends. */
module TidyLines {
  import opened Options
  import opened Collections
  import opened Streams
  import opened HttpHeader
  import opened HeaderBlock
  import opened Http

  // ----- which lines survive -----

  /** The lines that do not start with Proxy-Connection. */
  function Others(ls: seq<Line>): seq<Line> {
    if ls == [] then []
    else (if IsProxyConnection(ls[0].text) then [] else [ls[0]]) + Others(ls[1..])
  }

  /** Exactly the lines without the prefix, in their order. */
  lemma OthersInOrder(ls: seq<Line>) returns (ids: seq<nat>)
    ensures Increasing(ids) && Below(ids, |ls|) && |Others(ls)| == |ids|
    ensures forall i: nat | i < |ls| :: i in ids <==> !IsProxyConnection(ls[i].text)
    ensures forall k | 0 <= k < |ids| :: Others(ls)[k] == ls[ids[k]]
  {
    OthersIsFlatMap(ls);
    ids := FlatMapPlaces(IfOther, ls);
    forall k | 0 <= k < |ids| ensures Others(ls)[k] == ls[ids[k]] {
      assert IfOther(ls[ids[k]]) == [Others(ls)[k]];
    }
  }

  function IfOther(l: Line): seq<Line> {
    if IsProxyConnection(l.text) then [] else [l]
  }

  lemma {:induction false} OthersIsFlatMap(ls: seq<Line>)
    ensures Others(ls) == FlatMap(IfOther, ls)
  {
    if ls != [] {
      OthersIsFlatMap(ls[1..]);
    }
  }

  // Whether the line after ls[0] goes, when ls[0] does or not: after CRLF a new piece begins, and
  // its first line decides; after a bare LF the piece goes on.
  function NextGoes(l: Line, goes: bool, next: Line): bool {
    if l.crlf then IsProxyConnection(next.text) else goes
  }

  /** The lines that Tidy keeps, when it drops the first one or not. */
  function Sieve(ls: seq<Line>, goes: bool): seq<Line> {
    if ls == [] then []
    else
      (if goes then [] else [ls[0]]) +
      if |ls| == 1 then [] else Sieve(ls[1..], NextGoes(ls[0], goes, ls[1]))
  }

  // Whether the line `next` after ls goes.
  function GoesAfter(ls: seq<Line>, goes: bool, next: Line): bool
    requires ls != []
  {
    if |ls| == 1 then NextGoes(ls[0], goes, next) else GoesAfter(ls[1..], NextGoes(ls[0], goes, ls[1]), next)
  }

  lemma {:induction false} SieveConcat(ls: seq<Line>, goes: bool, tail: seq<Line>)
    requires ls != [] && tail != []
    ensures Sieve(ls + tail, goes) == Sieve(ls, goes) + Sieve(tail, GoesAfter(ls, goes, tail[0]))
  {
    if |ls| == 1 {
      SieveConcatOne(ls, goes, tail);
    } else {
      var next := NextGoes(ls[0], goes, ls[1]);
      SieveConcat(ls[1..], next, tail);
      SieveConcatStep(ls, goes, tail, Sieve(tail, GoesAfter(ls, goes, tail[0])));
    }
  }

  lemma SieveConcatStep(ls: seq<Line>, goes: bool, tail: seq<Line>, end: seq<Line>)
    requires |ls| > 1
    requires var next := NextGoes(ls[0], goes, ls[1]); Sieve(ls[1..] + tail, next) == Sieve(ls[1..], next) + end
    ensures Sieve(ls + tail, goes) == Sieve(ls, goes) + end
  {
    var head, next := if goes then [] else [ls[0]], NextGoes(ls[0], goes, ls[1]);
    SieveConsBehind(ls, goes, tail);
    Associates(head, Sieve(ls[1..], next), end);
  }

  lemma SieveConsBehind(ls: seq<Line>, goes: bool, tail: seq<Line>)
    requires |ls| > 1
    ensures var head, next := if goes then [] else [ls[0]], NextGoes(ls[0], goes, ls[1]);
      && Sieve(ls, goes) == head + Sieve(ls[1..], next)
      && Sieve(ls + tail, goes) == head + Sieve(ls[1..] + tail, next)
  {
    SieveCons(ls, goes);
    SieveCons(ls + tail, goes);
    assert (ls + tail)[1..] == ls[1..] + tail;
  }

  lemma Associates(x: seq<Line>, y: seq<Line>, z: seq<Line>)
    ensures (x + y) + z == x + (y + z)
  {
  }

  lemma SieveConcatOne(ls: seq<Line>, goes: bool, tail: seq<Line>)
    requires |ls| == 1 && tail != []
    ensures Sieve(ls + tail, goes) == Sieve(ls, goes) + Sieve(tail, NextGoes(ls[0], goes, tail[0]))
  {
    assert (ls + tail)[1..] == tail;
    SieveCons(ls + tail, goes);
  }

  lemma SieveCons(ls: seq<Line>, goes: bool)
    requires |ls| > 1
    ensures Sieve(ls, goes) == (if goes then [] else [ls[0]]) + Sieve(ls[1..], NextGoes(ls[0], goes, ls[1]))
  {
  }

  lemma {:induction false} SieveSelects(ls: seq<Line>, goes: bool)
    ensures forall l | l in Sieve(ls, goes) :: l in ls
    ensures |Others(Sieve(ls, goes))| <= |Others(ls)|
  {
    if |ls| == 1 {
      assert Others(Sieve(ls, goes)) == [] || Sieve(ls, goes) == ls;
    } else if ls != [] {
      var rest := Sieve(ls[1..], NextGoes(ls[0], goes, ls[1]));
      SieveSelects(ls[1..], NextGoes(ls[0], goes, ls[1]));
      assert ([ls[0]] + rest)[1..] == rest;
      assert [] + rest == rest;
    }
  }

  // The first survivor of a list whose first line goes stands at the head of a kept piece.
  lemma {:induction false} FirstSurvivor(ls: seq<Line>)
    requires Sieve(ls, true) != []
    ensures !IsProxyConnection(Sieve(ls, true)[0].text)
  {
    assert |ls| > 1;
    assert Sieve(ls, true) == Sieve(ls[1..], NextGoes(ls[0], true, ls[1]));
    if NextGoes(ls[0], true, ls[1]) {
      FirstSurvivor(ls[1..]);
    }
  }

  lemma {:induction false} OthersAreOthers(ls: seq<Line>)
    ensures forall l | l in Others(ls) :: l in ls && !IsProxyConnection(l.text)
  {
    if ls != [] {
      OthersAreOthers(ls[1..]);
    }
  }

  lemma {:induction false} AllOthers(ls: seq<Line>)
    requires forall l | l in ls :: !IsProxyConnection(l.text)
    ensures Others(ls) == ls
  {
    if ls != [] {
      AllOthers(ls[1..]);
    }
  }

  /** Within a piece, that is across a bare LF, lines go or stay alike. */
  predicate PiecesAgree(ls: seq<Line>) {
    forall i | 0 <= i < |ls| - 1 ::
      ls[i].crlf || IsProxyConnection(ls[i].text) == IsProxyConnection(ls[i + 1].text)
  }

  lemma PiecesAgreeTail(ls: seq<Line>)
    requires |ls| > 1
    ensures PiecesAgree(ls) <==>
      && (ls[0].crlf || IsProxyConnection(ls[0].text) == IsProxyConnection(ls[1].text))
      && PiecesAgree(ls[1..])
  {
    if PiecesAgree(ls[1..]) {
      forall i | 0 < i < |ls| - 1
        ensures ls[i].crlf || IsProxyConnection(ls[i].text) == IsProxyConnection(ls[i + 1].text)
      {
        assert ls[1..][i - 1] == ls[i] && ls[1..][i] == ls[i + 1];
      }
    }
  }

  /** Exactly the other lines survive if and only if pieces agree, the first one with what is done
      to the first line. */
  lemma {:induction false} SieveKeepsOthersIff(ls: seq<Line>, goes: bool)
    requires ls != []
    ensures Texts(Sieve(ls, goes)) == Texts(Others(ls)) <==>
      goes == IsProxyConnection(ls[0].text) && PiecesAgree(ls)
  {
    if goes != IsProxyConnection(ls[0].text) {
      WrongFirst(ls, goes);
    } else if |ls| == 1 {
      assert Others(ls[1..]) == [];
    } else {
      var next := NextGoes(ls[0], goes, ls[1]);
      SieveKeepsOthersIff(ls[1..], next);
      PiecesAgreeTail(ls);
      SameHead(if goes then [] else [ls[0]], Sieve(ls[1..], next), Others(ls[1..]));
    }
  }

  lemma SameHead(head: seq<Line>, x: seq<Line>, y: seq<Line>)
    ensures Texts(head + x) == Texts(head + y) <==> Texts(x) == Texts(y)
  {
    assert Texts(head + x) == Texts(head) + Texts(x) && Texts(head + y) == Texts(head) + Texts(y);
    assert Texts(x) == (Texts(head) + Texts(x))[|head|..] && Texts(y) == (Texts(head) + Texts(y))[|head|..];
  }

  lemma WrongFirst(ls: seq<Line>, goes: bool)
    requires ls != [] && goes != IsProxyConnection(ls[0].text)
    ensures Texts(Sieve(ls, goes)) != Texts(Others(ls))
  {
    if Texts(Sieve(ls, goes)) == Texts(Others(ls)) {
      if goes {
        SieveAfterDropped(ls);
      } else {
        assert ls[0] == Sieve(ls, goes)[0] && ls[0] in Sieve(ls, goes);
      }
      SurvivorsAreOthers(Sieve(ls, goes), ls);
      assert false;
    }
  }

  lemma SurvivorsAreOthers(s: seq<Line>, ls: seq<Line>)
    requires Texts(s) == Texts(Others(ls))
    ensures |s| == |Others(ls)| && Others(s) == s && forall l | l in s :: !IsProxyConnection(l.text)
  {
    OthersAreOthers(ls);
    forall l | l in s ensures !IsProxyConnection(l.text) {
      var i :| 0 <= i < |s| && s[i] == l;
      assert Texts(s)[i] == Texts(Others(ls))[i] && Others(ls)[i] in Others(ls);
    }
    AllOthers(s);
  }

  lemma SieveAfterDropped(ls: seq<Line>)
    requires ls != [] && !IsProxyConnection(ls[0].text)
    ensures |Others(Sieve(ls, true))| < |Others(ls)|
  {
    if |ls| > 1 {
      SieveSelects(ls[1..], NextGoes(ls[0], true, ls[1]));
      assert Sieve(ls, true) == Sieve(ls[1..], NextGoes(ls[0], true, ls[1]));
    }
  }

  lemma {:induction false} GoesAfterAgreeing(ls: seq<Line>, goes: bool, next: Line)
    requires ls != [] && goes == IsProxyConnection(ls[0].text) && PiecesAgree(ls) && next.text == []
    ensures var last := ls[|ls| - 1];
      GoesAfter(ls, goes, next) <==> !last.crlf && IsProxyConnection(last.text)
  {
    if |ls| > 1 {
      PiecesAgreeTail(ls);
      GoesAfterAgreeing(ls[1..], NextGoes(ls[0], goes, ls[1]), next);
    }
  }

  // ----- pieces and lines -----

  /** The lines written out without the last line end. */
  function Body(ls: seq<Line>): Text
    requires ls != []
  {
    if |ls| == 1 then ls[0].text else Written(ls[0]) + Body(ls[1..])
  }

  lemma {:induction false} BodyIsWritten(ls: seq<Line>)
    requires ls != [] && ls[|ls| - 1].crlf
    ensures Body(ls) + CRLF == WrittenAll(ls)
  {
    if |ls| == 1 {
      assert ls == [ls[0]] + [];
      WrittenCons(ls[0], []);
    } else {
      BodyIsWritten(ls[1..]);
      assert Written(ls[0]) + (Body(ls[1..]) + CRLF) == (Written(ls[0]) + Body(ls[1..])) + CRLF;
    }
  }

  // What Tidy writes for the pieces, when the first one goes or not.
  function Output(pieces: seq<Text>, goes: bool): Text
    requires pieces != []
  {
    (if goes then [] else Terminated(pieces[0])) + FlatMap(Terminated, Kept(pieces[1..]))
  }

  lemma OutputOfAll(pieces: seq<Text>)
    requires pieces != []
    ensures FlatMap(Terminated, Kept(pieces)) == Output(pieces, IsProxyConnection(pieces[0]))
  {
    if !IsProxyConnection(pieces[0]) {
      assert Kept(pieces)[1..] == Kept(pieces[1..]);
    } else {
      assert Kept(pieces) == Kept(pieces[1..]);
    }
  }

  lemma TextIsFree(l: Line)
    requires IsLine(l)
    ensures Free(l.text, CRLF)
  {
    forall i | 0 <= i <= |l.text| ensures !OccursAt(l.text, CRLF, i) {
      CrlfAt(l.text, i);
      assert i + 1 < |l.text| ==> l.text[i + 1] in l.text;
    }
  }

  // A text that ends in LF but not in CRLF joins the first piece of what follows.
  lemma SplitPrepend(text: Text, s: Text)
    requires LF !in text && (text != [] ==> text[|text| - 1] != CR)
    ensures Split(text + [LF] + s) == [text + [LF] + Split(s)[0]] + Split(s)[1..]
  {
    var x := text + [LF];
    NoCrlfWithin(text, s);
    IndexBehind(x, s);
    SplitBehind(x, s);
  }

  lemma SplitBehind(x: Text, s: Text)
    requires Index(x + s, CRLF) == match Index(s, CRLF) case None => None case Some(i) => Some(|x| + i)
    ensures Split(x + s) == [x + Split(s)[0]] + Split(s)[1..]
  {
    match Index(s, CRLF)
    case None =>
    case Some(i) =>
      SlicesBehind(x, s, i);
      SplitAt(s, i, s[..i], s[i + 2..]);
      SplitAt(x + s, |x| + i, x + s[..i], s[i + 2..]);
      PrependToFirst(x, s[..i], Split(s[i + 2..]));
  }

  lemma SplitAt(s: Text, i: nat, piece: Text, rest: Text)
    requires Index(s, CRLF) == Some(i) && piece == s[..i] && rest == s[i + 2..]
    ensures Split(s) == [piece] + Split(rest)
  {
  }

  lemma PrependToFirst(x: Text, piece: Text, pieces: seq<Text>)
    ensures var all := [piece] + pieces; [x + piece] + pieces == [x + all[0]] + all[1..]
  {
    assert ([piece] + pieces)[1..] == pieces;
  }

  lemma NoCrlfWithin(text: Text, s: Text)
    requires LF !in text && (text != [] ==> text[|text| - 1] != CR)
    ensures forall j | 0 <= j <= |text| :: !OccursAt(text + [LF] + s, CRLF, j)
  {
    forall j | 0 <= j <= |text| ensures !OccursAt(text + [LF] + s, CRLF, j) {
      CrlfAt(text + [LF] + s, j);
      if j + 1 < |text| {
        assert text[j + 1] in text;
      }
    }
  }

  lemma SlicesBehind(x: Text, s: Text, i: nat)
    requires i + 2 <= |s|
    ensures (x + s)[..|x| + i] == x + s[..i] && (x + s)[|x| + i + 2..] == s[i + 2..]
  {
  }

  lemma IndexBehind(x: Text, s: Text)
    requires forall j | 0 <= j < |x| :: !OccursAt(x + s, CRLF, j)
    ensures Index(x + s, CRLF) == match Index(s, CRLF) case None => None case Some(i) => Some(|x| + i)
  {
    IndexFromIsFirst(s, CRLF, 0);
    match Index(s, CRLF)
    case None =>
      forall j | 0 <= j <= |x + s| ensures !OccursAt(x + s, CRLF, j) {
        if j >= |x| {
          OccursShift(x, s, CRLF, j - |x|);
        }
      }
      IndexNone(x + s, CRLF);
    case Some(i) =>
      OccursShift(x, s, CRLF, i);
      forall j | 0 <= j < |x| + i ensures !OccursAt(x + s, CRLF, j) {
        if j >= |x| {
          OccursShift(x, s, CRLF, j - |x|);
        }
      }
      IndexIs(x + s, CRLF, |x| + i);
  }

  lemma PrefixOfLine(text: Text, more: Text)
    requires LF !in text
    ensures IsProxyConnection(text + [LF] + more) <==> IsProxyConnection(text)
  {
    var s, p := text + [LF] + more, PROXY_CONNECTION;
    if |text| >= |p| {
      assert s[..|p|] == text[..|p|];
    } else if |s| >= |p| {
      assert s[..|p|][|text|] == LF != p[|text|];
    }
  }

  // The first piece begins with the first line.
  lemma FirstPieceGoes(ls: seq<Line>)
    requires ls != [] && AreLines(ls) && ls[|ls| - 1].crlf
    ensures IsProxyConnection(Split(Body(ls))[0]) <==> IsProxyConnection(ls[0].text)
  {
    TextIsFree(ls[0]);
    if |ls| == 1 {
      IndexNone(ls[0].text, CRLF);
    } else if ls[0].crlf {
      SplitFirst(ls[0].text, Body(ls[1..]));
    } else {
      SplitPrepend(ls[0].text, Body(ls[1..]));
      PrefixOfLine(ls[0].text, Split(Body(ls[1..]))[0]);
    }
  }

  /** Keeping pieces is keeping the lines of the sieve. */
  lemma {:induction false} OutputIsSieve(ls: seq<Line>, goes: bool)
    requires ls != [] && AreLines(ls) && ls[|ls| - 1].crlf
    ensures Output(Split(Body(ls)), goes) == WrittenAll(Sieve(ls, goes))
  {
    TextIsFree(ls[0]);
    if |ls| == 1 {
      IndexNone(ls[0].text, CRLF);
      OutputOfLast(ls[0], goes);
    } else if ls[0].crlf {
      OutputIsSieve(ls[1..], IsProxyConnection(ls[1].text));
      OutputOfNewPiece(ls, goes);
    } else {
      OutputIsSieve(ls[1..], goes);
      OutputOfSamePiece(ls, goes);
    }
  }

  lemma OutputOfLast(l: Line, goes: bool)
    requires l.crlf
    ensures Output([l.text], goes) == WrittenAll(Sieve([l], goes))
  {
    assert Sieve([l], goes) == if goes then [] else [l];
    assert FlatMap(Written, [l]) == Written(l) + [];
  }

  lemma OutputOfNewPiece(ls: seq<Line>, goes: bool)
    requires |ls| > 1 && AreLines(ls) && ls[|ls| - 1].crlf && ls[0].crlf
    requires var next := IsProxyConnection(ls[1].text);
      Output(Split(Body(ls[1..])), next) == WrittenAll(Sieve(ls[1..], next))
    ensures Output(Split(Body(ls)), goes) == WrittenAll(Sieve(ls, goes))
  {
    var next, pieces := IsProxyConnection(ls[1].text), Split(Body(ls[1..]));
    TextIsFree(ls[0]);
    SplitFirst(ls[0].text, Body(ls[1..]));
    assert Split(Body(ls)) == [ls[0].text] + pieces && ([ls[0].text] + pieces)[1..] == pieces;
    FirstPieceGoes(ls[1..]);
    OutputOfAll(pieces);
    FlatMapConcat(Written, if goes then [] else [ls[0]], Sieve(ls[1..], next));
    assert FlatMap(Written, [ls[0]]) == Written(ls[0]) + [];
  }

  lemma OutputOfSamePiece(ls: seq<Line>, goes: bool)
    requires |ls| > 1 && AreLines(ls) && ls[|ls| - 1].crlf && !ls[0].crlf
    requires Output(Split(Body(ls[1..])), goes) == WrittenAll(Sieve(ls[1..], goes))
    ensures Output(Split(Body(ls)), goes) == WrittenAll(Sieve(ls, goes))
  {
    SplitPrepend(ls[0].text, Body(ls[1..]));
    OutputPrepend(Written(ls[0]), Split(Body(ls[1..])), goes);
    SievePrepend(ls, goes);
  }

  lemma OutputPrepend(x: Text, pieces: seq<Text>, goes: bool)
    requires pieces != []
    ensures Output([x + pieces[0]] + pieces[1..], goes) == (if goes then [] else x) + Output(pieces, goes)
  {
    assert ([x + pieces[0]] + pieces[1..])[1..] == pieces[1..];
    assert Terminated(x + pieces[0]) == x + Terminated(pieces[0]);
  }

  lemma SievePrepend(ls: seq<Line>, goes: bool)
    requires |ls| > 1 && !ls[0].crlf
    ensures WrittenAll(Sieve(ls, goes)) == (if goes then [] else Written(ls[0])) + WrittenAll(Sieve(ls[1..], goes))
  {
    if goes {
      assert Sieve(ls, goes) == Sieve(ls[1..], goes);
    } else {
      WrittenCons(ls[0], Sieve(ls[1..], goes));
    }
  }

  // ----- the end of the block -----

  /** The last line and the blank line both end in CRLF. */
  predicate EndsWithCrlfs(ls: seq<Line>)
    requires |ls| > 1
  {
    ls[|ls| - 2].crlf && ls[|ls| - 1].crlf
  }

  // CRLFCRLF stands at the end of the block or nowhere.
  lemma {:induction false} OnlyAtTheEnd(ls: seq<Line>, j: nat)
    requires IsBlock(ls) && |ls| > 1 && OccursAt(WrittenAll(ls), CRLF2, j)
    ensures EndsWithCrlfs(ls) && j == |WrittenAll(ls)| - 4
  {
    var w, more := Written(ls[0]), WrittenAll(ls[1..]);
    assert WrittenAll(ls) == w + more;
    TailIsBlock(ls);
    CrlfAt(w + more, j);
    if j >= |w| {
      OccursShift(w, more, CRLF2, j - |w|);
      if |ls| == 2 {
        ShortBlock(ls[1..]);
        assert false;
      } else {
        OnlyAtTheEnd(ls[1..], j - |w|);
      }
    } else {
      LineFeedIsLast(ls[0], j, more);
      OccursShift(w, more, CRLF, 0);
      StartsBlank(ls[1..]);
    }
  }

  lemma ShortBlock(ls: seq<Line>)
    requires |ls| == 1 && ls[0].text == []
    ensures |WrittenAll(ls)| == |Written(ls[0])| <= 2
  {
    assert ls == [ls[0]] && ls[1..] == [];
    WrittenCons(ls[0], []);
  }

  lemma LineFeedIsLast(l: Line, j: nat, more: Text)
    requires IsLine(l) && j < |Written(l)| && OccursAt(Written(l) + more, CRLF, j)
    ensures j + 2 == |Written(l)| && l.crlf
  {
    var w := Written(l);
    forall k | 0 <= k < |l.text| ensures (w + more)[k] != LF {
      assert l.text[k] in l.text;
    }
    CrlfAt(w + more, j);
    assert j + 1 < |w|;
  }

  lemma StartsBlank(ls: seq<Line>)
    requires IsBlock(ls) && OccursAt(WrittenAll(ls), CRLF, 0)
    ensures |ls| == 1 && ls[0].crlf && |WrittenAll(ls)| == 2
  {
    var w, more := Written(ls[0]), WrittenAll(ls[1..]);
    assert WrittenAll(ls) == w + more;
    LineFeedIsLast(ls[0], 0, more);
    if |ls| > 1 {
      TailIsBlock(ls);
      assert false;
    }
    ShortBlock(ls);
  }

  /** The block before the blank line is what Tidy splits, or else the whole of it. */
  lemma HeadIsBody(ls: seq<Line>)
    requires IsBlock(ls) && |ls| > 1
    ensures EndsWithCrlfs(ls) ==> Index(WrittenAll(ls), CRLF2).Some? && Head(WrittenAll(ls)) == Body(ls[..|ls| - 1])
    ensures !EndsWithCrlfs(ls) ==> Index(WrittenAll(ls), CRLF2).None? && Head(WrittenAll(ls)) == WrittenAll(ls)
  {
    var raw, content := WrittenAll(ls), ls[..|ls| - 1];
    IndexFromIsFirst(raw, CRLF2, 0);
    if EndsWithCrlfs(ls) {
      assert ls == content + [ls[|ls| - 1]];
      FlatMapSnoc(Written, content, ls[|ls| - 1]);
      BodyIsWritten(content);
      var n := |Body(content)|;
      assert OccursAt(raw, CRLF2, n) && raw[..n] == Body(content);
    }
    if Index(raw, CRLF2).Some? {
      OnlyAtTheEnd(ls, Index(raw, CRLF2).value);
    }
  }

  const EMPTY_LINE := Line([], true)

  // What follows the lines when Tidy splits: nothing, or the blank line and an empty piece.
  function Tail(ls: seq<Line>): seq<Line>
    requires |ls| > 1
  {
    if EndsWithCrlfs(ls) then [] else [ls[|ls| - 1], EMPTY_LINE]
  }

  lemma SplitLines(ls: seq<Line>)
    requires IsBlock(ls) && |ls| > 1
    ensures var all := ls[..|ls| - 1] + Tail(ls);
      all != [] && AreLines(all) && all[|all| - 1].crlf && Head(WrittenAll(ls)) == Body(all)
  {
    HeadIsBody(ls);
    var content := ls[..|ls| - 1];
    if EndsWithCrlfs(ls) {
      assert content + [] == content;
    } else {
      assert ls == content + [ls[|ls| - 1]];
      assert content + Tail(ls) == ls + [EMPTY_LINE];
      FlatMapSnoc(Written, ls, EMPTY_LINE);
      BodyIsWritten(ls + [EMPTY_LINE]);
      SameFront(Body(ls + [EMPTY_LINE]), WrittenAll(ls));
    }
  }

  lemma SameFront(x: Text, y: Text)
    requires x + CRLF == y + CRLF
    ensures x == y
  {
    assert x == (x + CRLF)[..|x|] && y == (y + CRLF)[..|y|];
  }

  // ----- Tidy on lines -----

  // The rebuilt request line, unless it is dropped.
  function First(requestLine: Text): seq<Line> {
    if IsProxyConnection(requestLine) then [] else [Line(requestLine, true)]
  }

  function Survivors(ls: seq<Line>, requestLine: Text): seq<Line>
    requires |ls| > 1
  {
    First(requestLine) + Sieve(ls[..|ls| - 1], true)
  }

  // What is left of the tail.
  function Remains(ls: seq<Line>): seq<Line>
    requires |ls| > 1
  {
    if EndsWithCrlfs(ls) then []
    else Sieve(Tail(ls), GoesAfter(ls[..|ls| - 1], true, ls[|ls| - 1]))
  }

  /** Tidy writes the surviving lines, what is left of the end, and an empty line. */
  lemma TidiedLines(ls: seq<Line>, requestLine: Text)
    requires IsBlock(ls) && |ls| > 1
    ensures Tidied(WrittenAll(ls), requestLine)
         == WrittenAll(Survivors(ls, requestLine) + (Remains(ls) + [EMPTY_LINE]))
  {
    var content := ls[..|ls| - 1];
    var all := content + Tail(ls);
    SplitLines(ls);
    OutputIsSieve(all, true);
    if EndsWithCrlfs(ls) {
      assert content + [] == content;
      assert Sieve(content, true) + [] == Sieve(content, true);
    } else {
      SieveConcat(content, true, Tail(ls));
    }
    assert Sieve(all, true) == Sieve(content, true) + Remains(ls);
    TidiedOutput(Split(Body(all)), requestLine);
    WrittenInOrder(First(requestLine), Sieve(content, true), Remains(ls));
  }

  lemma TidiedOutput(pieces: seq<Text>, requestLine: Text)
    requires pieces != []
    ensures Render(Kept([requestLine] + pieces[1..])) == WrittenAll(First(requestLine)) + Output(pieces, true) + CRLF
  {
    KeptOfFirst(requestLine, pieces[1..]);
    FlatMapConcat(Terminated, Kept([requestLine]), Kept(pieces[1..]));
    assert Output(pieces, true) == FlatMap(Terminated, Kept(pieces[1..]));
    FirstWritten(requestLine);
  }

  lemma FirstWritten(requestLine: Text)
    ensures WrittenAll(First(requestLine)) == FlatMap(Terminated, Kept([requestLine]))
  {
    KeptOfFirst(requestLine, []);
    if !IsProxyConnection(requestLine) {
      assert FlatMap(Terminated, [requestLine]) == Terminated(requestLine) + [];
      assert First(requestLine) == [Line(requestLine, true)] + [];
      WrittenCons(Line(requestLine, true), []);
    }
  }

  lemma WrittenInOrder(x: seq<Line>, y: seq<Line>, z: seq<Line>)
    ensures WrittenAll(x) + WrittenAll(y + z) + CRLF == WrittenAll((x + y) + (z + [EMPTY_LINE]))
  {
    FlatMapConcat(Written, x, y + z);
    FlatMapSnoc(Written, x + (y + z), EMPTY_LINE);
    assert x + (y + z) + [EMPTY_LINE] == (x + y) + (z + [EMPTY_LINE]);
  }

  // ----- what is read back -----

  /** Reading t as the program reads a request gives lines with these texts and the blank line. */
  predicate ReadsBackAs(t: Text, texts: seq<Text>) {
    BlockEnd(t, 0).Some? && Texts(BlockLines(t, 0)) == texts + [EMPTY]
  }

  // The request line is always replaced, so it counts as a line that goes.
  predicate Goes(content: seq<Line>, i: nat)
    requires i < |content|
  {
    i == 0 || IsProxyConnection(content[i].text)
  }

  /** No bare LF stands between a line that is to go and one that is to stay; in particular none
      stands between the request line and a line that is to stay. */
  predicate BareLfsDoNoHarm(content: seq<Line>) {
    forall i | 0 <= i < |content| - 1 :: content[i].crlf || Goes(content, i) == Goes(content, i + 1)
  }

  /** The last line and the blank line both end in CRLF, or in a bare LF and the last line goes. */
  predicate BlankLineIsClean(ls: seq<Line>)
    requires |ls| > 1
  {
    var n := |ls| - 2;
    EndsWithCrlfs(ls) || (!ls[n].crlf && !ls[n + 1].crlf && Goes(ls[..n + 1], n))
  }

  /** The header lines of a block, between request line and blank line. */
  function HeaderLines(raw: Text): seq<Line>
    requires BlockEnd(raw, 0).Some? && |BlockLines(raw, 0)| > 1
  {
    var ls := BlockLines(raw, 0);
    ls[1..|ls| - 1]
  }

  lemma SurvivorsIff(content: seq<Line>)
    requires content != []
    ensures Texts(Sieve(content, true)) == Texts(Others(content[1..])) <==> BareLfsDoNoHarm(content)
  {
    if |content| == 1 {
      assert content[1..] == [];
    } else {
      var goes := NextGoes(content[0], true, content[1]);
      assert Sieve(content, true) == Sieve(content[1..], goes);
      SieveKeepsOthersIff(content[1..], goes);
      HarmIsDisagreement(content, goes);
    }
  }

  lemma HarmIsDisagreement(content: seq<Line>, goes: bool)
    requires |content| > 1 && goes == NextGoes(content[0], true, content[1])
    ensures BareLfsDoNoHarm(content) <==> goes == IsProxyConnection(content[1].text) && PiecesAgree(content[1..])
  {
    if BareLfsDoNoHarm(content) {
      assert content[0].crlf || Goes(content, 0) == Goes(content, 0 + 1);
      forall i | 0 <= i < |content[1..]| - 1
        ensures content[1..][i].crlf
             || IsProxyConnection(content[1..][i].text) == IsProxyConnection(content[1..][i + 1].text)
      {
        assert content[i + 1].crlf || Goes(content, i + 1) == Goes(content, i + 1 + 1);
      }
    }
    if goes == IsProxyConnection(content[1].text) && PiecesAgree(content[1..]) {
      forall i | 0 <= i < |content| - 1 ensures content[i].crlf || Goes(content, i) == Goes(content, i + 1) {
        if i > 0 {
          assert content[1..][i - 1] == content[i] && content[1..][i] == content[i + 1];
        }
      }
    }
  }

  lemma RemainsIff(ls: seq<Line>)
    requires IsBlock(ls) && |ls| > 1 && BareLfsDoNoHarm(ls[..|ls| - 1])
    ensures Remains(ls) == [] <==> BlankLineIsClean(ls)
  {
    var content, blank := ls[..|ls| - 1], ls[|ls| - 1];
    if !EndsWithCrlfs(ls) {
      BlankGoesIff(content, blank);
      TailSieve(blank, GoesAfter(content, true, blank));
    }
  }

  lemma BlankGoesIff(content: seq<Line>, blank: Line)
    requires content != [] && BareLfsDoNoHarm(content) && blank.text == []
    ensures var n := |content| - 1;
      GoesAfter(content, true, blank) <==> !content[n].crlf && Goes(content, n)
  {
    if |content| > 1 {
      var goes := NextGoes(content[0], true, content[1]);
      HarmIsDisagreement(content, goes);
      GoesAfterAgreeing(content[1..], goes, blank);
    }
  }

  lemma TailSieve(blank: Line, goes: bool)
    requires blank.text == []
    ensures Sieve([blank, EMPTY_LINE], goes) == [] <==> goes && !blank.crlf
    ensures Sieve([blank, EMPTY_LINE], goes) != [] ==> Sieve([blank, EMPTY_LINE], goes)[0].text == []
  {
    assert [blank, EMPTY_LINE][1..] == [EMPTY_LINE];
  }

  // The survivors are read back, with the first empty line after them.
  lemma SurvivorsReadBack(t: Text, front: seq<Line>, rest: seq<Line>)
    requires AreLines(front) && NoneBlank(front)
    requires rest != [] && IsLine(rest[0]) && rest[0].text == [] && t == WrittenAll(front + rest)
    ensures BlockEnd(t, 0).Some? && Texts(BlockLines(t, 0)) == Texts(front) + [EMPTY]
    ensures BlockEnd(t, 0) == Some(|t|) <==> |rest| == 1
  {
    var block := front + [rest[0]];
    SurvivorsAreBlock(front, rest[0]);
    FrontAndRest(front, rest);
    BlockIsReadBack(t, 0, |WrittenAll(block)|, block);
  }

  lemma SurvivorsAreBlock(front: seq<Line>, blank: Line)
    requires AreLines(front) && NoneBlank(front) && IsLine(blank) && blank.text == []
    ensures IsBlock(front + [blank]) && Texts(front + [blank]) == Texts(front) + [EMPTY]
  {
    assert (front + [blank])[..|front|] == front;
  }

  lemma FrontAndRest(front: seq<Line>, rest: seq<Line>)
    requires rest != []
    ensures var x, all := WrittenAll(front + [rest[0]]), WrittenAll(front + rest);
      |x| <= |all| && all[0..|x|] == x && (|x| == |all| <==> |rest| == 1)
  {
    assert front + rest == (front + [rest[0]]) + rest[1..];
    FlatMapConcat(Written, front + [rest[0]], rest[1..]);
    if |rest| > 1 {
      WrittenCons(rest[1], rest[2..]);
      assert rest[1..] == [rest[1]] + rest[2..];
    }
  }

  lemma SieveIsContent(content: seq<Line>, goes: bool)
    requires AreLines(content) && NoneBlank(content)
    ensures AreLines(Sieve(content, goes)) && NoneBlank(Sieve(content, goes))
  {
    SieveSelects(content, goes);
    forall i | 0 <= i < |Sieve(content, goes)|
      ensures IsLine(Sieve(content, goes)[i]) && Sieve(content, goes)[i].text != []
    {
      assert Sieve(content, goes)[i] in Sieve(content, goes);
    }
  }

  // What the tidied block gives when it is read, for a request line in one line.
  lemma TidiedReadBack(ls: seq<Line>, requestLine: Text)
    requires IsBlock(ls) && |ls| > 1 && requestLine != [] && LF !in requestLine
    ensures var t := Tidied(WrittenAll(ls), requestLine);
      && BlockEnd(t, 0).Some? && Texts(BlockLines(t, 0)) == Texts(Survivors(ls, requestLine)) + [EMPTY]
      && (BlockEnd(t, 0) == Some(|t|) <==> Remains(ls) == [])
  {
    var content := ls[..|ls| - 1];
    TidiedLines(ls, requestLine);
    SieveIsContent(content, true);
    TailSieve(ls[|ls| - 1], GoesAfter(content, true, ls[|ls| - 1]));
    SurvivorsReadBack(Tidied(WrittenAll(ls), requestLine), Survivors(ls, requestLine), Remains(ls) + [EMPTY_LINE]);
  }

  lemma RightLinesIff(ls: seq<Line>, requestLine: Text)
    requires |ls| > 1 && requestLine != []
    ensures var content := ls[..|ls| - 1];
      Texts(Survivors(ls, requestLine)) == [requestLine] + Texts(Others(content[1..])) <==>
        !IsProxyConnection(requestLine) && BareLfsDoNoHarm(content)
  {
    var content := ls[..|ls| - 1];
    if IsProxyConnection(requestLine) {
      DroppedLineIsMissing(content, requestLine, Texts(Others(content[1..])));
      assert Survivors(ls, requestLine) == Sieve(content, true);
    } else {
      SurvivorsIff(content);
      SameBehind(requestLine, Sieve(content, true), Texts(Others(content[1..])));
    }
  }

  lemma DroppedLineIsMissing(content: seq<Line>, requestLine: Text, texts: seq<Text>)
    requires IsProxyConnection(requestLine)
    ensures Texts(Sieve(content, true)) != [requestLine] + texts
  {
    var s := Sieve(content, true);
    if s != [] {
      FirstSurvivor(content);
      assert Texts(s)[0] != requestLine == ([requestLine] + texts)[0];
    }
  }

  lemma SameBehind(requestLine: Text, s: seq<Line>, texts: seq<Text>)
    ensures Texts([Line(requestLine, true)] + s) == [requestLine] + texts <==> Texts(s) == texts
  {
    assert Texts([Line(requestLine, true)] + s) == [requestLine] + Texts(s);
    assert Texts(s) == ([requestLine] + Texts(s))[1..] && texts == ([requestLine] + texts)[1..];
  }

  // A line that is read holds no LF.
  lemma LinesHoldNoLf(t: Text, texts: seq<Text>)
    requires ReadsBackAs(t, texts)
    ensures forall x | x in texts :: LF !in x
  {
    BlockLinesAreTheBlock(t, 0);
    var ls := BlockLines(t, 0);
    forall x | x in texts ensures LF !in x {
      var i :| 0 <= i < |texts| && texts[i] == x;
      assert Texts(ls)[i] == (texts + [EMPTY])[i] == x && IsLine(ls[i]);
    }
  }

  /** For every block that the reading loop returns and that has a request line (the parser refuses a
      block that begins with its blank line): the tidied text is read back as the new request
      line and exactly the header lines that do not start with Proxy-Connection, in order, if and
      only if the new request line is one line and is not itself dropped, and no bare LF does harm.
      And the text ends with the blank line that is read if and only if, besides, the line ends at
      the old one were in order. */
  lemma TidyKeepsTheOtherLines(raw: Text, requestLine: Text)
    requires BlockEnd(raw, 0) == Some(|raw|) && |BlockLines(raw, 0)| > 1 && requestLine != []
    ensures var t, ls := Tidied(raw, requestLine), BlockLines(raw, 0);
      var right := ReadsBackAs(t, [requestLine] + Texts(Others(HeaderLines(raw))));
      var kept := LF !in requestLine && !IsProxyConnection(requestLine) && BareLfsDoNoHarm(ls[..|ls| - 1]);
      && (right <==> kept)
      && (right && BlockEnd(t, 0) == Some(|t|) <==> kept && BlankLineIsClean(ls))
  {
    var t, ls := Tidied(raw, requestLine), BlockLines(raw, 0);
    var texts := [requestLine] + Texts(Others(HeaderLines(raw)));
    BlockLinesAreTheBlock(raw, 0);
    assert raw[0..|raw|] == raw;
    if LF in requestLine {
      assert requestLine == texts[0] && requestLine in texts;
      if ReadsBackAs(t, texts) {
        LinesHoldNoLf(t, texts);
        assert false;
      }
    } else {
      TidiedReadBack(ls, requestLine);
      RightLinesIff(ls, requestLine);
      assert ls[..|ls| - 1][1..] == HeaderLines(raw);
      SameButLast(Texts(Survivors(ls, requestLine)), texts);
      if BareLfsDoNoHarm(ls[..|ls| - 1]) {
        RemainsIff(ls);
      }
    }
  }

  lemma SameButLast(x: seq<Text>, y: seq<Text>)
    ensures x + [EMPTY] == y + [EMPTY] <==> x == y
  {
    assert x == (x + [EMPTY])[..|x|] && y == (y + [EMPTY])[..|y|];
  }

  // ----- a condition on the bytes -----

  /** Before every LF stands a CR. */
  predicate NoBareLf(raw: Text) {
    forall i | 0 <= i < |raw| && raw[i] == LF :: i > 0 && raw[i - 1] == CR
  }

  lemma FirstEndsInCrlf(l: Line, more: Text)
    requires IsLine(l) && NoBareLf(Written(l) + more)
    ensures l.crlf && NoBareLf(more)
  {
    var w := Written(l);
    var s := w + more;
    assert s[|w| - 1] == LF && (|w| > 1 ==> s[|w| - 2] == w[|w| - 2]);
    forall i | 0 <= i < |more| && more[i] == LF ensures i > 0 && more[i - 1] == CR {
      assert s[|w| + i] == LF && s[|w| + i - 1] == CR;
    }
  }

  lemma {:induction false} AllEndInCrlf(ls: seq<Line>)
    requires AreLines(ls) && NoBareLf(WrittenAll(ls))
    ensures forall i | 0 <= i < |ls| :: ls[i].crlf
  {
    if ls != [] {
      FirstEndsInCrlf(ls[0], WrittenAll(ls[1..]));
      AllEndInCrlf(ls[1..]);
      forall i | 0 <= i < |ls| ensures ls[i].crlf {
        assert i > 0 ==> ls[i] == ls[1..][i - 1];
      }
    }
  }

  /** A block without bare LFs is tidied as it should be. */
  lemma TidyIsRightWithoutBareLf(raw: Text, requestLine: Text)
    requires BlockEnd(raw, 0) == Some(|raw|) && |BlockLines(raw, 0)| > 1 && requestLine != []
    requires NoBareLf(raw) && LF !in requestLine && !IsProxyConnection(requestLine)
    ensures var t := Tidied(raw, requestLine);
      && ReadsBackAs(t, [requestLine] + Texts(Others(HeaderLines(raw))))
      && BlockEnd(t, 0) == Some(|t|)
  {
    BlockLinesAreTheBlock(raw, 0);
    assert raw[0..|raw|] == raw;
    AllEndInCrlf(BlockLines(raw, 0));
    TidyKeepsTheOtherLines(raw, requestLine);
  }

  /** Of the blocks that are read, those properly ended in the sense of TidyIdempotentIff are all but
      the ones with a CRLF after a bare LF at their end. */
  lemma EndsProperlyIff(raw: Text)
    requires BlockEnd(raw, 0) == Some(|raw|) && |BlockLines(raw, 0)| > 1
    ensures var ls := BlockLines(raw, 0);
      EndsProperly(raw) <==> ls[|ls| - 2].crlf || !ls[|ls| - 1].crlf
  {
    var ls := BlockLines(raw, 0);
    BlockLinesAreTheBlock(raw, 0);
    assert raw[0..|raw|] == raw;
    HeadIsBody(ls);
    LastLineEnd(ls);
  }

  lemma WrittenLast(ls: seq<Line>)
    requires ls != []
    ensures WrittenAll(ls) == WrittenAll(ls[..|ls| - 1]) + Written(ls[|ls| - 1])
  {
    assert ls == ls[..|ls| - 1] + [ls[|ls| - 1]];
    FlatMapSnoc(Written, ls[..|ls| - 1], ls[|ls| - 1]);
  }

  lemma LastLineEnd(ls: seq<Line>)
    requires IsBlock(ls) && |ls| > 1
    ensures EndsWithCrlf(WrittenAll(ls)) <==> ls[|ls| - 1].crlf
  {
    var raw, front := WrittenAll(ls), WrittenAll(ls[..|ls| - 1]);
    WrittenLast(ls);
    WrittenLast(ls[..|ls| - 1]);
    assert front[|front| - 1] == LF;
    CrlfAt(raw, |raw| - 2);
    if !ls[|ls| - 1].crlf {
      assert raw == front + [LF] && raw[|raw| - 2] == LF;
    }
  }

  // ----- blocks that go wrong -----

  // "GET", "/" and "HTTP/1.1"
  const GET: Text := [0x47, 0x45, 0x54]
  const ROOT: Text := [0x2F]
  const HTTP_1_1: Text := [0x48, 0x54, 0x54, 0x50, 0x2F, 0x31, 0x2E, 0x31]
  // "/%0D%0AB", which is decoded to "/", CR, LF, "B"
  const ESCAPED: Text := [0x2F, 0x25, 0x30, 0x44, 0x25, 0x30, 0x41, 0x42]
  const DECODED: Text := [0x2F, 0x0D, 0x0A, 0x42]
  // "Host: a"
  const HOST: Text := [0x48, 0x6F, 0x73, 0x74, 0x3A, 0x20, 0x61]

  lemma ExamplesAreTheirTexts()
    ensures GET == Ascii("GET") && ROOT == Ascii("/") && HTTP_1_1 == Ascii("HTTP/1.1")
    ensures ESCAPED == Ascii("/%0D%0AB") && DECODED == Ascii("/\r\nB") && HOST == Ascii("Host: a")
  {
  }

  // A text in one line, without CR.
  predicate Plain(text: Text) {
    text != [] && CR !in text && LF !in text
  }

  lemma RequestLineIsPlain(meth: Text, path: Text, version: Text)
    requires Plain(meth) && Plain(path) && Plain(version)
    ensures Plain(RequestLine(meth, path, version))
    ensures IsProxyConnection(RequestLine(meth, path, version)) ==> meth[0] == PROXY_CONNECTION[0]
  {
    var r := RequestLine(meth, path, version);
    assert r[0] == meth[0];
    assert IsProxyConnection(r) ==> r[..|PROXY_CONNECTION|][0] == PROXY_CONNECTION[0];
  }

  lemma WrittenTwo(a: Line, b: Line)
    ensures WrittenAll([a, b]) == Written(a) + Written(b)
  {
    WrittenCons(b, []);
    WrittenCons(a, [b]);
    assert [b] + [] == [b] && [a] + [b] == [a, b];
  }

  // A request line and a blank line.
  lemma BareRequest(line: Text, crlf: bool)
    requires Plain(line)
    ensures var raw := Written(Line(line, crlf)) + CRLF;
      BlockEnd(raw, 0) == Some(|raw|) && |BlockLines(raw, 0)| == 2 && (EndsProperly(raw) <==> crlf)
  {
    var ls := [Line(line, crlf), EMPTY_LINE];
    var raw := Written(Line(line, crlf)) + CRLF;
    PlainIsLine(line);
    WrittenTwo(ls[0], ls[1]);
    assert raw == WrittenAll(ls) == raw[0..|raw|];
    BlockIsReadBack(raw, 0, |raw|, ls);
    EndsProperlyIff(raw);
  }

  /** "GET /%0D%0AB HTTP/1.1" and an empty line: the decoded path puts a CRLF into the rebuilt request
      line, and tidying twice adds a line. */
  lemma CrlfInPathSpoils()
    ensures var raw, r := RequestLine(GET, ESCAPED, HTTP_1_1) + CRLF + CRLF, RequestLine(GET, DECODED, HTTP_1_1);
      && BlockEnd(raw, 0) == Some(|raw|) && EndsProperly(raw) && !IsProxyConnection(r)
      && Tidied(Tidied(raw, r), r) != Tidied(raw, r)
  {
    var line, r := RequestLine(GET, ESCAPED, HTTP_1_1), RequestLine(GET, DECODED, HTTP_1_1);
    RequestLineIsPlain(GET, ESCAPED, HTTP_1_1);
    BareRequest(line, true);
    assert Written(Line(line, true)) + CRLF == line + CRLF + CRLF;
    DecodedHasTwoLines(r);
    TidyIdempotentIff(line + CRLF + CRLF, GET, DECODED, HTTP_1_1);
  }

  lemma DecodedHasTwoLines(r: Text)
    requires r == RequestLine(GET, DECODED, HTTP_1_1)
    ensures Index(r, CRLF2).None? && Kept(OtherPieces(r)) != [] && !IsProxyConnection(r)
  {
    var first, second: Text := GET + [SPACE, 0x2F], [0x42, SPACE] + HTTP_1_1;
    assert r == first + CRLF + second;
    TwoLines(first, second);
    assert second[0] == 0x42 != PROXY_CONNECTION[0] && r[0] == 0x47 != PROXY_CONNECTION[0];
    OtherFirstByte(second);
    OtherFirstByte(r);
  }

  lemma OtherFirstByte(s: Text)
    requires s != [] && s[0] != PROXY_CONNECTION[0]
    ensures !IsProxyConnection(s) && Kept([s]) == [s]
  {
    if |s| >= |PROXY_CONNECTION| {
      assert s[..|PROXY_CONNECTION|][0] == s[0];
    }
  }

  /** "Proxy-Connection / HTTP/1.1" and an empty line, whose method is a valid token: the request line
      is dropped itself, and tidying twice drops the line after it, too. */
  lemma DroppedRequestLineSpoils()
    ensures var r := RequestLine(PROXY_CONNECTION, ROOT, HTTP_1_1);
      var raw := r + CRLF + CRLF;
      && BlockEnd(raw, 0) == Some(|raw|) && EndsProperly(raw) && IsProxyConnection(r)
      && Tidied(Tidied(raw, r), r) != Tidied(raw, r)
  {
    var r := RequestLine(PROXY_CONNECTION, ROOT, HTTP_1_1);
    RequestLineIsPlain(PROXY_CONNECTION, ROOT, HTTP_1_1);
    BareRequest(r, true);
    assert Written(Line(r, true)) + CRLF == r + CRLF + CRLF;
    assert r[..|PROXY_CONNECTION|] == PROXY_CONNECTION;
    TidyIdempotentIff(r + CRLF + CRLF, PROXY_CONNECTION, ROOT, HTTP_1_1);
  }

  /** "GET / HTTP/1.1", LF and CRLF: the block does not end properly, and tidying twice takes back the
      CRLF that tidying once adds behind the blank line. */
  lemma BareLfBeforeEndSpoils()
    ensures var r := RequestLine(GET, ROOT, HTTP_1_1);
      var raw := r + [LF] + CRLF;
      && BlockEnd(raw, 0) == Some(|raw|) && !EndsProperly(raw) && !IsProxyConnection(r)
      && Tidied(Tidied(raw, r), r) != Tidied(raw, r)
  {
    var r := RequestLine(GET, ROOT, HTTP_1_1);
    RequestLineIsPlain(GET, ROOT, HTTP_1_1);
    BareRequest(r, false);
    TidyIdempotentIff(r + [LF] + CRLF, GET, ROOT, HTTP_1_1);
  }

  // Two lines and a blank one, all ended by a bare LF.
  lemma BareLfsOnly(first: Text, second: Text)
    requires Plain(first) && Plain(second)
    ensures var raw := first + [LF] + second + [LF] + [LF];
      && BlockEnd(raw, 0) == Some(|raw|)
      && BlockLines(raw, 0) == [Line(first, false), Line(second, false), Line([], false)]
  {
    var ls := [Line(first, false), Line(second, false), Line([], false)];
    var raw := first + [LF] + second + [LF] + [LF];
    WrittenThree(ls[0], ls[1], ls[2]);
    assert WrittenAll(ls) == raw == raw[0..|raw|];
    PlainIsLine(first);
    PlainIsLine(second);
    BlockIsReadBack(raw, 0, |raw|, ls);
  }

  lemma PlainIsLine(text: Text)
    requires Plain(text)
    ensures IsLine(Line(text, false)) && IsLine(Line(text, true))
  {
    assert text[|text| - 1] in text;
  }

  lemma WrittenThree(a: Line, b: Line, c: Line)
    ensures WrittenAll([a, b, c]) == Written(a) + Written(b) + Written(c)
  {
    WrittenTwo(b, c);
    WrittenCons(a, [b, c]);
    assert [a, b, c] == [a] + [b, c];
  }

  lemma TidiedOnePiece(raw: Text, requestLine: Text)
    requires CR !in raw && !IsProxyConnection(requestLine)
    ensures EndsProperly(raw) && Tidied(raw, requestLine) == requestLine + CRLF2
  {
    CrFree(raw);
    IndexNone(raw, CRLF);
    forall i | 0 <= i <= |raw| ensures !OccursAt(raw, CRLF2, i) {
      CrlfAt(raw, i);
    }
    IndexNone(raw, CRLF2);
    KeptCons(requestLine, []);
    assert Kept([requestLine] + OtherPieces(raw)) == [requestLine] + [];
    RenderCons(requestLine, []);
    assert requestLine + CRLF + CRLF == requestLine + CRLF2;
  }

  /** "GET / HTTP/1.1", LF, "Host: a", LF, LF is a block that is read, and properly ended; Tidy loses
      its Host line, whatever the request line. */
  lemma BareLfLosesHost(requestLine: Text)
    requires !IsProxyConnection(requestLine)
    ensures var raw := RequestLine(GET, ROOT, HTTP_1_1) + [LF] + HOST + [LF] + [LF];
      && BlockEnd(raw, 0) == Some(|raw|) && EndsProperly(raw)
      && HeaderLines(raw) == Others(HeaderLines(raw)) == [Line(HOST, false)]
      && Tidied(raw, requestLine) == requestLine + CRLF2
  {
    var first := RequestLine(GET, ROOT, HTTP_1_1);
    var raw := first + [LF] + HOST + [LF] + [LF];
    RequestLineIsPlain(GET, ROOT, HTTP_1_1);
    BareLfsOnly(first, HOST);
    assert CR !in raw;
    TidiedOnePiece(raw, requestLine);
    assert HeaderLines(raw) == [Line(HOST, false)];
    OtherFirstByte(HOST);
    AllOthers([Line(HOST, false)]);
  }
}
