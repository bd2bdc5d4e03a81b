/** Lexicographic order on integer vectors. */
module LexOrder {
  predicate LexLess(x: seq<int>, y: seq<int>)
    requires |x| == |y|
  {
    |x| > 0 && (x[0] < y[0] || (x[0] == y[0] && LexLess(x[1..], y[1..])))
  }

  lemma LexFrom(x: seq<int>, y: seq<int>, i: nat)
    requires |x| == |y| && i < |x|
    ensures LexLess(x[i..], y[i..]) <==> x[i] < y[i] || (x[i] == y[i] && LexLess(x[i + 1..], y[i + 1..]))
  {
  }

  lemma {:induction false} LexIrreflexive(x: seq<int>)
    ensures !LexLess(x, x)
  {
    if |x| > 0 {
      LexIrreflexive(x[1..]);
    }
  }

  lemma {:induction false} LexTransitive(x: seq<int>, y: seq<int>, z: seq<int>)
    requires |x| == |y| == |z| && LexLess(x, y) && LexLess(y, z)
    ensures LexLess(x, z)
  {
    if x[0] == y[0] == z[0] {
      LexTransitive(x[1..], y[1..], z[1..]);
    }
  }

  lemma {:induction false} LexTotal(x: seq<int>, y: seq<int>)
    requires |x| == |y|
    ensures LexLess(x, y) || LexLess(y, x) || x == y
  {
    if |x| > 0 && x[0] == y[0] {
      LexTotal(x[1..], y[1..]);
      if x[1..] == y[1..] {
        assert x == [x[0]] + x[1..] && y == [y[0]] + y[1..];
      }
    }
  }

  /** The first component in which two vectors differ decides. */
  lemma {:induction false} LexLessIff(x: seq<int>, y: seq<int>)
    requires |x| == |y|
    ensures LexLess(x, y) <==> exists i :: 0 <= i < |x| && x[..i] == y[..i] && x[i] < y[i]
  {
    if i :| 0 <= i < |x| && x[..i] == y[..i] && x[i] < y[i] {
      LexDecided(x, y, i);
    }
    if LexLess(x, y) {
      var i := LexWitness(x, y);
    }
  }

  lemma {:induction false} LexDecided(x: seq<int>, y: seq<int>, i: nat)
    requires |x| == |y| && i < |x| && x[..i] == y[..i] && x[i] < y[i]
    ensures LexLess(x, y)
  {
    if i > 0 {
      assert x[0] == x[..i][0] && y[0] == y[..i][0];
      assert x[1..][..i - 1] == x[..i][1..] && y[1..][..i - 1] == y[..i][1..];
      LexDecided(x[1..], y[1..], i - 1);
    }
  }

  lemma {:induction false} LexWitness(x: seq<int>, y: seq<int>) returns (i: nat)
    requires |x| == |y| && LexLess(x, y)
    ensures i < |x| && x[..i] == y[..i] && x[i] < y[i]
  {
    if x[0] < y[0] {
      i := 0;
    } else {
      var j := LexWitness(x[1..], y[1..]);
      i := j + 1;
      assert x[..i] == [x[0]] + x[1..][..j] && y[..i] == [y[0]] + y[1..][..j];
    }
  }
}
