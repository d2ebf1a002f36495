/** The comparison operators.  A longer vector counts as greater; vectors of
    the same length are compared word by word from the most significant
    word down.  The order agrees with the numeric order exactly when the
    lengths agree or both vectors are normalized. */
module Compare {
  import opened Bits
  import opened Words

  /** What a top-down scan of two equal-length vectors found. */
  datatype Order = Below | Same | Above

  /** Scan words i-1 down to 0; the first word that differs decides.  The
      source counts an unsigned index down to zero; the scan here stops
      after word 0, which is what the loop is evidently meant to do. */
  function ScanDown(x: seq<Word>, y: seq<Word>, i: nat): (r: Order)
    requires |x| == |y| && i <= |x|
    ensures r == Above <==> Val(x[..i]) > Val(y[..i])
    ensures r == Below <==> Val(x[..i]) < Val(y[..i])
    ensures r == Same <==> x[..i] == y[..i]
    decreases i
  {
    if i == 0 then Same
    else if x[i - 1] > y[i - 1] then TopDecides(x, y, i); Above
    else if x[i - 1] < y[i - 1] then TopDecides(y, x, i); Below
    else
      var r := ScanDown(x, y, i - 1);
      TopTies(x, y, i);
      if r == Same then ValInjective(x[..i - 1], y[..i - 1]); r
      else r
  }

  /** A larger word at position i-1 decides the comparison of the first i
      words. */
  lemma {:induction false} TopDecides(x: seq<Word>, y: seq<Word>, i: nat)
    requires |x| == |y| && 1 <= i <= |x| && x[i - 1] > y[i - 1]
    ensures Val(x[..i]) > Val(y[..i])
  {
    var a, b := x[..i], y[..i];
    ValTop(a);
    ValTop(b);
    assert a[..i - 1] == x[..i - 1] && b[..i - 1] == y[..i - 1];
    assert a[i - 1] == x[i - 1] && b[i - 1] == y[i - 1];
    ValBound(y[..i - 1]);
    var p: nat, q: nat := x[i - 1], y[i - 1];
    MulMonotone(Base(i - 1), q + 1, p);
    TopArith(Val(a), Val(b), Val(x[..i - 1]), Val(y[..i - 1]), Base(i - 1), p, q);
  }

  /** The arithmetic step of TopDecides. */
  lemma {:induction false} TopArith(va: int, vb: int, la: int, lb: int, w: int, p: int, q: int)
    requires va == la + w * p && vb == lb + w * q
    requires 0 <= la && 0 <= lb < w && w * (q + 1) <= w * p
    ensures va > vb
  {
  }

  /** Equal words at position i-1 leave the comparison to the words below. */
  lemma {:induction false} TopTies(x: seq<Word>, y: seq<Word>, i: nat)
    requires |x| == |y| && 1 <= i <= |x| && x[i - 1] == y[i - 1]
    ensures Val(x[..i]) - Val(y[..i]) == Val(x[..i - 1]) - Val(y[..i - 1])
    ensures x[..i] == y[..i] <==> x[..i - 1] == y[..i - 1]
  {
    var a, b := x[..i], y[..i];
    ValTop(a);
    ValTop(b);
    assert a[..i - 1] == x[..i - 1] && b[..i - 1] == y[..i - 1];
    assert a == x[..i - 1] + [x[i - 1]] && b == y[..i - 1] + [y[i - 1]];
    if a == b {
      assert x[..i - 1] == a[..i - 1];
    }
  }

  /** The numeric order of vectors whose lengths are compared first. */
  lemma {:induction false} LengthDecides(x: seq<Word>, y: seq<Word>)
    requires Normalized(x) && Normalized(y) && |x| > |y|
    ensures Val(x) > Val(y)
  {
    NormalizedLengthOrder(y, x);
  }

  lemma {:induction false} LengthsDiffer(x: seq<Word>, y: seq<Word>)
    requires Normalized(x) && Normalized(y) && |x| != |y|
    ensures Val(x) != Val(y)
  {
    if |x| > |y| {
      LengthDecides(x, y);
    } else {
      LengthDecides(y, x);
    }
  }

  /** operator>(x, y).  Two empty vectors make the source read outside the
      buffer, so equal lengths must be nonzero. */
  function Greater(x: seq<Word>, y: seq<Word>): (r: bool)
    requires |x| == |y| ==> |x| >= 1
    ensures |x| == |y| ==> (r <==> Val(x) > Val(y))
    ensures Normalized(x) && Normalized(y) ==> (r <==> Val(x) > Val(y))
  {
    if |x| > |y| then
      if Normalized(x) && Normalized(y) then LengthDecides(x, y); true else true
    else if |x| < |y| then
      if Normalized(x) && Normalized(y) then LengthDecides(y, x); false else false
    else
      assert x[..|x|] == x && y[..|y|] == y;
      ScanDown(x, y, |x|) == Above
  }

  /** operator>=(x, y): the same scan, with a tie counting as true. */
  function GreaterEq(x: seq<Word>, y: seq<Word>): (r: bool)
    requires |x| == |y| ==> |x| >= 1
    ensures |x| == |y| ==> (r <==> Val(x) >= Val(y))
    ensures Normalized(x) && Normalized(y) ==> (r <==> Val(x) >= Val(y))
  {
    if |x| > |y| then
      if Normalized(x) && Normalized(y) then LengthDecides(x, y); true else true
    else if |x| < |y| then
      if Normalized(x) && Normalized(y) then LengthDecides(y, x); false else false
    else
      assert x[..|x|] == x && y[..|y|] == y;
      ScanDown(x, y, |x|) != Below
  }

  /** operator<(x, y) is y > x. */
  function Less(x: seq<Word>, y: seq<Word>): (r: bool)
    requires |x| == |y| ==> |x| >= 1
    ensures |x| == |y| ==> (r <==> Val(x) < Val(y))
    ensures Normalized(x) && Normalized(y) ==> (r <==> Val(x) < Val(y))
  {
    Greater(y, x)
  }

  /** operator<=(x, y) is y >= x. */
  function LessEq(x: seq<Word>, y: seq<Word>): (r: bool)
    requires |x| == |y| ==> |x| >= 1
    ensures |x| == |y| ==> (r <==> Val(x) <= Val(y))
    ensures Normalized(x) && Normalized(y) ==> (r <==> Val(x) <= Val(y))
  {
    GreaterEq(y, x)
  }

  /** Words i-1 down to 1 agree. */
  function SameDown(x: seq<Word>, y: seq<Word>, i: nat): (r: bool)
    requires |x| == |y| && 1 <= i <= |x|
    ensures r <==> x[1..i] == y[1..i]
    decreases i
  {
    if i == 1 then true
    else
      var r := x[i - 1] == y[i - 1] && SameDown(x, y, i - 1);
      assert x[1..i] == x[1..i - 1] + [x[i - 1]] && y[1..i] == y[1..i - 1] + [y[i - 1]];
      if x[1..i] == y[1..i] then
        assert x[1..i - 1] == x[1..i][..i - 2] && y[1..i - 1] == y[1..i][..i - 2];
        assert x[i - 1] == x[1..i][i - 2] && y[i - 1] == y[1..i][i - 2];
        r
      else r
  }

  /** operator==(x, y): equal lengths, then words from the top down to word 1,
      then word 0.  This is equality of the vectors, which is equality of
      the numbers for normalized vectors. */
  function Equal(x: seq<Word>, y: seq<Word>): (r: bool)
    requires |x| == |y| ==> |x| >= 1
    ensures r <==> x == y
    ensures Normalized(x) && Normalized(y) ==> (r <==> Val(x) == Val(y))
  {
    if |x| != |y| then
      if Normalized(x) && Normalized(y) then LengthsDiffer(x, y); false else false
    else
      var r := SameDown(x, y, |x|) && x[0] == y[0];
      assert x == [x[0]] + x[1..] && y == [y[0]] + y[1..];
      if Normalized(x) && Normalized(y) && Val(x) == Val(y) then NormalizedUnique(x, y); r
      else r
  }

  /** operator!=(x, y). */
  function NotEqual(x: seq<Word>, y: seq<Word>): (r: bool)
    requires |x| == |y| ==> |x| >= 1
    ensures r <==> x != y
  {
    !Equal(x, y)
  }

  /** operator==(x, uint32_t): a single word holding the number. */
  function EqualWord(x: seq<Word>, w: Word): (r: bool)
    ensures r ==> Val(x) == w
    ensures Normalized(x) ==> (r <==> Val(x) == w)
  {
    if |x| == 1 then
      assert Val(x) == x[0] by { assert x[1..] == []; }
      x[0] == w
    else
      if Normalized(x) then WideAboveWord(x); false else false
  }

  /** A normalized vector of two or more words exceeds every word. */
  lemma {:induction false} WideAboveWord(x: seq<Word>)
    requires Normalized(x) && |x| >= 2
    ensures Val(x) >= BASE
  {
    NormalizedLower(x);
    if |x| > 2 {
      BaseStrict(1, |x| - 1);
    }
  }
}
