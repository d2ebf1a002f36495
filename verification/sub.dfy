/** Subtraction: operator-= and operator-.  Subtracting a number at least as
    large as the target leaves zero; otherwise the words are subtracted from
    the least significant up with a one-bit borrow, and the result is
    normalized. */
module Sub {
  import opened Bits
  import opened Words
  import opened Store
  import opened Compare

  /** A borrow as a number. */
  function BorrowVal(b: bool): nat
  {
    if b then 1 else 0
  }

  /** One word of the difference.  An incoming borrow is added to the right
      word first; when that wraps the right word to zero the borrow is passed
      on and the left word is kept.  The word difference wraps modulo 2^32,
      and a left word smaller than the right one raises the borrow. */
  function SubWord(left: Word, right: Word, borrow: bool): (r: (Word, bool))
    ensures r.0 - BASE * BorrowVal(r.1) == left - right - BorrowVal(borrow)
  {
    var right' := if borrow then (right + 1) % BASE else right;
    var passed := borrow && right' == 0;
    var word := (left - right') % BASE;
    (word, if left < right' then true else passed)
  }

  /** The word loop of operator-=: the difference words over the target's
      length and the borrow out of the top word.  The right operand is read
      as zero past its end. */
  method SubWords(x: seq<Word>, y: seq<Word>) returns (buf: seq<Word>, borrow: bool)
    requires |y| <= |x|
    ensures |buf| == |x|
    ensures Val(buf) - Base(|x|) * BorrowVal(borrow) == Val(x) - Val(y)
  {
    buf := x;
    borrow := false;
    var i := 0;
    while i < |x|
      invariant i <= |x| && |buf| == |x|
      invariant forall j :: i <= j < |x| ==> buf[j] == x[j]
      invariant Val(buf[..i]) - Base(i) * BorrowVal(borrow) == LowVal(x, i) - LowVal(y, i)
    {
      var left := buf[i];
      var right := if i < |y| then y[i] else 0;
      var step := SubWord(left, right, borrow);
      SubStep(buf, i, step.0, step.1, borrow, x, y, left, right);
      buf := buf[i := step.0];
      borrow := step.1;
      i := i + 1;
    }
    assert buf[..|x|] == buf;
    LowValAll(x, |x|);
    LowValAll(y, |x|);
  }

  /** The value bookkeeping of one iteration of SubWords. */
  lemma {:induction false} SubStep(buf: seq<Word>, i: nat, s: Word, b: bool, borrow: bool, x: seq<Word>, y: seq<Word>,
                l: nat, m: nat)
    requires i < |buf|
    requires l == (if i < |x| then x[i] else 0) && m == (if i < |y| then y[i] else 0)
    requires s - BASE * BorrowVal(b) == l - m - BorrowVal(borrow)
    requires Val(buf[..i]) - Base(i) * BorrowVal(borrow) == LowVal(x, i) - LowVal(y, i)
    ensures Val(buf[i := s][..i + 1]) - Base(i + 1) * BorrowVal(b) == LowVal(x, i + 1) - LowVal(y, i + 1)
  {
    var u := buf[i := s][..i + 1];
    assert u == buf[..i] + [s];
    ValSnoc(buf[..i], s);
    LowValStep(x, i);
    LowValStep(y, i);
    assert Base(i + 1) == BASE * Base(i);
    BorrowArith(Val(buf[..i]), Base(i), BorrowVal(borrow), s, BorrowVal(b), LowVal(x, i), LowVal(y, i),
                l, m, Val(u), Base(i + 1), LowVal(x, i + 1), LowVal(y, i + 1));
  }

  /** The arithmetic step of SubStep. */
  lemma {:induction false} BorrowArith(v: int, w: int, bin: int, s: int, bout: int, lx: int, ly: int, l: int, m: int,
                    v': int, w': int, lx': int, ly': int)
    requires v - w * bin == lx - ly && s - BASE * bout == l - m - bin
    requires v' == v + w * s && w' == BASE * w && lx' == lx + w * l && ly' == ly + w * m
    ensures v' - w' * bout == lx' - ly'
  {
    assert w * (s - BASE * bout) == w * (l - m - bin);
  }

  /** The value the word loop leaves: the difference, wrapped around
      modulo the weight of the target's length when the right operand is
      larger. */
  lemma {:induction false} SubWrap(v: nat, b: nat, borrow: nat, vx: nat, vy: nat)
    requires v < b && vx < b && vy < b && borrow <= 1
    requires v - b * borrow == vx - vy
    ensures v == if vx >= vy then vx - vy else vx + b - vy
  {
  }

  /** operator-=(y).  For normalized operands the result is the difference,
      or zero when y is at least the target.  When the target is not
      normalized its length can wrongly rank it above y, and then the
      difference wraps around modulo the weight of its length. */
  method SubAssign(x: seq<Word>, y: seq<Word>) returns (r: seq<Word>)
    requires |x| == |y| ==> |x| >= 1
    ensures Normalized(r)
    ensures GreaterEq(y, x) ==> r == [0]
    ensures !GreaterEq(y, x) ==>
      Val(r) == if Val(x) >= Val(y) then Val(x) - Val(y) else Val(x) + Base(|x|) - Val(y)
    ensures Normalized(x) && Normalized(y) ==>
      Val(r) == if Val(y) >= Val(x) then 0 else Val(x) - Val(y)
  {
    if GreaterEq(y, x) {
      r := Normalize(AssignUint32(x, 0));
    } else {
      var buf: seq<Word>;
      if Greater(y, FromUint32(0)) {
        var borrow;
        buf, borrow := SubWords(x, y);
        ValBound(buf);
        ValBound(x);
        ValBound(y);
        if |y| < |x| {
          BaseStrict(|y|, |x|);
        }
        SubWrap(Val(buf), Base(|x|), BorrowVal(borrow), Val(x), Val(y));
      } else {
        buf := x;
        assert Val(y) == 0 by {
          if |y| == 1 {
            assert Val(y) == y[0] by { assert y[1..] == []; }
          }
        }
      }
      r := Normalize(buf);
    }
  }

  /** operator-(x, y): a copy of x with y subtracted. */
  method Minus(x: seq<Word>, y: seq<Word>) returns (r: seq<Word>)
    requires |x| == |y| ==> |x| >= 1
    ensures Normalized(r)
    ensures Normalized(x) && Normalized(y) ==>
      Val(r) == if Val(y) >= Val(x) then 0 else Val(x) - Val(y)
  {
    r := SubAssign(x, y);
  }
}
