/** Multiplication: operator*.  The product is accumulated one word of the
    multiplier at a time: the multiplicand times the multiplier's lowest
    word is added to the result, then the multiplicand moves up one word
    and the multiplier down one word, until the multiplier is zero. */
module Mul {
  import opened Bits
  import opened Words
  import opened Store
  import opened Compare
  import opened Add
  import opened Shift

  /** A word times a word plus a carry word fits in two words. */
  lemma {:induction false} ProductBound(a: int, b: int, c: int)
    requires 0 <= a < BASE && 0 <= b < BASE && 0 <= c < BASE
    ensures 0 <= a * b + c < BASE * BASE
  {
    var m: int := BASE - 1;
    MulBelow(a, b, m, m);
    assert m * m + m < BASE * BASE;
  }

  /** Products of nonnegative numbers grow with their factors. */
  lemma {:induction false} MulBelow(x: int, y: int, u: int, v: int)
    requires 0 <= x <= u && 0 <= y <= v
    ensures 0 <= x * y <= u * v
  {
    assert (u - x) * y >= 0;
    assert u * (v - y) >= 0;
  }

  /** The arithmetic step of MulWord. */
  lemma {:induction false} MulWordArith(v: int, b: int, c: int, lo: int, hi: int, yi: int, w: int, vy: int,
                     v': int, b': int, vy': int)
    requires v + b * c == vy * w && lo + BASE * hi == yi * w + c
    requires v' == v + b * lo && b' == BASE * b && vy' == vy + b * yi
    ensures v' + b' * hi == vy' * w
  {
    assert b * (lo + BASE * hi) == b * (yi * w + c);
    assert vy' * w == vy * w + b * (yi * w);
  }

  /** A vector times one word, by long multiplication: each word product
      plus the carry gives a result word and the next carry. */
  method MulWord(y: seq<Word>, w: Word) returns (r: seq<Word>)
    ensures Val(r) == Val(y) * w
    ensures Normalized(r)
  {
    var buf: seq<Word> := [];
    var carry: Word := 0;
    var i := 0;
    while i < |y|
      invariant i <= |y| && |buf| == i
      invariant Val(buf) + Base(i) * carry == Val(y[..i]) * w
    {
      ProductBound(y[i], w, carry);
      var p: int := y[i] * w + carry;
      var lo: Word, hi: Word := p % BASE, p / BASE;
      ValSnoc(buf, lo);
      ValTop(y[..i + 1]);
      assert y[..i + 1][..i] == y[..i];
      MulWordArith(Val(buf), Base(i), carry, lo, hi, y[i], w, Val(y[..i]),
                   Val(buf + [lo]), Base(i + 1), Val(y[..i + 1]));
      buf := buf + [lo];
      carry := hi;
      i := i + 1;
    }
    assert y[..i] == y;
    ValSnoc(buf, carry);
    r := Normalize(buf + [carry]);
  }

  /** The arithmetic step of Times: adding the multiplicand times the low
      word and moving both operands one word keeps the outstanding
      product. */
  lemma {:induction false} TimesArith(r: int, y: int, z: int, w0: int, r': int, y': int, z': int, target: int)
    requires r + y * z == target
    requires z == BASE * z' + w0 && r' == r + y * w0 && y' == y * BASE
    ensures r' + y' * z' == target
  {
    assert y * z == y * w0 + y * (BASE * z');
  }

  /** operator*(y, z).  The source's loop tests z where z0 is meant, and
      forms the word product through the same operator; here the loop runs
      over z0 and the word product is MulWord. */
  method Times(y: seq<Word>, z: seq<Word>) returns (result: seq<Word>)
    ensures Val(result) == Val(y) * Val(z)
    ensures Normalized(result)
  {
    result := FromUint32(0);
    var y0, z0 := y, z;
    Pow2Word();
    while Greater(z0, FromUint32(0))
      invariant Normalized(result)
      invariant Val(result) + Val(y0) * Val(z0) == Val(y) * Val(z)
      decreases Val(z0), |z0|
    {
      var low := MulWord(y0, z0[0]);
      var sum := AddAssign(result, low);
      ValLowWord(z0);
      DivModBasics(Val(z0), BASE);
      TimesArith(Val(result), Val(y0), Val(z0), z0[0], Val(sum), Val(ShiftLeft(y0, 32)),
                 Val(ShiftRight(z0, 32)), Val(y) * Val(z));
      assert Val(z0) == 0 ==> |z0| > 1;
      result, y0, z0 := sum, ShiftLeft(y0, 32), ShiftRight(z0, 32);
    }
    assert Val(z0) == 0 by {
      if |z0| == 1 {
        ValLowWord(z0);
      }
    }
  }
}
