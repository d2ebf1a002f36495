/** Natural-number arithmetic on bits: powers of two, division by powers of
    two, bit length, the lowest set bit, and the bitwise operators `&`, `|`,
    `^` together with a fixed-width complement `~`.  Everything the bignum
    kernel and the derived math say about bits is stated in these terms. */
module Bits {

  /** 2 raised to the power k. */
  function Pow2(k: nat): (r: nat)
    ensures r >= 1
  {
    if k == 0 then 1 else 2 * Pow2(k - 1)
  }

  lemma {:induction false} Pow2Add(a: nat, b: nat)
    ensures Pow2(a + b) == Pow2(a) * Pow2(b)
  {
    if a > 0 {
      Pow2Add(a - 1, b);
      assert Pow2(a + b) == 2 * Pow2(a - 1 + b);
    }
  }

  lemma {:induction false} Pow2Strict(a: nat, b: nat)
    requires a < b
    ensures Pow2(a) < Pow2(b)
  {
    if b > a + 1 {
      Pow2Strict(a, b - 1);
    }
  }

  lemma {:induction false} Pow2Monotone(a: nat, b: nat)
    requires a <= b
    ensures Pow2(a) <= Pow2(b)
  {
    if a < b {
      Pow2Strict(a, b);
    }
  }

  /** Powers of two are ordered as their exponents. */
  lemma {:induction false} Pow2Reflect(a: nat, b: nat)
    requires Pow2(a) < Pow2(b)
    ensures a < b
  {
    if a >= b {
      Pow2Monotone(b, a);
    }
  }

  lemma {:induction false} Pow2Word()
    ensures Pow2(16) == 0x1_0000
    ensures Pow2(31) == 0x8000_0000
    ensures Pow2(32) == 0x1_0000_0000
  {
    assert Pow2(4) == 16;
    Pow2Add(4, 4);
    Pow2Add(8, 8);
    assert Pow2(15) == 0x8000 by {
      Pow2Add(8, 7);
      assert Pow2(7) == 128;
    }
    Pow2Add(16, 15);
    Pow2Add(16, 16);
  }

  /** Uniqueness of Euclidean quotient and remainder. */
  lemma {:induction false} DivModUnique(x: nat, d: nat, q: nat, r: nat)
    requires d > 0 && r < d && x == d * q + r
    ensures x / d == q && x % d == r
  {
    var q', r' := x / d, x % d;
    assert d * (q' - q) == r - r';
    MulSign(d, q' - q);
  }

  /** A nonzero multiple of d is at least d in magnitude. */
  lemma {:induction false} MulSign(d: nat, t: int)
    requires d > 0
    ensures t >= 1 ==> d * t >= d
    ensures t <= -1 ==> d * t + d <= 0
  {
  }

  lemma {:induction false} MulMonotone(d: nat, a: nat, b: nat)
    requires a <= b
    ensures d * a <= d * b
  {
  }

  /** The Euclidean division facts for a positive divisor. */
  lemma {:induction false} DivModBasics(x: nat, d: nat)
    requires d > 0
    ensures x / d >= 0 && x % d < d && x == d * (x / d) + x % d
  {
    MulSign(d, x / d);
  }

  /** Dividing twice is dividing by the product. */
  lemma {:induction false} DivDiv(x: nat, p: nat, q: nat)
    requires p > 0 && q > 0
    ensures x / p / q == x / (p * q)
  {
    DivModBasics(x, p);
    var a: nat, r1: nat := x / p, x % p;
    DivModBasics(a, q);
    var b: nat, r2: nat := a / q, a % q;
    MulMonotone(p, r2, q - 1);
    DivDivArith(x, p, q, a, r1, b, r2);
    DivModUnique(x, p * q, b, p * r2 + r1);
  }

  /** The arithmetic step of DivDiv. */
  lemma {:induction false} DivDivArith(x: int, p: int, q: int, a: int, r1: int, b: int, r2: int)
    requires x == p * a + r1 && a == q * b + r2 && r1 < p && p * r2 <= p * (q - 1)
    ensures x == (p * q) * b + (p * r2 + r1) && p * r2 + r1 < p * q
  {
    assert p * a == (p * q) * b + p * r2;
    assert p * (q - 1) == p * q - p;
  }

  lemma {:induction false} Pow2DivDiv(x: nat, a: nat, b: nat)
    ensures x / Pow2(a) / Pow2(b) == x / Pow2(a + b)
  {
    DivDiv(x, Pow2(a), Pow2(b));
    Pow2Add(a, b);
  }

  /** (c * 2^a) / 2^a == c and (c * 2^a) % 2^a == 0 */
  lemma {:induction false} MulPow2DivMod(c: nat, a: nat)
    ensures (c * Pow2(a)) / Pow2(a) == c
    ensures (c * Pow2(a)) % Pow2(a) == 0
  {
    DivModUnique(c * Pow2(a), Pow2(a), c, 0);
  }

  lemma {:induction false} ModMultiple(c: nat, p: int)
    requires p >= 1
    ensures (p * c) % p == 0
  {
    DivModUnique(p * c, p, c, 0);
  }

  /** Number of significant bits: 0 for 0. */
  function BitLength(x: nat): nat
  {
    if x == 0 then 0 else 1 + BitLength(x / 2)
  }

  lemma {:induction false} BitLengthBounds(x: nat)
    ensures x < Pow2(BitLength(x))
    ensures x >= 1 ==> BitLength(x) >= 1 && Pow2(BitLength(x) - 1) <= x
  {
    if x > 0 {
      BitLengthBounds(x / 2);
    }
  }

  /** The bit length is determined by the pair of powers of two around x. */
  lemma {:induction false} BitLengthUnique(x: nat, k: nat)
    requires x < Pow2(k)
    requires k >= 1 ==> Pow2(k - 1) <= x
    ensures BitLength(x) == k
  {
    if k > 0 {
      BitLengthUnique(x / 2, k - 1);
    }
  }

  lemma {:induction false} BitLengthMonotone(x: nat, y: nat)
    requires x <= y
    ensures BitLength(x) <= BitLength(y)
  {
    if x > 0 {
      BitLengthMonotone(x / 2, y / 2);
    }
  }

  /** Shifting a positive number up by k bits adds k to its bit length. */
  lemma {:induction false} BitLengthShift(v: nat, k: nat)
    requires v >= 1
    ensures BitLength(v * Pow2(k)) == BitLength(v) + k
  {
    if k > 0 {
      var p: int := Pow2(k - 1);
      var u: int := v * p;
      BitLengthShift(v, k - 1);
      MulSign(p, v);
      assert Pow2(k) == 2 * p;
      MulDouble(v, p, Pow2(k));
      BitLengthDouble(u);
    }
  }

  lemma {:induction false} MulDouble(v: int, p: int, pk: int)
    requires pk == 2 * p
    ensures v * pk == 2 * (v * p)
  {
  }

  lemma {:induction false} BitLengthDouble(u: nat)
    requires u >= 1
    ensures BitLength(2 * u) == 1 + BitLength(u)
  {
    assert (2 * u) / 2 == u;
  }

  /** Bit i of x. */
  function BitAt(x: nat, i: nat): nat
  {
    (x / Pow2(i)) % 2
  }

  lemma {:induction false} BitAtZero(x: nat)
    ensures BitAt(x, 0) == x % 2
  {
  }

  /** Halving a number shifts its bits down by one. */
  lemma {:induction false} BitAtShift(x: nat, i: nat)
    ensures BitAt(x, i + 1) == BitAt(x / 2, i)
  {
    Pow2DivDiv(x, 1, i);
  }

  /** Two numbers with the same bits are equal. */
  lemma {:induction false} BitsExtensional(a: nat, b: nat)
    requires forall i: nat :: BitAt(a, i) == BitAt(b, i)
    ensures a == b
    decreases a + b
  {
    if a != 0 || b != 0 {
      BitAtZero(a);
      BitAtZero(b);
      assert BitAt(a, 0) == BitAt(b, 0);
      forall i: nat
        ensures BitAt(a / 2, i) == BitAt(b / 2, i)
      {
        BitAtShift(a, i);
        BitAtShift(b, i);
      }
      BitsExtensional(a / 2, b / 2);
    }
  }

  /** The index of the lowest set bit of a positive number. */
  function LowIndex(x: nat): nat
    requires x >= 1
  {
    if x % 2 == 1 then 0 else 1 + LowIndex(x / 2)
  }

  /** Doubling a multiple of 2^j gives a multiple of 2^(j+1). */
  lemma {:induction false} DoubleMultiple(h: nat, j: nat)
    requires h % Pow2(j) == 0
    ensures (2 * h) % Pow2(j + 1) == 0
  {
    var k := h / Pow2(j);
    assert h == Pow2(j) * k;
    assert 2 * h == k * Pow2(j + 1);
    MulPow2DivMod(k, j + 1);
  }

  lemma {:induction false} LowIndexSpec(x: nat)
    requires x >= 1
    ensures BitAt(x, LowIndex(x)) == 1
    ensures x % Pow2(LowIndex(x)) == 0
    ensures forall i :: 0 <= i < LowIndex(x) ==> BitAt(x, i) == 0
  {
    BitAtZero(x);
    if x % 2 == 0 {
      var h := x / 2;
      assert x == 2 * h;
      LowIndexSpec(h);
      var j := LowIndex(h);
      BitAtShift(x, j);
      DoubleMultiple(h, j);
      forall i | 0 <= i < j + 1
        ensures BitAt(x, i) == 0
      {
        if i > 0 {
          BitAtShift(x, i - 1);
        }
      }
    }
  }

  /** The operators of a bitwise combination. */
  datatype BitOp = And | Or | Xor

  /** The truth table of op on two single bits. */
  function BitOf(op: BitOp, a: nat, b: nat): (r: nat)
    requires a < 2 && b < 2
    ensures r < 2
  {
    match op
    case And => if a == 1 && b == 1 then 1 else 0
    case Or => if a == 1 || b == 1 then 1 else 0
    case Xor => if a != b then 1 else 0
  }

  /** Bit-by-bit combination of two naturals (unbounded `&`, `|`, `^`). */
  function Bitwise(op: BitOp, a: nat, b: nat): nat
    decreases a + b
  {
    if a == 0 && b == 0 then 0
    else 2 * Bitwise(op, a / 2, b / 2) + BitOf(op, a % 2, b % 2)
  }

  lemma {:induction false} BitwiseUnfold(op: BitOp, a: nat, b: nat)
    ensures Bitwise(op, a, b) == 2 * Bitwise(op, a / 2, b / 2) + BitOf(op, a % 2, b % 2)
  {
  }

  /** Every bit of the combination is op applied to the operands' bits. */
  lemma {:induction false} BitwiseBits(op: BitOp, a: nat, b: nat, i: nat)
    ensures BitAt(Bitwise(op, a, b), i) == BitOf(op, BitAt(a, i), BitAt(b, i))
    decreases i
  {
    var r := Bitwise(op, a, b);
    var h := Bitwise(op, a / 2, b / 2);
    BitwiseUnfold(op, a, b);
    assert r / 2 == h && r % 2 == BitOf(op, a % 2, b % 2);
    if i == 0 {
      BitAtZero(r);
      BitAtZero(a);
      BitAtZero(b);
    } else {
      BitwiseBits(op, a / 2, b / 2, i - 1);
      BitAtShift(r, i - 1);
      BitAtShift(a, i - 1);
      BitAtShift(b, i - 1);
    }
  }

  lemma {:induction false} BitwiseComm(op: BitOp, a: nat, b: nat)
    ensures Bitwise(op, a, b) == Bitwise(op, b, a)
    decreases a + b
  {
    if a != 0 || b != 0 {
      BitwiseComm(op, a / 2, b / 2);
    }
  }

  lemma {:induction false} BitwiseZero(op: BitOp, a: nat)
    ensures Bitwise(op, a, 0) == (if op == And then 0 else a)
    ensures Bitwise(op, 0, a) == (if op == And then 0 else a)
    decreases a
  {
    if a != 0 {
      BitwiseZero(op, a / 2);
    }
  }

  lemma {:induction false} BitwiseBound(op: BitOp, a: nat, b: nat, k: nat)
    requires a < Pow2(k) && b < Pow2(k)
    ensures Bitwise(op, a, b) < Pow2(k)
    decreases k
  {
    if k > 0 && (a != 0 || b != 0) {
      BitwiseBound(op, a / 2, b / 2, k - 1);
    }
  }

  /** AND never exceeds either operand. */
  lemma {:induction false} AndBound(a: nat, b: nat)
    ensures Bitwise(And, a, b) <= a && Bitwise(And, a, b) <= b
    decreases a + b
  {
    if a != 0 || b != 0 {
      AndBound(a / 2, b / 2);
    }
  }

  /** The number whose low k bits are lo and whose remaining bits are hi. */
  function Join(lo: nat, hi: nat, k: nat): nat
  {
    lo + Pow2(k) * hi
  }

  /** Halving a joined number halves its low part. */
  lemma {:induction false} HalveJoin(lo: nat, hi: nat, k: nat)
    requires 0 < k && lo < Pow2(k)
    ensures Join(lo, hi, k) / 2 == Join(lo / 2, hi, k - 1)
    ensures Join(lo, hi, k) % 2 == lo % 2
    ensures lo / 2 < Pow2(k - 1)
  {
    var h := Pow2(k - 1);
    assert Pow2(k) * hi == 2 * (h * hi);
  }

  /** The combination of two numbers split at bit k is the combination of
      the low parts plus 2^k times the combination of the high parts. */
  lemma {:induction false} BitwiseSplit(op: BitOp, a: nat, b: nat, c: nat, d: nat, k: nat)
    requires a < Pow2(k) && c < Pow2(k)
    ensures Bitwise(op, Join(a, b, k), Join(c, d, k))
         == Bitwise(op, a, c) + Pow2(k) * Bitwise(op, b, d)
    decreases k
  {
    if k == 0 {
      assert a == 0 && c == 0;
      assert Pow2(k) == 1;
    } else {
      HalveJoin(a, b, k);
      HalveJoin(c, d, k);
      BitwiseSplit(op, a / 2, b, c / 2, d, k - 1);
      var x, y := Join(a, b, k), Join(c, d, k);
      var m := Bitwise(op, b, d);
      BitwiseUnfold(op, x, y);
      BitwiseUnfold(op, a, c);
      SplitArith(Bitwise(op, x, y), Bitwise(op, x / 2, y / 2), Bitwise(op, a / 2, c / 2),
                 BitOf(op, a % 2, c % 2), Pow2(k - 1), m, Bitwise(op, a, c), Pow2(k));
    }
  }

  lemma {:induction false} SplitArith(xv: int, p: int, q: int, t: int, h: int, m: int, av: int, kk: int)
    requires xv == 2 * p + t && p == q + h * m && av == 2 * q + t && kk == 2 * h
    ensures xv == av + kk * m
  {
  }

  /** OR of numbers with disjoint bits is their sum: one below 2^k, the
      other a multiple of 2^k. */
  lemma {:induction false} OrDisjoint(a: nat, b: nat, k: nat)
    requires a % Pow2(k) == 0 && b < Pow2(k)
    ensures Bitwise(Or, a, b) == a + b
    ensures Bitwise(Or, b, a) == a + b
  {
    var hi := a / Pow2(k);
    assert a == Join(0, hi, k);
    assert b == Join(b, 0, k);
    BitwiseSplit(Or, 0, hi, b, 0, k);
    BitwiseZero(Or, b);
    BitwiseZero(Or, hi);
    BitwiseComm(Or, a, b);
  }

  /** AND with a single power of two isolates that bit. */
  lemma {:induction false} AndPow2(x: nat, k: nat)
    ensures Bitwise(And, x, Pow2(k)) == Pow2(k) * BitAt(x, k)
    decreases k
  {
    BitwiseUnfold(And, x, Pow2(k));
    BitAtZero(x);
    if k == 0 {
      BitwiseZero(And, x / 2);
    } else {
      var h: int := Pow2(k - 1);
      var pk: int := Pow2(k);
      assert pk / 2 == h && pk % 2 == 0;
      AndPow2(x / 2, k - 1);
      BitAtShift(x, k - 1);
      var b: int := BitAt(x, k);
      assert Bitwise(And, x, pk) == 2 * (h * b) + BitOf(And, x % 2, 0);
      DoubleScaled(h, b, pk);
    }
  }

  lemma {:induction false} DoubleScaled(h: int, b: int, pk: int)
    requires pk == 2 * h
    ensures pk * b == 2 * (h * b)
  {
  }

  /** `~a` inside a field of w bits. */
  function BitNot(a: nat, w: nat): nat
  {
    if w == 0 then 0 else 2 * BitNot(a / 2, w - 1) + (1 - a % 2)
  }

  lemma {:induction false} BitNotValue(a: nat, w: nat)
    requires a < Pow2(w)
    ensures BitNot(a, w) == Pow2(w) - 1 - a
    decreases w
  {
    if w > 0 {
      BitNotValue(a / 2, w - 1);
    }
  }
}
