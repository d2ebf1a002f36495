/** The math functions built on the public operators of uintx_t: powers,
    factorials, greatest common divisors and least common multiples,
    Fibonacci numbers by successive doubling, the lowest set bit, and
    maximum and minimum.  The loops are modelled over natural numbers, each
    operator standing for the uintx_t operator on normalized values (whose
    contracts the kernel modules prove); the functions that only call one
    kernel operator are modelled on word vectors.  The exception is %: the
    kernel's operator% does not compute the remainder (Divide.RemAsWritten),
    so Euclid's loop is modelled twice, with the remainder the operator is
    meant to compute (Divide.Rem) and with the operator as written. */
module Maths {
  import opened Bits
  import opened Words
  import opened Store
  import opened Compare
  import opened Shift
  import opened Mul
  import Division = Divide

  /** A value that may be uintx_t::NaN. */
  datatype Num = Finite(n: nat) | NaN

  /** The unsigned subtraction of the kernel on values: it stops at zero. */
  function Monus(x: nat, y: nat): nat
  {
    if x >= y then x - y else 0
  }

  // ---------------------------------------------------------------------
  // Powers

  /** y^z. */
  function Power(y: nat, z: nat): nat
  {
    if z == 0 then 1 else y * Power(y, z - 1)
  }

  lemma {:induction false} PowerAdd(y: nat, a: nat, b: nat)
    ensures Power(y, a + b) == Power(y, a) * Power(y, b)
    decreases a
  {
    if a > 0 {
      PowerAdd(y, a - 1, b);
      MulAssoc(y, Power(y, a - 1), Power(y, b));
    }
  }

  lemma {:induction false} MulAssoc(a: int, b: int, c: int)
    ensures a * (b * c) == (a * b) * c
  {
  }

  /** Squaring the base halves the exponent. */
  lemma {:induction false} PowerSquare(q: nat, e: nat)
    ensures Power(q * q, e) == Power(q, 2 * e)
    decreases e
  {
    if e > 0 {
      PowerSquare(q, e - 1);
      assert Power(q, 2 * e) == q * (q * Power(q, 2 * e - 2));
      MulAssoc(q, q, Power(q, 2 * e - 2));
    }
  }

  /** One step of binary exponentiation: the low bit of the exponent
      selects a factor of q, and the rest is a power of q squared. */
  lemma {:induction false} PowerHalve(q: nat, e: nat)
    ensures Power(q, e) == (if Bitwise(And, e, 1) == 1 then q else 1) * Power(q * q, e / 2)
  {
    AndPow2(e, 0);
    BitAtZero(e);
    assert Pow2(0) == 1;
    PowerAdd(q, e % 2, 2 * (e / 2));
    PowerSquare(q, e / 2);
    assert Power(q, 1) == q;
  }

  /** The loop of power (and of powx): the low bit of the exponent decides
      whether the running square is multiplied in, then the exponent is
      halved and the square squared. */
  method BinaryPower(y: nat, z: nat) returns (x: nat)
    ensures x == Power(y, z)
    ensures z == 0 ==> x == 1
  {
    x := 1;
    var q, e := y, z;
    while e > 0
      invariant x * Power(q, e) == Power(y, z)
      decreases e
    {
      PowerHalve(q, e);
      var f: nat := if Bitwise(And, e, 1) == 1 then q else 1;
      MulAssoc(x, f, Power(q * q, e / 2));
      if Bitwise(And, e, 1) == 1 {
        x := x * q;
      }
      e := e / 2;
      q := q * q;
    }
  }

  /** powx(y, z): NaN for a NaN base, otherwise y^z. */
  method PowX(y: Num, z: Word) returns (r: Num)
    ensures y.NaN? ==> r.NaN?
    ensures y.Finite? ==> r == Finite(Power(y.n, z))
    ensures y.Finite? && z == 0 ==> r == Finite(1)
  {
    if y.NaN? {
      r := NaN;
    } else {
      var x := BinaryPower(y.n, z);
      r := Finite(x);
    }
  }

  // ---------------------------------------------------------------------
  // Factorials

  /** n!, with 0! = 1. */
  function Fact(n: nat): nat
  {
    if n <= 1 then 1 else n * Fact(n - 1)
  }

  /** The loop of factorial (and of factorialx): the running product is
      multiplied by a counter that steps down to 2. */
  method Factorial(n: nat) returns (z: nat)
    ensures z == Fact(n)
    ensures n <= 1 ==> z == 1
  {
    z := 1;
    var k := n;
    while k > 1
      invariant z * Fact(k) == Fact(n)
      decreases k
    {
      MulAssoc(z, k, Fact(k - 1));
      z := z * k;
      k := k - 1;
    }
  }

  /** Every number from 1 to n divides n!. */
  lemma {:induction false} FactDivisible(n: nat, i: nat)
    requires 1 <= i <= n
    ensures Fact(n) % i == 0
    decreases n
  {
    if i == n {
      ModMultiple(Fact(n - 1), n);
    } else {
      FactDivisible(n - 1, i);
      var k := Fact(n - 1) / i;
      DivModBasics(Fact(n - 1), i);
      MulAssoc(n, i, k);
      assert Fact(n) == i * (n * k);
      ModMultiple(n * k, i);
    }
  }

  // ---------------------------------------------------------------------
  // Greatest common divisors

  /** d divides x; only zero is a multiple of zero. */
  predicate Divides(d: nat, x: nat)
  {
    if d == 0 then x == 0 else x % d == 0
  }

  /** g is a greatest common divisor of x and y: a common divisor that every
      common divisor divides. */
  ghost predicate IsGcd(g: nat, x: nat, y: nat)
  {
    Divides(g, x) && Divides(g, y) && forall d: nat :: Divides(d, x) && Divides(d, y) ==> Divides(d, g)
  }

  /** Adding a multiple of d does not change the remainder modulo d. */
  lemma {:induction false} ModAddMultiple(d: nat, k: nat, r: nat)
    requires d > 0
    ensures (d * k + r) % d == r % d
  {
    DivModBasics(r, d);
    assert d * k + r == d * (k + r / d) + r % d;
    DivModUnique(d * k + r, d, k + r / d, r % d);
  }

  /** A common divisor of w and z is a common divisor of w and z % w, and
      the other way round. */
  lemma {:induction false} DividesRem(d: nat, w: nat, z: nat)
    requires w > 0
    ensures Divides(d, w) && Divides(d, z) <==> Divides(d, w) && Divides(d, z % w)
  {
    if d > 0 && w % d == 0 {
      var a := w / d;
      DivModBasics(w, d);
      DivModBasics(z, w);
      var t: int := z / w;
      assert z == d * (a * t) + z % w by {
        MulAssoc(d, a, t);
      }
      ModAddMultiple(d, a * t, z % w);
    }
  }

  /** Two numbers that divide each other are equal. */
  lemma {:induction false} DividesAntisymmetric(a: nat, b: nat)
    requires Divides(a, b) && Divides(b, a)
    ensures a == b
  {
    if a > 0 && b > 0 {
      DividesBelow(a, b);
      DividesBelow(b, a);
    }
  }

  /** A divisor of a positive number is no larger than it. */
  lemma {:induction false} DividesBelow(a: nat, b: nat)
    requires a > 0 && b > 0 && b % a == 0
    ensures a <= b
  {
    DivModBasics(b, a);
    MulSign(a, b / a);
  }

  /** The greatest common divisor is unique. */
  lemma {:induction false} GcdUnique(g: nat, h: nat, x: nat, y: nat)
    requires IsGcd(g, x, y) && IsGcd(h, x, y)
    ensures g == h
  {
    DividesAntisymmetric(g, h);
  }

  /** Every number divides itself. */
  lemma {:induction false} DividesSelf(x: nat)
    ensures Divides(x, x)
  {
    if x > 0 {
      ModMultiple(1, x);
    }
  }

  /** Euclid's loop, shared by gcdx and gcd, with the remainder operator%
      is meant to compute: while w is not zero, w and z become z % w and w;
      z is then the greatest common divisor. */
  method Euclid(x: nat, y: nat) returns (g: nat)
    ensures IsGcd(g, x, y)
    ensures y == 0 ==> g == x
    ensures x == 0 ==> g == y
  {
    var w, z := x, y;
    while w != 0
      invariant forall d: nat :: Divides(d, w) && Divides(d, z) <==> Divides(d, x) && Divides(d, y)
      decreases w
    {
      forall d: nat
        ensures Divides(d, w) && Divides(d, z) <==> Divides(d, w) && Divides(d, z % w)
      {
        DividesRem(d, w, z);
      }
      var temp := w;
      w := z % w;
      z := temp;
    }
    g := z;
    DividesSelf(g);
    if y == 0 {
      DividesSelf(x);
      GcdUnique(g, x, x, y);
    }
    if x == 0 {
      DividesSelf(y);
      GcdUnique(g, y, x, y);
    }
  }

  /** gcdx(x, y): NaN when either operand is NaN, otherwise Euclid's loop. */
  method GcdX(x: Num, y: Num) returns (r: Num)
    ensures x.NaN? || y.NaN? ==> r.NaN?
    ensures x.Finite? && y.Finite? ==> r.Finite? && IsGcd(r.n, x.n, y.n)
    ensures x.Finite? && y == Finite(0) ==> r == x
    ensures x == Finite(0) && y.Finite? ==> r == y
  {
    if x.NaN? || y.NaN? {
      r := NaN;
    } else {
      var g := Euclid(x.n, y.n);
      r := Finite(g);
    }
  }

  /** gcd(x, y): the operands are first ordered so that the larger comes
      first, then Euclid's loop runs. */
  method OrderedGcd(x: nat, y: nat) returns (g: nat)
    ensures IsGcd(g, x, y)
    ensures x == 0 && y == 0 ==> g == 0
  {
    var a, b := x, y;
    if a < b {
      a, b := b, a;
    }
    g := Euclid(a, b);
  }

  /** Euclid's loop with the operator% as written (Divide.RemAsWritten): the
      number gcdx and gcd return with w and z as the starting pair. */
  function GcdAsWrittenVal(w: nat, z: nat): nat
    decreases w
  {
    if w == 0 then z
    else
      Division.RemAsWrittenBound(z, w);
      GcdAsWrittenVal(Division.RemAsWrittenVal(z, w), w)
  }

  /** gcdx(x, y) as written: NaN when either operand is NaN, otherwise
      Euclid's loop with the operator% the kernel has. */
  method GcdXAsWritten(x: Num, y: Num) returns (r: Num)
    ensures x.NaN? || y.NaN? ==> r.NaN?
    ensures x.Finite? && y.Finite? ==> r == Finite(GcdAsWrittenVal(x.n, y.n))
    ensures x.Finite? && y == Finite(0) ==> r == x
    ensures x == Finite(0) && y.Finite? ==> r == y
  {
    if x.NaN? || y.NaN? {
      r := NaN;
    } else {
      var w, z := x.n, y.n;
      while w != 0
        invariant GcdAsWrittenVal(w, z) == GcdAsWrittenVal(x.n, y.n)
        decreases w
      {
        Division.RemAsWrittenBound(z, w);
        var temp := w;
        w := Division.RemAsWrittenVal(z, w);
        z := temp;
      }
      r := Finite(z);
      if x.n != 0 && y.n == 0 {
        Division.RemAsWrittenBound(0, x.n);
        assert GcdAsWrittenVal(x.n, 0) == GcdAsWrittenVal(0, x.n);
      }
    }
  }

  /** gcdx(2, 5) and gcd(2, 5) as written are 2, which does not divide 5:
      5 % 2 comes out as 0.  lcmx(2, 5) is then 2 * (5 / 2) = 4, which 5
      does not divide. */
  lemma {:induction false} GcdCounterexample()
    ensures GcdAsWrittenVal(2, 5) == 2 && !Divides(2, 5)
    ensures GcdAsWrittenVal(5, 2) == 2
    ensures 2 * (5 / GcdAsWrittenVal(2, 5)) == 4 && !Divides(5, 4)
  {
    Division.RemCounterexample();
    assert Division.RemAsWrittenVal(2, 5) == 2 by {
      Division.RemAsWrittenBound(2, 5);
      assert Division.WindowTop(2, 5) == 5;
    }
    assert GcdAsWrittenVal(0, 2) == 2;
    assert GcdAsWrittenVal(2, 5) == GcdAsWrittenVal(0, 2);
    assert GcdAsWrittenVal(5, 2) == GcdAsWrittenVal(2, 5);
  }

  /** The arithmetic of lcmx: with g dividing both operands, x * (y / g)
      is a multiple of y and times g gives x * y. */
  lemma {:induction false} LcmArith(x: int, y: int, g: int, a: int, b: int)
    requires x == g * a && y == g * b
    ensures x * b == y * a && (x * b) * g == x * y
  {
    MulAssoc(g, a, b);
    MulAssoc(g, b, a);
  }

  /** lcmx(x, y) = x * (y / gcdx(x, y)) for operands not both zero (with
      both zero the divisor is zero and the division never ends). */
  method LcmX(x: nat, y: nat) returns (r: nat)
    requires x > 0 || y > 0
    ensures Divides(x, r) && Divides(y, r)
    ensures forall g :: IsGcd(g, x, y) ==> r * g == x * y
  {
    var g := Euclid(x, y);
    assert g > 0;
    DivModBasics(x, g);
    DivModBasics(y, g);
    var a, b := x / g, y / g;
    r := x * b;
    LcmArith(x, y, g, a, b);
    if x > 0 {
      ModMultiple(b, x);
    }
    if y > 0 {
      ModMultiple(a, y);
    }
    forall h | IsGcd(h, x, y)
      ensures r * h == x * y
    {
      GcdUnique(g, h, x, y);
    }
  }

  // ---------------------------------------------------------------------
  // Fibonacci numbers

  /** The Fibonacci numbers: F(0) = 0, F(1) = 1, F(k) = F(k-2) + F(k-1). */
  function Fib(k: nat): nat
  {
    if k < 2 then k else Fib(k - 2) + Fib(k - 1)
  }

  /** F(m + n + 1) = F(m + 1) F(n + 1) + F(m) F(n). */
  lemma {:induction false} FibAdd(m: nat, n: nat)
    ensures Fib(m + n + 1) == Fib(m + 1) * Fib(n + 1) + Fib(m) * Fib(n)
    decreases n
  {
    if n < 2 {
      FibAddBase(m, n);
    } else {
      FibAdd(m, n - 1);
      FibAdd(m, n - 2);
      FibAddStep(m, n);
    }
  }

  lemma {:induction false} FibAddBase(m: nat, n: nat)
    requires n < 2
    ensures Fib(m + n + 1) == Fib(m + 1) * Fib(n + 1) + Fib(m) * Fib(n)
  {
    var a1, a0 := Fib(m + 1), Fib(m);
    if n == 0 {
      assert Fib(1) == 1 && Fib(0) == 0;
      UnitArith(a1, a0, 1, 0);
    } else {
      assert Fib(2) == 1 by {
        assert Fib(1) == 1 && Fib(0) == 0;
      }
      assert Fib(m + 2) == a0 + a1;
      UnitArith(a1, a0, 1, 1);
    }
  }

  lemma {:induction false} FibAddStep(m: nat, n: nat)
    requires n >= 2
    requires Fib(m + n) == Fib(m + 1) * Fib(n) + Fib(m) * Fib(n - 1)
    requires Fib(m + n - 1) == Fib(m + 1) * Fib(n - 1) + Fib(m) * Fib(n - 2)
    ensures Fib(m + n + 1) == Fib(m + 1) * Fib(n + 1) + Fib(m) * Fib(n)
  {
    var s1, s2, s3 := Fib(m + n - 1), Fib(m + n), Fib(m + n + 1);
    assert s3 == s1 + s2;
    var f0, f1, f2, f3 := Fib(n - 2), Fib(n - 1), Fib(n), Fib(n + 1);
    assert f2 == f0 + f1 && f3 == f1 + f2;
    FibAddArith(Fib(m + 1), Fib(m), f0, f1, f2, f3, s1, s2, s3);
  }

  lemma {:induction false} UnitArith(a1: int, a0: int, f3: int, f2: int)
    requires f3 == 1 && 0 <= f2 <= 1
    ensures a1 * f3 + a0 * f2 == a1 + f2 * a0
  {
  }

  lemma {:induction false} FibAddArith(a1: int, a0: int, f0: int, f1: int, f2: int, f3: int, s1: int, s2: int, s3: int)
    requires s1 == a1 * f1 + a0 * f0 && s2 == a1 * f2 + a0 * f1
    requires s3 == s1 + s2 && f2 == f0 + f1 && f3 == f1 + f2
    ensures s3 == a1 * f3 + a0 * f2
  {
  }

  /** The doubling identities the loop of fibx relies on, and the fact that
      makes its subtraction 2F(k+1) - F(k) exact. */
  lemma {:induction false} FibDouble(k: nat)
    ensures Fib(k) <= Fib(k + 1)
    ensures Fib(2 * k) == Fib(k) * Monus(2 * Fib(k + 1), Fib(k))
    ensures Fib(2 * k + 1) == Fib(k) * Fib(k) + Fib(k + 1) * Fib(k + 1)
  {
    FibAdd(k, k);
    if k >= 1 {
      FibAdd(k, k - 1);
      assert Fib(k + 1) == Fib(k - 1) + Fib(k);
      FibDoubleArith(Fib(k - 1), Fib(k), Fib(k + 1), Fib(2 * k));
    }
  }

  lemma {:induction false} FibDoubleArith(f0: int, f1: int, f2: int, s: int)
    requires s == f2 * f1 + f1 * f0 && f2 == f0 + f1
    ensures s == f1 * (2 * f2 - f1)
  {
  }

  /** Bits lo .. hi-1 of x, read as a number. */
  function Window(x: nat, lo: nat, hi: nat): nat
    decreases hi - lo
  {
    if lo >= hi then 0 else 2 * Window(x, lo + 1, hi) + BitAt(x, lo)
  }

  /** A number splits into its lowest bit and the bits above it. */
  lemma {:induction false} ModDouble(y: nat, k: nat)
    ensures y % Pow2(k + 1) == 2 * ((y / 2) % Pow2(k)) + y % 2
  {
    var h: int := y / 2;
    var p: int := Pow2(k);
    DivModBasics(y, 2);
    DivModBasics(h, p);
    var q: int := h / p;
    var r: int := h % p;
    ModDoubleArith(y, h, y % 2, p, q, r, Pow2(k + 1));
    DivModUnique(y, Pow2(k + 1), q, 2 * r + y % 2);
  }

  lemma {:induction false} ModDoubleArith(y: int, h: int, b: int, p: int, q: int, r: int, pp: int)
    requires y == 2 * h + b && h == p * q + r && pp == 2 * p && 0 <= b < 2 && r < p
    ensures y == pp * q + (2 * r + b) && 2 * r + b < pp
  {
  }

  /** The window is the bits of x above lo, modulo the window's width. */
  lemma {:induction false} WindowValue(x: nat, lo: nat, hi: nat)
    requires lo <= hi
    ensures Window(x, lo, hi) == (x / Pow2(lo)) % Pow2(hi - lo)
    decreases hi - lo
  {
    if lo == hi {
      assert Pow2(0) == 1;
    } else {
      WindowValue(x, lo + 1, hi);
      Pow2DivDiv(x, lo, 1);
      assert Pow2(1) == 2;
      ModDouble(x / Pow2(lo), hi - lo - 1);
    }
  }

  /** A window over all the bits of x is x. */
  lemma {:induction false} WindowAll(x: nat, hi: nat)
    requires x < Pow2(hi)
    ensures Window(x, 0, hi) == x
  {
    WindowValue(x, 0, hi);
    assert Pow2(0) == 1;
    DivModUnique(x, Pow2(hi), 0, x);
  }

  /** A window that ends just above the lowest set bit is a power of two. */
  lemma {:induction false} WindowLowest(x: nat, lo: nat, i: nat)
    requires lo <= i && BitAt(x, i) == 1
    requires forall t :: lo <= t < i ==> BitAt(x, t) == 0
    ensures Window(x, lo, i + 1) == Pow2(i - lo)
    decreases i - lo
  {
    if lo < i {
      WindowLowest(x, lo + 1, i);
    } else {
      assert Window(x, i + 1, i + 1) == 0;
    }
  }

  /** The state of the doubling loop after the bits of x above position j
      have been read, starting from position top. */
  predicate FibState(x: nat, top: int, j: int, mask: nat, a: nat, b: nat)
  {
    -1 <= j <= top
    && mask == (if j >= 0 then Pow2(j) else 0)
    && a == Fib(Window(x, j + 1, top + 1))
    && b == Fib(Window(x, j + 1, top + 1) + 1)
  }

  /** The loop shared by fibx and fib.  With (a, b) = (F(k), F(k+1)) for the
      bits read so far, one step computes F(2k) = F(k)(2F(k+1) - F(k)) and
      F(2k+1) = F(k)^2 + F(k+1)^2, then, when the mask's bit of x is set,
      moves on to (F(2k+1), F(2k+2)).  The mask starts at bit top (or at
      zero, and then nothing is read). */
  method Doubling(x: nat, mask0: nat, ghost top: int) returns (a: nat)
    requires -1 <= top
    requires mask0 == if top >= 0 then Pow2(top) else 0
    ensures a == Fib(Window(x, 0, top + 1))
  {
    a := 0;
    var b: nat := 1;
    var mask := mask0;
    ghost var j := top;
    assert Window(x, top + 1, top + 1) == 0;
    while mask > 0
      invariant FibState(x, top, j, mask, a, b)
      decreases j + 1
    {
      a, b := DoublingStep(x, top, j, mask, a, b);
      if j == 0 {
        assert Pow2(0) == 1;
      } else {
        assert Pow2(j) == 2 * Pow2(j - 1);
      }
      mask := mask / 2;
      j := j - 1;
    }
  }

  /** One pass of the doubling loop's body, before the mask moves. */
  method DoublingStep(x: nat, ghost top: int, ghost j: int, mask: nat, a: nat, b: nat)
    returns (a': nat, b': nat)
    requires FibState(x, top, j, mask, a, b) && mask > 0
    ensures j >= 0
    ensures a' == Fib(Window(x, j, top + 1)) && b' == Fib(Window(x, j, top + 1) + 1)
  {
    ghost var k := Window(x, j + 1, top + 1);
    ghost var k' := Window(x, j, top + 1);
    assert k' == 2 * k + BitAt(x, j);
    FibDouble(k);
    var d := a * Monus(2 * b, a);
    var e := a * a + b * b;
    assert d == Fib(2 * k) && e == Fib(2 * k + 1);
    MaskBit(x, j);
    if Bitwise(And, mask, x) != 0 {
      assert Fib(2 * k + 2) == d + e;
      a', b' := e, d + e;
    } else {
      a', b' := d, e;
    }
  }

  /** The mask's bit test reads bit j of x. */
  lemma {:induction false} MaskBit(x: nat, j: nat)
    ensures Bitwise(And, Pow2(j), x) != 0 <==> BitAt(x, j) == 1
  {
    AndPow2(x, j);
    BitwiseComm(And, Pow2(j), x);
  }

  /** fibx(n) = F(n) for n >= 1; the mask starts at the most significant bit
      of n (the source's floor(log2(n)), which has no value for n = 0). */
  method FibX(n: Word) returns (r: nat)
    requires n >= 1
    ensures r == Fib(n)
  {
    BitLengthBounds(n);
    var top := BitLength(n) - 1;
    r := Doubling(n, Pow2(top), top);
    WindowAll(n, top + 1);
  }

  // ---------------------------------------------------------------------
  // The lowest set bit

  /** first1mask(x) and findfirst1(x): x & ~(x - 1).  The complement is
      taken within the bits of x, which is all the AND can see. */
  function First1Mask(x: nat): nat
  {
    Bitwise(And, x, BitNot(Monus(x, 1), BitLength(x)))
  }

  /** Complementary bits have no bit in common. */
  lemma {:induction false} AndNot(h: nat, k: nat)
    ensures Bitwise(And, h, BitNot(h, k)) == 0
    decreases k
  {
    BitwiseUnfold(And, h, BitNot(h, k));
    if k == 0 {
      BitwiseZero(And, h);
    } else {
      AndNot(h / 2, k - 1);
    }
  }

  /** AND of a power of two with itself. */
  lemma {:induction false} AndSelfPow2(i: nat)
    ensures Bitwise(And, Pow2(i), Pow2(i)) == Pow2(i)
  {
    AndPow2(Pow2(i), i);
    MulPow2DivMod(1, i);
  }

  /** x & ~(x - 1) isolates the lowest set bit. */
  lemma {:induction false} First1MaskValue(x: nat)
    ensures x == 0 ==> First1Mask(x) == 0
    ensures x >= 1 ==> First1Mask(x) == Pow2(LowIndex(x))
  {
    if x == 0 {
      BitwiseZero(And, BitNot(0, 0));
    } else {
      var i, h, K := ComplementOfPredecessor(x);
      Pow2Strict(i, i + 1);
      BitwiseSplit(And, Pow2(i), h, Pow2(i), BitNot(h, K), i + 1);
      AndSelfPow2(i);
      AndNot(h, K);
    }
  }

  /** Writing x as 2^(i+1) h + 2^i, with i its lowest set bit, the
      complement of x - 1 within the bits of x is 2^(i+1) h' + 2^i, where h'
      is the complement of h within the remaining K bits. */
  lemma {:induction false} ComplementOfPredecessor(x: nat) returns (i: nat, h: nat, K: nat)
    requires x >= 1
    ensures i == LowIndex(x)
    ensures x == Join(Pow2(i), h, i + 1)
    ensures BitNot(Monus(x, 1), BitLength(x)) == Join(Pow2(i), BitNot(h, K), i + 1)
  {
    i := LowIndex(x);
    var L := BitLength(x);
    LowIndexSpec(x);
    BitLengthBounds(x);
    DivModBasics(x, Pow2(i + 1));
    var high: int := x / Pow2(i + 1);
    h := high;
    LowestSplit(x, i);
    Pow2Reflect(i, L) by {
      assert Pow2(i) <= x;
    }
    K := L - i - 1;
    Pow2Add(i + 1, K);
    HighBelow(x, h, i, K);
    BitNotValue(x - 1, L);
    BitNotValue(h, K);
    assert Pow2(i + 1) == 2 * Pow2(i);
    ComplementSplit(x, h, Pow2(i), Pow2(i + 1), Pow2(K), Pow2(L), BitNot(h, K));
  }

  /** A positive number is 2^(i+1) h + 2^i, i its lowest set bit. */
  lemma {:induction false} LowestSplit(x: nat, i: nat)
    requires BitAt(x, i) == 1 && x % Pow2(i) == 0
    ensures x == Pow2(i) + Pow2(i + 1) * (x / Pow2(i + 1))
  {
    var p: int := Pow2(i);
    var u: int := x / p;
    DivModBasics(x, p);
    DivModBasics(u, 2);
    Pow2DivDiv(x, i, 1);
    assert Pow2(1) == 2;
    assert Pow2(i + 1) == 2 * p;
    LowestArith(x, p, u, u / 2, Pow2(i + 1));
  }

  lemma {:induction false} LowestArith(x: int, p: int, u: int, v: int, pp: int)
    requires x == p * u && u == 2 * v + 1 && pp == 2 * p
    ensures x == p + pp * v
  {
  }

  /** The high part of x lies below the top of its bit length. */
  lemma {:induction false} HighBelow(x: nat, h: nat, i: nat, K: nat)
    requires x == Pow2(i) + Pow2(i + 1) * h && x < Pow2(i + 1 + K)
    requires Pow2(i + 1 + K) == Pow2(i + 1) * Pow2(K)
    ensures h < Pow2(K)
  {
    if h >= Pow2(K) {
      MulMonotone(Pow2(i + 1), Pow2(K), h);
    }
  }

  /** The complement of x - 1 in L bits, in terms of the complement of the
      high part. */
  lemma {:induction false} ComplementSplit(x: int, h: int, p: int, pp: int, pk: int, pl: int, nh: int)
    requires x == p + pp * h && pp == 2 * p && pl == pp * pk && nh == pk - 1 - h
    ensures pl - 1 - (x - 1) == p + pp * nh
  {
  }

  /** One round of the loop of first1index: a mask that misses x lies below
      the lowest set bit, and doubling it tests the next bit. */
  lemma {:induction false} First1Step(x: nat, count: nat, mask: nat)
    requires x >= 1 && mask == Pow2(count) && count <= LowIndex(x)
    requires Bitwise(And, x, mask) == mask * BitAt(x, count) && Bitwise(And, x, mask) == 0
    ensures count + 1 <= LowIndex(x) && mask * 2 == Pow2(count + 1)
    ensures Bitwise(And, x, mask * 2) == mask * 2 * BitAt(x, count + 1)
  {
    LowIndexSpec(x);
    ZeroFactor(mask, BitAt(x, count));
    AndPow2(x, count + 1);
  }

  lemma {:induction false} ZeroFactor(a: int, b: int)
    requires a >= 1 && a * b == 0
    ensures b == 0
  {
  }

  /** first1index(x): -1 for zero, otherwise the index of the lowest set bit,
      found by moving a one-bit mask up until it meets a set bit. */
  method First1Index(x: nat) returns (r: int)
    ensures x == 0 ==> r == -1
    ensures x >= 1 ==> r >= 0 && BitAt(x, r) == 1 && forall t :: 0 <= t < r ==> BitAt(x, t) == 0
    ensures x >= 1 ==> Pow2(r) == First1Mask(x)
  {
    if x == 0 {
      return -1;
    }
    LowIndexSpec(x);
    var count: nat := 0;
    var mask: nat := 1;
    AndPow2(x, 0);
    while Bitwise(And, x, mask) == 0
      invariant mask == Pow2(count) && count <= LowIndex(x)
      invariant Bitwise(And, x, mask) == mask * BitAt(x, count)
      decreases LowIndex(x) - count
    {
      First1Step(x, count, mask);
      mask := mask * 2;
      count := count + 1;
    }
    r := count;
    First1MaskValue(x);
  }

  /** fib(x) in both variants: the doubling loop started at the lowest set
      bit of x, which reads only that bit, so the result is F(first1mask(x)). */
  method FibLowest(x: nat) returns (r: nat)
    ensures r == Fib(First1Mask(x))
  {
    First1MaskValue(x);
    var mask := First1Mask(x);
    if x == 0 {
      r := Doubling(x, mask, -1);
    } else {
      LowIndexSpec(x);
      var i := LowIndex(x);
      r := Doubling(x, mask, i);
      WindowLowest(x, 0, i);
    }
  }

  /** fib(3) as written: the loop starts at bit 0, the lowest set bit of 3,
      and returns F(1) = 1 rather than the third Fibonacci number F(3) = 2. */
  lemma {:induction false} FibLowestCounterexample()
    ensures Fib(First1Mask(3)) == 1 && Fib(3) == 2
  {
    First1MaskValue(3);
    assert LowIndex(3) == 0;
    assert Pow2(0) == 1;
  }

  // ---------------------------------------------------------------------
  // Functions of single kernel operators

  /** sqrx(x) = x * x. */
  method SqrX(x: seq<Word>) returns (r: seq<Word>)
    ensures Val(r) == Val(x) * Val(x)
    ensures Normalized(r)
  {
    r := Times(x, x);
  }

  /** exp2x(n) = 1 << n: 2^n in n / 32 + 1 words. */
  function Exp2X(n: Word): (r: seq<Word>)
    ensures Val(r) == Pow2(n)
    ensures Normalized(r) && |r| == n / 32 + 1
  {
    assert BitLength(1) == 1 by {
      assert BitLength(0) == 0;
    }
    ShiftLeft(FromUint32(1), n)
  }

  /** The size the shift in exp2x(n) grows to, as the source computes it,
      is the size of 2^n exactly when n < 2^32 - 32; from there on the
      buffer is too small for the result. */
  lemma {:induction false} Exp2XSizeAgrees(n: Word)
    ensures GrowSizeAsWritten(FromUint32(1), n) == |Exp2X(n)| <==> n < BASE - 32
  {
    assert BitLength(1) == 1 by {
      assert BitLength(0) == 0;
    }
    assert BitCount(FromUint32(1)) == 1;
    GrowSizeAgrees(FromUint32(1), n);
  }

  /** maxx(x, y): x when x >= y, otherwise y. */
  function MaxX(x: seq<Word>, y: seq<Word>): (r: seq<Word>)
    requires |x| == |y| ==> |x| >= 1
    ensures r == x || r == y
    ensures Normalized(x) && Normalized(y) ==> Val(r) >= Val(x) && Val(r) >= Val(y)
    ensures Normalized(x) && Normalized(y) && Val(x) == Val(y) ==> r == x
  {
    if GreaterEq(x, y) then x else y
  }

  /** minx(x, y): x when x <= y, otherwise y. */
  function MinX(x: seq<Word>, y: seq<Word>): (r: seq<Word>)
    requires |x| == |y| ==> |x| >= 1
    ensures r == x || r == y
    ensures Normalized(x) && Normalized(y) ==> Val(r) <= Val(x) && Val(r) <= Val(y)
    ensures Normalized(x) && Normalized(y) && Val(x) == Val(y) ==> r == x
  {
    if LessEq(x, y) then x else y
  }
}
