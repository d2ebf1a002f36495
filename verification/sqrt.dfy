/** sqrtx: the floor of the square root, decided one bit at a time from the
    top.  n holds the bits of the root decided so far and n2 its square; m
    is the next bit to try and m2 its square; q = n | m is the candidate and
    q2 its square, formed from n2, n shifted and m2 without a
    multiplication.  The loop keeps n^2 <= x below the square of n plus the
    weight of the last decided bit. */
module Sqrt {
  import opened Bits
  import opened Mul
  import opened Maths

  /** r is the floor of the square root of x. */
  predicate IsRoot(r: nat, x: nat)
  {
    r * r <= x < (r + 1) * (r + 1)
  }

  /** a << k and a >> k on values. */
  function Shl(a: nat, k: nat): nat
  {
    a * Pow2(k)
  }

  function Shr(a: nat, k: nat): nat
  {
    DivModBasics(a, Pow2(k));
    a / Pow2(k)
  }

  /** The two shift distances the loop uses. */
  lemma {:induction false} SmallShifts(a: nat)
    ensures Shr(a, 1) == a / 2 && Shr(a, 2) == a / 4 && Shl(a, 0) == a
  {
    assert Pow2(2) == 4 && Pow2(1) == 2 && Pow2(0) == 1;
  }

  /** Squares grow with their roots. */
  lemma {:induction false} SquareBelow(a: nat, b: nat)
    requires a <= b
    ensures a * a <= b * b
  {
    MulBelow(a, a, b, b);
  }

  /** The floor of the square root is unique. */
  lemma {:induction false} RootUnique(r: nat, s: nat, x: nat)
    requires IsRoot(r, x) && IsRoot(s, x)
    ensures r == s
  {
    if r < s {
      SquareBelow(r + 1, s);
    } else if s < r {
      SquareBelow(s + 1, r);
    }
  }

  /** The floor of the square root as a reference definition, independent
      of the bit-by-bit loop: twice the root of x / 4 is the root of x or
      one below it. */
  function FloorSqrt(x: nat): (r: nat)
    ensures IsRoot(r, x)
    decreases x
  {
    if x == 0 then 0
    else
      QuarterSmaller(x);
      var s := FloorSqrt(x / 4);
      var h := 2 * s;
      var r := if (h + 1) * (h + 1) <= x then h + 1 else h;
      RootStep(x, s, r);
      r
  }

  /** x / 4 is a smaller natural when x is positive. */
  lemma {:induction false} QuarterSmaller(x: nat)
    requires x >= 1
    ensures 0 <= x / 4 < x
  {
  }

  /** The step of FloorSqrt: from the root s of x / 4, the root of x is
      2s + 1 when its square fits and 2s otherwise. */
  lemma {:induction false} RootStep(x: int, s: int, r: int)
    requires 0 <= x && 0 <= s && s * s <= x / 4 < (s + 1) * (s + 1)
    requires r == if (2 * s + 1) * (2 * s + 1) <= x then 2 * s + 1 else 2 * s
    ensures r * r <= x < (r + 1) * (r + 1)
  {
    QuarterRoot(x, x / 4, s);
  }

  /** The arithmetic of FloorSqrt. */
  lemma {:induction false} QuarterRoot(x: int, q: int, s: int)
    requires 0 <= x && 0 <= s && q == x / 4 && s * s <= q < (s + 1) * (s + 1)
    ensures (2 * s) * (2 * s) <= x < (2 * s + 2) * (2 * s + 2)
  {
    assert (2 * s) * (2 * s) == 4 * (s * s);
    assert (2 * s + 2) * (2 * s + 2) == 4 * ((s + 1) * (s + 1));
  }

  /** The loop state of sqrtx with counter j.  While j >= 2 the next bit to
      try is m = 2^(j-2) and every square is exact; from j = 1 on, n is the
      root, m is zero, and q2 and possibly n2 hold n^2 + n (the formula for
      q2 read with m = 0). */
  predicate SqrtState(x: nat, j: int, n: nat, n2: nat, m: nat, m2: nat, q: nat, q2: nat)
  {
    -1 <= j
    && (j >= 1 ==> n % Pow2(j - 1) == 0 && n * n <= x < (n + Pow2(j - 1)) * (n + Pow2(j - 1)))
    && (j <= 1 ==> IsRoot(n, x))
    && (j >= 2 ==> m == Pow2(j - 2) && m2 == m * m && n2 == n * n && q == n + m && q2 == q * q)
    && (j <= 1 ==> m == 0 && m2 == 0 && q == n && q2 == n * n + n)
    && (j == 1 ==> n2 == n * n)
    && (j <= 0 ==> n2 == n * n || n2 == n * n + n)
  }

  /** (a + b)^2 with b half of c: a^2 + a c + b^2. */
  lemma {:induction false} SquareSum(a: int, b: int, c: int)
    requires c == 2 * b
    ensures (a + b) * (a + b) == a * a + a * c + b * b
  {
  }

  /** The square of twice a number is four times its square. */
  lemma {:induction false} SquareDouble(b: int, c: int)
    requires c == 2 * b
    ensures c * c == 4 * (b * b)
  {
  }

  /** A multiple of M times M is a multiple of M^2. */
  lemma {:induction false} MultipleTimes(n: nat, c: nat, M: nat)
    requires n == M * c
    ensures n * M == (M * M) * c
  {
  }

  /** After the bit of weight M has been decided, the next bit is m = M / 2
      with m2 = M2 / 4, and the candidate q = n | m and its square
      q2 = n2 + ((n << (j-1)) | m2) are as SqrtState describes. */
  lemma {:induction false} Refill(j: int, n: nat, n2: nat, M: nat, M2: nat, m: nat, m2: nat, q: nat, q2: nat)
    requires j >= 1 && M == Pow2(j - 1) && M2 == M * M && n % M == 0 && n2 == n * n
    requires m == Shr(M, 1) && m2 == Shr(M2, 2) && q == Bitwise(Or, n, m)
    requires q2 == n2 + Bitwise(Or, Shl(n, j - 1), m2)
    ensures j >= 2 ==> m == Pow2(j - 2) && m2 == m * m && q == n + m && q2 == q * q
    ensures j == 1 ==> m == 0 && m2 == 0 && q == n && q2 == n * n + n
  {
    SmallShifts(M);
    SmallShifts(M2);
    if j == 1 {
      assert M == 1 && M2 == 1;
      SmallShifts(n);
      BitwiseZero(Or, n);
    } else {
      var k: nat := j - 2;
      assert M == 2 * Pow2(k);
      assert m == Pow2(k);
      SquareDouble(m, M);
      assert m2 == m * m;
      Candidate(k, n, n2, M, m, m2, q, q2);
    }
  }

  /** The candidate n | m is n + m, and n2 + ((n << (k+1)) | m2) is its
      square, because n is a multiple of 2 m = 2^(k+1). */
  lemma {:induction false} Candidate(k: nat, n: nat, n2: nat, M: nat, m: nat, m2: nat, q: nat, q2: nat)
    requires M == Pow2(k + 1) && m == Pow2(k) && m2 == m * m && n % M == 0 && n2 == n * n
    requires q == Bitwise(Or, n, m) && q2 == n2 + Bitwise(Or, Shl(n, k + 1), m2)
    ensures q == n + m && q2 == q * q
  {
    Pow2Strict(k, k + 1);
    OrDisjoint(n, m, k + 1);
    Pow2Add(k, k);
    Pow2Add(k + 1, k + 1);
    var P: int := M * M;
    DivModBasics(n, M);
    var c: nat := n / M;
    MultipleTimes(n, c, M);
    ModMultiple(c, P);
    Pow2Strict(k + k, (k + 1) + (k + 1));
    OrDisjoint(Shl(n, k + 1), m2, (k + 1) + (k + 1));
    SquareSum(n, m, M);
  }

  /** The state before the loop: j = floor(log2 x) / 2 + 1 makes 2^(j-1) the
      highest bit the root can have. */
  lemma {:induction false} SqrtStart(x: nat, L: nat, j: int, n: nat, n2: nat, m: nat, m2: nat, q: nat, q2: nat)
    requires Pow2(L) <= x < Pow2(L + 1) && j == L / 2 + 1
    requires n == Shr(Shl(1, j), 1) && n2 == Shr(Shl(Shl(1, j), j), 2)
    requires m == Shr(n, 1) && m2 == Shr(n2, 2) && q == Bitwise(Or, n, m)
    requires q2 == n2 + Bitwise(Or, Shl(n, j - 1), m2)
    ensures SqrtState(x, j, n, n2, m, m2, q, q2)
  {
    var k: nat := j - 1;
    SmallShifts(Shl(1, j));
    SmallShifts(Shl(Shl(1, j), j));
    assert Pow2(j) == 2 * Pow2(k);
    assert n == Pow2(k);
    SquareDouble(n, Pow2(j));
    assert n2 == n * n;
    MulPow2DivMod(1, k);
    Refill(j, n, n2, n, n2, m, m2, q, q2);
    StartBound(x, L, k, n);
  }

  /** The root lies between 2^k and 2^(k+1) for k = floor(log2 x) / 2. */
  lemma {:induction false} StartBound(x: nat, L: nat, k: nat, n: nat)
    requires Pow2(L) <= x < Pow2(L + 1) && k == L / 2 && n == Pow2(k)
    ensures n * n <= x < (n + n) * (n + n)
  {
    Pow2Add(k, k);
    Pow2Monotone(k + k, L);
    Pow2Monotone(L + 1, (k + 1) + (k + 1));
    Pow2Add(k + 1, k + 1);
    assert n + n == Pow2(k + 1);
  }

  /** One pass of the loop of sqrtx: take the candidate when its square is
      at most x, move m and m2 down one bit, and form the next candidate. */
  method SqrtStep(x: nat, j: int, n: nat, n2: nat, m: nat, m2: nat, q: nat, q2: nat)
    returns (j': int, n': nat, n2': nat, m': nat, m2': nat, q': nat, q2': nat)
    requires SqrtState(x, j, n, n2, m, m2, q, q2) && j >= 0 && n2 != x
    ensures SqrtState(x, j', n', n2', m', m2', q', q2') && j' == j - 1
  {
    n' := if q2 <= x then q else n;
    n2' := if q2 <= x then q2 else n2;
    m' := Shr(m, 1);
    m2' := Shr(m2, 2);
    q' := Bitwise(Or, n', m');
    j' := j - 1;
    q2' := if j' > 0 then n2' + Bitwise(Or, Shl(n', j' - 1), m2') else q2;
    StepKeeps(x, j, n, n2, m, m2, q, q2, n', n2', m', m2', q', q2');
  }

  /** A pass of the loop keeps its state. */
  lemma {:induction false} StepKeeps(x: nat, j: int, n: nat, n2: nat, m: nat, m2: nat, q: nat, q2: nat,
                  n': nat, n2': nat, m': nat, m2': nat, q': nat, q2': nat)
    requires SqrtState(x, j, n, n2, m, m2, q, q2) && j >= 0
    requires n' == (if q2 <= x then q else n) && n2' == (if q2 <= x then q2 else n2)
    requires m' == Shr(m, 1) && m2' == Shr(m2, 2) && q' == Bitwise(Or, n', m')
    requires q2' == if j - 1 > 0 then n2' + Bitwise(Or, Shl(n', j - 1 - 1), m2') else q2
    ensures SqrtState(x, j - 1, n', n2', m', m2', q', q2')
  {
    if j >= 2 {
      StepHigh(x, j, n, n2, m, m2, q, q2, n', n2', m', m2', q', q2');
    } else {
      StepLow(x, j, n, n2, m, m2, q, q2, n', n2', m', m2', q', q2');
    }
  }

  /** A pass with j >= 2 decides the bit m. */
  lemma {:induction false} StepHigh(x: nat, j: int, n: nat, n2: nat, m: nat, m2: nat, q: nat, q2: nat,
                 n': nat, n2': nat, m': nat, m2': nat, q': nat, q2': nat)
    requires SqrtState(x, j, n, n2, m, m2, q, q2) && j >= 2
    requires n' == (if q2 <= x then q else n) && n2' == (if q2 <= x then q2 else n2)
    requires m' == Shr(m, 1) && m2' == Shr(m2, 2) && q' == Bitwise(Or, n', m')
    requires q2' == n2' + Bitwise(Or, Shl(n', j - 2), m2')
    ensures SqrtState(x, j - 1, n', n2', m', m2', q', q2')
  {
    Decide(x, j, n, m, n');
    Refill(j - 1, n', n2', m, m2, m', m2', q', q2');
  }

  /** A pass with j <= 1 keeps n, which is already the root. */
  lemma {:induction false} StepLow(x: nat, j: int, n: nat, n2: nat, m: nat, m2: nat, q: nat, q2: nat,
                n': nat, n2': nat, m': nat, m2': nat, q': nat, q2': nat)
    requires SqrtState(x, j, n, n2, m, m2, q, q2) && 0 <= j <= 1
    requires n' == (if q2 <= x then q else n) && n2' == (if q2 <= x then q2 else n2)
    requires m' == Shr(m, 1) && m2' == Shr(m2, 2) && q' == Bitwise(Or, n', m') && q2' == q2
    ensures SqrtState(x, j - 1, n', n2', m', m2', q', q2')
  {
    SmallShifts(0);
    BitwiseZero(Or, n);
  }

  /** Deciding the bit of weight m = 2^(j-2) keeps the bound with the
      weight halved. */
  lemma {:induction false} Decide(x: nat, j: int, n: nat, m: nat, n': nat)
    requires j >= 2 && m == Pow2(j - 2)
    requires n % Pow2(j - 1) == 0 && n * n <= x < (n + Pow2(j - 1)) * (n + Pow2(j - 1))
    requires n' == n || n' == n + m
    requires n' == n + m <==> (n + m) * (n + m) <= x
    ensures n' % m == 0 && n' * n' <= x < (n' + m) * (n' + m)
  {
    var k: nat := j - 2;
    assert Pow2(j - 1) == 2 * m;
    DivModBasics(n, 2 * m);
    var c: nat := n / (2 * m);
    HalfMultiple(n, c, m);
    if n' == n + m {
      assert n + Pow2(j - 1) == n' + m;
    }
  }

  lemma {:induction false} HalfMultiple(n: int, c: nat, m: int)
    requires m > 0 && n == 2 * m * c
    ensures n % m == 0 && (n + m) % m == 0
  {
    assert n == m * (2 * c);
    assert n + m == m * (2 * c + 1);
    ModMultiple(2 * c, m);
    ModMultiple(2 * c + 1, m);
  }

  /** The root of a positive x, as the loop of sqrtx computes it; the
      source's log2x(x) is taken to be floor(log2 x). */
  method Root(x: nat) returns (n: nat)
    requires x >= 1
    ensures IsRoot(n, x)
  {
    var j, n2, m, m2, q, q2;
    j, n, n2, m, m2, q, q2 := SqrtInit(x);
    while j >= 0 && n2 != x
      invariant SqrtState(x, j, n, n2, m, m2, q, q2)
      decreases j
    {
      j, n, n2, m, m2, q, q2 := SqrtStep(x, j, n, n2, m, m2, q, q2);
    }
    SqrtExit(x, j, n, n2, m, m2, q, q2);
  }

  /** The statements of sqrtx before its loop. */
  method SqrtInit(x: nat) returns (j: int, n: nat, n2: nat, m: nat, m2: nat, q: nat, q2: nat)
    requires x >= 1
    ensures SqrtState(x, j, n, n2, m, m2, q, q2)
  {
    BitLengthBounds(x);
    var L := BitLength(x) - 1;
    j := L / 2 + 1;
    n := Shl(1, j);
    n2 := Shl(n, j);
    n := Shr(n, 1);
    n2 := Shr(n2, 2);
    m := Shr(n, 1);
    m2 := Shr(n2, 2);
    q := Bitwise(Or, n, m);
    q2 := n2 + Bitwise(Or, Shl(n, j - 1), m2);
    SqrtStart(x, L, j, n, n2, m, m2, q, q2);
  }

  /** The loop stops with the root in n: either j has run out, or n^2 = x. */
  lemma {:induction false} SqrtExit(x: nat, j: int, n: nat, n2: nat, m: nat, m2: nat, q: nat, q2: nat)
    requires SqrtState(x, j, n, n2, m, m2, q, q2) && !(j >= 0 && n2 != x)
    ensures IsRoot(n, x)
  {
    if j >= 2 {
      SquareSum(n, 1, 2);
    }
  }

  /** sqrtx(x): NaN is returned as it is; otherwise the floor of the square
      root of x, for x >= 1. */
  method SqrtX(x: Num) returns (r: Num)
    requires x.Finite? ==> x.n >= 1
    ensures x.NaN? ==> r.NaN?
    ensures x.Finite? ==> r.Finite? && IsRoot(r.n, x.n)
  {
    if x.NaN? {
      r := x;
    } else {
      var n := Root(x.n);
      r := Finite(n);
    }
  }
}
