/** Division and remainder: operator/ and operator%.  Both move a window,
    the divisor shifted up, above the dividend by doubling it, then halve it
    back down to the divisor, subtracting it wherever it fits. */
module Divide {
  import opened Bits
  import opened Words
  import opened Store
  import opened Compare
  import opened Add
  import opened Shift
  import opened Sub

  /** The window is the divisor times p = 2^k; doubling it doubles p. */
  lemma {:induction false} WindowDouble(vz: int, p: int, vw: int, k: nat)
    requires p == Pow2(k) && vw == vz * p
    ensures Pow2(k + 1) == 2 * p && 2 * vw == vz * (2 * p) && Pow2(1) == 2
  {
    MulDouble(vz, p, 2 * p);
  }

  /** A window above the divisor has k >= 1, and halving it halves p. */
  lemma {:induction false} WindowHalve(vz: int, p: int, vw: int, k: nat)
    requires vz >= 1 && p == Pow2(k) && vw == vz * p && vw > vz
    ensures k >= 1 && p == 2 * Pow2(k - 1)
    ensures vw / Pow2(1) == vz * Pow2(k - 1) && vw == 2 * (vz * Pow2(k - 1)) && Pow2(1) == 2
  {
    MulDouble(vz, Pow2(k - 1), p);
  }

  /** A window not above the divisor is the divisor itself. */
  lemma {:induction false} WindowBottom(vz: int, p: int, vw: int, k: nat)
    requires vz >= 1 && p == Pow2(k) && vw == vz * p && vw <= vz
    ensures k == 0 && vw == vz
  {
    if k >= 1 {
      MulMonotone(vz, 2, p);
    }
  }

  /** The window starts at the divisor shifted by the difference of the bit
      counts, which a dividend at least the divisor makes nonnegative. */
  lemma {:induction false} StartShift(y: seq<Word>, z: seq<Word>)
    requires Normalized(y) && Normalized(z) && Val(y) >= Val(z)
    ensures BitCount(y) >= BitCount(z)
  {
    BitLengthMonotone(Val(z), Val(y));
  }

  /** The quotient step: the window halves, the quotient doubles, and the
      window is subtracted when it fits under the remainder, which sets the
      quotient's new low bit. */
  lemma {:induction false} QuotientStep(vy: int, q: int, w: int, r: int, w2: int, q2: int, r2: int)
    requires vy == q * w + r && 0 <= r < w && w == 2 * w2
    requires w2 <= r ==> q2 == 2 * q + 1 && r2 == r - w2
    requires r < w2 ==> q2 == 2 * q && r2 == r
    ensures vy == q2 * w2 + r2 && 0 <= r2 < w2
  {
  }

  /** `x <<= 1` on a normalized vector. */
  method Double(x: seq<Word>) returns (r: seq<Word>)
    requires Normalized(x)
    ensures Normalized(r) && Val(r) == 2 * Val(x)
  {
    assert Pow2(1) == 2;
    r := ShiftLeft(x, 1);
  }

  /** `x >>= 1`. */
  method Halve(x: seq<Word>) returns (r: seq<Word>)
    ensures Normalized(r) && Val(r) == Val(x) / 2
  {
    assert Pow2(1) == 2;
    r := ShiftRight(x, 1);
  }

  /** `x <<= d` on a normalized vector. */
  method Scale(x: seq<Word>, d: nat) returns (r: seq<Word>)
    requires Normalized(x)
    ensures Normalized(r) && Val(r) == Val(x) * Pow2(d)
  {
    r := ShiftLeft(x, d);
  }

  /** `x -= y` where y is at most x. */
  method Less(x: seq<Word>, y: seq<Word>) returns (r: seq<Word>)
    requires Normalized(x) && Normalized(y) && Val(y) <= Val(x)
    ensures Normalized(r) && Val(r) == Val(x) - Val(y)
  {
    r := SubAssign(x, y);
  }

  /** `x += 1U`. */
  method Increment(x: seq<Word>) returns (r: seq<Word>)
    requires Normalized(x)
    ensures Normalized(r) && Val(r) == Val(x) + 1
  {
    r := AddAssign(x, FromUint32(1));
  }

  /** The doubling loop of operator/ and operator%: the window, the divisor
      times 2^k, doubles until it exceeds the dividend y. */
  method Widen(y: seq<Word>, z: seq<Word>, w0: seq<Word>, ghost k0: nat) returns (w: seq<Word>, ghost k: nat)
    requires Normalized(y) && Normalized(w0) && Val(w0) >= 1 && Val(w0) == Val(z) * Pow2(k0)
    ensures Normalized(w) && Val(w) == Val(z) * Pow2(k) && k >= k0
    ensures Val(w) == WindowTop(Val(y), Val(w0)) && Val(w) > Val(y)
  {
    w, k := w0, k0;
    while LessEq(w, y)
      invariant Normalized(w) && Val(w) >= 1 && Val(w) == Val(z) * Pow2(k) && k >= k0
      invariant WindowTop(Val(y), Val(w)) == WindowTop(Val(y), Val(w0))
      decreases Val(y) + 1 - Val(w)
    {
      WindowDouble(Val(z), Pow2(k), Val(w), k);
      w := Double(w);
      k := k + 1;
    }
  }

  /** The state of the halving loop of operator/: the window is the divisor
      times 2^k, and the dividend is the quotient so far times the window
      plus a remainder below the window. */
  predicate DivState(y: seq<Word>, z: seq<Word>, q: seq<Word>, r: seq<Word>, w: seq<Word>, k: nat)
  {
    && Normalized(w) && Normalized(q) && Normalized(r) && Val(z) >= 1
    && Val(w) == Val(z) * Pow2(k) && Val(r) < Val(w) && Val(y) == Val(q) * Val(w) + Val(r)
  }

  /** One round of the halving loop of operator/: the quotient doubles, the
      window halves, and where the window fits under the remainder it is
      subtracted and the quotient's new bit set. */
  method DivStep(y: seq<Word>, z: seq<Word>, q: seq<Word>, r: seq<Word>, w: seq<Word>, ghost k: nat)
    returns (q': seq<Word>, r': seq<Word>, w': seq<Word>, ghost k': nat)
    requires DivState(y, z, q, r, w, k) && Val(w) > Val(z)
    ensures DivState(y, z, q', r', w', k') && k' < k
  {
    WindowHalve(Val(z), Pow2(k), Val(w), k);
    w' := Halve(w);
    k' := k - 1;
    var doubled := Double(q);
    ghost var vy, vq, vw, vr, h := Val(y), Val(q), Val(w), Val(r), Val(w');
    assert vw == 2 * h;
    if LessEq(w', r) {
      r' := Less(r, w');
      q' := Increment(doubled);
      QuotientStep(vy, vq, vw, vr, h, Val(q'), Val(r'));
    } else {
      q', r' := doubled, r;
      QuotientStep(vy, vq, vw, vr, h, Val(q'), Val(r'));
    }
  }

  /** The body of operator/ for a dividend at least the divisor: the window
      starts at the divisor shifted to the dividend's bit count, doubles
      past the dividend, and halves back down to the divisor. */
  method LongDivide(y: seq<Word>, z: seq<Word>) returns (q: seq<Word>, r: seq<Word>)
    requires Normalized(y) && Normalized(z) && Val(z) > 0 && Val(y) >= Val(z)
    ensures Normalized(q) && Val(y) == Val(z) * Val(q) + Val(r) && Val(r) < Val(z)
  {
    StartShift(y, z);
    var start := BitCount(y) - BitCount(z);
    MulMonotone(Val(z), 1, Pow2(start));
    var w0 := Scale(z, start);
    var w, k := Widen(y, z, w0, start);
    q, r := FromUint32(0), y;
    while Greater(w, z)
      invariant DivState(y, z, q, r, w, k)
      decreases k
    {
      q, r, w, k := DivStep(y, z, q, r, w, k);
    }
    WindowBottom(Val(z), Pow2(k), Val(w), k);
    assert Val(y) == Val(q) * Val(z) + Val(r);
  }

  /** operator/(y, z): the quotient rounded down.  A zero divisor makes the
      doubling loop run forever, so the divisor must be positive. */
  method Div(y: seq<Word>, z: seq<Word>) returns (q: seq<Word>)
    requires Normalized(y) && Normalized(z) && Val(z) > 0
    ensures Val(q) == Val(y) / Val(z)
    ensures Normalized(q)
  {
    if GreaterEq(y, z) {
      var r;
      q, r := LongDivide(y, z);
      DivModUnique(Val(y), Val(z), Val(q), Val(r));
    } else {
      q := FromUint32(0);
      DivModUnique(Val(y), Val(z), 0, Val(y));
    }
  }

  /** The number the first loop of operator% doubles the window to: the
      first multiple of the divisor by a power of two above the dividend. */
  function WindowTop(y: nat, w: nat): (r: nat)
    requires w >= 1
    ensures r > y && r >= w
    decreases y + 1 - w
  {
    if w <= y then WindowTop(y, 2 * w) else w
  }

  /** The second loop of operator% as written: the window halves down to
      the divisor, and is subtracted, saturating at zero, whenever it fits
      under the dividend y. */
  function RemDown(y: nat, z: nat, w: nat, result: nat): nat
    decreases w
  {
    if w > z then
      var w' := w / 2;
      RemDown(y, z, w', if w' <= y then (if w' >= result then 0 else result - w') else result)
    else result
  }

  /** The number operator% as written computes. */
  function RemAsWrittenVal(y: nat, z: nat): nat
    requires z >= 1
  {
    RemDown(y, z, WindowTop(y, z), y)
  }

  /** Doubling the divisor until it passes the dividend leaves the divisor
      times a power of two. */
  lemma {:induction false} WindowTopPower(y: nat, z: nat, w: nat, k: nat) returns (k': nat)
    requires z >= 1 && w == z * Pow2(k)
    ensures WindowTop(y, w) == z * Pow2(k')
    decreases y + 1 - w
  {
    if w <= y {
      WindowDouble(z, Pow2(k), w, k);
      k' := WindowTopPower(y, z, 2 * w, k + 1);
    } else {
      k' := k;
    }
  }

  /** The halving loop as written ends below the divisor and at most the
      dividend. */
  lemma {:induction false} RemDownBound(y: nat, z: nat, w: nat, result: nat, k: nat)
    requires z >= 1 && w == z * Pow2(k) && result < w && result <= y
    ensures RemDown(y, z, w, result) < z && RemDown(y, z, w, result) <= y
    decreases k
  {
    if w > z {
      WindowHalve(z, Pow2(k), w, k);
      var w' := w / 2;
      assert w' == z * Pow2(k - 1);
      MulMonotone(z, 1, Pow2(k - 1));
      var r' := if w' <= y then (if w' >= result then 0 else result - w') else result;
      RemDownBound(y, z, w', r', k - 1);
    } else {
      WindowBottom(z, Pow2(k), w, k);
    }
  }

  /** operator% as written stays below the divisor and at most the
      dividend, as a remainder does. */
  lemma RemAsWrittenBound(y: nat, z: nat)
    requires z >= 1
    ensures RemAsWrittenVal(y, z) < z && RemAsWrittenVal(y, z) <= y
  {
    var k := WindowTopPower(y, z, z, 0);
    RemDownBound(y, z, WindowTop(y, z), y, k);
  }

  /** The state of the halving loop of operator% as written: the window is
      the divisor times 2^k, the result is below the window and at most the
      dividend, and finishing the loop from here gives what the whole
      operator computes. */
  predicate RemWrittenState(y: seq<Word>, z: seq<Word>, result: seq<Word>, w: seq<Word>, k: nat)
  {
    && Normalized(w) && Normalized(result) && Val(z) >= 1
    && Val(w) == Val(z) * Pow2(k) && Val(result) < Val(w) && Val(result) <= Val(y)
    && RemDown(Val(y), Val(z), Val(w), Val(result)) == RemAsWrittenVal(Val(y), Val(z))
  }

  /** One round of the halving loop of operator% as written. */
  method RemWrittenStep(y: seq<Word>, z: seq<Word>, result: seq<Word>, w: seq<Word>, ghost k: nat)
    returns (result': seq<Word>, w': seq<Word>, ghost k': nat)
    requires Normalized(y) && RemWrittenState(y, z, result, w, k) && Val(w) > Val(z)
    ensures RemWrittenState(y, z, result', w', k') && k' < k
  {
    WindowHalve(Val(z), Pow2(k), Val(w), k);
    w' := Halve(w);
    k' := k - 1;
    if LessEq(w', y) {
      result' := SubAssign(result, w');
    } else {
      result' := result;
    }
  }

  /** operator%(y, z) as written.  The window is compared with the dividend
      y where the shrinking result is meant, so every window below y is
      subtracted from the result.  The result stays below the divisor and at
      most the dividend, and is the dividend when it is below the divisor,
      but it is not the remainder in general. */
  method RemAsWritten(y: seq<Word>, z: seq<Word>) returns (result: seq<Word>)
    requires Normalized(y) && Normalized(z) && Val(z) > 0
    ensures Normalized(result)
    ensures Val(result) == RemAsWrittenVal(Val(y), Val(z))
    ensures Val(result) < Val(z) && Val(result) <= Val(y)
    ensures Val(y) < Val(z) ==> result == y
  {
    result := y;
    var w, k := Widen(y, z, z, 0);
    while Greater(w, z)
      invariant RemWrittenState(y, z, result, w, k)
      decreases k
    {
      result, w, k := RemWrittenStep(y, z, result, w, k);
    }
    WindowBottom(Val(z), Pow2(k), Val(w), k);
    if Val(y) < Val(z) {
      NormalizedUnique(result, y);
    }
  }

  /** The state of the halving loop of the intended operator%: the window
      is the divisor times 2^k, and the dividend is c times the divisor plus
      a result below the window. */
  predicate RemState(y: seq<Word>, z: seq<Word>, result: seq<Word>, w: seq<Word>, k: nat, c: nat)
  {
    && Normalized(w) && Normalized(result) && Val(z) >= 1
    && Val(w) == Val(z) * Pow2(k) && Val(result) < Val(w) && Val(y) == c * Val(z) + Val(result)
  }

  /** The remainder step: subtracting the window z p, when it fits, adds p
      to the multiple of the divisor taken out. */
  lemma {:induction false} RemArith(vy: int, c: int, vz: int, r: int, h: int, p: int, c2: int, r2: int)
    requires vy == c * vz + r && 0 <= r < 2 * h && h == vz * p
    requires h <= r ==> c2 == c + p && r2 == r - h
    requires r < h ==> c2 == c && r2 == r
    ensures vy == c2 * vz + r2 && 0 <= r2 < h
  {
    assert (c + p) * vz == c * vz + vz * p;
  }

  /** One round of the halving loop of the intended operator%. */
  method RemStep(y: seq<Word>, z: seq<Word>, result: seq<Word>, w: seq<Word>, ghost k: nat, ghost c: nat)
    returns (result': seq<Word>, w': seq<Word>, ghost k': nat, ghost c': nat)
    requires RemState(y, z, result, w, k, c) && Val(w) > Val(z)
    ensures RemState(y, z, result', w', k', c') && k' < k
  {
    WindowHalve(Val(z), Pow2(k), Val(w), k);
    w' := Halve(w);
    k' := k - 1;
    if LessEq(w', result) {
      result' := Less(result, w');
      c' := c + Pow2(k');
    } else {
      result', c' := result, c;
    }
    RemArith(Val(y), c, Val(z), Val(result), Val(w'), Pow2(k'), c', Val(result'));
  }

  /** operator% with the window compared against the result, as intended:
      the remainder of the division. */
  method Rem(y: seq<Word>, z: seq<Word>) returns (result: seq<Word>)
    requires Normalized(y) && Normalized(z) && Val(z) > 0
    ensures Normalized(result)
    ensures Val(result) == Val(y) % Val(z)
  {
    result := y;
    var w, k := Widen(y, z, z, 0);
    ghost var c: nat := 0;
    while Greater(w, z)
      invariant RemState(y, z, result, w, k, c)
      decreases k
    {
      result, w, k, c := RemStep(y, z, result, w, k, c);
    }
    WindowBottom(Val(z), Pow2(k), Val(w), k);
    DivModUnique(Val(y), Val(z), c, Val(result));
  }

  /** 5 % 2 as written: the windows 4 and 2 are both below 5, so both are
      subtracted and the result saturates at 0 instead of 1. */
  lemma {:induction false} RemCounterexample()
    ensures RemAsWrittenVal(5, 2) == 0
    ensures 5 % 2 == 1
  {
    assert WindowTop(5, 2) == 8 by {
      assert WindowTop(5, 4) == WindowTop(5, 8) == 8;
    }
    assert RemDown(5, 2, 2, 0) == 0;
    assert RemDown(5, 2, 4, 1) == 0;
  }
}
