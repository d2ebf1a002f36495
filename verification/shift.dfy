/** The bit shift operators <<= and >>=.  Each works in place on the word
    vector in two phases: whole words are moved by distance / 32 places, and
    then every word is shifted by distance % 32 bits, taking the bits that
    cross a word boundary from its neighbour.  The phases are modelled as the
    vectors they leave behind, and the in-place loops are shown to leave
    exactly those vectors. */
module Shift {
  import opened Bits
  import opened Words
  import opened Store
  import opened Compare

  // ---------------------------------------------------------------------
  // Arithmetic of shifts inside one word.

  /** The bits of x moved up by e inside a field of d + e bits: the low d
      bits of x stay in the field, the rest spill over. */
  lemma {:induction false} ShiftSplit(x: nat, d: nat, e: nat)
    ensures (x * Pow2(e)) % Pow2(d + e) == Pow2(e) * (x % Pow2(d))
    ensures (x * Pow2(e)) / Pow2(d + e) == x / Pow2(d)
  {
    Pow2Add(d, e);
    DivModScaled(x, Pow2(d), Pow2(e), Pow2(d + e));
  }

  /** Scaling x and the divisor by the same factor pe scales the remainder
      and keeps the quotient. */
  lemma {:induction false} DivModScaled(x: nat, pd: nat, pe: nat, pde: nat)
    requires pd >= 1 && pe >= 1 && pde == pd * pe
    ensures (x * pe) % pde == pe * (x % pd)
    ensures (x * pe) / pde == x / pd
  {
    var a, b := x / pd, x % pd;
    MulSign(pd, a);
    MulMonotone(pe, b + 1, pd);
    var y: int, r: int := x * pe, pe * b;
    SpreadArith(x, pd, pe, pde, a, b, y, r);
    DivModUnique(y, pde, a, r);
  }

  /** The arithmetic step of DivModScaled. */
  lemma {:induction false} SpreadArith(x: int, pd: int, pe: int, pde: int, a: int, b: int, y: int, r: int)
    requires x == pd * a + b && pde == pd * pe && pe * (b + 1) <= pe * pd
    requires y == x * pe && r == pe * b && x >= 0 && pe >= 1 && b >= 0
    ensures y == pde * a + r && r < pde
  {
    assert pe * (b + 1) == pe * b + pe;
    assert x * pe == (pd * a) * pe + b * pe;
    assert (pd * a) * pe == (pd * pe) * a;
  }

  /** A number below 2^(a+b) shifted down by a bits is below 2^b. */
  lemma {:induction false} DivBound(x: nat, a: nat, b: nat)
    requires x < Pow2(a + b)
    ensures x / Pow2(a) < Pow2(b)
  {
    Pow2Add(a, b);
    var q := x / Pow2(a);
    if q >= Pow2(b) {
      MulMonotone(Pow2(a), Pow2(b), q);
    }
  }

  /** A word shifted up by d bits is the part that stays in the word plus
      BASE times the part that `>> (32 - d)` extracts. */
  lemma {:induction false} WordShiftUp(x: Word, d: nat)
    requires 0 < d < 32
    ensures x * Pow2(d) == ShlWord(x, d) + BASE * ShrWord(x, 32 - d)
    ensures ShlWord(x, d) % Pow2(d) == 0
    ensures ShrWord(x, 32 - d) < Pow2(d)
  {
    var e := 32 - d;
    WordShiftParts(x, e, d);
    var c: nat := x % Pow2(e);
    var p: int := Pow2(d);
    assert ShlWord(x, d) == p * c;
    ModMultiple(c, p);
    Pow2Word();
    DivBound(x, e, d);
  }

  /** ShiftSplit for a word, with the field the whole word. */
  lemma {:induction false} WordShiftParts(x: Word, e: nat, d: nat)
    requires e + d == 32
    ensures (x * Pow2(d)) % BASE == Pow2(d) * (x % Pow2(e))
    ensures (x * Pow2(d)) / BASE == x / Pow2(e)
  {
    ShiftSplit(x, e, d);
    Pow2Word();
  }

  /** A word shifted down by d bits, and the low d bits of its upper
      neighbour moved to the top. */
  lemma {:induction false} WordShiftDown(x: Word, d: nat)
    requires 0 < d < 32
    ensures ShlWord(x, 32 - d) == Pow2(32 - d) * (x % Pow2(d))
    ensures ShlWord(x, 32 - d) % Pow2(32 - d) == 0
  {
    var e := 32 - d;
    WordShiftParts(x, d, e);
    var c: nat := x % Pow2(d);
    var p: int := Pow2(e);
    assert ShlWord(x, e) == p * c;
    ModMultiple(c, p);
  }

  /** `a | b` on words. */
  function OrWord(a: Word, b: Word): (r: Word)
  {
    Pow2Word();
    BitwiseBound(Or, a, b, 32);
    Bitwise(Or, a, b)
  }

  // ---------------------------------------------------------------------
  // Left shift.

  /** x read as a vector of k words: cut at k words or padded with zeros. */
  function Take(x: seq<Word>, k: nat): (r: seq<Word>)
    ensures |r| == k
    ensures Val(r) == LowVal(x, k)
  {
    if k <= |x| then x[..k]
    else ValPadded(x, k - |x|); x + Zeros(k - |x|)
  }

  /** The vector the two word-moving loops of <<= leave in the grown buffer
      g: word j receives word j - q of the old value when that word existed,
      keeps its own content when the source index is past the old size, and
      the q bottom words are zeroed. */
  function MoveUp(g: seq<Word>, q: nat, oldSize: nat): (r: seq<Word>)
    ensures |r| == |g|
  {
    seq(|g|, j requires 0 <= j < |g| =>
      if q <= j && j - q < oldSize then g[j - q]
      else if q <= j then g[j]
      else 0)
  }

  /** Word j of the in-word left shift by d bits: word j shifted up, OR the
      bits that left word j - 1. */
  function ShlAt(w: seq<Word>, j: nat, d: nat): Word
    requires j < |w| && 0 < d < 32
  {
    if j > 0 then OrWord(ShlWord(w[j], d), ShrWord(w[j - 1], 32 - d)) else ShlWord(w[j], d)
  }

  /** The in-word phase of <<=. */
  function ShlWords(w: seq<Word>, d: nat): (r: seq<Word>)
    requires 0 < d < 32
    ensures |r| == |w|
  {
    seq(|w|, j requires 0 <= j < |w| => ShlAt(w, j, d))
  }

  /** The bits that enter word k from below. */
  function CarryUp(w: seq<Word>, k: nat, d: nat): Word
    requires k <= |w| && 0 < d < 32
  {
    if k == 0 then 0 else ShrWord(w[k - 1], 32 - d)
  }

  /** Each word of the in-word shift is the sum of its two parts. */
  lemma {:induction false} ShlAtSum(w: seq<Word>, j: nat, d: nat)
    requires j < |w| && 0 < d < 32
    ensures ShlAt(w, j, d) == ShlWord(w[j], d) + CarryUp(w, j, d)
  {
    WordShiftUp(w[j], d);
    if j > 0 {
      WordShiftUp(w[j - 1], d);
      OrDisjoint(ShlWord(w[j], d), ShrWord(w[j - 1], 32 - d), d);
    }
  }

  /** The first k words of the in-word shift, with the bits that cross into
      word k, are the first k words of w times 2^d. */
  lemma {:induction false} ShlWordsPrefix(w: seq<Word>, d: nat, k: nat)
    requires 0 < d < 32 && k <= |w|
    ensures Val(ShlWords(w, d)[..k]) + Base(k) * CarryUp(w, k, d) == Val(w[..k]) * Pow2(d)
    decreases k
  {
    if k > 0 {
      var s := ShlWords(w, d);
      var j := k - 1;
      ShlWordsPrefix(w, d, j);
      var b: int := Base(j);
      var lo: int := ShlWord(w[j], d);
      var c: int := CarryUp(w, j, d);
      var vs: int, vw: int := Val(s[..j]), Val(w[..j]);
      assert Val(s[..k]) == vs + b * (lo + c) by {
        ValTop(s[..k]);
        assert s[..k][..j] == s[..j];
        ShlAtSum(w, j, d);
      }
      assert Val(w[..k]) == vw + b * w[j] by {
        ValTop(w[..k]);
        assert w[..k][..j] == w[..j];
      }
      assert w[j] * Pow2(d) == lo + BASE * CarryUp(w, k, d) by {
        WordShiftUp(w[j], d);
      }
      ShlArith(vs, Val(s[..k]), b, Base(k), lo, c, CarryUp(w, k, d), vw, Val(w[..k]), Pow2(d), w[j]);
    }
  }

  /** The arithmetic step of ShlWordsPrefix. */
  lemma {:induction false} ShlArith(vs: int, vs1: int, b: int, b1: int, lo: int, c: int, c1: int,
                 vw: int, vw1: int, p: int, wk: int)
    requires vs + b * c == vw * p && vs1 == vs + b * (lo + c) && b1 == BASE * b
    requires wk * p == lo + BASE * c1 && vw1 == vw + b * wk
    ensures vs1 + b1 * c1 == vw1 * p
  {
    assert vw1 * p == vw * p + b * (wk * p);
    assert b * (lo + BASE * c1) == b * lo + (BASE * b) * c1;
  }

  /** The in-word phase multiplies by 2^d, except for the bits pushed out of
      the top word. */
  lemma {:induction false} ShlWordsValue(w: seq<Word>, d: nat)
    requires 0 < d < 32 && |w| >= 1
    ensures Val(ShlWords(w, d)) + Base(|w|) * ShrWord(w[|w| - 1], 32 - d) == Val(w) * Pow2(d)
  {
    ShlWordsPrefix(w, d, |w|);
    assert ShlWords(w, d)[..|w|] == ShlWords(w, d);
    assert w[..|w|] == w;
  }

  /** What MoveUp leaves in a buffer grown from x: q zero words, then x cut
      or padded to the rest of the buffer. */
  lemma {:induction false} MoveUpShape(x: seq<Word>, g: seq<Word>, q: nat)
    requires |x| <= |g| && g[..|x|] == x && q <= |g|
    requires forall j :: |x| <= j < |g| ==> g[j] == 0
    ensures MoveUp(g, q, |x|) == Zeros(q) + Take(x, |g| - q)
  {
    var a, b := MoveUp(g, q, |x|), Zeros(q) + Take(x, |g| - q);
    forall j | 0 <= j < |g|
      ensures a[j] == b[j]
    {
      if q <= j && j - q < |x| {
        assert g[j - q] == g[..|x|][j - q];
      }
    }
  }

  /** A vector whose value is below 2^k has nothing at or above bit k. */
  lemma {:induction false} ValBelowPow2(w: seq<Word>, k: nat)
    requires Val(w) < Pow2(32 * k)
    ensures LowVal(w, k) == Val(w)
  {
    if k < |w| {
      ValSplit(w, k);
      BaseIsPow2(k);
      var hi := Val(w[k..]);
      MulSign(Base(k), hi);
      assert hi == 0;
    } else {
      LowValAll(w, k);
    }
  }

  /** operator<<=(distance).  A vector that is not greater than uintx_t(0)
      is left alone; otherwise the buffer grows to (bitcount + distance + 31)
      / 32 words and the two phases run.  The value is multiplied by
      2^distance; a normalized operand gives a normalized result, in exactly
      the number of words its bit length needs. */
  function ShiftLeft(x: seq<Word>, distance: nat): (r: seq<Word>)
    ensures Val(r) == Val(x) * Pow2(distance)
    ensures Normalized(x) ==> Normalized(r)
    ensures Normalized(x) && Val(x) > 0 ==> |r| == (BitLength(Val(x)) + distance + 31) / 32
  {
    if !Greater(x, FromUint32(0)) then
      assert Val(x) == 0;
      x
    else
      var m := (BitCount(x) + distance + 31) / 32;
      var g := Grow(x, m);
      var q, d := distance / 32, distance % 32;
      ShiftLeftFacts(x, distance, m, g);
      var moved := MoveUp(g, q, |x|);
      if d > 0 then ShlWords(moved, d) else moved
  }

  /** The proof obligations of ShiftLeft. */
  lemma {:induction false} ShiftLeftFacts(x: seq<Word>, distance: nat, m: nat, g: seq<Word>)
    requires Greater(x, FromUint32(0))
    requires m == (BitCount(x) + distance + 31) / 32 && g == Grow(x, m)
    ensures distance / 32 < |g|
    ensures var moved := MoveUp(g, distance / 32, |x|);
      var r := if distance % 32 > 0 then ShlWords(moved, distance % 32) else moved;
      Val(r) == Val(x) * Pow2(distance) &&
      (Normalized(x) ==> Normalized(r) && |r| == (BitLength(Val(x)) + distance + 31) / 32)
  {
    var q, d := distance / 32, distance % 32;
    var moved := MoveUp(g, q, |x|);
    ShiftLeftMoved(x, distance, m, g);
    var r := if d > 0 then ShlWords(moved, d) else moved;
    InWordPhase(moved, d, Val(x) * Pow2(distance));
    if Normalized(x) {
      ShiftLeftNormal(x, distance, m, r);
    }
  }

  /** The word-moving phase of ShiftLeft: it has room for the result and
      leaves the value multiplied by BASE^(distance / 32). */
  lemma {:induction false} ShiftLeftMoved(x: seq<Word>, distance: nat, m: nat, g: seq<Word>)
    requires Greater(x, FromUint32(0))
    requires m == (BitCount(x) + distance + 31) / 32 && g == Grow(x, m)
    ensures distance / 32 < |g|
    ensures Val(MoveUp(g, distance / 32, |x|)) * Pow2(distance % 32) == Val(x) * Pow2(distance)
    ensures Val(x) * Pow2(distance) < Base(|g|)
    ensures Val(MoveUp(g, distance / 32, |x|)) * Pow2(distance % 32) < Base(|g|)
  {
    ShiftLeftRoom(x, distance, m, g);
    ShiftLeftScaled(x, distance, g);
    FitsInBuffer(Val(x), BitCount(x), distance, |g|);
  }

  /** The word-moving phase followed by a shift of d bits is the shift by
      distance. */
  lemma {:induction false} ShiftLeftScaled(x: seq<Word>, distance: nat, g: seq<Word>)
    requires |x| <= |g| && g == Grow(x, |g|) && distance / 32 < |g|
    requires Val(x) < Pow2(32 * (|g| - distance / 32))
    ensures Val(MoveUp(g, distance / 32, |x|)) * Pow2(distance % 32) == Val(x) * Pow2(distance)
  {
    var q := distance / 32;
    MovedValue(x, g, q);
    MovedScaled(Val(MoveUp(g, q, |x|)), Val(x), q, distance % 32, distance);
  }

  /** The grown buffer holds the bit count and the shift, with at least one
      word above the q moved-in zero words. */
  lemma {:induction false} ShiftLeftRoom(x: seq<Word>, distance: nat, m: nat, g: seq<Word>)
    requires Greater(x, FromUint32(0))
    requires m == (BitCount(x) + distance + 31) / 32 && g == Grow(x, m)
    ensures BitCount(x) + distance <= 32 * |g|
    ensures distance / 32 < |g| && |x| <= |g| && g == Grow(x, |g|)
    ensures Val(x) < Pow2(32 * (|g| - distance / 32))
  {
    var bc := BitCount(x);
    BitCountPositive(x);
    RoomArith(bc, distance, m);
    GrowAgain(x, m, g);
    Pow2Monotone(bc, 32 * (|g| - distance / 32));
  }

  /** A grown buffer is its own growth to its length. */
  lemma {:induction false} GrowAgain(x: seq<Word>, m: nat, g: seq<Word>)
    requires g == Grow(x, m)
    ensures |g| >= m && |x| <= |g| && g == Grow(x, |g|)
  {
    if |x| > m {
      assert x + Zeros(0) == x;
    }
  }

  lemma {:induction false} RoomArith(bc: int, d: int, m: int)
    requires bc >= 1 && d >= 0 && m == (bc + d + 31) / 32
    ensures bc + d <= 32 * m && d / 32 < m && bc <= 32 * (m - d / 32)
  {
  }

  /** The word-moving phase multiplies the value by BASE^q. */
  lemma {:induction false} MovedValue(x: seq<Word>, g: seq<Word>, q: nat)
    requires |x| <= |g| && g == Grow(x, |g|) && q <= |g|
    requires Val(x) < Pow2(32 * (|g| - q))
    ensures Val(MoveUp(g, q, |x|)) == Base(q) * Val(x)
  {
    var n := |g|;
    var t := Take(x, n - q);
    assert MoveUp(g, q, |x|) == Zeros(q) + t by {
      MoveUpShape(x, g, q);
    }
    assert Val(t) == Val(x) by {
      ValBelowPow2(x, n - q);
    }
    assert Val(Zeros(q) + t) == Base(q) * Val(t) by {
      ValAppend(Zeros(q), t);
      ValZero(Zeros(q));
    }
  }

  /** Moving q words and then d bits is moving 32q + d bits. */
  lemma {:induction false} MovedScaled(vm: int, v: nat, q: nat, d: nat, distance: nat)
    requires distance == 32 * q + d && vm == Base(q) * v
    ensures vm * Pow2(d) == v * Pow2(distance)
  {
    assert Pow2(distance) == Base(q) * Pow2(d) by {
      BaseIsPow2(q);
      Pow2Add(32 * q, d);
    }
    Assoc(vm, Base(q), v, Pow2(d), Pow2(distance));
  }

  /** Regrouping a product of three factors. */
  lemma {:induction false} Assoc(vm: int, a: int, v: int, p: int, pp: int)
    requires vm == a * v && pp == a * p
    ensures vm * p == v * pp
  {
    assert (a * v) * p == v * (a * p);
  }

  /** A value of bc bits shifted by distance fits in n words when 32n covers
      bc + distance. */
  lemma {:induction false} FitsInBuffer(v: nat, bc: nat, distance: nat, n: nat)
    requires v < Pow2(bc) && bc + distance <= 32 * n
    ensures v * Pow2(distance) < Base(n)
  {
    var p, pb := Pow2(distance), Pow2(bc);
    MulMonotone(p, v + 1, pb);
    Pow2Add(bc, distance);
    Pow2Monotone(bc + distance, 32 * n);
    BaseIsPow2(n);
    FitsArith(v, p, pb, Pow2(bc + distance), Base(n));
  }

  /** The arithmetic step of FitsInBuffer. */
  lemma {:induction false} FitsArith(v: int, p: int, pb: int, pbd: int, bn: int)
    requires p * (v + 1) <= p * pb && pbd == pb * p && pbd <= bn && p >= 1
    ensures v * p < bn
  {
    assert p * (v + 1) == v * p + p;
  }

  /** When nothing is pushed out of the top word, the in-word phase
      multiplies by 2^d. */
  lemma {:induction false} InWordValue(w: seq<Word>, d: nat)
    requires 0 < d < 32 && |w| >= 1 && Val(w) * Pow2(d) < Base(|w|)
    ensures Val(ShlWords(w, d)) == Val(w) * Pow2(d)
  {
    ShlWordsValue(w, d);
    var c := ShrWord(w[|w| - 1], 32 - d);
    MulSign(Base(|w|), c);
    NoCarry(Val(ShlWords(w, d)), Base(|w|), c, Val(w) * Pow2(d));
  }

  /** The in-word phase of ShiftLeft, for either value of d. */
  lemma {:induction false} InWordPhase(w: seq<Word>, d: nat, target: int)
    requires d < 32 && |w| >= 1 && Val(w) * Pow2(d) == target < Base(|w|)
    ensures Val(if d > 0 then ShlWords(w, d) else w) == target
  {
    if d > 0 {
      InWordValue(w, d);
    } else {
      assert Pow2(d) == 1;
    }
  }

  /** A sum below b has no multiple of b in it. */
  lemma {:induction false} NoCarry(s: int, b: int, c: int, v: int)
    requires s >= 0 && c >= 0 && s + b * c == v && v < b && (c >= 1 ==> b * c >= b)
    ensures s == v
  {
  }

  /** A normalized operand gives a normalized result of the expected size. */
  lemma {:induction false} ShiftLeftNormal(x: seq<Word>, distance: nat, m: nat, r: seq<Word>)
    requires Normalized(x) && Greater(x, FromUint32(0))
    requires m == (BitCount(x) + distance + 31) / 32 && |r| == |Grow(x, m)|
    requires Val(r) == Val(x) * Pow2(distance)
    ensures Normalized(r) && |r| == (BitLength(Val(x)) + distance + 31) / 32
  {
    NormalizedSize(x, distance, m);
    BitLengthShift(Val(x), distance);
    NormalizedBySize(r);
  }

  /** A vector greater than uintx_t(0) has a positive bit count. */
  lemma {:induction false} BitCountPositive(x: seq<Word>)
    requires Greater(x, FromUint32(0))
    ensures BitCount(x) >= 1
  {
    if |x| == 1 {
      assert Val(x) == x[0] by { assert x[1..] == []; }
      BitLengthBounds(x[0]);
    }
  }

  /** For a normalized operand the buffer is exactly the new bit length in
      words, which is the ceiling in the source's grow call. */
  lemma {:induction false} NormalizedSize(x: seq<Word>, distance: nat, m: nat)
    requires Normalized(x) && Val(x) > 0 && m == (BitCount(x) + distance + 31) / 32
    ensures |x| <= m && |Grow(x, m)| == m
    ensures m == (BitLength(Val(x)) + distance + 31) / 32
    ensures 32 * (m - 1) <= BitLength(Val(x)) + distance - 1
  {
    var top: nat := x[|x| - 1];
    if |x| == 1 {
      assert Val(x) == x[0] by { assert x[1..] == []; }
    }
    BitLengthBounds(top);
  }

  /** The size <<= grows to, as the source computes it: bitcount() +
      distance + BitsInWord - 1 in 32-bit unsigned arithmetic, divided by
      32. */
  function GrowSizeAsWritten(x: seq<Word>, distance: nat): (r: nat)
    requires distance < BASE
    ensures r < BASE / 32
  {
    ((BitCountAsWritten(x) + distance + 31) % BASE) / 32
  }

  /** The computed size is the intended ceil((bitcount + distance) / 32)
      exactly when bitcount + distance + 31 stays below 2^32; beyond that it
      is too small by at least 2^27 words. */
  lemma {:induction false} GrowSizeAgrees(x: seq<Word>, distance: nat)
    requires distance < BASE
    ensures GrowSizeAsWritten(x, distance) == (BitCount(x) + distance + 31) / 32
      <==> BitCount(x) + distance + 31 < BASE
    ensures BitCount(x) + distance + 31 >= BASE ==>
      GrowSizeAsWritten(x, distance) + BASE / 32 <= (BitCount(x) + distance + 31) / 32
  {
    GrowArith(BitCount(x), BitCountAsWritten(x), distance);
  }

  lemma {:induction false} GrowArith(bc: nat, a: nat, distance: nat)
    requires a == bc % BASE && distance < BASE
    ensures ((a + distance + 31) % BASE) / 32 == (bc + distance + 31) / 32 <==> bc + distance + 31 < BASE
    ensures bc + distance + 31 >= BASE ==>
      ((a + distance + 31) % BASE) / 32 + BASE / 32 <= (bc + distance + 31) / 32
  {
    var t := bc + distance + 31;
    if bc < BASE {
      assert a == bc;
      if t >= BASE {
        var k := t / BASE;
        assert t == BASE * k + t % BASE;
        assert k >= 1;
        assert t % BASE <= t - BASE;
        assert (t % BASE) / 32 <= (t - BASE) / 32;
      }
    } else {
      assert (a + distance + 31) % BASE < BASE;
    }
  }

  /** 1 << 0xFFFFFFFF, which is exp2x(0xFFFFFFFF): the computed size wraps to
      0, so grow leaves the one-word buffer as it is, while the result needs
      2^27 words; the word copy then indexes outside the buffer. */
  lemma {:induction false} ShiftLeftWrapCounterexample()
    ensures GrowSizeAsWritten([1], 0xFFFF_FFFF) == 0
    ensures Grow([1], GrowSizeAsWritten([1], 0xFFFF_FFFF)) == [1]
    ensures |ShiftLeft([1], 0xFFFF_FFFF)| == 0x800_0000
  {
    assert BitLength(1) == 1 by {
      assert BitLength(0) == 0;
    }
    assert BitCount([1]) == 1;
    assert Val([1]) == 1 by {
      assert [1][1..] == [];
    }
  }

  // ---------------------------------------------------------------------
  // The loops of <<=, shown to leave the vectors above.

  /** The two word-moving loops of <<=: from the top down, word dest takes
      word dest - q when that word was part of the old value, and then the q
      bottom words are zeroed.  The source counts unsigned indices down to
      zero; the loops here stop after index 0, as they are evidently meant to. */
  method WordMoveUp(g: seq<Word>, q: nat, oldSize: nat) returns (buf: seq<Word>)
    requires q < |g|
    ensures buf == MoveUp(g, q, oldSize)
  {
    var target := MoveUp(g, q, oldSize);
    buf := g;
    var dest: int := |g| - 1;
    while dest >= q
      invariant q - 1 <= dest < |g| && |buf| == |g|
      invariant forall j :: 0 <= j <= dest ==> buf[j] == g[j]
      invariant forall j :: dest < j < |g| ==> buf[j] == target[j]
    {
      var src := dest - q;
      if src < oldSize {
        buf := buf[dest := buf[src]];
      }
      dest := dest - 1;
    }
    while dest >= 0
      invariant -1 <= dest < q && |buf| == |g|
      invariant forall j :: dest < j < |g| ==> buf[j] == target[j]
    {
      buf := buf[dest := 0];
      dest := dest - 1;
    }
  }

  /** The in-word loop of <<=: from the top down, each word is shifted up and
      takes the bits leaving the word below, which is not yet shifted. */
  method ShiftWordsUp(w: seq<Word>, d: nat) returns (buf: seq<Word>)
    requires 0 < d < 32
    ensures buf == ShlWords(w, d)
  {
    buf := w;
    var dest: int := |w| - 1;
    while dest >= 0
      invariant -1 <= dest < |w| && |buf| == |w|
      invariant forall j :: 0 <= j <= dest ==> buf[j] == w[j]
      invariant forall j :: dest < j < |w| ==> buf[j] == ShlAt(w, j, d)
    {
      var t := ShlWord(buf[dest], d);
      if dest > 0 {
        t := OrWord(t, ShrWord(buf[dest - 1], 32 - d));
      }
      buf := buf[dest := t];
      dest := dest - 1;
    }
  }

  // ---------------------------------------------------------------------
  // Right shift.

  /** A bit count never exceeds 32 bits per word. */
  lemma {:induction false} BitCountAtMost(x: seq<Word>)
    ensures BitCount(x) <= 32 * |x|
  {
    if |x| >= 1 {
      var top: nat := x[|x| - 1];
      Pow2Word();
      BitLengthMonotone(top, BASE - 1);
      BitLengthUnique(BASE - 1, 32);
    }
  }

  /** The number of words >>= keeps, as evidently intended: the bits that
      survive the shift rounded up to whole words, and none when the shift
      removes every bit. */
  function NewSize(bc: nat, distance: nat): (r: nat)
    ensures r == 0 <==> distance >= bc
    ensures r > 0 ==> bc - distance <= 32 * r < bc - distance + 32
  {
    if distance >= bc then 0 else (bc - distance + 31) / 32
  }

  /** The new size as the source computes it, in 32-bit unsigned arithmetic:
      bitcount - distance wraps around when the distance is the larger. */
  function NewSizeAsWritten(bc: nat, distance: nat): nat
    requires bc + 31 < BASE && distance < BASE
  {
    ((bc + 31 - distance) % BASE) / 32
  }

  /** The computed size is the intended one exactly when the distance is less
      than 32 past the bit count. */
  lemma {:induction false} NewSizeAgrees(bc: nat, distance: nat)
    requires bc + 31 < BASE && distance < BASE
    ensures NewSizeAsWritten(bc, distance) == NewSize(bc, distance) <==> distance < bc + 32
  {
    var t := bc + 31 - distance;
    if distance < bc + 32 {
      assert t % BASE == t;
    } else {
      assert t % BASE == t + BASE;
    }
  }

  /** The word-moving loop of >>= as written: word j receives word j + q, and
      every word copied from is zeroed; a word below q that is never copied
      to keeps its old contents. */
  function StaleMove(x: seq<Word>, q: nat): (r: seq<Word>)
    ensures |r| == |x|
  {
    seq(|x|, j requires 0 <= j < |x| =>
      if j + q < |x| then x[j + q] else if j >= q then 0 else x[j])
  }

  /** The word move >>= evidently intends: x moved down by q words with zeros
      above, which divides the value by BASE^q. */
  function FreshMove(x: seq<Word>, q: nat): (r: seq<Word>)
    ensures |r| == |x|
    ensures forall j :: 0 <= j < |x| ==> r[j] == if j + q < |x| then x[j + q] else 0
    ensures Val(r) == Val(x) / Base(q)
  {
    if q <= |x| then
      DropWords(x, q);
      ValPadded(x[q..], q);
      x[q..] + Zeros(q)
    else
      PastTheTop(x, q);
      ValZero(Zeros(|x|));
      Zeros(|x|)
  }

  /** Dropping the q low words divides by BASE^q. */
  lemma {:induction false} DropWords(x: seq<Word>, q: nat)
    requires q <= |x|
    ensures Val(x[q..]) == Val(x) / Base(q)
  {
    ValSplit(x, q);
    ValBound(x[..q]);
    DivModUnique(Val(x), Base(q), Val(x[q..]), Val(x[..q]));
  }

  /** Dividing by the weight of a word past the top leaves nothing. */
  lemma {:induction false} PastTheTop(x: seq<Word>, q: nat)
    requires q > |x|
    ensures Val(x) / Base(q) == 0
  {
    ValBound(x);
    BaseStrict(|x|, q);
    DivModUnique(Val(x), Base(q), 0, Val(x));
  }

  /** The as-written move is the intended one exactly when the words it
      leaves behind are already zero. */
  lemma {:induction false} StaleAgrees(x: seq<Word>, q: nat)
    ensures StaleMove(x, q) == FreshMove(x, q) <==> forall j :: 0 <= j < q && |x| <= j + q && j < |x| ==> x[j] == 0
  {
    var a, b := StaleMove(x, q), FreshMove(x, q);
    if a == b {
      forall j | 0 <= j < q && |x| <= j + q && j < |x|
        ensures x[j] == 0
      {
        assert a[j] == b[j];
      }
    }
  }

  /** Word j of the in-word right shift by d bits: word j shifted down, OR the
      low bits of word j + 1 moved to the top. */
  function ShrAt(w: seq<Word>, j: nat, d: nat): Word
    requires j < |w| && 0 < d < 32
  {
    if j + 1 < |w| then OrWord(ShrWord(w[j], d), ShlWord(w[j + 1], 32 - d)) else ShrWord(w[j], d)
  }

  /** The in-word right shift of every word. */
  function ShrWords(w: seq<Word>, d: nat): (r: seq<Word>)
    requires 0 < d < 32
    ensures |r| == |w|
  {
    seq(|w|, j requires 0 <= j < |w| => ShrAt(w, j, d))
  }

  /** The in-word phase of >>=: the words below k are shifted, the rest are
      left as they are. */
  function ShrPrefix(w: seq<Word>, d: nat, k: nat): (r: seq<Word>)
    requires 0 < d < 32 && k <= |w|
    ensures |r| == |w|
  {
    seq(|w|, j requires 0 <= j < |w| => if j < k then ShrAt(w, j, d) else w[j])
  }

  /** The last loop of >>=: the words from k up are zeroed, which keeps the
      value of the first k words. */
  function ZeroFrom(w: seq<Word>, k: nat): (r: seq<Word>)
    ensures |r| == |w|
    ensures forall j :: 0 <= j < |w| ==> r[j] == if j < k then w[j] else 0
    ensures Val(r) == LowVal(w, k)
  {
    if k < |w| then
      ValPadded(w[..k], |w| - k);
      w[..k] + Zeros(|w| - k)
    else
      LowValAll(w, k);
      w
  }

  /** The low d bits of the word above j, the bits that enter word j. */
  function CarryDown(w: seq<Word>, j: nat, d: nat): nat
    requires j < |w| && 0 < d < 32
  {
    if j + 1 < |w| then w[j + 1] % Pow2(d) else 0
  }

  /** Each word of the in-word right shift is the sum of its two parts. */
  lemma {:induction false} ShrAtSum(w: seq<Word>, j: nat, d: nat)
    requires j < |w| && 0 < d < 32
    ensures ShrAt(w, j, d) == ShrWord(w[j], d) + Pow2(32 - d) * CarryDown(w, j, d)
  {
    if j + 1 < |w| {
      WordShiftDown(w[j + 1], d);
      Pow2Word();
      DivBound(w[j], d, 32 - d);
      OrDisjoint(ShlWord(w[j + 1], 32 - d), ShrWord(w[j], d), 32 - d);
    }
  }

  /** The in-word right shift of w without its low word is the shift of w
      without its low word. */
  lemma {:induction false} ShrWordsTail(w: seq<Word>, d: nat)
    requires 0 < d < 32 && |w| >= 1
    ensures ShrWords(w, d)[1..] == ShrWords(w[1..], d)
  {
    var a, b := ShrWords(w, d)[1..], ShrWords(w[1..], d);
    forall j | 0 <= j < |b|
      ensures a[j] == b[j]
    {
      assert w[j + 1] == w[1..][j];
      if j + 2 < |w| {
        assert w[j + 2] == w[1..][j + 1];
      }
    }
  }

  /** The in-word right shift times 2^d, with the bits shifted out of word
      0, is the original value. */
  lemma {:induction false} ShrWordsRem(w: seq<Word>, d: nat)
    requires 0 < d < 32
    ensures Val(w) == Pow2(d) * Val(ShrWords(w, d)) + (if |w| > 0 then w[0] % Pow2(d) else 0)
  {
    if |w| > 0 {
      var s, t := ShrWords(w, d), w[1..];
      var p: int, pe: int := Pow2(d), Pow2(32 - d);
      var c: int := CarryDown(w, 0, d);
      var vs1: int := Val(ShrWords(t, d));
      assert Val(t) == p * vs1 + c by {
        ShrWordsRem(t, d);
        assert c == (if |t| > 0 then t[0] % p else 0);
      }
      assert Val(s) == s[0] + BASE * vs1 by {
        ShrWordsTail(w, d);
      }
      var a: int, r0: int := w[0] / p, w[0] % p;
      assert s[0] == a + pe * c by {
        ShrAtSum(w, 0, d);
      }
      assert w[0] == p * a + r0 by {
        DivModBasics(w[0], p);
      }
      assert pe * p == BASE by {
        Pow2Add(32 - d, d);
        Pow2Word();
      }
      ShrArith(Val(s), s[0], vs1, a, r0, w[0], c, p, pe, Val(t), Val(w));
    }
  }

  /** The arithmetic step of ShrWordsRem. */
  lemma {:induction false} ShrArith(vs: int, s0: int, vs1: int, a: int, r0: int, w0: int, c: int,
                 p: int, pe: int, vw1: int, vw: int)
    requires vs == s0 + BASE * vs1 && s0 == a + pe * c && w0 == p * a + r0
    requires p * vs1 + c == vw1 && vw == w0 + BASE * vw1 && pe * p == BASE
    ensures vw == p * vs + r0
  {
    assert p * vs == p * s0 + BASE * (p * vs1);
    assert p * s0 == a * p + (pe * p) * c;
  }

  /** The in-word right shift divides the value by 2^d. */
  lemma {:induction false} ShrWordsValue(w: seq<Word>, d: nat)
    requires 0 < d < 32
    ensures Val(ShrWords(w, d)) == Val(w) / Pow2(d)
  {
    var p, v := Pow2(d), Val(ShrWords(w, d));
    ShrWordsRem(w, d);
    DivModUnique(Val(w), p, v, if |w| > 0 then w[0] % p else 0);
  }

  /** Zeroing from k hides the difference between shifting only the words
      below k and shifting them all. */
  lemma {:induction false} ZeroFromPrefix(w: seq<Word>, d: nat, k: nat)
    requires 0 < d < 32 && k <= |w|
    ensures ZeroFrom(ShrPrefix(w, d, k), k) == ZeroFrom(ShrWords(w, d), k)
  {
  }

  /** The phases of >>= after the word move: the in-word shift of the words
      below ns, the zeroing from ns, and normalize. */
  function RightPhases(moved: seq<Word>, d: nat, ns: nat): (r: seq<Word>)
    requires d < 32 && |moved| >= 1 && (d == 0 || ns <= |moved|)
    ensures Normalized(r)
  {
    Normalize(ZeroFrom(if d > 0 then ShrPrefix(moved, d, ns) else moved, ns))
  }

  /** operator>>=(distance), with the size and the word move evidently
      intended: the value is divided by 2^distance and the result is
      normalized. */
  function ShiftRight(x: seq<Word>, distance: nat): (r: seq<Word>)
    ensures Val(r) == Val(x) / Pow2(distance)
    ensures Normalized(r)
  {
    var ns := NewSize(BitCount(x), distance);
    if ns < 1 then
      Pow2Monotone(BitCount(x), distance);
      DivModUnique(Val(x), Pow2(distance), 0, Val(x));
      FromUint32(0)
    else
      ShiftRightRoom(x, distance);
      ShiftRightValue(x, distance);
      RightPhases(FreshMove(x, distance / 32), distance % 32, ns)
  }

  /** When some bits survive, the vector is nonempty, the new size fits in
      it and the shifted value fits in the new size. */
  lemma {:induction false} ShiftRightRoom(x: seq<Word>, distance: nat)
    requires NewSize(BitCount(x), distance) >= 1
    ensures |x| >= 1 && NewSize(BitCount(x), distance) <= |x|
    ensures Val(x) / Pow2(distance) < Pow2(32 * NewSize(BitCount(x), distance))
  {
    var bc := BitCount(x);
    var ns := NewSize(bc, distance);
    BitCountAtMost(x);
    DivBound(Val(x), distance, bc - distance);
    Pow2Monotone(bc - distance, 32 * ns);
  }

  /** The value the phases of >>= leave before normalize. */
  lemma {:induction false} ShiftRightValue(x: seq<Word>, distance: nat)
    requires NewSize(BitCount(x), distance) >= 1
    ensures |x| >= 1 && NewSize(BitCount(x), distance) <= |x|
    ensures var ns, d := NewSize(BitCount(x), distance), distance % 32;
      var moved := FreshMove(x, distance / 32);
      Val(ZeroFrom(if d > 0 then ShrPrefix(moved, d, ns) else moved, ns)) == Val(x) / Pow2(distance)
  {
    var ns, q, d := NewSize(BitCount(x), distance), distance / 32, distance % 32;
    ShiftRightRoom(x, distance);
    var moved := FreshMove(x, q);
    assert Val(moved) / Pow2(d) == Val(x) / Pow2(distance) by {
      BaseIsPow2(q);
      Pow2DivDiv(Val(x), 32 * q, d);
    }
    RightTail(moved, d, ns);
  }

  /** The in-word phase and the zeroing from ns leave the moved words
      divided by 2^d, when that quotient fits in ns words. */
  lemma {:induction false} RightTail(moved: seq<Word>, d: nat, ns: nat)
    requires d < 32 && ns <= |moved|
    requires Val(moved) / Pow2(d) < Pow2(32 * ns)
    ensures Val(ZeroFrom(if d > 0 then ShrPrefix(moved, d, ns) else moved, ns)) == Val(moved) / Pow2(d)
  {
    if d > 0 {
      ZeroFromPrefix(moved, d, ns);
      ShrWordsValue(moved, d);
      ValBelowPow2(ShrWords(moved, d), ns);
    } else {
      assert Pow2(d) == 1;
      DivByOne(Val(moved), Pow2(d));
      ValBelowPow2(moved, ns);
    }
  }

  lemma {:induction false} DivByOne(v: nat, p: nat)
    requires p == 1
    ensures v / p == v
  {
  }

  /** operator>>=(distance) as written: the new size is computed in 32-bit
      arithmetic and the word move can leave a stale word.  The source reads
      and writes outside the buffer when the computed size exceeds it and
      there is an in-word phase, and normalize reads before an empty buffer,
      so those inputs are excluded.  When the distance is less than 32 past
      the bit count and no word is left stale, the result is the intended
      one. */
  function ShiftRightAsWritten(x: seq<Word>, distance: nat): (r: seq<Word>)
    requires |x| >= 1 && BitCount(x) + 31 < BASE && distance < BASE
    requires distance % 32 == 0 || NewSizeAsWritten(BitCount(x), distance) <= |x|
    ensures Normalized(r)
    ensures distance < BitCount(x) + 32 && StaleMove(x, distance / 32) == FreshMove(x, distance / 32)
      ==> r == ShiftRight(x, distance)
  {
    var ns := NewSizeAsWritten(BitCount(x), distance);
    NewSizeAgrees(BitCount(x), distance);
    if ns < 1 then FromUint32(0)
    else RightPhases(StaleMove(x, distance / 32), distance % 32, ns)
  }

  /** The stale word: shifting the three words 0, 1, 2 (the number
      2^65 + 2^32) right by 65 bits gives 0x80000001, where the quotient is 1. */
  lemma {:induction false} StaleCounterexample()
    ensures Val([0, 1, 2]) / Pow2(65) == 1
    ensures ShiftRightAsWritten([0, 1, 2], 65) == [0x8000_0001]
  {
    var x: seq<Word> := [0, 1, 2];
    StaleQuotient();
    StaleBitCount();
    assert NewSizeAsWritten(66, 65) == 1;
    StaleMoved();
    StalePhases();
  }

  lemma {:induction false} StaleMoved()
    ensures StaleMove([0, 1, 2], 2) == [2, 1, 0]
  {
  }

  lemma {:induction false} StalePhases()
    ensures RightPhases([2, 1, 0], 1, 1) == [0x8000_0001]
  {
    var w := ShrPrefix([2, 1, 0], 1, 1);
    assert w[0] == 0x8000_0001 by {
      StaleTopWord();
    }
    assert w[1] == 1 && w[2] == 0;
    assert w == [0x8000_0001, 1, 0];
    assert ZeroFrom(w, 1) == [0x8000_0001, 0, 0];
    assert Normalize([0x8000_0001, 0, 0]) == [0x8000_0001];
  }

  lemma {:induction false} StaleQuotient()
    ensures Val([0, 1, 2]) / Pow2(65) == 1
  {
    var x: seq<Word> := [0, 1, 2];
    assert Val(x) == BASE + 2 * BASE * BASE by {
      assert x[1..] == [1, 2] && x[1..][1..] == [2] && x[1..][1..][1..] == [];
    }
    assert Pow2(65) == 2 * BASE * BASE by {
      Pow2Word();
      Pow2Add(64, 1);
      Pow2Add(32, 32);
    }
    DivModUnique(Val(x), 2 * BASE * BASE, 1, BASE);
  }

  lemma {:induction false} StaleBitCount()
    ensures BitCount([0, 1, 2]) == 66
  {
    assert BitLength(2) == 2;
  }

  /** Word 0 after the in-word phase of the stale example: 2 >> 1 with the
      low bit of the stale word 1 moved to the top. */
  lemma {:induction false} StaleTopWord()
    ensures ShrAt([2, 1, 0], 0, 1) == 0x8000_0001
  {
    Pow2Word();
    assert Pow2(1) == 2;
    assert ShrWord(2, 1) == 1;
    assert ShlWord(1, 31) == 0x8000_0000;
    OrDisjoint(0x8000_0000, 1, 1);
  }

  /** The wrapped size: shifting 1 right by 64 bits computes a new size of
      2^27 - 1 words and returns 1, where the quotient is 0. */
  lemma {:induction false} WrapCounterexample()
    ensures Val([1]) / Pow2(64) == 0
    ensures NewSizeAsWritten(BitCount([1]), 64) == 0x7FF_FFFF
    ensures ShiftRightAsWritten([1], 64) == [1]
  {
    var x: seq<Word> := [1];
    Pow2Add(32, 32);
    Pow2Word();
    assert Val(x) == 1 by { assert x[1..] == []; }
    DivModUnique(Val(x), Pow2(64), 0, 1);
    assert BitLength(1) == 1;
    assert BitCount(x) == 1;
    assert StaleMove(x, 2) == [1];
    assert ZeroFrom([1], 0x7FF_FFFF) == [1];
  }

  /** Shifting a normalized vector left and then right by the same distance
      gives it back. */
  lemma {:induction false} ShiftRoundTrip(x: seq<Word>, distance: nat)
    requires Normalized(x)
    ensures ShiftRight(ShiftLeft(x, distance), distance) == x
  {
    MulPow2DivMod(Val(x), distance);
    NormalizedUnique(ShiftRight(ShiftLeft(x, distance), distance), x);
  }

  // ---------------------------------------------------------------------
  // The loops of >>=, shown to leave the vectors above.

  /** The word-moving loop of >>= as written: from the bottom up, word dest
      takes word src = dest + q, and word src is zeroed. */
  method WordMoveDown(x: seq<Word>, q: nat) returns (buf: seq<Word>)
    ensures buf == StaleMove(x, q)
  {
    buf := x;
    if q != 0 {
      var dest, src := 0, q;
      while src < |buf|
        invariant src == dest + q && |buf| == |x| && (dest == 0 || src <= |x|)
        invariant buf == PartMove(x, q, dest)
        decreases |buf| - src
      {
        buf := buf[dest := buf[src]];
        buf := buf[src := 0];
        dest, src := dest + 1, src + 1;
        assert buf == PartMove(x, q, dest) by {
          forall j | 0 <= j < |x|
            ensures buf[j] == PartMove(x, q, dest)[j]
          {
          }
        }
      }
      assert buf == StaleMove(x, q) by {
        forall j | 0 <= j < |x|
          ensures buf[j] == StaleMove(x, q)[j]
        {
        }
      }
    }
  }

  /** The words after dest steps of the word-moving loop of >>=. */
  function PartMove(x: seq<Word>, q: nat, dest: nat): (r: seq<Word>)
    ensures |r| == |x|
  {
    seq(|x|, j requires 0 <= j < |x| =>
      if j < dest && j + q < |x| then x[j + q] else if q <= j < dest + q then 0 else x[j])
  }

  /** The in-word loop of >>=: from the bottom up, each word below k is
      shifted down and takes the low bits of the word above, which is not
      yet shifted. */
  method ShiftWordsDown(w: seq<Word>, d: nat, k: nat) returns (buf: seq<Word>)
    requires 0 < d < 32 && k <= |w|
    ensures buf == ShrPrefix(w, d, k)
  {
    buf := w;
    var dest := 0;
    while dest < k
      invariant dest <= k && |buf| == |w|
      invariant forall j :: dest <= j < |w| ==> buf[j] == w[j]
      invariant forall j :: 0 <= j < dest ==> buf[j] == ShrAt(w, j, d)
    {
      var t := ShrWord(buf[dest], d);
      if dest + 1 < |w| {
        t := OrWord(t, ShlWord(buf[dest + 1], 32 - d));
      }
      buf := buf[dest := t];
      dest := dest + 1;
    }
  }
}
