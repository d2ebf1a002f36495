/** Storage management of an extensible unsigned integer: the numeric
    constructors and assignments, reallocation, growth, normalization, the
    bit count and the numeric casts.  A value is its word vector; the
    vector's length is the number of words allocated. */
module Store {
  import opened Bits
  import opened Words

  /** uintx_t(uint32_t): a single word. */
  function FromUint32(i: Word): (r: seq<Word>)
    ensures Normalized(r) && Val(r) == i
  {
    [i]
  }

  /** uintx_t(uint64_t): always two words, low half first, so a value below
      2^32 is stored with a zero top word and is not normalized. */
  function FromUint64(i: nat): (r: seq<Word>)
    requires i < BASE * BASE
    ensures |r| == 2 && Val(r) == i
    ensures Normalized(r) <==> i >= BASE
  {
    var r := [i % BASE, i / BASE];
    assert Val(r[1..]) == i / BASE by {
      assert r[1..][1..] == [];
    }
    r
  }

  /** reallocate(s): a zeroed vector of s words, except that a vector that
      already has s words keeps its contents. */
  function Reallocate(w: seq<Word>, s: nat): (r: seq<Word>)
    ensures |r| == s
    ensures |w| == s ==> r == w
    ensures |w| != s ==> Val(r) == 0
  {
    if |w| != s then ValZero(Zeros(s)); Zeros(s) else w
  }

  /** grow(size): a vector shorter than size words is extended with zero
      words to size words; the value and the existing words are kept. */
  function Grow(w: seq<Word>, size: nat): (r: seq<Word>)
    ensures |r| == if |w| <= size then size else |w|
    ensures Val(r) == Val(w)
    ensures r[..|w|] == w
    ensures forall i :: |w| <= i < |r| ==> r[i] == 0
  {
    if |w| <= size then ValPadded(w, size - |w|); w + Zeros(size - |w|) else w
  }

  /** normalize(): drop zero words from the top, but never the last word.
      The source reads the top word first, so the vector must not be empty. */
  function Normalize(w: seq<Word>): (r: seq<Word>)
    requires |w| >= 1
    ensures Normalized(r)
    ensures Val(r) == Val(w)
    ensures |r| <= |w| && r == w[..|r|]
    ensures forall i :: |r| <= i < |w| ==> w[i] == 0
    ensures Normalized(w) ==> r == w
    decreases |w|
  {
    if |w| > 1 && w[|w| - 1] == 0 then
      var r := Normalize(w[..|w| - 1]);
      ValTop(w);
      r
    else
      w
  }

  /** operator=(const uintx_t&): the target is reallocated to the source's
      size and the words are copied, so the result is the source vector
      whatever the target held. */
  function Assign(target: seq<Word>, x: seq<Word>): (r: seq<Word>)
    ensures r == x
  {
    var buf := Reallocate(target, |x|);
    seq(|buf|, i requires 0 <= i < |buf| => x[i])
  }

  /** operator=(uint32_t): agrees with the uint32_t constructor. */
  function AssignUint32(target: seq<Word>, i: Word): (r: seq<Word>)
    ensures r == FromUint32(i)
  {
    Reallocate(target, 1)[0 := i]
  }

  /** operator=(uint64_t): agrees with the uint64_t constructor. */
  function AssignUint64(target: seq<Word>, i: nat): (r: seq<Word>)
    requires i < BASE * BASE
    ensures r == FromUint64(i)
  {
    Reallocate(target, 2)[0 := i % BASE][1 := i / BASE]
  }

  /** bitcount(): the significant bits of the top word plus 32 for every
      word below it; 0 for an empty vector.  It always bounds the value,
      and for a normalized vector it is the value's exact bit length. */
  function BitCount(w: seq<Word>): (r: nat)
    ensures Val(w) < Pow2(r)
    ensures Normalized(w) ==> r == BitLength(Val(w))
  {
    if |w| == 0 then 0
    else
      BitCountBounds(w);
      BitLength(w[|w| - 1]) + 32 * (|w| - 1)
  }

  /** bitcount() as the source computes it: the count and the product
      (m_nSize - 1) * BitsInWord are uint32_t, so the result is the bit
      count modulo 2^32, and it is the bit count exactly when that fits. */
  function BitCountAsWritten(w: seq<Word>): (r: Word)
    ensures r == BitCount(w) % BASE
    ensures r == BitCount(w) <==> BitCount(w) < BASE
  {
    if |w| == 0 then 0
    else
      var top := BitLength(w[|w| - 1]);
      BitLengthWord(w[|w| - 1]);
      ModSum(top, |w| - 1);
      ModIdentity(top + 32 * (|w| - 1));
      (top + (32 * (|w| - 1)) % BASE) % BASE
  }

  /** Only a number below 2^32 is its own remainder. */
  lemma {:induction false} ModIdentity(t: nat)
    ensures t % BASE == t <==> t < BASE
  {
    if t < BASE {
      ModUnique(t, 0, t);
    }
  }

  /** A word has at most 32 significant bits. */
  lemma {:induction false} BitLengthWord(x: Word)
    ensures BitLength(x) <= 32
  {
    BitLengthBounds(x);
    if BitLength(x) > 32 {
      Pow2Monotone(32, BitLength(x) - 1);
      Pow2Word();
    }
  }

  /** Reducing a multiple of 32 modulo 2^32 before adding at most 32 bits
      to it does not change the sum's remainder. */
  lemma {:induction false} ModSum(a: nat, k: nat)
    requires a <= 32
    ensures (a + (32 * k) % BASE) % BASE == (a + 32 * k) % BASE
  {
    var q, r := k / 0x800_0000, k % 0x800_0000;
    assert 32 * k == BASE * q + 32 * r;
    ModUnique(32 * k, q, 32 * r);
    if a + 32 * r < BASE {
      ModUnique(a + 32 * k, q, a + 32 * r);
      ModUnique(a + 32 * r, 0, a + 32 * r);
    } else {
      ModUnique(a + 32 * k, q + 1, 0);
      ModUnique(a + 32 * r, 1, 0);
    }
  }

  /** The remainder is what is left below a multiple of 2^32. */
  lemma {:induction false} ModUnique(t: nat, q: nat, s: nat)
    requires s < BASE && t == BASE * q + s
    ensures t % BASE == s
  {
  }

  /** A buffer of 2^27 + 1 words whose top word is 1 has 2^32 + 1
      significant bits, which the 32-bit bitcount() reports as 1. */
  lemma {:induction false} BitCountWrapCounterexample(w: seq<Word>)
    requires |w| == 0x800_0001 && w[|w| - 1] == 1
    ensures BitCount(w) == BASE + 1 && BitCountAsWritten(w) == 1
  {
    assert BitLength(1) == 1 by {
      assert BitLength(0) == 0;
    }
  }

  lemma {:induction false} BitCountBounds(w: seq<Word>)
    requires |w| >= 1
    ensures Val(w) < Pow2(BitLength(w[|w| - 1]) + 32 * (|w| - 1))
    ensures Normalized(w) ==> BitLength(w[|w| - 1]) + 32 * (|w| - 1) == BitLength(Val(w))
  {
    BitCountUpper(w);
    if Normalized(w) {
      BitCountExact(w);
    }
  }

  lemma {:induction false} BitCountUpper(w: seq<Word>)
    requires |w| >= 1
    ensures Val(w) < Pow2(BitLength(w[|w| - 1]) + 32 * (|w| - 1))
  {
    var n := |w| - 1;
    var top: int := w[n];
    var k := BitLength(w[n]);
    var v: int, low: int, b: int, pk: int := Val(w), Val(w[..n]), Base(n), Pow2(k);
    assert v == low + b * top by {
      ValTop(w);
    }
    assert 0 <= low < b by {
      ValBound(w[..n]);
    }
    assert Pow2(32 * n + k) == b * pk by {
      BaseIsPow2(n);
      Pow2Add(32 * n, k);
    }
    assert b * (top + 1) <= b * pk by {
      BitLengthBounds(w[n]);
      MulMonotone(Base(n), top + 1, Pow2(k));
    }
    TopWordArith(v, low, b, top, b * pk);
  }

  lemma {:induction false} BitCountExact(w: seq<Word>)
    requires Normalized(w)
    ensures BitLength(w[|w| - 1]) + 32 * (|w| - 1) == BitLength(Val(w))
  {
    BitCountUpper(w);
    if |w| >= 2 {
      BitCountLower(w);
      BitLengthUnique(Val(w), BitLength(w[|w| - 1]) + 32 * (|w| - 1));
    } else {
      assert Val(w) == w[0] by {
        assert w[1..] == [];
      }
    }
  }

  /** A normalized vector of two or more words reaches the weight of the top
      bit of its top word. */
  lemma {:induction false} BitCountLower(w: seq<Word>)
    requires Normalized(w) && |w| >= 2
    ensures BitLength(w[|w| - 1]) >= 1
    ensures Pow2(BitLength(w[|w| - 1]) + 32 * (|w| - 1) - 1) <= Val(w)
  {
    var n := |w| - 1;
    var k := BitLength(w[n]);
    BitLengthBounds(w[n]);
    var v: int, low: int, b: int, t: int := Val(w), Val(w[..n]), Base(n), w[n];
    assert v == low + b * t && low >= 0 by {
      ValTop(w);
    }
    assert Pow2(32 * n + k - 1) == b * Pow2(k - 1) by {
      BaseIsPow2(n);
      Pow2Add(32 * n, k - 1);
    }
    assert b * Pow2(k - 1) <= b * t by {
      MulMonotone(Base(n), Pow2(k - 1), w[n]);
    }
  }

  lemma {:induction false} TopWordArith(v: int, low: int, b: int, top: int, p: int)
    requires v == low + b * top && 0 <= low < b && b * (top + 1) <= p
    ensures v < p
  {
  }

  /** operator uint32_t(): the least significant word, the value modulo
      2^32. */
  function ToUint32(w: seq<Word>): (r: Word)
    requires |w| >= 1
    ensures r == Val(w) % BASE
  {
    ValLowWord(w);
    w[0]
  }

  /** operator uint64_t(): the second word shifted up 32 bits, OR the first
      word; the value modulo 2^64.  Word 1 is read unconditionally, so the
      vector must have two words. */
  function ToUint64(w: seq<Word>): (r: nat)
    requires |w| >= 2
    ensures r == Val(w) % (BASE * BASE)
  {
    Uint64Halves(w);
    Bitwise(Or, w[1] * BASE, w[0])
  }

  lemma {:induction false} Uint64Halves(w: seq<Word>)
    requires |w| >= 2
    ensures Bitwise(Or, w[1] * BASE, w[0]) == Val(w) % (BASE * BASE)
  {
    var a, b := w[0], w[1];
    var hi: nat := w[1] * BASE;
    Pow2Word();
    assert hi == BASE * b;
    ModMultiple(b, Pow2(32));
    OrDisjoint(hi, a, 32);
    var low := w[..2];
    assert Val(low) == a + hi by {
      assert low == [a, b] && low[1..] == [b];
      ValSingle(b);
    }
    ValSplit(w, 2);
    assert Base(2) == BASE * BASE;
    ValBound(low);
    DivModUnique(Val(w), BASE * BASE, Val(w[2..]), Val(low));
  }

  /** The casts invert the constructors. */
  lemma {:induction false} CastRoundTrip(i: Word, j: nat)
    requires j < BASE * BASE
    ensures ToUint32(FromUint32(i)) == i
    ensures ToUint64(FromUint64(j)) == j
  {
  }
}
