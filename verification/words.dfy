/** The representation of an unsigned extensible integer: a little-endian
    vector of 32-bit words, word 0 least significant, together with the
    number it denotes and the facts about that number the kernel relies on. */
module Words {
  import opened Bits

  /** The radix of the representation. */
  const BASE: nat := 0x1_0000_0000

  /** An unsigned 32-bit word. */
  type Word = x: nat | x < 0x1_0000_0000

  /** The number denoted by a little-endian word vector. */
  function Val(w: seq<Word>): nat
  {
    if |w| == 0 then 0 else w[0] + BASE * Val(w[1..])
  }

  /** BASE raised to the power n: the weight of word n. */
  function Base(n: nat): (r: nat)
    ensures r >= 1
  {
    if n == 0 then 1 else BASE * Base(n - 1)
  }

  /** A vector is normalized when it has at least one word and its most
      significant word is nonzero unless it is the only word. */
  predicate Normalized(w: seq<Word>)
  {
    |w| >= 1 && (|w| == 1 || w[|w| - 1] != 0)
  }

  /** The normalized vector of n: its words are the base-2^32 digits of n,
      least significant first. */
  function WordsOf(n: nat): (w: seq<Word>)
    ensures Normalized(w) && Val(w) == n
    decreases n
  {
    if n < BASE then [n]
    else
      var rest := WordsOf(n / BASE);
      assert ([n % BASE] + rest)[1..] == rest;
      [n % BASE] + rest
  }

  /** A vector of n zero words. */
  function Zeros(n: nat): (r: seq<Word>)
    ensures |r| == n && forall i :: 0 <= i < n ==> r[i] == 0
  {
    seq(n, _ => 0)
  }

  lemma {:induction false} BaseIsPow2(n: nat)
    ensures Base(n) == Pow2(32 * n)
  {
    if n > 0 {
      BaseIsPow2(n - 1);
      Pow2Add(32, 32 * (n - 1));
      Pow2Word();
    }
  }

  lemma {:induction false} BaseAdd(a: nat, b: nat)
    ensures Base(a + b) == Base(a) * Base(b)
  {
    if a > 0 {
      BaseAdd(a - 1, b);
      assert Base(a + b) == BASE * Base(a - 1 + b);
    }
  }

  lemma {:induction false} BaseStrict(a: nat, b: nat)
    requires a < b
    ensures Base(a) < Base(b)
  {
    if b > a + 1 {
      BaseStrict(a, b - 1);
    }
  }

  lemma {:induction false} ValBound(w: seq<Word>)
    ensures Val(w) < Base(|w|)
  {
    if |w| > 0 {
      ValBound(w[1..]);
      MulMonotone(BASE, Val(w[1..]), Base(|w| - 1) - 1);
    }
  }

  /** The value of a concatenation. */
  lemma {:induction false} ValAppend(a: seq<Word>, b: seq<Word>)
    ensures Val(a + b) == Val(a) + Base(|a|) * Val(b)
  {
    if |a| > 0 {
      assert (a + b)[1..] == a[1..] + b;
      ValAppend(a[1..], b);
      ShiftArith(Val(a), a[0], Val(a[1..]), Val(b), Base(|a| - 1), Base(|a|), Val(a + b), Val(a[1..] + b));
    } else {
      assert a + b == b;
    }
  }

  /** The arithmetic step of ValAppend. */
  lemma {:induction false} ShiftArith(va: int, a0: int, rest: int, vb: int, w: int, bw: int, vab: int, tail: int)
    requires va == a0 + BASE * rest && bw == BASE * w
    requires tail == rest + w * vb && vab == a0 + BASE * tail
    ensures vab == va + bw * vb
  {
  }

  /** The value of a vector split at word i. */
  lemma {:induction false} ValSplit(w: seq<Word>, i: nat)
    requires i <= |w|
    ensures Val(w) == Val(w[..i]) + Base(i) * Val(w[i..])
  {
    assert w == w[..i] + w[i..];
    ValAppend(w[..i], w[i..]);
  }

  /** The value of a vector is the value below its top word plus the top
      word at its weight. */
  lemma {:induction false} ValTop(w: seq<Word>)
    requires |w| >= 1
    ensures Val(w) == Val(w[..|w| - 1]) + Base(|w| - 1) * w[|w| - 1]
  {
    var t := w[|w| - 1];
    ValSplit(w, |w| - 1);
    assert w[|w| - 1..] == [t];
    ValSingle(t);
  }

  /** A single word denotes itself. */
  lemma {:induction false} ValSingle(x: Word)
    ensures Val([x]) == x
  {
    assert [x][1..] == [];
  }

  /** Appending one word. */
  lemma {:induction false} ValSnoc(w: seq<Word>, x: Word)
    ensures Val(w + [x]) == Val(w) + Base(|w|) * x
  {
    ValAppend(w, [x]);
    assert Val([x]) == x;
  }

  /** A vector denotes zero exactly when all its words are zero. */
  lemma {:induction false} ValZero(w: seq<Word>)
    ensures Val(w) == 0 <==> forall i :: 0 <= i < |w| ==> w[i] == 0
  {
    if |w| > 0 {
      ValZero(w[1..]);
      if Val(w) == 0 {
        forall i | 0 <= i < |w|
          ensures w[i] == 0
        {
          if i > 0 {
            assert w[i] == w[1..][i - 1];
          }
        }
      } else if w[0] == 0 {
        var j :| 0 <= j < |w[1..]| && w[1..][j] != 0;
        assert w[j + 1] != 0;
      }
    }
  }

  /** High zero words do not change the value. */
  lemma {:induction false} ValPadded(w: seq<Word>, n: nat)
    ensures Val(w + Zeros(n)) == Val(w)
  {
    ValAppend(w, Zeros(n));
    ValZero(Zeros(n));
  }

  /** The lowest word and the rest. */
  lemma {:induction false} ValLowWord(w: seq<Word>)
    requires |w| >= 1
    ensures Val(w) % BASE == w[0]
    ensures Val(w) / BASE == Val(w[1..])
  {
    DivModUnique(Val(w), BASE, Val(w[1..]), w[0]);
  }

  /** A normalized vector of two or more words is at least the weight of
      its top word. */
  lemma {:induction false} NormalizedLower(w: seq<Word>)
    requires Normalized(w) && |w| >= 2
    ensures Base(|w| - 1) <= Val(w)
  {
    ValTop(w);
    MulMonotone(Base(|w| - 1), 1, w[|w| - 1]);
  }

  /** Vectors of the same length denote the same number only if they are
      the same vector. */
  lemma {:induction false} ValInjective(a: seq<Word>, b: seq<Word>)
    requires |a| == |b| && Val(a) == Val(b)
    ensures a == b
  {
    if |a| > 0 {
      ValLowWord(a);
      ValLowWord(b);
      ValInjective(a[1..], b[1..]);
      assert a == [a[0]] + a[1..];
      assert b == [b[0]] + b[1..];
    }
  }

  /** Between normalized vectors, a shorter one denotes a smaller number. */
  lemma {:induction false} NormalizedLengthOrder(a: seq<Word>, b: seq<Word>)
    requires Normalized(a) && Normalized(b) && |a| < |b|
    ensures Val(a) < Val(b)
  {
    ValBound(a);
    if |b| >= 2 {
      NormalizedLower(b);
    }
    assert Base(|a|) <= Base(|b| - 1) by {
      if |a| < |b| - 1 {
        BaseStrict(|a|, |b| - 1);
      }
    }
  }

  /** A normalized vector is determined by the number it denotes. */
  lemma {:induction false} NormalizedUnique(a: seq<Word>, b: seq<Word>)
    requires Normalized(a) && Normalized(b) && Val(a) == Val(b)
    ensures a == b
  {
    if |a| < |b| {
      NormalizedLengthOrder(a, b);
    } else if |b| < |a| {
      NormalizedLengthOrder(b, a);
    } else {
      ValInjective(a, b);
    }
  }

  /** Replacing word j changes the value by the difference at weight j. */
  lemma {:induction false} ValUpdate(w: seq<Word>, j: nat, v: Word)
    requires j < |w|
    ensures Val(w[j := v]) + Base(j) * w[j] == Val(w) + Base(j) * v
  {
    if j > 0 {
      var u := w[j := v];
      assert u[1..] == w[1..][j - 1 := v];
      ValUpdate(w[1..], j - 1, v);
      ScaleArith(Val(u[1..]), Val(w[1..]), Base(j - 1), w[j], v, Base(j));
    }
  }

  /** The arithmetic step of ValUpdate: an equation scaled by BASE. */
  lemma {:induction false} ScaleArith(x1: int, x0: int, b: int, a: int, c: int, bb: int)
    requires x1 + b * a == x0 + b * c && bb == BASE * b
    ensures BASE * x1 + bb * a == BASE * x0 + bb * c
  {
    assert BASE * (x1 + b * a) == BASE * (x0 + b * c);
  }

  /** The value of the first i words of w, with words past the end read as
      zero, as the word loops read a shorter operand. */
  function LowVal(w: seq<Word>, i: nat): nat
  {
    if i <= |w| then Val(w[..i]) else Val(w)
  }

  /** Extending the prefix by one word. */
  lemma {:induction false} LowValStep(w: seq<Word>, i: nat)
    ensures LowVal(w, i + 1) == LowVal(w, i) + Base(i) * (if i < |w| then w[i] else 0)
  {
    if i < |w| {
      ValTop(w[..i + 1]);
      assert w[..i + 1][..i] == w[..i];
    } else if i == |w| {
      assert w[..i] == w;
    }
  }

  /** A prefix that covers the vector is the whole value. */
  lemma {:induction false} LowValAll(w: seq<Word>, i: nat)
    requires i >= |w|
    ensures LowVal(w, i) == Val(w)
  {
    if i == |w| {
      assert w[..i] == w;
    }
  }

  /** A vector of two or more words whose value reaches the weight of its top
      word is normalized. */
  lemma {:induction false} HeavyNormalized(w: seq<Word>)
    requires |w| >= 2 && Val(w) >= Base(|w| - 1)
    ensures Normalized(w)
  {
    ValTop(w);
    ValBound(w[..|w| - 1]);
  }

  /** A vector no longer than the bit length of its value needs is
      normalized. */
  lemma {:induction false} NormalizedBySize(w: seq<Word>)
    requires |w| >= 1 && 32 * (|w| - 1) < BitLength(Val(w))
    ensures Normalized(w)
  {
    if |w| >= 2 {
      BitLengthBounds(Val(w));
      Pow2Monotone(32 * (|w| - 1), BitLength(Val(w)) - 1);
      BaseIsPow2(|w| - 1);
      HeavyNormalized(w);
    }
  }

  /** `x << d` on a 32-bit word: bits shifted past bit 31 are lost. */
  function ShlWord(x: Word, d: nat): Word
    requires d < 32
  {
    (x * Pow2(d)) % BASE
  }

  /** `x >> d` on a 32-bit word. */
  function ShrWord(x: Word, d: nat): Word
    requires d < 32
  {
    var p := Pow2(d);
    DivShrinks(x, p);
    x / p
  }

  /** Dividing by at least one does not make a natural larger. */
  lemma {:induction false} DivShrinks(x: nat, p: nat)
    requires p >= 1
    ensures 0 <= x / p <= x
  {
    assert p * (x / p) <= x;
  }
}
