/** Addition: operator+= and operator+.  The sum is formed word by word with
    a one-bit carry; the carry is computed by setting the most significant
    bit of each operand aside, so no sum ever exceeds 32 bits. */
module Add {
  import opened Bits
  import opened Words
  import opened Store

  /** The most significant bit of a word (mask_msb). */
  const MSB: nat := 0x8000_0000

  /** One word of the sum.  `(v & mask_msb) >> 31` is v / MSB and
      `v & mask_lsb` is v % MSB; the low 31-bit parts are added with the
      carry, the three top bits give the carry total, whose low bit becomes
      the top bit of the sum word and whose high bit is the next carry. */
  function AddWord(left: Word, right: Word, carry: nat): (r: (Word, nat))
    requires carry <= 1
    ensures r.0 + BASE * r.1 == left + right + carry
    ensures r.1 <= 1
  {
    var leftMsb, rightMsb := left / MSB, right / MSB;
    var sum := left % MSB + right % MSB + carry;
    var total := leftMsb + rightMsb + sum / MSB;
    var word := if total == 1 || total == 3 then sum % MSB + MSB else sum % MSB;
    (word, total / 2)
  }

  /** operator+=(y): the target grows to the longer length, each word is
      replaced by the sum word, and a final carry adds a top word 1. */
  method AddAssign(x: seq<Word>, y: seq<Word>) returns (r: seq<Word>)
    ensures Val(r) == Val(x) + Val(y)
    ensures var n := if |x| > |y| then |x| else |y|;
      |r| == n || (|r| == n + 1 && r[n] == 1)
    ensures Normalized(x) && Normalized(y) ==> Normalized(r)
  {
    var buf, carry := AddWords(x, y);
    if carry >= 1 {
      ValSnoc(buf, 1);
      r := buf + [1];
    } else {
      r := buf;
      if Normalized(x) && Normalized(y) {
        AddNormal(x, y, r);
      }
    }
  }

  /** The word loop of operator+=: the sum words of the longer length and
      the carry out of the top word. */
  method AddWords(x: seq<Word>, y: seq<Word>) returns (buf: seq<Word>, carry: nat)
    ensures |buf| == if |x| > |y| then |x| else |y|
    ensures carry <= 1
    ensures Val(buf) + Base(|buf|) * carry == Val(x) + Val(y)
  {
    var n := if |x| > |y| then |x| else |y|;
    buf := Grow(x, n);
    carry := 0;
    var i := 0;
    while i < n
      invariant i <= n && |buf| == n && carry <= 1
      invariant forall j :: i <= j < |x| ==> buf[j] == x[j]
      invariant Val(buf[..i]) + Base(i) * carry == LowVal(x, i) + LowVal(y, i)
    {
      var left := if i < |x| then buf[i] else 0;
      var right := if i < |y| then y[i] else 0;
      var step := AddWord(left, right, carry);
      AddStep(buf, i, step.0, step.1, carry, x, y, left, right);
      buf := buf[i := step.0];
      carry := step.1;
      i := i + 1;
    }
    AddDone(buf, carry, x, y);
  }

  /** After the last word, the words and the carry hold the whole sum. */
  lemma {:induction false} AddDone(buf: seq<Word>, carry: nat, x: seq<Word>, y: seq<Word>)
    requires |buf| >= |x| && |buf| >= |y|
    requires Val(buf[..|buf|]) + Base(|buf|) * carry == LowVal(x, |buf|) + LowVal(y, |buf|)
    ensures Val(buf) + Base(|buf|) * carry == Val(x) + Val(y)
  {
    assert buf[..|buf|] == buf;
    LowValAll(x, |buf|);
    LowValAll(y, |buf|);
  }

  /** A sum of normalized operands that needs no extra word is normalized:
      it is at least the longer operand, which reaches the weight of its top
      word. */
  lemma {:induction false} AddNormal(x: seq<Word>, y: seq<Word>, r: seq<Word>)
    requires Normalized(x) && Normalized(y) && Val(r) == Val(x) + Val(y)
    requires |r| == if |x| > |y| then |x| else |y|
    ensures Normalized(r)
  {
    if |r| >= 2 {
      if |x| == |r| {
        NormalizedLower(x);
      } else {
        NormalizedLower(y);
      }
      HeavyNormalized(r);
    }
  }

  /** The value bookkeeping of one iteration of AddAssign: l and m are the
      operands' words i (zero past their ends). */
  lemma {:induction false} AddStep(buf: seq<Word>, i: nat, s: Word, c: nat, carry: nat, x: seq<Word>, y: seq<Word>, l: nat, m: nat)
    requires i < |buf|
    requires l == (if i < |x| then x[i] else 0) && m == (if i < |y| then y[i] else 0)
    requires s + BASE * c == l + m + carry
    requires Val(buf[..i]) + Base(i) * carry == LowVal(x, i) + LowVal(y, i)
    ensures Val(buf[i := s][..i + 1]) + Base(i + 1) * c == LowVal(x, i + 1) + LowVal(y, i + 1)
  {
    var u := buf[i := s][..i + 1];
    assert u == buf[..i] + [s];
    ValSnoc(buf[..i], s);
    LowValStep(x, i);
    LowValStep(y, i);
    assert Base(i + 1) == BASE * Base(i);
    CarryArith(Val(buf[..i]), Base(i), carry, s, c, LowVal(x, i), LowVal(y, i), l, m,
               Val(u), Base(i + 1), LowVal(x, i + 1), LowVal(y, i + 1));
  }

  /** The arithmetic step of AddStep. */
  lemma {:induction false} CarryArith(v: int, b: int, carry: int, s: int, c: int, lx: int, ly: int, l: int, m: int,
                   v': int, b': int, lx': int, ly': int)
    requires v + b * carry == lx + ly && s + BASE * c == l + m + carry
    requires v' == v + b * s && b' == BASE * b && lx' == lx + b * l && ly' == ly + b * m
    ensures v' + b' * c == lx' + ly'
  {
    assert b * (s + BASE * c) == b * (l + m + carry);
  }

  /** operator+(x, y): a copy of x with y added. */
  method Plus(x: seq<Word>, y: seq<Word>) returns (r: seq<Word>)
    ensures Val(r) == Val(x) + Val(y)
    ensures Normalized(x) && Normalized(y) ==> Normalized(r)
  {
    r := AddAssign(x, y);
  }
}
