/** The bitwise operators &, | and ^.  The result is a copy of the left
    operand whose first min(|x|, |y|) words are combined with the right
    operand's words; the left operand's words above that are kept as they
    are, and the right operand's words above that are ignored.  The result
    is therefore the bitwise combination of the two numbers only when the
    operands have the same length. */
module Logic {
  import opened Bits
  import opened Words

  /** A bitwise operation on two words stays within a word. */
  function WordOp(op: BitOp, a: Word, b: Word): Word
  {
    Pow2Word();
    BitwiseBound(op, a, b, 32);
    Bitwise(op, a, b)
  }

  /** Two equal-length vectors combined word by word. */
  function Pairwise(op: BitOp, a: seq<Word>, b: seq<Word>): (r: seq<Word>)
    requires |a| == |b|
    ensures |r| == |a|
  {
    seq(|a|, i requires 0 <= i < |a| => WordOp(op, a[i], b[i]))
  }

  /** Combining word by word is combining the numbers: the words split the
      numbers at every multiple of 32 bits. */
  lemma {:induction false} PairwiseValue(op: BitOp, a: seq<Word>, b: seq<Word>)
    requires |a| == |b|
    ensures Val(Pairwise(op, a, b)) == Bitwise(op, Val(a), Val(b))
    decreases |a|
  {
    var p := Pairwise(op, a, b);
    if |a| == 0 {
      assert Bitwise(op, 0, 0) == 0;
    } else {
      assert p[1..] == Pairwise(op, a[1..], b[1..]);
      PairwiseValue(op, a[1..], b[1..]);
      Pow2Word();
      assert Join(a[0], Val(a[1..]), 32) == Val(a);
      assert Join(b[0], Val(b[1..]), 32) == Val(b);
      BitwiseSplit(op, a[0], Val(a[1..]), b[0], Val(b[1..]), 32);
    }
  }

  /** The number of words both operands have. */
  function Common(x: seq<Word>, y: seq<Word>): nat
  {
    if |x| < |y| then |x| else |y|
  }

  /** operator&, operator| and operator^: a copy of x, grown to the common
      length (which never grows it), whose words below the common length
      are combined with y's. */
  method Combine(op: BitOp, x: seq<Word>, y: seq<Word>) returns (r: seq<Word>)
    ensures |r| == |x|
    ensures forall i :: 0 <= i < |x| ==> r[i] == if i < |y| then Bitwise(op, x[i], y[i]) else x[i]
    ensures var n := Common(x, y);
      Val(r) == Bitwise(op, Val(x[..n]), Val(y[..n])) + Base(n) * Val(x[n..])
    ensures |x| == |y| ==> Val(r) == Bitwise(op, Val(x), Val(y))
  {
    r := CombineLow(op, x, y);
    CombineValue(op, x, y, r);
    if |x| == |y| {
      EqualCommon(x, y);
    }
  }

  /** The loop of the bitwise operators: x's words below the common length
      combined with y's, the rest of x kept. */
  method CombineLow(op: BitOp, x: seq<Word>, y: seq<Word>) returns (r: seq<Word>)
    ensures |r| == |x|
    ensures forall j :: 0 <= j < Common(x, y) ==> r[j] == WordOp(op, x[j], y[j])
    ensures forall j :: Common(x, y) <= j < |x| ==> r[j] == x[j]
  {
    var n := Common(x, y);
    r := x;
    var i := 0;
    while i < n
      invariant i <= n && |r| == |x|
      invariant forall j :: 0 <= j < i ==> r[j] == WordOp(op, x[j], y[j])
      invariant forall j :: i <= j < |x| ==> r[j] == x[j]
    {
      r := r[i := WordOp(op, r[i], y[i])];
      i := i + 1;
    }
  }

  /** Operands of one length have nothing above the common length. */
  lemma EqualCommon(x: seq<Word>, y: seq<Word>)
    requires |x| == |y|
    ensures x[..Common(x, y)] == x && y[..Common(x, y)] == y
    ensures Val(x[Common(x, y)..]) == 0
  {
    assert x[Common(x, y)..] == [];
  }

  /** The value of a vector combined below the common length. */
  lemma {:induction false} CombineValue(op: BitOp, x: seq<Word>, y: seq<Word>, r: seq<Word>)
    requires |r| == |x|
    requires forall j :: 0 <= j < Common(x, y) ==> r[j] == WordOp(op, x[j], y[j])
    requires forall j :: Common(x, y) <= j < |x| ==> r[j] == x[j]
    ensures var n := Common(x, y);
      Val(r) == Bitwise(op, Val(x[..n]), Val(y[..n])) + Base(n) * Val(x[n..])
  {
    var n := Common(x, y);
    assert r == Pairwise(op, x[..n], y[..n]) + x[n..];
    PairwiseValue(op, x[..n], y[..n]);
    ValAppend(Pairwise(op, x[..n], y[..n]), x[n..]);
  }
}
