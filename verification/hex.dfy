/** Conversion between extensible unsigned integers and hexadecimal strings:
    the string constructor, the digit loader it uses, assignment from a
    string, and the cast to a string.  Strings carry no "0x" prefix; the
    loader accepts both letter cases and the cast writes upper case. */
module Hex {
  import opened Bits
  import opened Words
  import opened Store

  /** A character the loader accepts as a hex digit. */
  predicate IsHexChar(c: char)
  {
    ('0' <= c <= '9') || ('A' <= c <= 'F') || ('a' <= c <= 'f')
  }

  /** A hex digit as the cast writes it: a decimal digit or an upper-case
      letter. */
  predicate IsUpperHexChar(c: char)
  {
    ('0' <= c <= '9') || ('A' <= c <= 'F')
  }

  predicate AllHex(s: string)
  {
    forall i :: 0 <= i < |s| ==> IsHexChar(s[i])
  }

  /** The value of one hex digit. */
  function DigitValue(c: char): (d: nat)
    requires IsHexChar(c)
    ensures d < 16
  {
    if '0' <= c <= '9' then c as nat - '0' as nat
    else if 'A' <= c <= 'F' then 10 + c as nat - 'A' as nat
    else 10 + c as nat - 'a' as nat
  }

  /** The character the cast writes for digit d. */
  function DigitChar(d: nat): (c: char)
    requires d < 16
    ensures IsUpperHexChar(c) && IsHexChar(c) && DigitValue(c) == d
  {
    if d < 10 then ('0' as int + d) as char else ('A' as int + d - 10) as char
  }

  /** Two upper-case digits with the same value are the same character. */
  lemma {:induction false} DigitValueInjective(a: char, b: char)
    requires IsUpperHexChar(a) && IsUpperHexChar(b) && DigitValue(a) == DigitValue(b)
    ensures a == b
  {
  }

  /** The number a string of hex digits denotes, most significant first. */
  function HexVal(s: string): nat
    requires AllHex(s)
  {
    if |s| == 0 then 0 else 16 * HexVal(s[..|s| - 1]) + DigitValue(s[|s| - 1])
  }

  /** The number of leading characters that are hex digits. */
  function HexPrefix(s: string): (k: nat)
    ensures k <= |s| && AllHex(s[..k])
    ensures k < |s| ==> !IsHexChar(s[k])
  {
    if |s| == 0 || !IsHexChar(s[0]) then 0
    else
      var k := 1 + HexPrefix(s[1..]);
      assert s[..k] == [s[0]] + s[1..][..k - 1];
      k
  }

  /** The number of words the string constructor allocates for n digits:
      n / 8 rounded up. */
  function WordsFor(n: nat): nat
  {
    (n + 7) / 8
  }

  /** The outcome of loadstring: whether every character was a digit, and
      the words as loaded (a prefix of the digits when one was not). */
  datatype Loaded = Loaded(ok: bool, words: seq<Word>)

  /** loadstring(s) into a vector of m words.  The first digit goes into
      word m - 1 at the position that leaves room for exactly the digits
      that follow, so with m larger than the string needs the value comes
      out scaled by 2^(32 (m - WordsFor(|s|))).  Loading stops at the first
      character that is not a hex digit, keeping the digits before it. */
  function LoadString(s: string, m: nat): (r: Loaded)
    requires m >= WordsFor(|s|)
    ensures |r.words| == m
    ensures r.ok <==> AllHex(s)
    ensures Val(r.words) == HexVal(s[..HexPrefix(s)])
              * Pow2(4 * (|s| - HexPrefix(s)) + 32 * (m - WordsFor(|s|)))
  {
    var n := |s|;
    var shift := if n % 8 == 0 then 32 else 4 * (n % 8);
    var off := 32 * (m - WordsFor(n));
    LoadStart(s, m, shift, off);
    var r := LoadDigits(s, 0, m - 1, shift, Zeros(m), off);
    LoadWhole(s, m, off, r);
    r
  }

  /** The outcome of loading from digit 0 is the outcome for the string. */
  lemma {:induction false} LoadWhole(s: string, m: nat, off: nat, r: Loaded)
    requires m >= WordsFor(|s|) && off == 32 * (m - WordsFor(|s|))
    requires LoadOutcome(s, 0, m, off, r)
    ensures |r.words| == m
    ensures r.ok <==> AllHex(s)
    ensures Val(r.words) == HexVal(s[..HexPrefix(s)])
              * Pow2(4 * (|s| - HexPrefix(s)) + 32 * (m - WordsFor(|s|)))
  {
    assert s[0..] == s;
  }

  /** The state of loadstring before digit i: digit i goes at bit position
      32 word + shift - 4 of the vector, the digits before it are loaded
      above that position, and the words below it are still zero. */
  predicate LoadInv(s: string, i: nat, word: int, shift: nat, buf: seq<Word>, off: nat)
  {
    && i <= |s| && AllHex(s[..i])
    && word < |buf| && shift <= 32 && shift % 4 == 0
    && 32 * word + shift == 4 * (|s| - i) + off
    && Val(buf) == HexVal(s[..i]) * Pow2(4 * (|s| - i) + off)
    && (forall j :: 0 <= j < word ==> buf[j] == 0)
    && (0 <= word ==> buf[word] % Pow2(shift) == 0)
  }

  /** What loading from digit i on delivers. */
  predicate LoadOutcome(s: string, i: nat, m: nat, off: nat, r: Loaded)
    requires i <= |s|
  {
    && |r.words| == m
    && (r.ok <==> AllHex(s[i..]))
    && i + HexPrefix(s[i..]) <= |s|
    && AllHex(s[..i + HexPrefix(s[i..])])
    && Val(r.words) == HexVal(s[..i + HexPrefix(s[i..])])
                       * Pow2(4 * (|s| - i - HexPrefix(s[i..])) + off)
  }

  /** The state loadstring starts from. */
  lemma {:induction false} LoadStart(s: string, m: nat, shift: nat, off: nat)
    requires m >= WordsFor(|s|)
    requires shift == if |s| % 8 == 0 then 32 else 4 * (|s| % 8)
    requires off == 32 * (m - WordsFor(|s|))
    ensures LoadInv(s, 0, m - 1, shift, Zeros(m), off)
  {
    assert 32 * (m - 1) + shift == 4 * |s| + off by {
      var q := |s| / 8;
      assert |s| == 8 * q + |s| % 8;
      assert WordsFor(|s|) == if |s| % 8 == 0 then q else q + 1;
    }
    assert Val(Zeros(m)) == 0 by {
      ValZero(Zeros(m));
    }
    assert s[..0] == [];
  }

  /** The digit loop of loadstring from digit i on. */
  function LoadDigits(s: string, i: nat, word: int, shift: nat, buf: seq<Word>, off: nat): (r: Loaded)
    requires LoadInv(s, i, word, shift, buf, off)
    ensures LoadOutcome(s, i, |buf|, off, r)
    decreases |s| - i
  {
    if i == |s| then
      LoadEnd(s, i, word, shift, buf, off);
      Loaded(true, buf)
    else if !IsHexChar(s[i]) then
      LoadStop(s, i, word, shift, buf, off);
      Loaded(false, buf)
    else
      var w := if shift == 0 then word - 1 else word;
      var sh: nat := (if shift == 0 then 32 else shift) - 4;
      var d := DigitValue(s[i]);
      LoadStep(s, i, word, shift, buf, off, w, sh, d);
      var v := Bitwise(Or, buf[w], ShlWord(d, sh));
      var r := LoadDigits(s, i + 1, w, sh, buf[w := v], off);
      LoadOutcomeStep(s, i, |buf|, off, r);
      r
  }

  lemma {:induction false} LoadEnd(s: string, i: nat, word: int, shift: nat, buf: seq<Word>, off: nat)
    requires LoadInv(s, i, word, shift, buf, off) && i == |s|
    ensures LoadOutcome(s, i, |buf|, off, Loaded(true, buf))
  {
    assert s[i..] == [];
    assert s[..i + HexPrefix(s[i..])] == s[..i];
  }

  lemma {:induction false} LoadStop(s: string, i: nat, word: int, shift: nat, buf: seq<Word>, off: nat)
    requires LoadInv(s, i, word, shift, buf, off) && i < |s| && !IsHexChar(s[i])
    ensures LoadOutcome(s, i, |buf|, off, Loaded(false, buf))
  {
    assert s[i..][0] == s[i];
    assert HexPrefix(s[i..]) == 0;
  }

  /** What loading from digit i + 1 delivers is what loading from digit i
      delivers when digit i is a hex digit. */
  lemma {:induction false} LoadOutcomeStep(s: string, i: nat, m: nat, off: nat, r: Loaded)
    requires i < |s| && IsHexChar(s[i])
    requires LoadOutcome(s, i + 1, m, off, r)
    ensures LoadOutcome(s, i, m, off, r)
  {
    AllHexTail(s, i);
  }

  /** Stepping over a hex digit: the rest of the string is all hex exactly
      when the string from the digit on is, and its hex prefix is one shorter. */
  lemma {:induction false} AllHexTail(s: string, i: nat)
    requires i < |s| && IsHexChar(s[i])
    ensures AllHex(s[i..]) <==> AllHex(s[i + 1..])
    ensures HexPrefix(s[i..]) == 1 + HexPrefix(s[i + 1..])
  {
    var t := s[i..];
    assert t[1..] == s[i + 1..];
    if AllHex(s[i + 1..]) {
      forall j | 0 <= j < |t|
        ensures IsHexChar(t[j])
      {
        if j > 0 {
          assert t[j] == t[1..][j - 1];
        }
      }
    }
  }

  /** One digit of loadstring keeps LoadInv. */
  lemma {:induction false} LoadStep(s: string, i: nat, word: int, shift: nat, buf: seq<Word>, off: nat,
                 w: int, sh: nat, d: nat)
    requires LoadInv(s, i, word, shift, buf, off) && i < |s| && IsHexChar(s[i])
    requires w == (if shift == 0 then word - 1 else word)
    requires sh == (if shift == 0 then 32 else shift) - 4
    requires d == DigitValue(s[i])
    ensures 0 <= w < |buf| && sh < 32
    ensures Bitwise(Or, buf[w], ShlWord(d, sh)) < BASE
    ensures LoadInv(s, i + 1, w, sh, buf[w := Bitwise(Or, buf[w], ShlWord(d, sh))], off)
  {
    LoadStepWords(|s| - i, word, shift, buf, off, w, sh, d);
    var u := buf[w := Bitwise(Or, buf[w], ShlWord(d, sh))];
    LoadStepValue(s, i, word, shift, buf, off, w, sh, d);
  }

  /** The words after one digit: the digit lands in word w without
      disturbing anything, and the words below the new position are zero. */
  lemma {:induction false} LoadStepWords(n: nat, word: int, shift: nat, buf: seq<Word>, off: nat,
                      w: int, sh: nat, d: nat)
    requires n >= 1 && word < |buf| && shift <= 32 && shift % 4 == 0
    requires 32 * word + shift == 4 * n + off
    requires forall j :: 0 <= j < word ==> buf[j] == 0
    requires 0 <= word ==> buf[word] % Pow2(shift) == 0
    requires w == (if shift == 0 then word - 1 else word)
    requires sh == (if shift == 0 then 32 else shift) - 4
    requires d < 16
    ensures 0 <= w < |buf| && sh < 32 && sh % 4 == 0
    ensures 32 * w + sh == 4 * (n - 1) + off
    ensures Bitwise(Or, buf[w], ShlWord(d, sh)) == buf[w] + d * Pow2(sh) < BASE
    ensures var u := buf[w := Bitwise(Or, buf[w], ShlWord(d, sh))];
            && (forall j :: 0 <= j < w ==> u[j] == 0)
            && u[w] % Pow2(sh) == 0
  {
    NextPosition(n, word, shift, off, w, sh);
    var old_: Word := buf[w];
    if shift == 0 {
      assert old_ == 0;
      ZeroMod(sh + 4);
    } else {
      assert old_ == buf[word];
      assert shift == sh + 4;
    }
    PlaceDigit(old_, d, sh);
    var v := Bitwise(Or, buf[w], ShlWord(d, sh));
    var u := buf[w := v];
    assert u[w] % Pow2(sh) == 0 by {
      assert u[w] == buf[w] + d * Pow2(sh);
    }
    forall j | 0 <= j < w
      ensures u[j] == 0
    {
      assert u[j] == buf[j];
    }
  }

  /** The bit position of the next digit, four bits below the last one:
      when the current word is full the position moves to the top of the
      word below. */
  lemma {:induction false} NextPosition(n: nat, word: int, shift: nat, off: nat, w: int, sh: int)
    requires n >= 1 && shift <= 32 && shift % 4 == 0
    requires 32 * word + shift == 4 * n + off
    requires w == (if shift == 0 then word - 1 else word)
    requires sh == (if shift == 0 then 32 else shift) - 4
    ensures 0 <= w <= word && 0 <= sh < 32 && sh % 4 == 0 && sh + 4 <= 32
    ensures 32 * w + sh == 4 * (n - 1) + off
    ensures shift == 0 ==> w < word
    ensures shift != 0 ==> sh + 4 == shift && w == word
  {
  }

  /** The value after one digit: the digits so far, one place up. */
  lemma {:induction false} LoadStepValue(s: string, i: nat, word: int, shift: nat, buf: seq<Word>, off: nat,
                      w: int, sh: nat, d: nat)
    requires LoadInv(s, i, word, shift, buf, off) && i < |s| && IsHexChar(s[i])
    requires 0 <= w < |buf| && sh < 32
    requires 32 * w + sh == 4 * (|s| - (i + 1)) + off
    requires d == DigitValue(s[i])
    requires Bitwise(Or, buf[w], ShlWord(d, sh)) == buf[w] + d * Pow2(sh) < BASE
    ensures AllHex(s[..i + 1])
    ensures Val(buf[w := Bitwise(Or, buf[w], ShlWord(d, sh))])
         == HexVal(s[..i + 1]) * Pow2(4 * (|s| - (i + 1)) + off)
  {
    var prefix := s[..i + 1];
    assert AllHex(prefix) && HexVal(prefix) == 16 * HexVal(s[..i]) + d by {
      assert prefix[..i] == s[..i];
    }
    var v := Bitwise(Or, buf[w], ShlWord(d, sh));
    var u := buf[w := v];
    ValUpdate(buf, w, v);
    PlaceValue(Val(u), Val(buf), w, sh, buf[w], v, d, HexVal(s[..i]));
  }

  lemma {:induction false} ZeroMod(k: nat)
    ensures 0 % Pow2(k) == 0
  {
  }

  /** `word | (digit << sh)` into a word whose bits below sh + 4 are clear:
      the digit lands in bits sh .. sh + 3 and nothing is lost. */
  lemma {:induction false} PlaceDigit(old_: Word, d: nat, sh: nat)
    requires d < 16 && sh + 4 <= 32 && old_ % Pow2(sh + 4) == 0
    ensures ShlWord(d, sh) == d * Pow2(sh)
    ensures Bitwise(Or, old_, ShlWord(d, sh)) == old_ + d * Pow2(sh) < BASE
    ensures (old_ + d * Pow2(sh)) % Pow2(sh) == 0
  {
    ShlDigit(d, sh);
    var digit: nat := d * Pow2(sh);
    OrDisjoint(old_, digit, sh + 4);
    Pow2Word();
    BitwiseBound(Or, old_, digit, 32);
    SumMultiple(old_, d, sh);
  }

  /** A hex digit shifted by sh stays below bit sh + 4 and inside the word. */
  lemma {:induction false} ShlDigit(d: nat, sh: nat)
    requires d < 16 && sh + 4 <= 32
    ensures 0 <= d * Pow2(sh) < Pow2(sh + 4) <= BASE
    ensures ShlWord(d, sh) == d * Pow2(sh)
  {
    var p: int := Pow2(sh);
    assert Pow2(sh + 4) == 16 * p by {
      Pow2Add(sh, 4);
      assert Pow2(4) == 16;
    }
    DigitBound(d, p, Pow2(sh + 4));
    assert Pow2(sh + 4) <= BASE by {
      Pow2Monotone(sh + 4, 32);
      Pow2Word();
    }
    var x: int := d * p;
    ModBelow(x, BASE);
  }

  lemma {:induction false} ModBelow(x: int, m: int)
    requires 0 <= x < m
    ensures x % m == x
  {
  }

  /** A digit times the weight p is below 16 p. */
  lemma {:induction false} DigitBound(d: nat, p: int, p16: int)
    requires d < 16 && p >= 1 && p16 == 16 * p
    ensures 0 <= d * p < p16
  {
    MulMonotone(p, d, 15);
  }

  /** The value after placing a digit: the digits so far, one place up. */
  lemma {:induction false} PlaceValue(vu: int, vb: int, w: nat, sh: nat, old_: int, v: int, d: nat, h: int)
    requires vu + Base(w) * old_ == vb + Base(w) * v
    requires v == old_ + d * Pow2(sh)
    requires vb == h * Pow2(32 * w + sh + 4)
    ensures vu == (16 * h + d) * Pow2(32 * w + sh)
  {
    BaseIsPow2(w);
    Pow2Add(32 * w, sh);
    Pow2Add(32 * w + sh, 4);
    assert Pow2(4) == 16;
    LoadArith(vu, vb, Base(w), old_, v, d * Pow2(sh), d, Pow2(sh), Pow2(32 * w + sh), h);
  }

  /** A multiple of 2^(k+4) plus a multiple of 2^k is a multiple of 2^k. */
  lemma {:induction false} SumMultiple(a: nat, d: nat, k: nat)
    requires a % Pow2(k + 4) == 0
    ensures (a + d * Pow2(k)) % Pow2(k) == 0
  {
    Pow2Add(k, 4);
    var q := a / Pow2(k + 4);
    assert a + d * Pow2(k) == (q * 16 + d) * Pow2(k);
    MulPow2DivMod(q * 16 + d, k);
  }

  /** The arithmetic of PlaceValue. */
  lemma {:induction false} LoadArith(vu: int, vb: int, bw: int, old_: int, v: int, digit: int, d: int,
                  psh: int, ppos: int, h: int)
    requires vu + bw * old_ == vb + bw * v
    requires v == old_ + digit && digit == d * psh
    requires bw * psh == ppos
    requires vb == h * (ppos * 16)
    ensures vu == (16 * h + d) * ppos
  {
    assert bw * digit == d * ppos;
  }

  /** Every character of an all-hex string is a digit: the hex prefix is
      the whole string. */
  lemma {:induction false} HexPrefixAll(s: string)
    ensures AllHex(s) ==> HexPrefix(s) == |s|
  {
    if |s| > 0 && AllHex(s) {
      assert AllHex(s[1..]) by {
        forall j | 0 <= j < |s| - 1
          ensures IsHexChar(s[1..][j])
        {
          assert s[1..][j] == s[j + 1];
        }
      }
      HexPrefixAll(s[1..]);
    }
  }

  /** uintx_t(const std::string&): a vector of WordsFor(|s|) zero words
      into which the digits are loaded.  The empty string gives an empty
      vector. */
  function FromString(s: string): (r: seq<Word>)
    ensures |r| == WordsFor(|s|)
    ensures AllHex(s) ==> Val(r) == HexVal(s)
  {
    HexPrefixAll(s);
    assert s[..|s|] == s;
    LoadString(s, WordsFor(|s|)).words
  }

  /** operator=(const std::string&) as written: the digits are loaded into
      the vector's current words, which must be at least as many as the
      string needs. */
  function AssignStringAsWritten(target: seq<Word>, s: string): (r: seq<Word>)
    requires |target| >= WordsFor(|s|)
    ensures |r| == |target|
    ensures AllHex(s) ==> Val(r) == HexVal(s) * Base(|target| - WordsFor(|s|))
  {
    HexPrefixAll(s);
    assert s[..|s|] == s;
    BaseIsPow2(|target| - WordsFor(|s|));
    LoadString(s, |target|).words
  }

  /** Assigning "1" to a two-word zero gives 2^32, not 1. */
  lemma {:induction false} AssignStringScales()
    ensures Val(AssignStringAsWritten(FromUint64(0), "1")) == BASE
  {
    var s := "1";
    assert AllHex(s);
    assert HexVal(s) == 1 by {
      assert s[..0] == [];
    }
    assert Base(1) == BASE;
  }

  /** operator=(const std::string&) as intended: the value is the string's,
      whatever the target held, as with the string constructor. */
  function AssignString(target: seq<Word>, s: string): (r: seq<Word>)
    ensures |r| == WordsFor(|s|)
    ensures AllHex(s) ==> Val(r) == HexVal(s)
  {
    var buf := Reallocate(target, WordsFor(|s|));
    HexPrefixAll(s);
    assert s[..|s|] == s;
    LoadString(s, |buf|).words
  }

  /** The digits of a word from the least significant on: the low four bits
      give a digit, then the word is shifted down four bits. */
  function WordDigits(n: nat, count: nat): (s: string)
    ensures |s| == count
    ensures forall i :: 0 <= i < |s| ==> IsUpperHexChar(s[i]) && IsHexChar(s[i])
  {
    if count == 0 then [] else [DigitChar(n % 16)] + WordDigits(n / 16, count - 1)
  }

  /** Eight digits per word, least significant word and digit first. */
  function LsdDigits(w: seq<Word>): (s: string)
    ensures |s| == 8 * |w|
    ensures forall i :: 0 <= i < |s| ==> IsUpperHexChar(s[i]) && IsHexChar(s[i])
  {
    if |w| == 0 then [] else WordDigits(w[0], 8) + LsdDigits(w[1..])
  }

  /** Pop '0' from the end of the string while the last character is not
      also the first. */
  function TrimHigh(s: string): (t: string)
    requires |s| >= 1
    ensures 1 <= |t| <= |s| && t == s[..|t|]
    ensures |t| == 1 || t[|t| - 1] != '0'
    ensures forall i :: |t| <= i < |s| ==> s[i] == '0'
    decreases |s|
  {
    if |s| > 1 && s[|s| - 1] == '0' then TrimHigh(s[..|s| - 1]) else s
  }

  function Reverse(s: string): (r: string)
    ensures |r| == |s|
    ensures forall i :: 0 <= i < |s| ==> r[i] == s[|s| - 1 - i]
  {
    if |s| == 0 then [] else Reverse(s[1..]) + [s[0]]
  }

  /** operator std::string(): upper-case hex, most significant digit first,
      with no leading zero unless the string is "0".  The source steps back
      from the end of the digit string before testing it, so the vector must
      not be empty. */
  function ToHex(w: seq<Word>): (r: string)
    requires |w| >= 1
    ensures |r| >= 1 && AllHex(r)
    ensures forall i :: 0 <= i < |r| ==> IsUpperHexChar(r[i])
    ensures r[0] != '0' || r == "0"
    ensures HexVal(r) == Val(w)
  {
    var digits := LsdDigits(w);
    var t := TrimHigh(digits);
    var r := Reverse(t);
    HexValReverse(t);
    LsdDigitsVal(w);
    TrimHighVal(digits);
    r
  }

  /** The value of a string of digits written least significant first. */
  function LsdVal(s: string): nat
    requires AllHex(s)
  {
    if |s| == 0 then 0 else DigitValue(s[0]) + 16 * LsdVal(s[1..])
  }

  lemma {:induction false} HexValReverse(s: string)
    requires AllHex(s)
    ensures AllHex(Reverse(s)) && HexVal(Reverse(s)) == LsdVal(s)
  {
    if |s| > 0 {
      HexValReverse(s[1..]);
      var r := Reverse(s);
      assert r[..|r| - 1] == Reverse(s[1..]);
    }
  }

  lemma {:induction false} AllHexSlice(s: string, lo: nat, hi: nat)
    requires AllHex(s) && lo <= hi <= |s|
    ensures AllHex(s[lo..hi])
  {
    forall j | 0 <= j < hi - lo
      ensures IsHexChar(s[lo..hi][j])
    {
      assert s[lo..hi][j] == s[lo + j];
    }
  }

  lemma {:induction false} AllHexAppend(a: string, b: string)
    requires AllHex(a) && AllHex(b)
    ensures AllHex(a + b)
  {
    forall j | 0 <= j < |a + b|
      ensures IsHexChar((a + b)[j])
    {
      if j < |a| {
        assert (a + b)[j] == a[j];
      } else {
        assert (a + b)[j] == b[j - |a|];
      }
    }
  }

  lemma {:induction false} LsdValAppend(a: string, b: string)
    requires AllHex(a) && AllHex(b)
    ensures AllHex(a + b)
    ensures LsdVal(a + b) == LsdVal(a) + Pow2(4 * |a|) * LsdVal(b)
  {
    AllHexAppend(a, b);
    if |a| > 0 {
      assert (a + b)[1..] == a[1..] + b;
      AllHexSlice(a, 1, |a|);
      assert a[1..|a|] == a[1..];
      LsdValAppend(a[1..], b);
      Pow2Add(4, 4 * (|a| - 1));
      assert Pow2(4) == 16;
      DigitArith(LsdVal(a + b), DigitValue(a[0]), LsdVal(a[1..] + b), LsdVal(a[1..]),
                 LsdVal(b), Pow2(4 * (|a| - 1)), Pow2(4 * |a|), LsdVal(a));
    } else {
      assert a + b == b;
    }
  }

  /** The arithmetic step of LsdValAppend. */
  lemma {:induction false} DigitArith(vab: int, d: int, tail: int, rest: int, vb: int, p: int, pp: int, va: int)
    requires vab == d + 16 * tail && tail == rest + p * vb
    requires va == d + 16 * rest && pp == 16 * p
    ensures vab == va + pp * vb
  {
  }

  lemma {:induction false} WordDigitsVal(n: nat, count: nat)
    requires n < Pow2(4 * count)
    ensures LsdVal(WordDigits(n, count)) == n
  {
    if count > 0 {
      var p: int := Pow2(4 * (count - 1));
      assert Pow2(4 * count) == 16 * p by {
        Pow2Add(4, 4 * (count - 1));
        assert Pow2(4) == 16;
      }
      assert n / 16 < p;
      WordDigitsVal(n / 16, count - 1);
      var s := WordDigits(n, count);
      assert s[1..] == WordDigits(n / 16, count - 1);
    }
  }

  lemma {:induction false} LsdDigitsVal(w: seq<Word>)
    ensures LsdVal(LsdDigits(w)) == Val(w)
  {
    if |w| > 0 {
      LsdDigitsVal(w[1..]);
      Pow2Word();
      WordDigitsVal(w[0], 8);
      LsdValAppend(WordDigits(w[0], 8), LsdDigits(w[1..]));
    }
  }

  /** Zero digits at the most significant end add nothing. */
  lemma {:induction false} TrimHighVal(s: string)
    requires |s| >= 1 && AllHex(s)
    ensures LsdVal(TrimHigh(s)) == LsdVal(s)
  {
    var t := TrimHigh(s);
    var z := s[|t|..];
    assert s == t + z;
    AllHexSlice(s, 0, |t|);
    assert s[0..|t|] == t;
    LsdValZeros(z);
    LsdValAppend(t, z);
  }

  lemma {:induction false} LsdValZeros(z: string)
    requires forall i :: 0 <= i < |z| ==> z[i] == '0'
    ensures AllHex(z) && LsdVal(z) == 0
  {
    if |z| > 0 {
      LsdValZeros(z[1..]);
    }
  }

  lemma {:induction false} HexValBound(s: string)
    requires AllHex(s)
    ensures HexVal(s) < Pow2(4 * |s|)
  {
    if |s| > 0 {
      var p := s[..|s| - 1];
      HexValBound(p);
      Pow2Add(4 * |p|, 4);
      assert Pow2(4) == 16;
    }
  }

  /** A string whose first digit is not zero is at least 16^(|s|-1). */
  lemma {:induction false} HexValLower(s: string)
    requires |s| >= 1 && AllHex(s) && DigitValue(s[0]) != 0
    ensures Pow2(4 * (|s| - 1)) <= HexVal(s)
  {
    if |s| > 1 {
      var p := s[..|s| - 1];
      assert p[0] == s[0];
      HexValLower(p);
      var a: int := Pow2(4 * (|p| - 1));
      var h: int := HexVal(p);
      assert HexVal(s) >= 16 * h;
      assert Pow2(4 * (|s| - 1)) == 16 * a by {
        Pow2Add(4 * (|p| - 1), 4);
        assert Pow2(4) == 16;
      }
    }
  }

  /** A string as the cast writes it: upper-case digits, no leading zero
      unless it is "0". */
  predicate Canonical(s: string)
  {
    |s| >= 1 && (forall i :: 0 <= i < |s| ==> IsUpperHexChar(s[i])) && (s[0] != '0' || s == "0")
  }

  /** Canonical strings are determined by their values. */
  lemma {:induction false} CanonicalUnique(s: string, t: string)
    requires Canonical(s) && Canonical(t)
    requires AllHex(s) && AllHex(t) && HexVal(s) == HexVal(t)
    ensures s == t
  {
    if s == "0" || t == "0" {
      assert HexVal("0") == 0 by { assert "0"[..0] == []; }
      if s != "0" {
        HexValLower(s);
      } else if t != "0" {
        HexValLower(t);
      }
    } else {
      HexValLower(s);
      HexValLower(t);
      HexValBound(s);
      HexValBound(t);
      if |s| < |t| {
        Pow2Monotone(4 * |s|, 4 * (|t| - 1));
      } else if |t| < |s| {
        Pow2Monotone(4 * |t|, 4 * (|s| - 1));
      }
      SameLengthUnique(s, t);
    }
  }

  /** Upper-case digit strings of one length are determined by their values. */
  lemma {:induction false} SameLengthUnique(s: string, t: string)
    requires |s| == |t|
    requires forall i :: 0 <= i < |s| ==> IsUpperHexChar(s[i])
    requires forall i :: 0 <= i < |t| ==> IsUpperHexChar(t[i])
    requires AllHex(s) && AllHex(t) && HexVal(s) == HexVal(t)
    ensures s == t
  {
    if |s| > 0 {
      var n := |s| - 1;
      DivModUnique(HexVal(s), 16, HexVal(s[..n]), DigitValue(s[n]));
      DivModUnique(HexVal(t), 16, HexVal(t[..n]), DigitValue(t[n]));
      SameLengthUnique(s[..n], t[..n]);
      DigitValueInjective(s[n], t[n]);
      assert s == s[..n] + [s[n]];
      assert t == t[..n] + [t[n]];
    }
  }

  /** Writing a vector out and reading the string back gives the same
      number, and the same vector when the vector is normalized. */
  lemma {:induction false} HexRoundTrip(w: seq<Word>)
    requires |w| >= 1
    ensures AllHex(ToHex(w)) && LoadString(ToHex(w), WordsFor(|ToHex(w)|)).ok
    ensures Val(FromString(ToHex(w))) == Val(w)
    ensures Normalized(w) ==> FromString(ToHex(w)) == w
  {
    var s := ToHex(w);
    var r := FromString(s);
    if Normalized(w) {
      assert |r| == |w| by {
        HexDigitCount(w, s);
      }
      ValInjective(r, w);
    }
  }

  /** The cast writes between 8 (|w| - 1) + 1 and 8 |w| digits for a
      normalized vector. */
  lemma {:induction false} HexDigitCount(w: seq<Word>, s: string)
    requires Normalized(w) && s == ToHex(w)
    ensures WordsFor(|s|) == |w|
  {
    DigitsForValue(w, s);
  }

  /** The digit count of any canonical string denoting a normalized
      vector's value. */
  lemma {:induction false} DigitsForValue(w: seq<Word>, s: string)
    requires Normalized(w) && |s| >= 1 && AllHex(s) && HexVal(s) == Val(w)
    requires s[0] != '0' || s == "0"
    ensures WordsFor(|s|) == |w|
  {
    var n, k := |s|, |w|;
    ValBound(w);
    BaseIsPow2(k);
    if s != "0" {
      HexValLower(s);
      Pow2Reflect(4 * (n - 1), 32 * k);
    }
    if k >= 2 {
      NormalizedLower(w);
      BaseIsPow2(k - 1);
      HexValBound(s);
      Pow2Reflect(32 * (k - 1), 4 * n);
    }
    DigitWords(n, k);
  }

  lemma {:induction false} DigitWords(n: int, k: int)
    requires n >= 1 && k >= 1 && (n == 1 || 4 * (n - 1) < 32 * k) && (k == 1 || 32 * (k - 1) < 4 * n)
    ensures (n + 7) / 8 == k
  {
  }

  /** Reading a canonical string and writing the result back gives the
      same string. */
  lemma {:induction false} HexRoundTripString(s: string)
    requires Canonical(s)
    ensures ToHex(FromString(s)) == s
  {
    assert AllHex(s);
    var w := FromString(s);
    assert |w| >= 1;
    CanonicalUnique(ToHex(w), s);
  }
}
