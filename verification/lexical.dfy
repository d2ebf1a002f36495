/** The lexical analyzer of the expression calculator, CLex.  The lexer reads
    a buffer from a current position and leaves in its state the current
    symbol, the last number read and the last valid identifier read.  Here
    the state is an immutable value and getsymbol is a pure function from
    state to state. */
module Lexical {
  /** The kinds of symbol the lexer produces. */
  datatype Symbol = Null | Number | Identifier | LParen | RParen | Mul | Div | Plus | Minus

  /** The expression string the lexer reads. */
  datatype Input = Input(text: string)

  /** The lexer's state: the input, the index of the current character, the
      current symbol, the number of the last Number symbol and the name of
      the last valid Identifier symbol. */
  datatype Lex = Lex(input: Input, pos: nat, sym: Symbol, number: nat, ident: string)
  {
    /** The characters of the input. */
    const buf: string := input.text
  }

  /** The names the lexer accepts as identifiers. */
  const FunctionNames: set<string> := {"sqrtx", "sqrx", "factorialx", "exp2x", "fibx", "log2x"}

  predicate IsNumeric(c: char)
  {
    '0' <= c <= '9'
  }

  /** Letters are lower case only. */
  predicate IsAlpha(c: char)
  {
    'a' <= c <= 'z'
  }

  predicate IsAlphaNumeric(c: char)
  {
    IsNumeric(c) || IsAlpha(c)
  }

  /** White space is a space or a tab, nothing else. */
  predicate IsWhitespace(c: char)
  {
    c == ' ' || c == '\t'
  }

  predicate AllDigits(s: string)
  {
    forall k :: 0 <= k < |s| ==> IsNumeric(s[k])
  }

  /** The value of a decimal digit; getnumber applies it to digits only. */
  function Digit(c: char): (d: nat)
    ensures d < 10
  {
    if IsNumeric(c) then c as int - '0' as int else 0
  }

  /** The decimal digit with a given value. */
  function DigitChar(d: nat): (c: char)
    requires d < 10
    ensures IsNumeric(c) && Digit(c) == d
  {
    ('0' as int + d) as char
  }

  /** The value of a string of decimal digits, most significant first. */
  function DecimalValue(s: string): nat
  {
    if s == [] then 0 else 10 * DecimalValue(s[..|s| - 1]) + Digit(s[|s| - 1])
  }

  /** The decimal rendering of a number: no leading zero except for zero
      itself.  The source renders numbers with to_string, which is not part
      of this model. */
  function Decimal(n: nat): (s: string)
    ensures 1 <= |s| && AllDigits(s)
    ensures s[0] == '0' ==> n == 0
  {
    if n < 10 then [DigitChar(n)] else Decimal(n / 10) + [DigitChar(n % 10)]
  }

  /** A decimal string without a superfluous leading zero. */
  predicate Canonical(s: string)
  {
    1 <= |s| && AllDigits(s) && (s[0] == '0' ==> |s| == 1)
  }

  /** Reading back a rendered number gives the number. */
  lemma {:induction false} DecimalRoundTrip(n: nat)
    ensures Canonical(Decimal(n))
    ensures DecimalValue(Decimal(n)) == n
  {
    if n >= 10 {
      DecimalRoundTrip(n / 10);
      var s := Decimal(n);
      assert s[..|s| - 1] == Decimal(n / 10);
    }
  }

  /** A canonical string of two or more digits has a value of at least ten. */
  lemma {:induction false} CanonicalValue(s: string)
    requires Canonical(s)
    ensures s[0] != '0' ==> DecimalValue(s) >= 1
    ensures |s| >= 2 ==> DecimalValue(s) >= 10
  {
    if |s| >= 2 {
      var s' := s[..|s| - 1];
      assert s'[0] == s[0];
      CanonicalValue(s');
    }
  }

  /** Rendering the value of a canonical decimal string gives the string. */
  lemma {:induction false} DecimalOfValue(s: string)
    requires Canonical(s)
    ensures Decimal(DecimalValue(s)) == s
  {
    if |s| >= 2 {
      var s' := s[..|s| - 1];
      assert s'[0] == s[0];
      CanonicalValue(s');
      DecimalOfValue(s');
      var v := DecimalValue(s);
      CanonicalValue(s);
      assert v / 10 == DecimalValue(s') && v % 10 == Digit(s[|s| - 1]);
      assert s == s' + [s[|s| - 1]];
    }
  }

  /** The end of the run of digits starting at pos. */
  function DigitsEnd(buf: string, pos: nat): (e: nat)
    requires pos <= |buf|
    ensures pos <= e <= |buf|
    ensures e < |buf| ==> !IsNumeric(buf[e])
    decreases |buf| - pos
  {
    if pos < |buf| && IsNumeric(buf[pos]) then DigitsEnd(buf, pos + 1) else pos
  }

  /** The run DigitsEnd finds is made of digits. */
  lemma {:induction false} DigitsAll(buf: string, pos: nat)
    requires pos <= |buf|
    ensures AllDigits(buf[pos..DigitsEnd(buf, pos)])
    decreases |buf| - pos
  {
    var e := DigitsEnd(buf, pos);
    if pos < |buf| && IsNumeric(buf[pos]) {
      DigitsAll(buf, pos + 1);
      assert buf[pos..e] == [buf[pos]] + buf[pos + 1..e];
    }
  }

  /** The end of the run of letters and digits starting at pos. */
  function NameEnd(buf: string, pos: nat): (e: nat)
    requires pos <= |buf|
    ensures pos <= e <= |buf|
    ensures e < |buf| ==> !IsAlphaNumeric(buf[e])
    decreases |buf| - pos
  {
    if pos < |buf| && IsAlphaNumeric(buf[pos]) then NameEnd(buf, pos + 1) else pos
  }

  /** The first position at or after pos that is not white space. */
  function SkipWhite(buf: string, pos: nat): (p: nat)
    ensures pos <= p
    ensures pos <= |buf| ==> p <= |buf|
    ensures pos > |buf| ==> p == pos
    ensures p < |buf| ==> !IsWhitespace(buf[p])
    decreases |buf| - pos
  {
    if pos < |buf| && IsWhitespace(buf[pos]) then SkipWhite(buf, pos + 1) else pos
  }

  /** getnumber: at least one digit is taken; each digit read multiplies the
      accumulated value by ten and adds the digit.  The result is the value
      and the position after the last digit. */
  function ReadDigits(buf: string, pos: nat, acc: nat): (r: (nat, nat))
    requires pos < |buf| && IsNumeric(buf[pos])
    ensures pos < r.1 <= |buf|
    decreases |buf| - pos
  {
    var acc' := acc * 10 + Digit(buf[pos]);
    if pos + 1 < |buf| && IsNumeric(buf[pos + 1]) then ReadDigits(buf, pos + 1, acc') else (acc', pos + 1)
  }

  /** getnumber reads the maximal run of digits and yields its decimal value
      (accumulated on top of the digits already read). */
  lemma {:induction false} ReadDigitsValue(buf: string, pos: nat, pre: string)
    requires pos < |buf| && IsNumeric(buf[pos])
    ensures var e := DigitsEnd(buf, pos);
      ReadDigits(buf, pos, DecimalValue(pre)) == (DecimalValue(pre + buf[pos..e]), e)
    decreases |buf| - pos
  {
    var e := DigitsEnd(buf, pos);
    var pre' := pre + [buf[pos]];
    DecimalSnoc(pre, buf[pos]);
    if pos + 1 < |buf| && IsNumeric(buf[pos + 1]) {
      ReadDigitsValue(buf, pos + 1, pre');
      assert e == DigitsEnd(buf, pos + 1);
      assert ReadDigits(buf, pos, DecimalValue(pre)) == ReadDigits(buf, pos + 1, DecimalValue(pre'));
      assert pre' + buf[pos + 1..e] == pre + buf[pos..e];
    } else {
      assert e == pos + 1;
      assert buf[pos..e] == [buf[pos]];
      assert ReadDigits(buf, pos, DecimalValue(pre)) == (DecimalValue(pre'), e);
    }
  }

  /** One more digit after a string of digits: the value is ten times the
      value of the string plus the digit. */
  lemma {:induction false} DecimalSnoc(s: string, c: char)
    ensures DecimalValue(s + [c]) == 10 * DecimalValue(s) + Digit(c)
  {
    assert (s + [c])[..|s|] == s;
  }

  /** getidentifier's loop: at least one character is taken, then characters
      while they are alphanumeric.  The result is the text read and the
      position after it. */
  function ReadWord(buf: string, pos: nat, acc: string): (r: (string, nat))
    requires pos < |buf|
    ensures pos < r.1 <= |buf|
    decreases |buf| - pos
  {
    var acc' := acc + [buf[pos]];
    if pos + 1 < |buf| && IsAlphaNumeric(buf[pos + 1]) then ReadWord(buf, pos + 1, acc') else (acc', pos + 1)
  }

  /** getidentifier reads the maximal alphanumeric run after its first
      character. */
  lemma {:induction false} ReadWordRun(buf: string, pos: nat, acc: string)
    requires pos < |buf|
    ensures var e := NameEnd(buf, pos + 1);
      ReadWord(buf, pos, acc) == (acc + buf[pos..e], e)
    decreases |buf| - pos
  {
    var e := NameEnd(buf, pos + 1);
    if pos + 1 < |buf| && IsAlphaNumeric(buf[pos + 1]) {
      ReadWordRun(buf, pos + 1, acc + [buf[pos]]);
      assert e == NameEnd(buf, pos + 2);
      assert acc + [buf[pos]] + buf[pos + 1..e] == acc + buf[pos..e];
    } else {
      assert NameEnd(buf, pos + 1) == pos + 1;
      assert buf[pos..pos + 1] == [buf[pos]];
    }
  }

  /** The symbol of a character that is neither a digit nor a letter. */
  function SingleSymbol(c: char): Symbol
  {
    match c
    case '(' => LParen
    case ')' => RParen
    case '*' => Mul
    case '/' => Div
    case '+' => Plus
    case '-' => Minus
    case _ => Null
  }

  /** What is left to read, as a termination measure: twice the characters
      after the position, plus one while a symbol other than Null is
      current. */
  function Rank(lx: Lex): nat
  {
    2 * (if lx.pos < |lx.buf| then |lx.buf| - lx.pos else 0) + (if lx.sym == Null then 0 else 1)
  }

  /** What getsymbol finds from a position: the symbol, the position after
      it, the number or the function name it read, and whether it reports
      an error. */
  datatype Scanned = Scanned(sym: Symbol, end: nat, number: nat, ident: string, error: bool)

  /** The reading part of getsymbol.  White space is skipped; at the end of
      the buffer the symbol is Null.  A digit starts a number, a letter an
      identifier, which is an error unless it names a function; any other
      character is a symbol of its own, Null if it is not one of the six
      operator characters. */
  function Scan(buf: string, pos: nat): (s: Scanned)
    ensures pos <= s.end
    ensures pos < |buf| ==> pos < s.end <= |buf|
    ensures pos >= |buf| ==> s == Scanned(Null, pos, 0, "", false)
    ensures s.sym == Identifier ==> s.ident in FunctionNames
    ensures s.error ==> s.sym == Null
  {
    var p := SkipWhite(buf, pos);
    if p >= |buf| then
      Scanned(Null, p, 0, "", false)
    else if IsNumeric(buf[p]) then
      var (n, e) := ReadDigits(buf, p, 0);
      Scanned(Number, e, n, "", false)
    else if IsAlpha(buf[p]) then
      var (id, e) := ReadWord(buf, p, []);
      if id in FunctionNames then Scanned(Identifier, e, 0, id, false)
      else Scanned(Null, e, 0, "", true)
    else
      Scanned(SingleSymbol(buf[p]), p + 1, 0, "", false)
  }

  /** getsymbol: the next symbol and whether the lexer reported an error.
      The symbol read is stored in the state; the number is set only by a
      Number and the name only by a valid Identifier. */
  function GetSymbol(lx: Lex): (r: (Lex, bool))
    ensures r.0.buf == lx.buf && lx.pos <= r.0.pos
    ensures lx.pos < |lx.buf| ==> lx.pos < r.0.pos <= |lx.buf|
    ensures lx.pos >= |lx.buf| ==> r == (lx.(sym := Null), false)
    ensures r.0.sym != Number ==> r.0.number == lx.number
    ensures r.0.sym != Identifier ==> r.0.ident == lx.ident
    ensures r.0.sym == Identifier ==> r.0.ident in FunctionNames
    ensures r.1 ==> r.0.sym == Null
    ensures Rank(r.0) <= Rank(lx) && (lx.sym != Null ==> Rank(r.0) < Rank(lx))
  {
    var s := Scan(lx.buf, lx.pos);
    (lx.(pos := s.end, sym := s.sym,
         number := if s.sym == Number then s.number else lx.number,
         ident := if s.sym == Identifier then s.ident else lx.ident), s.error)
  }

  /** The buffer holds text at position p. */
  predicate Holds(buf: string, p: nat, text: string)
  {
    p + |text| <= |buf| && buf[p..p + |text|] == text
  }

  /** Text made of two parts holds where its parts hold one after the
      other. */
  lemma {:induction false} HoldsAppend(buf: string, p: nat, a: string, b: string)
    requires Holds(buf, p, a + b)
    ensures Holds(buf, p, a) && Holds(buf, p + |a|, b)
  {
    assert buf[p..p + |a|] == (a + b)[..|a|];
    assert buf[p + |a|..p + |a| + |b|] == (a + b)[|a|..];
  }

  /** A one-character text holds where the buffer has that character. */
  lemma {:induction false} HoldsChar(buf: string, p: nat, c: char)
    requires Holds(buf, p, [c])
    ensures p < |buf| && buf[p] == c
  {
    assert buf[p..p + 1][0] == buf[p];
  }

  /** Function names are lower-case letters and digits, starting with a
      letter. */
  lemma {:induction false} NamePlain(id: string)
    requires id in FunctionNames
    ensures |id| >= 1 && IsAlpha(id[0])
    ensures forall k :: 0 <= k < |id| ==> IsAlphaNumeric(id[k])
  {
  }

  /** A leading digit gives a Number whose value is that of the maximal run
      of digits, and the position just past the run. */
  lemma {:induction false} LexNumber(buf: string, pos: nat)
    requires pos < |buf| && IsNumeric(buf[pos])
    ensures var e := DigitsEnd(buf, pos);
      AllDigits(buf[pos..e]) && Scan(buf, pos) == Scanned(Number, e, DecimalValue(buf[pos..e]), "", false)
  {
    var e := DigitsEnd(buf, pos);
    DigitsAll(buf, pos);
    assert DecimalValue([]) == 0;
    ReadDigitsValue(buf, pos, []);
    assert [] + buf[pos..e] == buf[pos..e];
    assert ReadDigits(buf, pos, 0) == (DecimalValue(buf[pos..e]), e);
    assert SkipWhite(buf, pos) == pos;
  }

  /** A leading letter consumes the maximal alphanumeric run; it is an
      Identifier exactly when it names a function, and otherwise an error
      with the symbol Null. */
  lemma {:induction false} LexIdentifier(buf: string, pos: nat)
    requires pos < |buf| && IsAlpha(buf[pos])
    ensures var e := NameEnd(buf, pos + 1);
      var id := buf[pos..e];
      && (id in FunctionNames ==> Scan(buf, pos) == Scanned(Identifier, e, 0, id, false))
      && (id !in FunctionNames ==> Scan(buf, pos) == Scanned(Null, e, 0, "", true))
  {
    ReadWordRun(buf, pos, []);
    assert [] + buf[pos..NameEnd(buf, pos + 1)] == buf[pos..NameEnd(buf, pos + 1)];
  }

  /** Any other character is a symbol by itself and is consumed alone;
      characters outside the six operator characters, upper case letters
      among them, give Null without an error. */
  lemma {:induction false} LexSingle(buf: string, pos: nat)
    requires pos < |buf|
    requires var c := buf[pos]; !IsAlphaNumeric(c) && !IsWhitespace(c)
    ensures Scan(buf, pos) == Scanned(SingleSymbol(buf[pos]), pos + 1, 0, "", false)
    ensures SingleSymbol(buf[pos]) == Null <==> buf[pos] !in "()*/+-"
  {
  }

  /** White space before a symbol is skipped. */
  lemma {:induction false} LexSkip(buf: string, pos: nat)
    requires pos < |buf| && IsWhitespace(buf[pos])
    ensures Scan(buf, pos) == Scan(buf, pos + 1)
  {
  }

  /** A rendered number followed by a character that is not a digit lexes
      back to the number. */
  lemma {:induction false} LexDecimal(buf: string, pos: nat, n: nat)
    requires Holds(buf, pos, Decimal(n))
    requires var e := pos + |Decimal(n)|; e < |buf| ==> !IsNumeric(buf[e])
    ensures Scan(buf, pos) == Scanned(Number, pos + |Decimal(n)|, n, "", false)
  {
    var s := Decimal(n);
    var e := pos + |s|;
    assert buf[pos] == s[0];
    forall k | pos <= k < e
      ensures IsNumeric(buf[k])
    {
      assert buf[k] == s[k - pos];
    }
    DigitsRun(buf, pos, e);
    LexNumber(buf, pos);
    DecimalRoundTrip(n);
    assert buf[pos..e] == s;
  }

  /** A function name followed by a character that is not alphanumeric lexes
      back to the name. */
  lemma {:induction false} LexName(buf: string, pos: nat, id: string)
    requires id in FunctionNames && Holds(buf, pos, id)
    requires var e := pos + |id|; e < |buf| ==> !IsAlphaNumeric(buf[e])
    ensures Scan(buf, pos) == Scanned(Identifier, pos + |id|, 0, id, false)
  {
    var e := pos + |id|;
    NamePlain(id);
    assert buf[pos] == id[0];
    forall k | pos + 1 <= k < e
      ensures IsAlphaNumeric(buf[k])
    {
      assert buf[k] == id[k - pos];
    }
    NameRun(buf, pos + 1, e);
    assert buf[pos..e] == id;
    LexIdentifier(buf, pos);
  }

  /** A run of digits ending at a character that is not a digit is what
      DigitsEnd finds. */
  lemma {:induction false} DigitsRun(buf: string, pos: nat, e: nat)
    requires pos <= e <= |buf|
    requires forall k :: pos <= k < e ==> IsNumeric(buf[k])
    requires e < |buf| ==> !IsNumeric(buf[e])
    ensures DigitsEnd(buf, pos) == e
    decreases e - pos
  {
    if pos < e {
      DigitsRun(buf, pos + 1, e);
    }
  }

  /** The same for a run of letters and digits. */
  lemma {:induction false} NameRun(buf: string, pos: nat, e: nat)
    requires pos <= e <= |buf|
    requires forall k :: pos <= k < e ==> IsAlphaNumeric(buf[k])
    requires e < |buf| ==> !IsAlphaNumeric(buf[e])
    ensures NameEnd(buf, pos) == e
    decreases e - pos
  {
    if pos < e {
      NameRun(buf, pos + 1, e);
    }
  }
}
