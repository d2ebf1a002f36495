/** Reading the infix rendering of an expression tree with getsymbol.
    inorder writes every operator node in parentheses and every function
    call with its parenthesised operand.  Here: where each piece of the
    rendering of a tree ends (End), and the symbols getsymbol reads at the
    start of each piece. */
module Rendering {
  import opened Lexical
  import opened ExpressionTree

  /** getsymbol reads a symbol s from position q without an error and stops
      at e. */
  predicate Token(buf: string, q: nat, s: Symbol, e: nat)
  {
    !Scan(buf, q).error && Scan(buf, q).sym == s && Scan(buf, q).end == e
  }

  /** Where the rendering of t ends when it starts at p, computed from the
      pieces of the rendering (EndInorder). */
  function End(t: Node, p: nat): nat
  {
    match t
    case Num(n) => p + |Decimal(n)|
    case Op(o, l, r) =>
      var el := if l.Some? then End(l.value, p + 1) else p + 1;
      var pr := el + |OperatorToString(o)|;
      (if r.Some? then End(r.value, pr) else pr) + 1
    case Func(id, a) =>
      var pa := p + |id| + 1;
      (if a.Some? then End(a.value, pa) else pa) + 1
  }

  /** The rendering of t from p ends at p plus its length. */
  lemma {:induction false} EndInorder(t: Node, p: nat)
    ensures End(t, p) == p + |Inorder(t)|
  {
    match t
    case Num(n) =>
    case Op(o, l, r) =>
      if l.Some? {
        EndInorder(l.value, p + 1);
      }
      var el := if l.Some? then End(l.value, p + 1) else p + 1;
      if r.Some? {
        EndInorder(r.value, el + |OperatorToString(o)|);
      }
    case Func(id, a) =>
      if a.Some? {
        EndInorder(a.value, p + |id| + 1);
      }
  }

  /** The symbols that follow the left operand of an operator node: the
      operator, then for + and - the space before the right operand, which
      getsymbol skips. */
  predicate OperatorAt(buf: string, q: nat, o: Operator)
  {
    match o
    case Add => Token(buf, q, Plus, q + 2) && q + 2 < |buf| && buf[q + 2] == ' '
    case Subtract => Token(buf, q, Minus, q + 2) && q + 2 < |buf| && buf[q + 2] == ' '
    case Multiply => Token(buf, q, Mul, q + 1)
    case Divide => Token(buf, q, Div, q + 1)
    case None => false
  }

  /** The symbol getsymbol reads for an operator. */
  function SymbolOf(o: Operator): Symbol
  {
    match o
    case Add => Plus
    case Subtract => Minus
    case Multiply => Mul
    case Divide => Div
    case None => Null
  }

  /** One of the six operator characters is read by itself. */
  lemma {:induction false} SingleRead(buf: string, q: nat)
    requires q < |buf| && buf[q] in "()*/+-"
    ensures Token(buf, q, SingleSymbol(buf[q]), q + 1)
  {
    LexSingle(buf, q);
  }

  /** An opening parenthesis is read by itself. */
  lemma {:induction false} OpenRead(buf: string, q: nat)
    requires q < |buf| && buf[q] == '('
    ensures Token(buf, q, LParen, q + 1)
  {
    SingleRead(buf, q);
  }

  /** A closing parenthesis is read by itself. */
  lemma {:induction false} CloseRead(buf: string, q: nat)
    requires q < |buf| && buf[q] == ')'
    ensures Token(buf, q, RParen, q + 1)
  {
    SingleRead(buf, q);
  }

  /** A function name followed by an opening parenthesis is read as an
      identifier. */
  lemma {:induction false} NameRead(buf: string, p: nat, id: string, q: nat)
    requires id in FunctionNames && Holds(buf, p, id) && q == p + |id| && q < |buf| && buf[q] == '('
    ensures Token(buf, p, Identifier, q) && Scan(buf, p).ident == id
  {
    LexName(buf, p, id);
  }

  /** White space before a symbol is skipped. */
  lemma {:induction false} SkipRead(buf: string, q: nat)
    requires q < |buf| && buf[q] == ' '
    ensures Scan(buf, q) == Scan(buf, q + 1)
  {
    LexSkip(buf, q);
  }

  /** A number leaf followed by a character that is not a digit is read
      as its number. */
  lemma {:induction false} NumberRead(t: Node, buf: string, p: nat)
    requires t.Num? && Holds(buf, p, Inorder(t))
    requires End(t, p) < |buf| ==> !IsNumeric(buf[End(t, p)])
    ensures Token(buf, p, Number, End(t, p)) && Scan(buf, p).number == t.n
  {
    LexDecimal(buf, p, t.n);
  }

  /** The rendering of a parsed tree starts with a number, an opening
      parenthesis or a function name, which getsymbol reads without an
      error. */
  lemma {:induction false} StartRead(t: Node, buf: string, p: nat)
    requires WellFormed(t) && Holds(buf, p, Inorder(t))
    ensures !Scan(buf, p).error
    ensures Scan(buf, p).sym == Number || Scan(buf, p).sym == LParen || Scan(buf, p).sym == Identifier
  {
    var s := Inorder(t);
    assert buf[p] == buf[p..p + |s|][0] == s[0];
    match t
    case Num(n) =>
      LexNumber(buf, p);
    case Op(_, _, _) =>
      OpenRead(buf, p);
    case Func(id, a) =>
      var pa := p + |id| + 1;
      CallPieces(t, buf, p, a.value, pa, End(a.value, pa));
      NameRead(buf, p, id, pa - 1);
  }

  /** Where a factor can end there is no digit. */
  lemma {:induction false} FollowsDigit(buf: string, q: nat)
    requires Follows(buf, q)
    ensures q < |buf| ==> !IsNumeric(buf[q])
  {
    if q < |buf| && IsNumeric(buf[q]) {
      LexNumber(buf, q);
    }
  }

  /** The text of an operator node, (il s ir), held from p: the parts one
      after the other, il from p + 1 to el, s from el to pr, ir from pr to
      er and the closing parenthesis at er. */
  lemma {:induction false} HoldsOperator(buf: string, p: nat, il: string, s: string, ir: string, el: nat, pr: nat, er: nat)
    requires Holds(buf, p, "(" + il + s + ir + ")")
    requires el == p + 1 + |il| && pr == el + |s| && er == pr + |ir|
    ensures && buf[p] == '(' && Holds(buf, p + 1, il)
      && Holds(buf, el, s) && Holds(buf, pr, ir)
      && pr <= er < |buf| && buf[er] == ')'
  {
    var text := "(" + il + s + ir + ")";
    assert buf[p] == buf[p..p + |text|][0] == text[0];
    assert buf[er] == buf[p..p + |text|][|text| - 1] == text[|text| - 1];
    HoldsAppend(buf, p, "(" + il + s + ir, ")");
    HoldsAppend(buf, p, "(" + il + s, ir);
    HoldsAppend(buf, p, "(" + il, s);
    HoldsAppend(buf, p, "(", il);
  }

  /** The pieces of the rendering of an operator node (l o r) from p: l
      ends at el, r starts at pr and ends at er. */
  lemma {:induction false} OperatorPieces(t: Node, buf: string, p: nat, l: Node, r: Node, el: nat, pr: nat, er: nat)
    requires t.Op? && t.left == Some(l) && t.right == Some(r) && Holds(buf, p, Inorder(t))
    requires el == End(l, p + 1) && pr == el + |OperatorToString(t.op)| && er == End(r, pr)
    ensures && buf[p] == '(' && Holds(buf, p + 1, Inorder(l))
      && Holds(buf, el, OperatorToString(t.op)) && Holds(buf, pr, Inorder(r))
      && pr <= er < |buf| && buf[er] == ')'
  {
    InorderOperator(t, l, r);
    EndInorder(l, p + 1);
    EndInorder(r, pr);
    HoldsOperator(buf, p, Inorder(l), OperatorToString(t.op), Inorder(r), el, pr, er);
  }

  /** The operator between the operands is read as its symbol. */
  lemma {:induction false} OperatorRead(o: Operator, buf: string, q: nat)
    requires o != None && Holds(buf, q, OperatorToString(o)) && q + |OperatorToString(o)| < |buf|
    ensures OperatorAt(buf, q, o)
  {
    var s := OperatorToString(o);
    assert buf[q] == s[0];
    if o == Add || o == Subtract {
      assert buf[q + 1] == s[1] && buf[q + 2] == s[2];
      SkipRead(buf, q);
      SingleRead(buf, q + 1);
    } else {
      SingleRead(buf, q);
    }
  }

  /** The text of a function call, id(ia), held from p: the name, the
      opening parenthesis before pa, ia from pa to ea and the closing
      parenthesis at ea. */
  lemma {:induction false} HoldsCall(buf: string, p: nat, id: string, ia: string, pa: nat, ea: nat)
    requires Holds(buf, p, id + "(" + ia + ")")
    requires pa == p + |id| + 1 && ea == pa + |ia|
    ensures && Holds(buf, p, id) && buf[pa - 1] == '(' && Holds(buf, pa, ia)
      && ea < |buf| && buf[ea] == ')'
  {
    var text := id + "(" + ia + ")";
    assert buf[pa - 1] == buf[p..p + |text|][|id|] == text[|id|];
    assert buf[ea] == buf[p..p + |text|][|text| - 1] == text[|text| - 1];
    HoldsAppend(buf, p, id + "(" + ia, ")");
    HoldsAppend(buf, p, id + "(", ia);
    HoldsAppend(buf, p, id, "(");
  }

  /** The pieces of the rendering of a function call. */
  lemma {:induction false} CallPieces(t: Node, buf: string, p: nat, a: Node, pa: nat, ea: nat)
    requires t.Func? && t.arg == Some(a) && Holds(buf, p, Inorder(t))
    requires pa == p + |t.id| + 1 && ea == End(a, pa)
    ensures && Holds(buf, p, t.id) && buf[pa - 1] == '(' && Holds(buf, pa, Inorder(a))
      && ea < |buf| && buf[ea] == ')'
  {
    InorderCall(t, a);
    EndInorder(a, pa);
    HoldsCall(buf, p, t.id, Inorder(a), pa, ea);
  }

  /** lx holds the symbol read from position p of buf. */
  predicate Current(lx: Lex, buf: string, p: nat)
  {
    var s := Scan(buf, p);
    && lx.buf == buf && !s.error && lx.pos == s.end && lx.sym == s.sym
    && (lx.sym == Number ==> lx.number == s.number)
    && (lx.sym == Identifier ==> lx.ident == s.ident)
  }

  /** What getsymbol reads depends only on the buffer and the position. */
  lemma {:induction false} Step(lx: Lex)
    requires !Scan(lx.buf, lx.pos).error
    ensures !GetSymbol(lx).1 && Current(GetSymbol(lx).0, lx.buf, lx.pos)
  {
  }

  /** The symbol after the left operand of an operator node is the
      operator, and the one after that is read from where the right operand
      starts. */
  lemma {:induction false} OperatorFollows(lx: Lex, buf: string, q: nat, o: Operator, pr: nat)
    requires Current(lx, buf, q) && OperatorAt(buf, q, o) && pr == q + |OperatorToString(o)| && !Scan(buf, pr).error
    ensures lx.sym == SymbolOf(o) && !GetSymbol(lx).1 && Current(GetSymbol(lx).0, buf, pr)
  {
    if o == Add || o == Subtract {
      assert pr == q + 3;
      SkipRead(buf, q + 2);
      assert lx.pos == q + 2 && Scan(buf, q + 2) == Scan(buf, pr);
    } else {
      assert lx.pos == pr;
    }
    Step(lx);
  }

  /** Position q can end a factor: reading there reports no error and finds
      no number. */
  predicate Follows(buf: string, q: nat)
  {
    !Scan(buf, q).error && Scan(buf, q).sym != Number
  }

  /** Position q can end an expression: reading there reports no error and
      finds a closing parenthesis or nothing. */
  predicate Closes(buf: string, q: nat)
  {
    !Scan(buf, q).error && (Scan(buf, q).sym == RParen || Scan(buf, q).sym == Null)
  }

  /** The rendering of a call ends after the closing parenthesis. */
  lemma {:induction false} CallEnd(t: Node, p: nat, a: Node, pa: nat, ea: nat)
    requires t.Func? && t.arg == Some(a) && pa == p + |t.id| + 1 && ea == End(a, pa)
    ensures End(t, p) == ea + 1
  {
  }

  /** The rendering of an operator node ends after the closing
      parenthesis. */
  lemma {:induction false} OperatorEnd(t: Node, p: nat, l: Node, r: Node, el: nat, pr: nat, er: nat)
    requires t.Op? && t.left == Some(l) && t.right == Some(r)
    requires el == End(l, p + 1) && pr == el + |OperatorToString(t.op)| && er == End(r, pr)
    ensures End(t, p) == er + 1
  {
  }
}
