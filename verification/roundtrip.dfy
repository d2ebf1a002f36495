/** Parsing back the infix rendering.  factor and expression take the
    symbols of a rendering back into the tree, so infix rendering and
    parsing are inverse on the trees a successful parse produces. */
module RoundTrip {
  import opened Lexical
  import opened ExpressionTree
  import opened Parser
  import opened Rendering

  /** factor on a number followed by a symbol other than a number. */
  lemma {:induction false} NumberShape(lx: Lex, tree: Option<Node>)
    requires lx.sym == Number && !GetSymbol(lx).1 && GetSymbol(lx).0.sym != Number
    ensures Factor(lx, tree) == Parsed(GetSymbol(lx).0, Some(Num(lx.number)), false)
  {
  }

  /** factor on a parenthesised expression. */
  lemma {:induction false} ParenShape(lx: Lex, tree: Option<Node>)
    requires lx.sym == LParen && !GetSymbol(lx).1
    requires var e := Expression(GetSymbol(lx).0, tree);
      !e.error && e.lex.sym == RParen && !GetSymbol(e.lex).1
    ensures var e := Expression(GetSymbol(lx).0, tree);
      Factor(lx, tree) == Parsed(GetSymbol(e.lex).0, e.tree, false)
  {
  }

  /** factor on a function call. */
  lemma {:induction false} CallShape(lx: Lex, tree: Option<Node>, l3: Lex, l4: Lex, e: Parsed)
    requires lx.sym == Identifier && GetSymbol(lx) == (l3, false) && l3.sym == LParen && GetSymbol(l3) == (l4, false)
    requires e == Expression(l4, Nothing) && !e.error && e.lex.sym == RParen && !GetSymbol(e.lex).1
    ensures Factor(lx, tree) == Parsed(GetSymbol(e.lex).0, Some(Func(lx.ident, e.tree)), false)
  {
  }

  /** expression on a single factor that ends the expression. */
  lemma {:induction false} SingleShape(lx: Lex, tree: Option<Node>)
    requires lx.sym != Plus && lx.sym != Minus
    requires var f := Factor(lx, Nothing); !f.error && (f.lex.sym == RParen || f.lex.sym == Null)
    ensures Expression(lx, tree) == Factor(lx, Nothing)
  {
    var f := Factor(lx, Nothing);
    assert Term(lx) == Parsed(f.lex, f.tree, false);
    assert ExprLoop(f.lex, f.tree, false) == f;
  }

  /** expression on two factors joined by * or /. */
  lemma {:induction false} ProductShape(lx: Lex, tree: Option<Node>, f: Parsed, l2: Lex, g: Parsed)
    requires lx.sym != Plus && lx.sym != Minus
    requires f == Factor(lx, Nothing) && !f.error && (f.lex.sym == Mul || f.lex.sym == Div)
    requires GetSymbol(f.lex) == (l2, false) && g == Factor(l2, Nothing) && !g.error && g.lex.sym == RParen
    ensures Expression(lx, tree) == Parsed(g.lex, Some(Op(if f.lex.sym == Mul then Multiply else Divide, f.tree, g.tree)), false)
  {
    var r := Parsed(g.lex, Some(Op(if f.lex.sym == Mul then Multiply else Divide, f.tree, g.tree)), false);
    assert TermLoop(g.lex, r.tree, g.tree, false) == r;
    assert Term(lx) == r;
    assert ExprLoop(g.lex, r.tree, false) == r;
  }

  /** A factor not followed by * or / is a whole term. */
  lemma {:induction false} FactorTerm(lx: Lex, f: Parsed)
    requires f == Factor(lx, Nothing) && !f.error && f.lex.sym != Mul && f.lex.sym != Div
    ensures Term(lx) == Parsed(f.lex, f.tree, false)
  {
    assert TermLoop(f.lex, f.tree, Nothing, false) == Parsed(f.lex, f.tree, false);
  }

  /** expression on two factors joined by + or -. */
  lemma {:induction false} SumShape(lx: Lex, tree: Option<Node>, f: Parsed, l2: Lex, g: Parsed)
    requires lx.sym != Plus && lx.sym != Minus
    requires f == Factor(lx, Nothing) && !f.error && (f.lex.sym == Plus || f.lex.sym == Minus)
    requires GetSymbol(f.lex) == (l2, false) && g == Factor(l2, Nothing) && !g.error && g.lex.sym == RParen
    ensures Expression(lx, tree) == Parsed(g.lex, Some(Op(if f.lex.sym == Plus then Add else Subtract, f.tree, g.tree)), false)
  {
    var r := Parsed(g.lex, Some(Op(if f.lex.sym == Plus then Add else Subtract, f.tree, g.tree)), false);
    FactorTerm(lx, f);
    FactorTerm(l2, g);
    assert ExprLoop(g.lex, r.tree, false) == r;
    assert ExprLoop(f.lex, f.tree, false) == r;
  }

  /** expression on two factors joined by the symbol of an operator. */
  lemma {:induction false} OperatorShape(o: Operator, lx: Lex, tree: Option<Node>, f: Parsed, l2: Lex, g: Parsed)
    requires o != None && lx.sym != Plus && lx.sym != Minus
    requires f == Factor(lx, Nothing) && !f.error && f.lex.sym == SymbolOf(o)
    requires GetSymbol(f.lex) == (l2, false) && g == Factor(l2, Nothing) && !g.error && g.lex.sym == RParen
    ensures Expression(lx, tree) == Parsed(g.lex, Some(Op(o, f.tree, g.tree)), false)
  {
    if o == Add || o == Subtract {
      SumShape(lx, tree, f, l2, g);
    } else {
      ProductShape(lx, tree, f, l2, g);
    }
  }

  /** A number leaf. */
  lemma {:induction false} FactorNumber(t: Node, lx: Lex, p: nat, tree: Option<Node>)
    requires t.Num? && Current(lx, lx.buf, p) && Holds(lx.buf, p, Inorder(t)) && Follows(lx.buf, End(t, p))
    ensures var r := Factor(lx, tree);
      !r.error && r.tree == Some(t) && Current(r.lex, lx.buf, End(t, p))
  {
    FollowsDigit(lx.buf, End(t, p));
    NumberRead(t, lx.buf, p);
    Step(lx);
    NumberShape(lx, tree);
  }

  /** The rendering of a parsed tree, read from a state holding its first
      symbol and followed by a symbol that can end a factor, is parsed by
      factor into the tree. */
  lemma {:induction false} FactorInorder(t: Node, lx: Lex, p: nat, tree: Option<Node>)
    requires WellFormed(t) && Current(lx, lx.buf, p) && Holds(lx.buf, p, Inorder(t)) && Follows(lx.buf, End(t, p))
    ensures var r := Factor(lx, tree);
      !r.error && r.tree == Some(t) && Current(r.lex, lx.buf, End(t, p))
    decreases t, 5
  {
    match t
    case Num(_) =>
      FactorNumber(t, lx, p, tree);
    case Op(_, _, _) =>
      FactorOperator(t, lx, p, tree);
    case Func(_, _) =>
      FactorCall(t, lx, p, tree);
  }

  /** The same for expression, when the rendering is followed by a closing
      parenthesis or nothing. */
  lemma {:induction false} ExpressionInorder(t: Node, lx: Lex, p: nat, tree: Option<Node>)
    requires WellFormed(t) && Current(lx, lx.buf, p) && Holds(lx.buf, p, Inorder(t)) && Closes(lx.buf, End(t, p))
    ensures var r := Expression(lx, tree);
      !r.error && r.tree == Some(t) && Current(r.lex, lx.buf, End(t, p))
    decreases t, 6
  {
    StartRead(t, lx.buf, p);
    FactorInorder(t, lx, p, Nothing);
    SingleShape(lx, tree);
  }

  /** A function call: the name, the opening parenthesis, the operand as an
      expression and the closing parenthesis. */
  lemma {:induction false} FactorCall(t: Node, lx: Lex, p: nat, tree: Option<Node>)
    requires t.Func? && WellFormed(t) && Current(lx, lx.buf, p) && Holds(lx.buf, p, Inorder(t))
    requires Follows(lx.buf, End(t, p))
    ensures var r := Factor(lx, tree);
      !r.error && r.tree == Some(t) && Current(r.lex, lx.buf, End(t, p))
    decreases t, 4
  {
    var buf, a := lx.buf, t.arg.value;
    var pa := p + |t.id| + 1;
    var ea := End(a, pa);
    CallPieces(t, buf, p, a, pa, ea);
    CallEnd(t, p, a, pa, ea);
    NameRead(buf, p, t.id, pa - 1);
    OpenRead(buf, pa - 1);
    CloseRead(buf, ea);
    StartRead(a, buf, pa);
    CallInside(t, a, lx, p, pa - 1, pa, ea, tree);
  }

  /** A function call whose name is read from p, its opening parenthesis
      from q, its operand from pa up to ea and its closing parenthesis from
      ea. */
  lemma {:induction false} CallInside(t: Node, a: Node, lx: Lex, p: nat, q: nat, pa: nat, ea: nat, tree: Option<Node>)
    requires t.Func? && t.arg == Some(a) && WellFormed(a) && Current(lx, lx.buf, p)
    requires Token(lx.buf, p, Identifier, q) && Scan(lx.buf, p).ident == t.id
    requires pa == q + 1 && Token(lx.buf, q, LParen, pa) && !Scan(lx.buf, pa).error
    requires Holds(lx.buf, pa, Inorder(a)) && ea == End(a, pa)
    requires Token(lx.buf, ea, RParen, ea + 1) && !Scan(lx.buf, ea + 1).error
    ensures var r := Factor(lx, tree);
      !r.error && r.tree == Some(t) && Current(r.lex, lx.buf, ea + 1)
    decreases t, 3
  {
    CallOpen(lx, lx.buf, p, q);
    var l3 := GetSymbol(lx).0;
    var l4 := GetSymbol(l3).0;
    CallOperand(t, a, l4, pa, ea);
    var e := Expression(l4, Nothing);
    CallShape(lx, tree, l3, l4, e);
    assert Func(lx.ident, e.tree) == t;
  }

  /** The name and the opening parenthesis of a call are accepted, and the
      symbol after them is read from pa. */
  lemma {:induction false} CallOpen(lx: Lex, buf: string, p: nat, q: nat)
    requires Current(lx, buf, p) && Token(buf, p, Identifier, q) && Token(buf, q, LParen, q + 1) && !Scan(buf, q + 1).error
    ensures lx.sym == Identifier && !GetSymbol(lx).1
    ensures var l3 := GetSymbol(lx).0; l3.sym == LParen && !GetSymbol(l3).1 && Current(GetSymbol(l3).0, buf, q + 1)
  {
    Step(lx);
    Step(GetSymbol(lx).0);
  }

  /** The operand of a call, read from pa, is parsed by expression, which
      stops at the closing parenthesis at ea. */
  lemma {:induction false} CallOperand(t: Node, a: Node, lx: Lex, pa: nat, ea: nat)
    requires t.Func? && t.arg == Some(a) && WellFormed(a)
    requires Current(lx, lx.buf, pa) && Holds(lx.buf, pa, Inorder(a)) && ea == End(a, pa)
    requires Token(lx.buf, ea, RParen, ea + 1) && !Scan(lx.buf, ea + 1).error
    ensures var e := Expression(lx, Nothing);
      && !e.error && e.tree == Some(a) && e.lex.sym == RParen
      && !GetSymbol(e.lex).1 && Current(GetSymbol(e.lex).0, lx.buf, ea + 1)
    decreases t, 2
  {
    ExpressionInorder(a, lx, pa, Nothing);
    Step(Expression(lx, Nothing).lex);
  }

  /** An operator node: the opening parenthesis, the operands and operator
      as an expression, and the closing parenthesis. */
  lemma {:induction false} FactorOperator(t: Node, lx: Lex, p: nat, tree: Option<Node>)
    requires t.Op? && WellFormed(t) && Current(lx, lx.buf, p) && Holds(lx.buf, p, Inorder(t))
    requires Follows(lx.buf, End(t, p))
    ensures var r := Factor(lx, tree);
      !r.error && r.tree == Some(t) && Current(r.lex, lx.buf, End(t, p))
    decreases t, 4
  {
    var buf, l, r := lx.buf, t.left.value, t.right.value;
    var el := End(l, p + 1);
    var pr := el + |OperatorToString(t.op)|;
    var er := End(r, pr);
    OperatorPieces(t, buf, p, l, r, el, pr, er);
    OperatorEnd(t, p, l, r, el, pr, er);
    OpenRead(buf, p);
    OperatorRead(t.op, buf, el);
    CloseRead(buf, er);
    // accept(LParen) reads the first symbol of the left operand
    StartRead(l, buf, p + 1);
    Step(lx);
    var l2 := GetSymbol(lx).0;
    OperatorContents(t, l, r, l2, p, el, pr, er, tree);
    // expect(RParen) reads the symbol after the node
    var e := Expression(l2, tree);
    assert e.lex.pos == er + 1;
    Step(e.lex);
    ParenShape(lx, tree);
  }

  /** The inside of an operator node (l o r) rendered from p, from the left
      operand to the closing parenthesis at er, parsed as an expression: one
      term of two factors for * and /, two terms of one factor each for +
      and -. */
  lemma {:induction false} OperatorContents(t: Node, l: Node, r: Node, lx: Lex, p: nat, el: nat, pr: nat, er: nat, tree: Option<Node>)
    requires t.Op? && t.left == Some(l) && t.right == Some(r) && WellFormed(l) && WellFormed(r)
    requires Current(lx, lx.buf, p + 1) && Holds(lx.buf, p + 1, Inorder(l)) && el == End(l, p + 1)
    requires OperatorAt(lx.buf, el, t.op) && pr == el + |OperatorToString(t.op)|
    requires Holds(lx.buf, pr, Inorder(r)) && er == End(r, pr) && Token(lx.buf, er, RParen, er + 1)
    ensures var e := Expression(lx, tree);
      !e.error && e.tree == Some(t) && Current(e.lex, lx.buf, er)
    decreases t, 3
  {
    StartRead(r, lx.buf, pr);
    LeftOperand(t, l, r, lx, p + 1, el, pr);
    OperatorRight(t, r, lx, Factor(lx, Nothing), pr, er, tree);
  }

  /** The rest of the inside of (l o r), once factor has parsed l and
      stopped at the operator: the right operand up to the closing
      parenthesis at er. */
  lemma {:induction false} OperatorRight(t: Node, r: Node, lx: Lex, f: Parsed, pr: nat, er: nat, tree: Option<Node>)
    requires t.Op? && t.op != None && t.right == Some(r) && WellFormed(r) && lx.sym != Plus && lx.sym != Minus
    requires f == Factor(lx, Nothing) && !f.error && f.tree == t.left && f.lex.sym == SymbolOf(t.op)
    requires !GetSymbol(f.lex).1 && Current(GetSymbol(f.lex).0, lx.buf, pr)
    requires Holds(lx.buf, pr, Inorder(r)) && er == End(r, pr) && Token(lx.buf, er, RParen, er + 1)
    ensures var e := Expression(lx, tree);
      !e.error && e.tree == Some(t) && Current(e.lex, lx.buf, er)
    decreases t, 2
  {
    var l2 := GetSymbol(f.lex).0;
    RightOperand(t, r, l2, pr, er);
    OperatorShape(t.op, lx, tree, f, l2, Factor(l2, Nothing));
  }

  /** The right operand of (l o r), read from pr, is parsed by factor, which
      stops at the closing parenthesis. */
  lemma {:induction false} RightOperand(t: Node, r: Node, lx: Lex, pr: nat, er: nat)
    requires t.Op? && t.right == Some(r) && WellFormed(r)
    requires Current(lx, lx.buf, pr) && Holds(lx.buf, pr, Inorder(r)) && er == End(r, pr) && Token(lx.buf, er, RParen, er + 1)
    ensures var g := Factor(lx, Nothing);
      !g.error && g.tree == Some(r) && g.lex.sym == RParen && Current(g.lex, lx.buf, er)
    decreases t, 1
  {
    FactorInorder(r, lx, pr, Nothing);
  }

  /** The left operand of (l o r) is parsed by factor, which stops at the
      operator; the symbol after the operator is the first of r. */
  lemma {:induction false} LeftOperand(t: Node, l: Node, r: Node, lx: Lex, p: nat, el: nat, pr: nat)
    requires t.Op? && t.left == Some(l) && t.right == Some(r) && WellFormed(l)
    requires Current(lx, lx.buf, p) && Holds(lx.buf, p, Inorder(l)) && el == End(l, p)
    requires OperatorAt(lx.buf, el, t.op) && pr == el + |OperatorToString(t.op)| && !Scan(lx.buf, pr).error
    ensures lx.sym != Plus && lx.sym != Minus
    ensures var f := Factor(lx, Nothing);
      && !f.error && f.tree == Some(l) && f.lex.sym == SymbolOf(t.op)
      && !GetSymbol(f.lex).1 && Current(GetSymbol(f.lex).0, lx.buf, pr)
    decreases t, 1
  {
    StartRead(l, lx.buf, p);
    FactorInorder(l, lx, p, Nothing);
    OperatorFollows(Factor(lx, Nothing).lex, lx.buf, el, t.op, pr);
  }

  /** Parsing the infix rendering of a parsed tree succeeds and gives back
      the tree. */
  lemma {:induction false} ParseInorder(p: ParserState, t: Node)
    requires WellFormed(t)
    ensures var r := Parse(p, Inorder(t)); r.1 && r.0.tree == Some(t)
  {
    var s := Inorder(t);
    assert s[0..|s|] == s;
    EndInorder(t, 0);
    StartRead(t, s, 0);
    var lx := p.lex.(input := Input(s), pos := 0);
    Step(lx);
    var l0 := GetSymbol(lx).0;
    ExpressionInorder(t, l0, 0, p.tree);
  }
}
