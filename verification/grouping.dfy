/** How the parser groups what it reads: the loops of term and expression
    build the tree of `f0 op1 f1 ... opn fn` grouped to the left, the
    multiplicative operators are gathered inside the additive ones, and a
    leading sign is read and dropped. */
module Grouping {
  import opened Lexical
  import opened ExpressionTree
  import opened Parser
  import opened Rendering
  import opened RoundTrip

  /** The tree of acc op1 t1 ... opn tn grouped to the left. */
  function LeftFold(acc: Node, ops: seq<Operator>, ts: seq<Node>): Node
    requires |ops| == |ts|
    decreases |ops|
  {
    if ops == [] then acc else LeftFold(Op(ops[0], Some(acc), Some(ts[0])), ops[1..], ts[1..])
  }

  /** Left grouping puts the last operator at the root, with everything
      before it as its left operand. */
  lemma {:induction false} LeftFoldLast(acc: Node, ops: seq<Operator>, ts: seq<Node>, o: Operator, t: Node)
    requires |ops| == |ts|
    ensures LeftFold(acc, ops + [o], ts + [t]) == Op(o, Some(LeftFold(acc, ops, ts)), Some(t))
    decreases |ops|
  {
    if ops != [] {
      assert (ops + [o])[1..] == ops[1..] + [o];
      assert (ts + [t])[1..] == ts[1..] + [t];
      LeftFoldLast(Op(ops[0], Some(acc), Some(ts[0])), ops[1..], ts[1..], o, t);
    }
  }

  /** Expression leaves its out-parameter alone except on a lexical error
      at a leading sign, so what it reads does not depend on it. */
  lemma ExpressionIgnoresTree(lx: Lex, a: Option<Node>, b: Option<Node>)
    ensures Expression(lx, a).lex == Expression(lx, b).lex
    ensures Expression(lx, a).error == Expression(lx, b).error
    ensures !Expression(lx, a).error ==> Expression(lx, a) == Expression(lx, b)
  {
  }

  /** A factor that parses without error builds the same tree whatever its
      out-parameter held. */
  lemma FactorIgnoresTree(lx: Lex, a: Option<Node>, b: Option<Node>)
    requires !Factor(lx, a).error
    ensures Factor(lx, b) == Factor(lx, a)
  {
    var (l1, isNumber) := Accept(lx, Number);
    if !isNumber {
      var (l2, isParen) := Accept(l1, LParen);
      if isParen {
        ExpressionIgnoresTree(l2, a, b);
      }
    }
  }

  /** From lx the symbol is read and a factor parses to t, leaving next. */
  predicate FactorStep(lx: Lex, t: Node, next: Lex)
  {
    !GetSymbol(lx).1 && Factor(GetSymbol(lx).0, Nothing) == Parsed(next, Some(t), false)
  }

  /** From lx the symbol is read and a term parses to t, leaving next. */
  predicate TermStep(lx: Lex, t: Node, next: Lex)
  {
    !GetSymbol(lx).1 && Term(GetSymbol(lx).0) == Parsed(next, Some(t), false)
  }

  /** The lexer states between the factors of `f0 op1 f1 ... opn fn`: ls[i]
      holds the symbol of the multiplicative operator ops[i], after which
      the factor ts[i] parses and leaves ls[i + 1]; the last state holds no
      multiplicative operator. */
  predicate FactorChain(ls: seq<Lex>, ops: seq<Operator>, ts: seq<Node>)
  {
    && |ls| == |ops| + 1 && |ts| == |ops|
    && (forall i :: 0 <= i < |ops| ==> (ops[i] == Multiply || ops[i] == Divide) && ls[i].sym == SymbolOf(ops[i]))
    && (forall i :: 0 <= i < |ops| ==> FactorStep(ls[i], ts[i], ls[i + 1]))
    && ls[|ops|].sym != Mul && ls[|ops|].sym != Div
  }

  /** The lexer states between the terms of `t0 op1 t1 ... opn tn`, with
      additive operators. */
  predicate TermChain(ls: seq<Lex>, ops: seq<Operator>, ts: seq<Node>)
  {
    && |ls| == |ops| + 1 && |ts| == |ops|
    && (forall i :: 0 <= i < |ops| ==> (ops[i] == Add || ops[i] == Subtract) && ls[i].sym == SymbolOf(ops[i]))
    && (forall i :: 0 <= i < |ops| ==> TermStep(ls[i], ts[i], ls[i + 1]))
    && ls[|ops|].sym != Plus && ls[|ops|].sym != Minus
  }

  /** A chain without its first operator is a chain. */
  lemma FactorChainTail(ls: seq<Lex>, ops: seq<Operator>, ts: seq<Node>)
    requires FactorChain(ls, ops, ts) && ops != []
    ensures FactorChain(ls[1..], ops[1..], ts[1..])
  {
    forall i | 0 <= i < |ops| - 1
      ensures FactorStep(ls[1..][i], ts[1..][i], ls[1..][i + 1])
    {
      assert FactorStep(ls[i + 1], ts[i + 1], ls[i + 2]);
    }
  }

  /** A chain of terms without its first operator is a chain. */
  lemma TermChainTail(ls: seq<Lex>, ops: seq<Operator>, ts: seq<Node>)
    requires TermChain(ls, ops, ts) && ops != []
    ensures TermChain(ls[1..], ops[1..], ts[1..])
  {
    forall i | 0 <= i < |ops| - 1
      ensures TermStep(ls[1..][i], ts[1..][i], ls[1..][i + 1])
    {
      assert TermStep(ls[i + 1], ts[i + 1], ls[i + 2]);
    }
  }

  /** One round of the loop of term: the operator is read, the factor after
      it parsed, and the tree so far becomes the left operand. */
  lemma TermLoopStep(lx: Lex, o: Operator, acc: Node, rchild: Option<Node>, t: Node, next: Lex)
    requires (o == Multiply || o == Divide) && lx.sym == SymbolOf(o) && FactorStep(lx, t, next)
    ensures TermLoop(lx, Some(acc), rchild, false) == TermLoop(next, Some(Op(o, Some(acc), Some(t))), Some(t), false)
  {
    FactorIgnoresTree(GetSymbol(lx).0, Nothing, rchild);
  }

  /** One round of the loop of expression. */
  lemma ExprLoopStep(lx: Lex, o: Operator, acc: Node, t: Node, next: Lex)
    requires (o == Add || o == Subtract) && lx.sym == SymbolOf(o) && TermStep(lx, t, next)
    ensures ExprLoop(lx, Some(acc), false) == ExprLoop(next, Some(Op(o, Some(acc), Some(t))), false)
  {
  }

  /** The loop of term over a chain of factors builds their left grouping
      and stops at the first symbol that is not * or /. */
  lemma {:induction false} TermLoopFold(ls: seq<Lex>, ops: seq<Operator>, ts: seq<Node>, acc: Node, rchild: Option<Node>)
    requires FactorChain(ls, ops, ts)
    ensures TermLoop(ls[0], Some(acc), rchild, false) == Parsed(ls[|ops|], Some(LeftFold(acc, ops, ts)), false)
    decreases |ops|
  {
    if ops != [] {
      assert (ops[0] == Multiply || ops[0] == Divide) && ls[0].sym == SymbolOf(ops[0]);
      assert FactorStep(ls[0], ts[0], ls[1]);
      TermLoopStep(ls[0], ops[0], acc, rchild, ts[0], ls[1]);
      FactorChainTail(ls, ops, ts);
      TermLoopFold(ls[1..], ops[1..], ts[1..], Op(ops[0], Some(acc), Some(ts[0])), Some(ts[0]));
    }
  }

  /** The loop of expression over a chain of terms builds their left
      grouping and stops at the first symbol that is not + or -. */
  lemma {:induction false} ExprLoopFold(ls: seq<Lex>, ops: seq<Operator>, ts: seq<Node>, acc: Node)
    requires TermChain(ls, ops, ts)
    ensures ExprLoop(ls[0], Some(acc), false) == Parsed(ls[|ops|], Some(LeftFold(acc, ops, ts)), false)
    decreases |ops|
  {
    if ops != [] {
      assert (ops[0] == Add || ops[0] == Subtract) && ls[0].sym == SymbolOf(ops[0]);
      assert TermStep(ls[0], ts[0], ls[1]);
      ExprLoopStep(ls[0], ops[0], acc, ts[0], ls[1]);
      TermChainTail(ls, ops, ts);
      ExprLoopFold(ls[1..], ops[1..], ts[1..], Op(ops[0], Some(acc), Some(ts[0])));
    }
  }

  /** term over `f0 op1 f1 ... opn fn` with * and / is the left grouping of
      the factors. */
  lemma TermFold(lx: Lex, t0: Node, ls: seq<Lex>, ops: seq<Operator>, ts: seq<Node>)
    requires FactorChain(ls, ops, ts) && Factor(lx, Nothing) == Parsed(ls[0], Some(t0), false)
    ensures Term(lx) == Parsed(ls[|ops|], Some(LeftFold(t0, ops, ts)), false)
  {
    TermLoopFold(ls, ops, ts, t0, Nothing);
  }

  /** expression over unsigned `t0 op1 t1 ... opn tn` with + and -, each ti
      a term, is the left grouping of the terms: the products and quotients
      are the operands of the sums and differences. */
  lemma ExpressionFold(lx: Lex, tree: Option<Node>, t0: Node, ls: seq<Lex>, ops: seq<Operator>, ts: seq<Node>)
    requires lx.sym != Plus && lx.sym != Minus
    requires TermChain(ls, ops, ts) && Term(lx) == Parsed(ls[0], Some(t0), false)
    ensures Expression(lx, tree) == Parsed(ls[|ops|], Some(LeftFold(t0, ops, ts)), false)
  {
    ExprLoopFold(ls, ops, ts, t0);
  }

  /** A leading + or - is read and dropped: the expression after it is
      parsed as if the sign were not there. */
  lemma SignDropped(lx: Lex, tree: Option<Node>, tree': Option<Node>)
    requires (lx.sym == Plus || lx.sym == Minus) && !GetSymbol(lx).1
    requires var l1 := GetSymbol(lx).0; l1.sym != Plus && l1.sym != Minus
    ensures Expression(lx, tree) == Expression(GetSymbol(lx).0, tree')
  {
  }

  /** A number followed by something other than a number is a factor. */
  lemma NumberLeaf(lx: Lex)
    requires lx.sym == Number && !Scan(lx.buf, lx.pos).error && Scan(lx.buf, lx.pos).sym != Number
    ensures Factor(lx, Nothing) == Parsed(GetSymbol(lx).0, Some(Num(lx.number)), false)
    ensures Current(GetSymbol(lx).0, lx.buf, lx.pos)
  {
    Step(lx);
    NumberShape(lx, Nothing);
  }

  /** A number followed by neither a number nor * nor / is a whole term. */
  lemma NumberTerm(lx: Lex)
    requires lx.sym == Number && !Scan(lx.buf, lx.pos).error
    requires var s := Scan(lx.buf, lx.pos).sym; s != Number && s != Mul && s != Div
    ensures Term(lx) == Parsed(GetSymbol(lx).0, Some(Num(lx.number)), false)
    ensures Current(GetSymbol(lx).0, lx.buf, lx.pos)
  {
    NumberLeaf(lx);
    TermFold(lx, Num(lx.number), [GetSymbol(lx).0], [], []);
  }

  /** After lx, a number followed by neither a number nor * nor / is a
      whole term. */
  lemma NumberAfter(lx: Lex)
    requires !Scan(lx.buf, lx.pos).error && Scan(lx.buf, lx.pos).sym == Number
    requires var s := Scan(lx.buf, Scan(lx.buf, lx.pos).end);
      !s.error && s.sym != Number && s.sym != Mul && s.sym != Div
    ensures var next := GetSymbol(GetSymbol(lx).0).0;
      TermStep(lx, Num(Scan(lx.buf, lx.pos).number), next) && Current(next, lx.buf, Scan(lx.buf, lx.pos).end)
  {
    Step(lx);
    NumberTerm(GetSymbol(lx).0);
  }

  /** Reading the first symbol of s. */
  lemma PrimedRead(p: ParserState, s: string)
    requires !Scan(s, 0).error
    ensures Current(Primed(p, s), s, 0)
  {
    Step(p.lex.(input := Input(s), pos := 0));
  }

  /** The symbols of `1+2*3`. */
  predicate SumOfProductText(buf: string)
  {
    && Scan(buf, 0) == Scanned(Number, 1, 1, "", false)
    && Scan(buf, 1) == Scanned(Plus, 2, 0, "", false)
    && Scan(buf, 2) == Scanned(Number, 3, 2, "", false)
    && Scan(buf, 3) == Scanned(Mul, 4, 0, "", false)
    && Scan(buf, 4) == Scanned(Number, 5, 3, "", false)
    && Scan(buf, 5) == Scanned(Null, 5, 0, "", false)
  }

  lemma SumOfProductSymbols()
    ensures SumOfProductText("1+2*3")
  {
  }

  /** The expression of `1+2*3` from its first symbol. */
  lemma {:induction false} SumOfProductRead(lx: Lex, tree: Option<Node>)
    requires SumOfProductText(lx.buf) && Current(lx, lx.buf, 0)
    ensures var e := Expression(lx, tree);
      && !e.error && e.lex.sym == Null
      && e.tree == Some(Op(Add, Some(Num(1)), Some(Op(Multiply, Some(Num(2)), Some(Num(3))))))
  {
    NumberTerm(lx);
    var l1 := GetSymbol(lx).0;
    Step(l1);
    var l2 := GetSymbol(l1).0;
    NumberLeaf(l2);
    var l3 := GetSymbol(l2).0;
    Step(l3);
    var l4 := GetSymbol(l3).0;
    NumberLeaf(l4);
    var l5 := GetSymbol(l4).0;
    assert FactorChain([l3, l5], [Multiply], [Num(3)]) by {
      assert FactorStep(l3, Num(3), l5);
    }
    var product := Op(Multiply, Some(Num(2)), Some(Num(3)));
    TermFold(l2, Num(2), [l3, l5], [Multiply], [Num(3)]);
    assert LeftFold(Num(2), [Multiply], [Num(3)]) == product;
    assert TermChain([l1, l5], [Add], [product]) by {
      assert TermStep(l1, product, l5);
    }
    ExpressionFold(lx, tree, Num(1), [l1, l5], [Add], [product]);
    assert LeftFold(Num(1), [Add], [product]) == Op(Add, Some(Num(1)), Some(product));
  }

  /** `1+2*3` is 1 + (2 * 3): the product is an operand of the sum. */
  lemma {:induction false} ProductInsideSum(p: ParserState)
    ensures var r := Parse(p, "1+2*3");
      r.1 && r.0.tree == Some(Op(Add, Some(Num(1)), Some(Op(Multiply, Some(Num(2)), Some(Num(3))))))
  {
    SumOfProductSymbols();
    PrimedRead(p, "1+2*3");
    SumOfProductRead(Primed(p, "1+2*3"), p.tree);
  }

  /** The symbols of `1-2-3`. */
  predicate DifferenceText(buf: string)
  {
    && Scan(buf, 0) == Scanned(Number, 1, 1, "", false)
    && Scan(buf, 1) == Scanned(Minus, 2, 0, "", false)
    && Scan(buf, 2) == Scanned(Number, 3, 2, "", false)
    && Scan(buf, 3) == Scanned(Minus, 4, 0, "", false)
    && Scan(buf, 4) == Scanned(Number, 5, 3, "", false)
    && Scan(buf, 5) == Scanned(Null, 5, 0, "", false)
  }

  lemma DifferenceSymbols()
    ensures DifferenceText("1-2-3")
  {
  }

  /** The expression of `1-2-3` from its first symbol. */
  lemma {:induction false} DifferencesRead(lx: Lex, tree: Option<Node>)
    requires DifferenceText(lx.buf) && Current(lx, lx.buf, 0)
    ensures var e := Expression(lx, tree);
      && !e.error && e.lex.sym == Null
      && e.tree == Some(Op(Subtract, Some(Op(Subtract, Some(Num(1)), Some(Num(2)))), Some(Num(3))))
  {
    NumberTerm(lx);
    var l1 := GetSymbol(lx).0;
    NumberAfter(l1);
    var l3 := GetSymbol(GetSymbol(l1).0).0;
    NumberAfter(l3);
    var l5 := GetSymbol(GetSymbol(l3).0).0;
    assert TermChain([l1, l3, l5], [Subtract, Subtract], [Num(2), Num(3)]);
    ExpressionFold(lx, tree, Num(1), [l1, l3, l5], [Subtract, Subtract], [Num(2), Num(3)]);
    var difference := Op(Subtract, Some(Num(1)), Some(Num(2)));
    assert LeftFold(Num(1), [Subtract, Subtract], [Num(2), Num(3)]) == LeftFold(difference, [Subtract], [Num(3)]);
  }

  /** `1-2-3` is (1 - 2) - 3: differences are grouped to the left. */
  lemma {:induction false} DifferencesGroupLeft(p: ParserState)
    ensures var r := Parse(p, "1-2-3");
      r.1 && r.0.tree == Some(Op(Subtract, Some(Op(Subtract, Some(Num(1)), Some(Num(2)))), Some(Num(3))))
  {
    DifferenceSymbols();
    PrimedRead(p, "1-2-3");
    DifferencesRead(Primed(p, "1-2-3"), p.tree);
  }

  /** The symbols of `-1-2`. */
  predicate SignedText(buf: string)
  {
    && Scan(buf, 0) == Scanned(Minus, 1, 0, "", false)
    && Scan(buf, 1) == Scanned(Number, 2, 1, "", false)
    && Scan(buf, 2) == Scanned(Minus, 3, 0, "", false)
    && Scan(buf, 3) == Scanned(Number, 4, 2, "", false)
    && Scan(buf, 4) == Scanned(Null, 4, 0, "", false)
  }

  lemma SignedSymbols()
    ensures SignedText("-1-2")
  {
  }

  /** `1-2` parses to 1 - 2 from where it starts in `-1-2`. */
  lemma {:induction false} SignedTail(lx: Lex, tree: Option<Node>)
    requires SignedText(lx.buf) && Current(lx, lx.buf, 1)
    ensures var e := Expression(lx, tree);
      !e.error && e.lex.sym == Null && e.tree == Some(Op(Subtract, Some(Num(1)), Some(Num(2))))
  {
    NumberTerm(lx);
    var l2 := GetSymbol(lx).0;
    NumberAfter(l2);
    var l4 := GetSymbol(GetSymbol(l2).0).0;
    assert TermChain([l2, l4], [Subtract], [Num(2)]);
    ExpressionFold(lx, tree, Num(1), [l2, l4], [Subtract], [Num(2)]);
    assert LeftFold(Num(1), [Subtract], [Num(2)]) == Op(Subtract, Some(Num(1)), Some(Num(2)));
  }

  /** `-1-2` is 1 - 2: the leading minus is dropped, not applied. */
  lemma {:induction false} LeadingSignDropped(p: ParserState)
    ensures var r := Parse(p, "-1-2");
      r.1 && r.0.tree == Some(Op(Subtract, Some(Num(1)), Some(Num(2))))
  {
    var s := "-1-2";
    SignedSymbols();
    PrimedRead(p, s);
    var l0 := Primed(p, s);
    Step(l0);
    SignDropped(l0, p.tree, p.tree);
    SignedTail(GetSymbol(l0).0, p.tree);
  }

  /** The symbols of `1)`. */
  lemma StraySymbols()
    ensures var s := "1)";
      && Scan(s, 0) == Scanned(Number, 1, 1, "", false)
      && Scan(s, 1) == Scanned(RParen, 2, 0, "", false)
  {
  }

  /** `1)` is rejected: the expression 1 parses, but a symbol follows it. */
  lemma {:induction false} StraySymbolRejected(p: ParserState)
    ensures var r := Parse(p, "1)");
      !r.1 && r.0.lex.sym == RParen && r.0.tree == Some(Num(1))
  {
    var s := "1)";
    StraySymbols();
    PrimedRead(p, s);
    var l0 := Primed(p, s);
    NumberTerm(l0);
    var l1 := GetSymbol(l0).0;
    ExpressionFold(l0, p.tree, Num(1), [l1], [], []);
  }
}
