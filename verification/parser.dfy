/** The recursive-descent parser of the calculator, CParser, over the
    grammar
      expression = [ "+" | "-" ] term { ("+" | "-") term }
      term       = factor { ("*" | "/") factor }
      factor     = number | "(" expression ")" | identifier "(" expression ")"
    Each parsing function takes the lexer state and the tree its
    out-parameter holds on entry, and yields the lexer state after it, the
    tree the out-parameter holds on return, and whether it reported an
    error.  Error messages are printed by the source; here they are the
    error flag. */
module Parser {
  import opened Lexical
  import opened ExpressionTree

  datatype Parsed = Parsed(lex: Lex, tree: Option<Node>, error: bool)

  /** The whole parser object: the lexer state and the expression tree. */
  datatype ParserState = ParserState(lex: Lex, tree: Option<Node>)

  /** A lexer state in which a current Identifier names a function, as
      every state getsymbol leaves. */
  predicate Lexed(lx: Lex)
  {
    lx.sym == Identifier ==> lx.ident in FunctionNames
  }

  /** accept(s): when the current symbol is s it is consumed, and the result
      is false only if reading the next symbol reported an error; any other
      symbol is left in place and the result is false. */
  function Accept(lx: Lex, s: Symbol): (r: (Lex, bool))
    ensures lx.sym != s ==> r == (lx, false)
    ensures lx.sym == s ==> r.0 == GetSymbol(lx).0
    ensures r.1 <==> lx.sym == s && !GetSymbol(lx).1
    ensures r.0.buf == lx.buf && Rank(r.0) <= Rank(lx) && (r.1 && s != Null ==> Rank(r.0) < Rank(lx))
    ensures Lexed(lx) ==> Lexed(r.0)
  {
    if lx.sym != s then (lx, false)
    else
      var (lx', error) := GetSymbol(lx);
      (lx', !error)
  }

  /** expect(s) is accept(s) that also prints an error message when it
      fails. */
  function Expect(lx: Lex, s: Symbol): (r: (Lex, bool))
    ensures r == Accept(lx, s)
  {
    Accept(lx, s)
  }

  /** The syntax error of factor: an error is reported and one symbol is
      skipped. */
  function SyntaxError(lx: Lex, tree: Option<Node>): (r: Parsed)
    ensures r.error && r.tree == tree && r.lex == GetSymbol(lx).0
  {
    Parsed(GetSymbol(lx).0, tree, true)
  }

  /** factor: a number leaf, a parenthesised expression, or a function name
      applied to a parenthesised expression.  The name is taken from the
      lexer before the identifier is accepted; the number after it is
      accepted, that is, after the next symbol has been read. */
  function Factor(lx: Lex, tree: Option<Node>): (r: Parsed)
    ensures r.lex.buf == lx.buf && Rank(r.lex) <= Rank(lx)
    ensures Lexed(lx) && !r.error ==> r.tree.Some? && WellFormed(r.tree.value)
    decreases Rank(lx), 0
  {
    var identifier := lx.ident;
    var (l1, isNumber) := Accept(lx, Number);
    if isNumber then Parsed(l1, Some(Num(l1.number)), false)
    else
      var (l2, isParen) := Accept(l1, LParen);
      if isParen then
        var e := Expression(l2, tree);
        if e.error then e
        else
          var (l3, closed) := Expect(e.lex, RParen);
          Parsed(l3, e.tree, !closed)
      else
        var (l3, isName) := Accept(l2, Identifier);
        if !isName then SyntaxError(l3, tree)
        else
          var (l4, hasParen) := Expect(l3, LParen);
          if !hasParen then SyntaxError(l4, tree)
          else
            var e := Expression(l4, Nothing);
            var (l5, closed) := if e.error then (e.lex, false) else Expect(e.lex, RParen);
            if e.error || !closed then Parsed(l5, tree, true)
            else Parsed(l5, Some(Func(identifier, e.tree)), false)
  }

  /** term: factors joined by * and /, grouped to the left. */
  function Term(lx: Lex): (r: Parsed)
    ensures r.lex.buf == lx.buf && Rank(r.lex) <= Rank(lx)
    ensures Lexed(lx) && !r.error ==> r.tree.Some? && WellFormed(r.tree.value)
    decreases Rank(lx), 1
  {
    var f := Factor(lx, Nothing);
    TermLoop(f.lex, f.tree, Nothing, f.error)
  }

  /** The loop of term: lchild is the tree so far and rchild the right
      child pointer, which keeps its value from the last iteration when
      factor fails without setting it. */
  function TermLoop(lx: Lex, lchild: Option<Node>, rchild: Option<Node>, error: bool): (r: Parsed)
    ensures r.lex.buf == lx.buf && Rank(r.lex) <= Rank(lx)
    ensures !r.error ==> !error
    ensures !r.error && lchild.Some? && WellFormed(lchild.value) ==> r.tree.Some? && WellFormed(r.tree.value)
    decreases Rank(lx), 0
  {
    if error || !(lx.sym == Mul || lx.sym == Div) then Parsed(lx, lchild, error)
    else
      var op := if lx.sym == Mul then Multiply else Divide;
      var (l1, lexError) := GetSymbol(lx);
      if lexError then Parsed(l1, lchild, true)
      else
        var f := Factor(l1, rchild);
        TermLoop(f.lex, Some(Op(op, lchild, f.tree)), f.tree, f.error)
  }

  /** expression: a leading sign is consumed and dropped, then terms joined
      by + and -, grouped to the left. */
  function Expression(lx: Lex, tree: Option<Node>): (r: Parsed)
    ensures r.lex.buf == lx.buf && Rank(r.lex) <= Rank(lx)
    ensures Lexed(lx) && !r.error ==> r.tree.Some? && WellFormed(r.tree.value)
    decreases Rank(lx), 2
  {
    var (l1, lexError) := if lx.sym == Plus || lx.sym == Minus then GetSymbol(lx) else (lx, false);
    if lexError then Parsed(l1, tree, true)
    else
      var t := Term(l1);
      ExprLoop(t.lex, t.tree, t.error)
  }

  /** The loop of expression. */
  function ExprLoop(lx: Lex, lchild: Option<Node>, error: bool): (r: Parsed)
    ensures r.lex.buf == lx.buf && Rank(r.lex) <= Rank(lx)
    ensures !r.error ==> !error
    ensures !r.error && lchild.Some? && WellFormed(lchild.value) ==> r.tree.Some? && WellFormed(r.tree.value)
    decreases Rank(lx), 1
  {
    if error || !(lx.sym == Plus || lx.sym == Minus) then Parsed(lx, lchild, error)
    else
      var op := if lx.sym == Plus then Add else Subtract;
      var (l1, lexError) := GetSymbol(lx);
      if lexError then Parsed(l1, lchild, true)
      else
        var t := Term(l1);
        ExprLoop(t.lex, Some(Op(op, lchild, t.tree)), t.error)
  }

  /** The lexer after parse has read the first symbol of s. */
  function Primed(p: ParserState, s: string): Lex
  {
    GetSymbol(p.lex.(input := Input(s), pos := 0)).0
  }

  /** parse(s): an empty string succeeds and changes nothing.  Otherwise the
      lexer starts at the beginning of s, the first symbol is read and an
      expression parsed into the tree; the parse succeeds exactly when the
      expression has no error and no symbol other than Null follows it.
      When the expression leaves the tree unset, it keeps the previous
      tree, which the source has already deleted. */
  function Parse(p: ParserState, s: string): (r: (ParserState, bool))
    ensures s == [] ==> r == (p, true)
    ensures s != [] ==> r.0.lex.buf == s
    ensures s != [] ==> (r.1 <==> !Expression(Primed(p, s), p.tree).error && r.0.lex.sym == Null)
    ensures s != [] && r.1 ==> r.0.tree.Some? && WellFormed(r.0.tree.value)
  {
    if s == [] then (p, true)
    else
      var e := Expression(Primed(p, s), p.tree);
      (ParserState(e.lex, e.tree), !e.error && e.lex.sym == Null)
  }
}
