/** The expression tree of the calculator, CNode: number leaves, binary
    operator nodes and unary function nodes.  A child pointer may be null;
    here a child is an Option.  The tree is evaluated to a number and
    rendered in infix and in postfix form. */
module ExpressionTree {
  import opened Bits
  import opened Words
  import opened Maths
  import opened Sqrt
  import opened Lexical
  import Addition = Add
  import Subtraction = Sub
  import Multiplication = Mul
  import Division = Divide

  datatype Option<T> = Nothing | Some(value: T)

  /** The operators of operator nodes; None is the value a node has before
      one is set. */
  datatype Operator = None | Add | Subtract | Multiply | Divide

  datatype Node =
    | Num(n: nat)
    | Op(op: Operator, left: Option<Node>, right: Option<Node>)
    | Func(id: string, arg: Option<Node>)

  /** The trees a successful parse produces: every operator node has an
      operator and both children, and every function node names a function
      and has its operand. */
  predicate WellFormed(t: Node)
  {
    match t
    case Num(_) => true
    case Op(o, l, r) => o != None && l.Some? && r.Some? && WellFormed(l.value) && WellFormed(r.value)
    case Func(id, a) => id in FunctionNames && a.Some? && WellFormed(a.value)
  }

  /** An operator applied to the values of its operands.  The difference of
      unsigned numbers stops at zero; a quotient by zero has no value, since
      the source's division by zero does not return.  An operator node
      without an operator keeps the result 0. */
  function Combine(o: Operator, a: Option<nat>, b: Option<nat>): Option<nat>
  {
    if a.Nothing? || b.Nothing? then Nothing
    else
      var x, y := a.value, b.value;
      match o
      case None => Some(0)
      case Add => Some(x + y)
      case Subtract => Some(Monus(x, y))
      case Multiply => Some(x * y)
      case Divide => if y == 0 then Nothing else Some(x / y)
  }

  /** A function applied to the value of its operand.  factorialx, exp2x and
      fibx receive the low 32 bits of the operand.  Where the source's result
      is not determined (the square root, Fibonacci number and logarithm of
      zero, all of which go through a logarithm of zero) there is no value.
      An unknown name gives 0. */
  function Invoke(id: string, a: Option<nat>): Option<nat>
  {
    if a.Nothing? then Nothing
    else
      var x := a.value;
      if id == "sqrtx" then (if x == 0 then Nothing else Some(FloorSqrt(x)))
      else if id == "sqrx" then Some(x * x)
      else if id == "factorialx" then Some(Fact(x % BASE))
      else if id == "exp2x" then Some(Pow2(x % BASE))
      else if id == "fibx" then (if x % BASE == 0 then Nothing else Some(Fib(x % BASE)))
      else if id == "log2x" then (if x == 0 then Nothing else Some(BitLength(x) - 1))
      else Some(0)
  }

  /** The value a tree denotes: the mathematical reading of the operators
      and functions, with a missing child read as 0. */
  function Meaning(t: Node): Option<nat>
  {
    match t
    case Num(n) => Some(n)
    case Op(o, l, r) =>
      Combine(o, if l.Some? then Meaning(l.value) else Some(0), if r.Some? then Meaning(r.value) else Some(0))
    case Func(id, a) => Invoke(id, if a.Some? then Meaning(a.value) else Some(0))
  }

  /** The function call of evaluate, through the algorithms of the math
      layer: the bit-by-bit square root, the factorial loop, the shift for
      powers of two and Fibonacci numbers by doubling. */
  method CallFunction(id: string, x: nat) returns (v: Option<nat>)
    ensures v == Invoke(id, Some(x))
  {
    if id == "sqrtx" {
      if x == 0 {
        v := Nothing;
      } else {
        var r := SqrtX(Finite(x));
        RootUnique(r.n, FloorSqrt(x), x);
        v := Some(r.n);
      }
    } else if id == "sqrx" {
      v := Some(x * x);
    } else if id == "factorialx" {
      var z := Factorial(x % BASE);
      v := Some(z);
    } else if id == "exp2x" {
      v := Some(Val(Exp2X(x % BASE)));
    } else if id == "fibx" {
      var k: Word := x % BASE;
      if k == 0 {
        v := Nothing;
      } else {
        var f := FibX(k);
        v := Some(f);
      }
    } else if id == "log2x" {
      v := if x == 0 then Nothing else Some(BitLength(x) - 1);
    } else {
      v := Some(0);
    }
  }

  /** evaluate: the children are evaluated first, a missing one as 0, and
      the node's operator or function is applied to their values.  The
      operators are the kernel's +, -, * and / on word vectors; a number
      leaf holds the normalized vector of its number, and a function's
      result is stored as the normalized vector of its value.  The vector
      evaluate returns denotes the value the tree denotes. */
  method Evaluate(t: Node) returns (v: Option<seq<Word>>)
    ensures v.Some? <==> Meaning(t).Some?
    ensures v.Some? ==> Normalized(v.value) && Val(v.value) == Meaning(t).value
    decreases t
  {
    match t
    case Num(n) =>
      v := Some(WordsOf(n));
    case Op(o, l, r) =>
      var a: Option<seq<Word>> := Some(WordsOf(0));
      var b: Option<seq<Word>> := Some(WordsOf(0));
      if l.Some? {
        a := Evaluate(l.value);
      }
      if r.Some? {
        b := Evaluate(r.value);
      }
      if a.Nothing? || b.Nothing? {
        v := Nothing;
      } else {
        v := Operate(o, a.value, b.value);
      }
    case Func(id, arg) =>
      var a: Option<seq<Word>> := Some(WordsOf(0));
      if arg.Some? {
        a := Evaluate(arg.value);
      }
      if a.Nothing? {
        v := Nothing;
      } else {
        var x := CallFunction(id, Val(a.value));
        v := if x.Some? then Some(WordsOf(x.value)) else Nothing;
      }
  }

  /** The switch on the operator in evaluate, through the kernel operators;
      a divisor of zero gives no value. */
  method Operate(o: Operator, x: seq<Word>, y: seq<Word>) returns (v: Option<seq<Word>>)
    requires Normalized(x) && Normalized(y)
    ensures v.Some? <==> Combine(o, Some(Val(x)), Some(Val(y))).Some?
    ensures v.Some? ==> Normalized(v.value) && Val(v.value) == Combine(o, Some(Val(x)), Some(Val(y))).value
  {
    match o
    case None =>
      v := Some(WordsOf(0));
    case Add =>
      var s := Addition.Plus(x, y);
      v := Some(s);
    case Subtract =>
      var s := Subtraction.Minus(x, y);
      v := Some(s);
    case Multiply =>
      var s := Multiplication.Times(x, y);
      v := Some(s);
    case Divide =>
      if Val(y) == 0 {
        v := Nothing;
      } else {
        var s := Division.Div(x, y);
        v := Some(s);
      }
  }

  /** OperatorToString: additive operators are set off by spaces. */
  function OperatorToString(o: Operator): string
  {
    match o
    case None => ""
    case Add => " + "
    case Subtract => " - "
    case Multiply => "*"
    case Divide => "/"
  }

  /** The rendering of a child: nothing for a missing one. */
  function InorderChild(c: Option<Node>): string
    decreases c
  {
    if c.Some? then Inorder(c.value) else ""
  }

  /** inorder: every operator node in parentheses, every function applied
      to its parenthesised operand. */
  function Inorder(t: Node): string
    decreases t
  {
    match t
    case Num(n) => Decimal(n)
    case Op(o, l, r) => "(" + InorderChild(l) + OperatorToString(o) + InorderChild(r) + ")"
    case Func(id, a) => id + "(" + InorderChild(a) + ")"
  }

  /** The rendering of an operator node with both operands. */
  lemma {:induction false} InorderOperator(t: Node, l: Node, r: Node)
    requires t.Op? && t.left == Some(l) && t.right == Some(r)
    ensures Inorder(t) == "(" + Inorder(l) + OperatorToString(t.op) + Inorder(r) + ")"
  {
  }

  /** The rendering of a function call with its operand. */
  lemma {:induction false} InorderCall(t: Node, a: Node)
    requires t.Func? && t.arg == Some(a)
    ensures Inorder(t) == t.id + "(" + Inorder(a) + ")"
  {
  }

  function PostorderChild(c: Option<Node>): string
    decreases c
  {
    if c.Some? then Postorder(c.value) else ""
  }

  /** postorder: the operands first, each followed by a space, then the
      operator or the function name. */
  function Postorder(t: Node): string
    decreases t
  {
    match t
    case Num(n) => Decimal(n)
    case Op(o, l, r) => PostorderChild(l) + " " + PostorderChild(r) + " " + OperatorToString(o)
    case Func(id, a) => PostorderChild(a) + " " + id
  }

  // Balanced parentheses

  /** Opening parentheses minus closing ones. */
  function Depth(s: string): int
  {
    if s == [] then 0
    else Depth(s[..|s| - 1]) + (if s[|s| - 1] == '(' then 1 else if s[|s| - 1] == ')' then -1 else 0)
  }

  /** Every prefix closes no more parentheses than it opens, and the whole
      closes all it opens. */
  predicate Balanced(s: string)
  {
    Depth(s) == 0 && forall i :: 0 <= i <= |s| ==> Depth(s[..i]) >= 0
  }

  lemma {:induction false} DepthAppend(a: string, b: string)
    ensures Depth(a + b) == Depth(a) + Depth(b)
    decreases |b|
  {
    if b != [] {
      var b' := b[..|b| - 1];
      assert (a + b)[..|a + b| - 1] == a + b';
      assert (a + b)[|a + b| - 1] == b[|b| - 1];
      DepthAppend(a, b');
    } else {
      assert a + b == a;
    }
  }

  lemma {:induction false} DepthPlain(s: string)
    requires forall k :: 0 <= k < |s| ==> s[k] != '(' && s[k] != ')'
    ensures Depth(s) == 0
    decreases |s|
  {
    if s != [] {
      DepthPlain(s[..|s| - 1]);
    }
  }

  lemma {:induction false} PlainBalanced(s: string)
    requires forall k :: 0 <= k < |s| ==> s[k] != '(' && s[k] != ')'
    ensures Balanced(s)
  {
    DepthPlain(s);
    forall i | 0 <= i <= |s|
      ensures Depth(s[..i]) >= 0
    {
      DepthPlain(s[..i]);
    }
  }

  lemma {:induction false} BalancedAppend(a: string, b: string)
    requires Balanced(a) && Balanced(b)
    ensures Balanced(a + b)
  {
    DepthAppend(a, b);
    forall i | 0 <= i <= |a + b|
      ensures Depth((a + b)[..i]) >= 0
    {
      if i <= |a| {
        assert (a + b)[..i] == a[..i];
      } else {
        assert (a + b)[..i] == a + b[..i - |a|];
        DepthAppend(a, b[..i - |a|]);
      }
    }
  }

  lemma {:induction false} BalancedWrap(s: string)
    requires Balanced(s)
    ensures Balanced("(" + s + ")")
  {
    var w := "(" + s + ")";
    DepthAppend("(" + s, ")");
    DepthAppend("(", s);
    forall i | 0 <= i <= |w|
      ensures Depth(w[..i]) >= 0
    {
      if i == 0 {
        assert w[..i] == [];
      } else if i <= |s| + 1 {
        assert w[..i] == "(" + s[..i - 1];
        DepthAppend("(", s[..i - 1]);
      } else {
        assert w[..i] == w;
      }
    }
  }

  /** The infix rendering of a parsed tree has balanced parentheses. */
  lemma {:induction false} InorderBalanced(t: Node)
    requires WellFormed(t)
    ensures Balanced(Inorder(t))
  {
    match t
    case Num(n) =>
      PlainBalanced(Decimal(n));
    case Op(o, l, r) =>
      InorderBalanced(l.value);
      InorderBalanced(r.value);
      OperatorBalanced(t);
    case Func(id, a) =>
      InorderBalanced(a.value);
      CallBalanced(t);
  }

  lemma {:induction false} OperatorBalanced(t: Node)
    requires t.Op? && t.left.Some? && t.right.Some?
    requires Balanced(Inorder(t.left.value)) && Balanced(Inorder(t.right.value))
    ensures Balanced(Inorder(t))
  {
    var l, s, r := Inorder(t.left.value), OperatorToString(t.op), Inorder(t.right.value);
    PlainBalanced(s);
    BalancedAppend(l, s);
    BalancedAppend(l + s, r);
    BalancedWrap(l + s + r);
    assert Inorder(t) == "(" + (l + s + r) + ")";
  }

  lemma {:induction false} CallBalanced(t: Node)
    requires t.Func? && t.id in FunctionNames && t.arg.Some? && Balanced(Inorder(t.arg.value))
    ensures Balanced(Inorder(t))
  {
    var a := Inorder(t.arg.value);
    NamePlain(t.id);
    PlainBalanced(t.id);
    BalancedWrap(a);
    BalancedAppend(t.id, "(" + a + ")");
    assert Inorder(t) == t.id + ("(" + a + ")");
  }

  // Postfix rendering on a stack machine

  /** The length of the run of characters other than a space at the start
      of s. */
  function FieldLength(s: string): (k: nat)
    ensures k <= |s|
    ensures forall i :: 0 <= i < k ==> s[i] != ' '
    ensures k < |s| ==> s[k] == ' '
  {
    if s == [] || s[0] == ' ' then 0 else 1 + FieldLength(s[1..])
  }

  /** The fields of s: its maximal runs of characters other than a space. */
  function Fields(s: string): seq<string>
    decreases |s|
  {
    if s == [] then []
    else if s[0] == ' ' then Fields(s[1..])
    else var k := FieldLength(s); [s[..k]] + Fields(s[k..])
  }

  lemma {:induction false} FieldLengthJoin(a: string, b: string)
    ensures FieldLength(a + " " + b) == FieldLength(a)
    decreases |a|
  {
    if a != [] && a[0] != ' ' {
      assert (a + " " + b)[1..] == a[1..] + " " + b;
      FieldLengthJoin(a[1..], b);
    }
  }

  /** Texts joined by a space have the fields of both parts. */
  lemma {:induction false} FieldsJoin(a: string, b: string)
    ensures Fields(a + " " + b) == Fields(a) + Fields(b)
    decreases |a|
  {
    var s := a + " " + b;
    if a == [] {
      assert s[1..] == b;
    } else if a[0] == ' ' {
      assert s[1..] == a[1..] + " " + b;
      FieldsJoin(a[1..], b);
    } else {
      var k := FieldLength(a);
      FieldLengthJoin(a, b);
      assert s[..k] == a[..k];
      assert s[k..] == a[k..] + " " + b;
      FieldsJoin(a[k..], b);
    }
  }

  /** A nonempty text without spaces is one field. */
  lemma {:induction false} FieldsSingle(w: string)
    requires |w| >= 1 && forall k :: 0 <= k < |w| ==> w[k] != ' '
    ensures Fields(w) == [w]
  {
    assert w[0] != ' ';
    assert FieldLength(w) == |w|;
    assert w[..|w|] == w && w[|w|..] == [];
    assert Fields(w) == [w[..|w|]] + Fields(w[|w|..]);
  }

  /** The field of an operator. */
  function OperatorField(o: Operator): string
  {
    match o
    case None => ""
    case Add => "+"
    case Subtract => "-"
    case Multiply => "*"
    case Divide => "/"
  }

  lemma {:induction false} FieldsOperator(o: Operator)
    requires o != None
    ensures Fields(OperatorToString(o)) == [OperatorField(o)]
  {
    var w := OperatorField(o);
    FieldsSingle(w);
    if o == Add || o == Subtract {
      assert OperatorToString(o) == " " + w + " ";
      assert (" " + w + " ")[1..] == w + " " + "";
      FieldsJoin(w, "");
    }
  }

  /** The operator a field stands for. */
  function FieldOperator(w: string): Operator
  {
    if w == "+" then Add else if w == "-" then Subtract else if w == "*" then Multiply
    else if w == "/" then Divide else None
  }

  /** One field of a postfix text on a stack of values: a number is pushed,
      an operator replaces the top two values by their combination and a
      function name the top value by its result.  Nothing when the stack
      is too short or the field is none of these. */
  function StackStep(w: string, st: seq<Option<nat>>): Option<seq<Option<nat>>>
  {
    if |w| >= 1 && AllDigits(w) then Some(st + [Some(DecimalValue(w))])
    else if FieldOperator(w) != None then
      if |st| < 2 then Nothing
      else Some(st[..|st| - 2] + [Combine(FieldOperator(w), st[|st| - 2], st[|st| - 1])])
    else if w in FunctionNames then
      if |st| < 1 then Nothing
      else Some(st[..|st| - 1] + [Invoke(w, st[|st| - 1])])
    else Nothing
  }

  function StackRun(ws: seq<string>, st: seq<Option<nat>>): Option<seq<Option<nat>>>
    decreases |ws|
  {
    if ws == [] then Some(st)
    else
      var s := StackStep(ws[0], st);
      if s.Nothing? then Nothing else StackRun(ws[1..], s.value)
  }

  lemma {:induction false} StackRunCons(w: string, ws: seq<string>, st: seq<Option<nat>>, st': seq<Option<nat>>)
    requires StackStep(w, st) == Some(st')
    ensures StackRun([w] + ws, st) == StackRun(ws, st')
  {
    assert ([w] + ws)[1..] == ws;
  }

  /** Running the fields of the postfix rendering of a parsed tree pushes
      the value of the tree and leaves the rest of the stack alone. */
  lemma {:induction false} PostorderRuns(t: Node, more: seq<string>, st: seq<Option<nat>>)
    requires WellFormed(t)
    ensures StackRun(Fields(Postorder(t)) + more, st) == StackRun(more, st + [Meaning(t)])
  {
    match t
    case Num(n) =>
      NumberRuns(n, more, st);
    case Op(o, l, r) =>
      var pr := Fields(Postorder(r.value));
      var w := OperatorField(o);
      PostorderRuns(l.value, pr + ([w] + more), st);
      PostorderRuns(r.value, [w] + more, st + [Meaning(l.value)]);
      OperatorRuns(t, more, st);
    case Func(id, a) =>
      PostorderRuns(a.value, [id] + more, st);
      CallRuns(t, more, st);
  }

  lemma {:induction false} NumberRuns(n: nat, more: seq<string>, st: seq<Option<nat>>)
    ensures StackRun(Fields(Postorder(Num(n))) + more, st) == StackRun(more, st + [Meaning(Num(n))])
  {
    var d := Decimal(n);
    DecimalRoundTrip(n);
    FieldsSingle(d);
    StackRunCons(d, more, st, st + [Some(n)]);
  }

  /** The fields of the postfix rendering of an operator node. */
  lemma {:induction false} OperatorFields(t: Node)
    requires t.Op? && t.op != None && t.left.Some? && t.right.Some?
    ensures Fields(Postorder(t)) ==
      Fields(Postorder(t.left.value)) + Fields(Postorder(t.right.value)) + [OperatorField(t.op)]
  {
    var pl, pr := Postorder(t.left.value), Postorder(t.right.value);
    FieldsJoin(pl, pr);
    FieldsJoin(pl + " " + pr, OperatorToString(t.op));
    FieldsOperator(t.op);
  }

  /** The fields of the postfix rendering of a function node. */
  lemma {:induction false} CallFields(t: Node)
    requires t.Func? && t.id in FunctionNames && t.arg.Some?
    ensures Fields(Postorder(t)) == Fields(Postorder(t.arg.value)) + [t.id]
  {
    NamePlain(t.id);
    FieldsSingle(t.id);
    FieldsJoin(Postorder(t.arg.value), t.id);
  }

  /** The step of PostorderRuns at an operator node, given the runs of its
      operands. */
  lemma {:induction false} OperatorRuns(t: Node, more: seq<string>, st: seq<Option<nat>>)
    requires t.Op? && t.op != None && t.left.Some? && t.right.Some?
    requires var pr, w := Fields(Postorder(t.right.value)), OperatorField(t.op);
      && StackRun(Fields(Postorder(t.left.value)) + (pr + ([w] + more)), st)
         == StackRun(pr + ([w] + more), st + [Meaning(t.left.value)])
      && StackRun(pr + ([w] + more), st + [Meaning(t.left.value)])
         == StackRun([w] + more, st + [Meaning(t.left.value)] + [Meaning(t.right.value)])
    ensures StackRun(Fields(Postorder(t)) + more, st) == StackRun(more, st + [Meaning(t)])
  {
    var fl, fr := Fields(Postorder(t.left.value)), Fields(Postorder(t.right.value));
    var w := OperatorField(t.op);
    OperatorFields(t);
    Regroup(fl, fr, w, more);
    OperatorStep(t.op, st, Meaning(t.left.value), Meaning(t.right.value));
    StackRunCons(w, more, st + [Meaning(t.left.value)] + [Meaning(t.right.value)], st + [Meaning(t)]);
  }

  /** Sequence concatenation regrouped, stated apart so that the runs
      above do not search for it among their own facts. */
  lemma {:induction false} Regroup(a: seq<string>, b: seq<string>, w: string, more: seq<string>)
    ensures a + b + [w] + more == a + (b + ([w] + more))
  {
  }

  /** The one-operand regrouping of CallRuns. */
  lemma {:induction false} Regroup1(a: seq<string>, w: string, more: seq<string>)
    ensures a + [w] + more == a + ([w] + more)
  {
  }

  /** An operator field combines the top two values of the stack. */
  lemma {:induction false} OperatorStep(o: Operator, st: seq<Option<nat>>, a: Option<nat>, b: Option<nat>)
    requires o != None
    ensures StackStep(OperatorField(o), st + [a] + [b]) == Some(st + [Combine(o, a, b)])
  {
    var st2 := st + [a] + [b];
    assert st2[..|st2| - 2] == st && st2[|st2| - 2] == a && st2[|st2| - 1] == b;
    assert FieldOperator(OperatorField(o)) == o;
  }

  /** A function name replaces the top value of the stack by the
      function's result. */
  lemma {:induction false} CallStep(id: string, st: seq<Option<nat>>, a: Option<nat>)
    requires id in FunctionNames
    ensures StackStep(id, st + [a]) == Some(st + [Invoke(id, a)])
  {
    var st1 := st + [a];
    assert st1[..|st1| - 1] == st && st1[|st1| - 1] == a;
    NamePlain(id);
    assert !IsNumeric(id[0]) && FieldOperator(id) == None;
  }

  /** The step of PostorderRuns at a function node, given the run of its
      operand. */
  lemma {:induction false} CallRuns(t: Node, more: seq<string>, st: seq<Option<nat>>)
    requires t.Func? && t.id in FunctionNames && t.arg.Some?
    requires StackRun(Fields(Postorder(t.arg.value)) + ([t.id] + more), st)
      == StackRun([t.id] + more, st + [Meaning(t.arg.value)])
    ensures StackRun(Fields(Postorder(t)) + more, st) == StackRun(more, st + [Meaning(t)])
  {
    var fa := Fields(Postorder(t.arg.value));
    CallFields(t);
    Regroup1(fa, t.id, more);
    assert Meaning(t) == Invoke(t.id, Meaning(t.arg.value));
    CallStep(t.id, st, Meaning(t.arg.value));
    StackRunCons(t.id, more, st + [Meaning(t.arg.value)], st + [Meaning(t)]);
  }

  /** The postfix rendering of a parsed tree, run on an empty stack, leaves
      exactly the tree's value. */
  lemma {:induction false} PostorderValue(t: Node)
    requires WellFormed(t)
    ensures StackRun(Fields(Postorder(t)), []) == Some([Meaning(t)])
  {
    PostorderRuns(t, [], []);
    assert Fields(Postorder(t)) + [] == Fields(Postorder(t));
    assert [] + [Meaning(t)] == [Meaning(t)];
  }
}
