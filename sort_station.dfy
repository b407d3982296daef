/** The shunting-yard calculator: an expression tree of numbers and binary
    operators with evaluation and three renderings, and a parser that turns
    a sequence of tokens into such a tree with an output stack of trees and
    a stack of pending operators. */
module ShuntingYard {
  import opened Results

  // ---------------------------------------------------------------------------
  // The expression tree

  /** NumberNode and OperatorNode. The operator is the token that was on the
      operator stack, so it may be any word, "(" included. */
  datatype Node = Number(value: real) | Operator(op: string, left: Node, right: Node)

  datatype EvalError = DivisionByZero | UnknownOperator

  predicate IsArithmetic(op: string) {
    op == "+" || op == "-" || op == "*" || op == "/"
  }

  /** Every operator in the tree is one of + - * /. */
  predicate KnownOperators(n: Node) {
    match n
    case Number(_) => true
    case Operator(op, l, r) => IsArithmetic(op) && KnownOperators(l) && KnownOperators(r)
  }

  predicate NoDivision(n: Node) {
    match n
    case Number(_) => true
    case Operator(op, l, r) => op != "/" && NoDivision(l) && NoDivision(r)
  }

  /** Real division, kept apart so that the solver only unfolds it when asked. */
  function Quotient(a: real, b: real): real
    requires b != 0.0
  {
    a / b
  }

  /** Evaluate: a number is its value; an operator node evaluates its left
      then its right operand, passes on the first error, and then applies
      its operator, failing on a zero divisor and on an unknown operator. */
  function Evaluate(n: Node): (r: Result<real, EvalError>)
    ensures r.Ok? ==> KnownOperators(n)
    ensures KnownOperators(n) && NoDivision(n) ==> r.Ok?
    ensures r == Err(UnknownOperator) ==> !KnownOperators(n)
  {
    match n
    case Number(v) => Ok(v)
    case Operator(op, left, right) =>
      var l := Evaluate(left);
      if l.Err? then l
      else
        var r := Evaluate(right);
        if r.Err? then r
        else if op == "+" then Ok(l.value + r.value)
        else if op == "-" then Ok(l.value - r.value)
        else if op == "*" then Ok(l.value * r.value)
        else if op == "/" then
          if r.value == 0.0 then Err(DivisionByZero) else Ok(Quotient(l.value, r.value))
        else Err(UnknownOperator)
  }

  /** The rendered symbols: numbers, operators and the parentheses of the
      infix form. */
  datatype Item = NumItem(value: real) | OpItem(op: string) | Open | Close

  /** The symbol a node contributes itself: its number or its operator. */
  function RootItem(n: Node): Item {
    match n
    case Number(v) => NumItem(v)
    case Operator(op, _, _) => OpItem(op)
  }

  /** The numbers of a rendering, in order. */
  function NumbersIn(items: seq<Item>): seq<real>
    decreases |items|
  {
    if |items| == 0 then []
    else (if items[0].NumItem? then [items[0].value] else []) + NumbersIn(items[1..])
  }

  lemma {:induction false} NumbersInConcat(a: seq<Item>, b: seq<Item>)
    ensures NumbersIn(a + b) == NumbersIn(a) + NumbersIn(b)
    decreases |a|
  {
    if |a| == 0 {
      assert a + b == b;
    } else {
      var head := if a[0].NumItem? then [a[0].value] else [];
      assert (a + b)[0] == a[0] && (a + b)[1..] == a[1..] + b;
      assert NumbersIn(a + b) == head + NumbersIn(a[1..] + b);
      NumbersInConcat(a[1..], b);
      assert NumbersIn(a) == head + NumbersIn(a[1..]);
    }
  }

  /** Operator first: one symbol per node, the root's first, and the numbers
      of the tree in their left-to-right order. */
  function ToPrefix(n: Node): (r: seq<Item>)
    ensures |r| == 2 * |Leaves(n)| - 1
    ensures r[0] == RootItem(n)
    ensures NumbersIn(r) == Leaves(n)
  {
    match n
    case Number(v) => [NumItem(v)]
    case Operator(op, l, r) =>
      NumbersInConcat([OpItem(op)] + ToPrefix(l), ToPrefix(r));
      NumbersInConcat([OpItem(op)], ToPrefix(l));
      [OpItem(op)] + ToPrefix(l) + ToPrefix(r)
  }

  /** Operator last: one symbol per node, the root's last, and the numbers
      of the tree in their left-to-right order. */
  function ToPostfix(n: Node): (r: seq<Item>)
    ensures |r| == 2 * |Leaves(n)| - 1
    ensures r[|r| - 1] == RootItem(n)
    ensures NumbersIn(r) == Leaves(n)
  {
    match n
    case Number(v) => [NumItem(v)]
    case Operator(op, l, r) =>
      NumbersInConcat(ToPostfix(l) + ToPostfix(r), [OpItem(op)]);
      NumbersInConcat(ToPostfix(l), ToPostfix(r));
      ToPostfix(l) + ToPostfix(r) + [OpItem(op)]
  }

  /** Every operator node is rendered in parentheses: besides its own symbol
      it adds an opening one first and a closing one last, and the numbers
      keep their left-to-right order. */
  function ToInfix(n: Node): (r: seq<Item>)
    ensures |r| == 4 * |Leaves(n)| - 3
    ensures n.Number? ==> r == [RootItem(n)]
    ensures n.Operator? ==> r[0] == Open && r[|r| - 1] == Close
    ensures NumbersIn(r) == Leaves(n)
  {
    match n
    case Number(v) => [NumItem(v)]
    case Operator(op, l, r) =>
      NumbersInConcat([Open] + ToInfix(l) + [OpItem(op)] + ToInfix(r), [Close]);
      NumbersInConcat([Open] + ToInfix(l) + [OpItem(op)], ToInfix(r));
      NumbersInConcat([Open] + ToInfix(l), [OpItem(op)]);
      NumbersInConcat([Open], ToInfix(l));
      [Open] + ToInfix(l) + [OpItem(op)] + ToInfix(r) + [Close]
  }

  /** The numbers of the tree, left to right. */
  function Leaves(n: Node): seq<real> {
    match n
    case Number(v) => [v]
    case Operator(_, l, r) => Leaves(l) + Leaves(r)
  }

  // ---------------------------------------------------------------------------
  // Reading the renderings back

  /** Reads one tree off the front of a prefix rendering. */
  function ReadPrefix(items: seq<Item>): (r: Option<(Node, seq<Item>)>)
    ensures r.Some? ==> |r.value.1| < |items|
    decreases |items|
  {
    if |items| == 0 then None
    else match items[0]
      case NumItem(v) => Some((Number(v), items[1..]))
      case OpItem(op) =>
        (match ReadPrefix(items[1..])
         case None => None
         case Some((l, rest)) =>
           match ReadPrefix(rest)
           case None => None
           case Some((r, rest')) => Some((Operator(op, l, r), rest')))
      case _ => None
  }

  /** Reads one tree off the front of a fully parenthesised infix rendering. */
  function ReadInfix(items: seq<Item>): (r: Option<(Node, seq<Item>)>)
    ensures r.Some? ==> |r.value.1| < |items|
    decreases |items|
  {
    if |items| == 0 then None
    else match items[0]
      case NumItem(v) => Some((Number(v), items[1..]))
      case Open =>
        (match ReadInfix(items[1..])
         case None => None
         case Some((l, rest)) =>
           if |rest| == 0 || !rest[0].OpItem? then None
           else match ReadInfix(rest[1..])
             case None => None
             case Some((r, rest')) =>
               if |rest'| == 0 || rest'[0] != Close then None
               else Some((Operator(rest[0].op, l, r), rest'[1..])))
      case _ => None
  }

  /** Runs a postfix rendering on an operand stack, folding operators with
      ApplyOperator, exactly as the parser builds its trees. */
  function ReadPostfix(items: seq<Item>, stack: seq<Node>): Result<seq<Node>, ParseError>
    decreases |items|
  {
    if |items| == 0 then Ok(stack)
    else match items[0]
      case NumItem(v) => ReadPostfix(items[1..], stack + [Number(v)])
      case OpItem(op) =>
        (match ApplyOperator(stack, op)
         case Err(e) => Err(e)
         case Ok(stack') => ReadPostfix(items[1..], stack'))
      case _ => Err(ParseError("Invalid expression"))
  }

  lemma {:induction false} PrefixRoundTrip(n: Node, rest: seq<Item>)
    ensures ReadPrefix(ToPrefix(n) + rest) == Some((n, rest))
  {
    match n
    case Number(v) =>
      assert (ToPrefix(n) + rest)[1..] == rest;
    case Operator(op, l, r) =>
      var items := ToPrefix(n) + rest;
      assert items[1..] == ToPrefix(l) + (ToPrefix(r) + rest);
      PrefixRoundTrip(l, ToPrefix(r) + rest);
      PrefixRoundTrip(r, rest);
  }

  lemma {:induction false} InfixRoundTrip(n: Node, rest: seq<Item>)
    ensures ReadInfix(ToInfix(n) + rest) == Some((n, rest))
  {
    match n
    case Number(v) =>
      assert (ToInfix(n) + rest)[1..] == rest;
    case Operator(op, l, r) =>
      var left, right := ToInfix(l), ToInfix(r);
      var items := ToInfix(n) + rest;
      var afterRight := [Close] + rest;
      var afterLeft := [OpItem(op)] + (right + afterRight);
      assert ToInfix(n) == [Open] + left + [OpItem(op)] + right + [Close];
      assert items == [Open] + (left + afterLeft);
      assert items[0] == Open && items[1..] == ToInfix(l) + afterLeft;
      InfixRoundTrip(l, afterLeft);
      assert afterLeft[0] == OpItem(op) && afterLeft[1..] == ToInfix(r) + afterRight;
      InfixRoundTrip(r, afterRight);
      assert afterRight[0] == Close && afterRight[1..] == rest;
  }

  lemma {:induction false} PostfixRoundTrip(n: Node, rest: seq<Item>, stack: seq<Node>)
    ensures ReadPostfix(ToPostfix(n) + rest, stack) == ReadPostfix(rest, stack + [n])
  {
    match n
    case Number(v) =>
      assert (ToPostfix(n) + rest)[1..] == rest;
    case Operator(op, l, r) =>
      var tail := [OpItem(op)] + rest;
      assert ToPostfix(n) + rest == ToPostfix(l) + (ToPostfix(r) + tail);
      PostfixRoundTrip(l, ToPostfix(r) + tail, stack);
      PostfixRoundTrip(r, tail, stack + [l]);
      var s := stack + [l] + [r];
      assert s[..|s| - 2] == stack && s[|s| - 2] == l && s[|s| - 1] == r;
      assert tail[1..] == rest;
  }

  /** Reading a whole postfix rendering gives back exactly the tree. */
  lemma PostfixReadsBack(n: Node)
    ensures ReadPostfix(ToPostfix(n), []) == Ok([n])
  {
    PostfixRoundTrip(n, [], []);
    assert ToPostfix(n) + [] == ToPostfix(n);
    assert [] + [n] == [n];
  }

  // ---------------------------------------------------------------------------
  // The parser

  /** A token: a field that parses as a number, or any other word. */
  datatype Token = Num(value: real) | Word(text: string)

  datatype ParseError = ParseError(message: string)

  /** Precedence of * and / is 2, of + and - is 1, of everything else 0. */
  function Precedence(s: string): (p: int)
    ensures p == 2 <==> s == "*" || s == "/"
    ensures p == 1 <==> s == "+" || s == "-"
    ensures 0 <= p <= 2
  {
    if s == "*" || s == "/" then 2
    else if s == "+" || s == "-" then 1
    else 0
  }

  /** applyOperator: fails exactly when fewer than two trees are stacked;
      otherwise the stack below the top two is untouched and the new top is
      the operator node with the old second-from-top on the left. */
  function ApplyOperator(output: seq<Node>, op: string): (r: Result<seq<Node>, ParseError>)
    ensures r.Err? <==> |output| < 2
    ensures r.Err? ==> r.error == ParseError("Not enough operands for operator " + op)
    ensures r.Ok? ==>
      && |r.value| == |output| - 1
      && r.value[..|r.value| - 1] == output[..|output| - 2]
      && r.value[|r.value| - 1] == Operator(op, output[|output| - 2], output[|output| - 1])
  {
    if |output| < 2 then Err(ParseError("Not enough operands for operator " + op))
    else Ok(output[..|output| - 2] + [Operator(op, output[|output| - 2], output[|output| - 1])])
  }

  /** The parser's two stacks; the top of each is its last element. */
  datatype Stacks = Stacks(output: seq<Node>, operators: seq<string>)

  /** Pops the top operator and applies it to the output stack. */
  function PopApply(st: Stacks): (r: Result<Stacks, ParseError>)
    requires |st.operators| > 0
    ensures r.Ok? ==> |r.value.operators| == |st.operators| - 1
  {
    var op := st.operators[|st.operators| - 1];
    match ApplyOperator(st.output, op)
    case Err(e) => Err(e)
    case Ok(output) => Ok(Stacks(output, st.operators[..|st.operators| - 1]))
  }

  /** On ")": applies stacked operators down to the nearest "(" (or until
      the operator stack is empty). */
  function PopUntilOpen(st: Stacks): Result<Stacks, ParseError>
    decreases |st.operators|
  {
    if |st.operators| > 0 && st.operators[|st.operators| - 1] != "(" then
      match PopApply(st)
      case Err(e) => Err(e)
      case Ok(st') => PopUntilOpen(st')
    else Ok(st)
  }

  /** Before stacking an operator: applies every stacked operator whose
      precedence is at least that of the incoming one. */
  function PopWhileAtLeast(st: Stacks, token: string): Result<Stacks, ParseError>
    decreases |st.operators|
  {
    if |st.operators| > 0 && Precedence(st.operators[|st.operators| - 1]) >= Precedence(token) then
      match PopApply(st)
      case Err(e) => Err(e)
      case Ok(st') => PopWhileAtLeast(st', token)
    else Ok(st)
  }

  /** At the end of input: applies every stacked operator, "(" included. */
  function Drain(st: Stacks): Result<Stacks, ParseError>
    decreases |st.operators|
  {
    if |st.operators| > 0 then
      match PopApply(st)
      case Err(e) => Err(e)
      case Ok(st') => Drain(st')
    else Ok(st)
  }

  /** The treatment of one token. */
  function Step(st: Stacks, t: Token): Result<Stacks, ParseError> {
    match t
    case Num(v) => Ok(Stacks(st.output + [Number(v)], st.operators))
    case Word(w) =>
      if w == "(" then Ok(Stacks(st.output, st.operators + [w]))
      else if w == ")" then
        match PopUntilOpen(st)
        case Err(e) => Err(e)
        case Ok(st') =>
          if |st'.operators| == 0 then Err(ParseError("Mismatched parentheses"))
          else Ok(Stacks(st'.output, st'.operators[..|st'.operators| - 1]))
      else
        match PopWhileAtLeast(st, w)
        case Err(e) => Err(e)
        case Ok(st') => Ok(Stacks(st'.output, st'.operators + [w]))
  }

  /** The tokens in order; the first error ends the parse. */
  function Run(st: Stacks, tokens: seq<Token>): Result<Stacks, ParseError>
    decreases |tokens|
  {
    if |tokens| == 0 then Ok(st)
    else match Step(st, tokens[0])
      case Err(e) => Err(e)
      case Ok(st') => Run(st', tokens[1..])
  }

  /** The end of the parse: drain the operators, then exactly one tree must remain. */
  function Finish(r: Result<Stacks, ParseError>): Result<Node, ParseError> {
    match r
    case Err(e) => Err(e)
    case Ok(st) =>
      match Drain(st)
      case Err(e) => Err(e)
      case Ok(st') =>
        if |st'.output| != 1 then Err(ParseError("Invalid expression")) else Ok(st'.output[0])
  }

  /** What ParseExpression computes for a token sequence. */
  function Parse(tokens: seq<Token>): Result<Node, ParseError> {
    Finish(Run(Stacks([], []), tokens))
  }

  /** ParseExpression: the shunting-yard loop over the tokens with an output
      stack of trees and a stack of pending operators. */
  method ParseExpression(tokens: seq<Token>) returns (r: Result<Node, ParseError>)
    ensures r == Parse(tokens)
  {
    var output: seq<Node> := [];
    var operators: seq<string> := [];
    for idx := 0 to |tokens|
      invariant Finish(Run(Stacks(output, operators), tokens[idx..])) == Parse(tokens)
    {
      var token := tokens[idx];
      ghost var st0 := Stacks(output, operators);
      assert tokens[idx..][1..] == tokens[idx + 1..];
      match token {
        case Num(v) =>
          output := output + [Number(v)];
        case Word(w) =>
          if w == "(" {
            operators := operators + [w];
          } else if w == ")" {
            while |operators| > 0 && operators[|operators| - 1] != "("
              invariant PopUntilOpen(Stacks(output, operators)) == PopUntilOpen(st0)
              decreases |operators|
            {
              var op := operators[|operators| - 1];
              operators := operators[..|operators| - 1];
              var applied := ApplyOperator(output, op);
              if applied.Err? {
                return Err(applied.error);
              }
              output := applied.value;
            }
            if |operators| == 0 {
              return Err(ParseError("Mismatched parentheses"));
            }
            operators := operators[..|operators| - 1];
          } else {
            while |operators| > 0 && Precedence(operators[|operators| - 1]) >= Precedence(w)
              invariant PopWhileAtLeast(Stacks(output, operators), w) == PopWhileAtLeast(st0, w)
              decreases |operators|
            {
              var op := operators[|operators| - 1];
              operators := operators[..|operators| - 1];
              var applied := ApplyOperator(output, op);
              if applied.Err? {
                return Err(applied.error);
              }
              output := applied.value;
            }
            operators := operators + [w];
          }
      }
    }
    ghost var st1 := Stacks(output, operators);
    while |operators| > 0
      invariant Drain(Stacks(output, operators)) == Drain(st1)
      decreases |operators|
    {
      var op := operators[|operators| - 1];
      operators := operators[..|operators| - 1];
      var applied := ApplyOperator(output, op);
      if applied.Err? {
        return Err(applied.error);
      }
      output := applied.value;
    }
    if |output| != 1 {
      return Err(ParseError("Invalid expression"));
    }
    return Ok(output[0]);
  }

  // ---------------------------------------------------------------------------
  // What the parser keeps and rejects

  /** The numbers of a stack of trees, bottom to top. */
  function AllLeaves(s: seq<Node>): seq<real> {
    if |s| == 0 then [] else AllLeaves(s[..|s| - 1]) + Leaves(s[|s| - 1])
  }

  /** The number tokens, in order. */
  function Numbers(tokens: seq<Token>): seq<real> {
    if |tokens| == 0 then []
    else (if tokens[0].Num? then [tokens[0].value] else []) + Numbers(tokens[1..])
  }

  lemma AllLeavesSnoc(s: seq<Node>, x: Node)
    ensures AllLeaves(s + [x]) == AllLeaves(s) + Leaves(x)
  {
    assert (s + [x])[..|s|] == s;
  }

  lemma ConcatAssociative(a: seq<real>, b: seq<real>, c: seq<real>)
    ensures (a + b) + c == a + (b + c)
  {
  }

  lemma InitOfInit<T>(s: seq<T>)
    requires |s| >= 2
    ensures s[..|s| - 1] == s[..|s| - 2] + [s[|s| - 2]]
  {
  }

  /** The leaves of a stack, split off at its top two trees. */
  lemma AllLeavesLastTwo(s: seq<Node>)
    requires |s| >= 2
    ensures AllLeaves(s) == AllLeaves(s[..|s| - 2]) + (Leaves(s[|s| - 2]) + Leaves(s[|s| - 1]))
  {
    var n := |s|;
    var pre := s[..n - 2];
    var a, b, c := AllLeaves(pre), Leaves(s[n - 2]), Leaves(s[n - 1]);
    assert AllLeaves(s[..n - 1]) == a + b by {
      InitOfInit(s);
      AllLeavesSnoc(pre, s[n - 2]);
    }
    assert AllLeaves(s) == AllLeaves(s[..n - 1]) + c;
    ConcatAssociative(a, b, c);
  }

  lemma ApplyKeepsLeaves(output: seq<Node>, op: string)
    requires |output| >= 2
    ensures AllLeaves(ApplyOperator(output, op).value) == AllLeaves(output)
  {
    var n := |output|;
    var top := Operator(op, output[n - 2], output[n - 1]);
    assert ApplyOperator(output, op).value == output[..n - 2] + [top];
    AllLeavesSnoc(output[..n - 2], top);
    AllLeavesLastTwo(output);
  }

  lemma PopApplyKeepsLeaves(st: Stacks)
    requires |st.operators| > 0 && PopApply(st).Ok?
    ensures AllLeaves(PopApply(st).value.output) == AllLeaves(st.output)
  {
    ApplyKeepsLeaves(st.output, st.operators[|st.operators| - 1]);
  }

  lemma {:induction false} PopUntilOpenKeepsLeaves(st: Stacks)
    requires PopUntilOpen(st).Ok?
    ensures AllLeaves(PopUntilOpen(st).value.output) == AllLeaves(st.output)
    decreases |st.operators|
  {
    if |st.operators| > 0 && st.operators[|st.operators| - 1] != "(" {
      PopApplyKeepsLeaves(st);
      PopUntilOpenKeepsLeaves(PopApply(st).value);
    }
  }

  lemma {:induction false} PopWhileAtLeastKeepsLeaves(st: Stacks, token: string)
    requires PopWhileAtLeast(st, token).Ok?
    ensures AllLeaves(PopWhileAtLeast(st, token).value.output) == AllLeaves(st.output)
    decreases |st.operators|
  {
    if |st.operators| > 0 && Precedence(st.operators[|st.operators| - 1]) >= Precedence(token) {
      PopApplyKeepsLeaves(st);
      PopWhileAtLeastKeepsLeaves(PopApply(st).value, token);
    }
  }

  lemma {:induction false} DrainKeepsLeaves(st: Stacks)
    requires Drain(st).Ok?
    ensures AllLeaves(Drain(st).value.output) == AllLeaves(st.output)
    decreases |st.operators|
  {
    if |st.operators| > 0 {
      PopApplyKeepsLeaves(st);
      DrainKeepsLeaves(PopApply(st).value);
    }
  }

  lemma StepLeaves(st: Stacks, t: Token)
    requires Step(st, t).Ok?
    ensures AllLeaves(Step(st, t).value.output) == AllLeaves(st.output) + Numbers([t])
  {
    match t
    case Num(v) =>
      var out := st.output + [Number(v)];
      assert out[..|out| - 1] == st.output;
    case Word(w) =>
      if w == "(" {
      } else if w == ")" {
        PopUntilOpenKeepsLeaves(st);
      } else {
        PopWhileAtLeastKeepsLeaves(st, w);
      }
  }

  lemma {:induction false} RunLeaves(st: Stacks, tokens: seq<Token>)
    requires Run(st, tokens).Ok?
    ensures AllLeaves(Run(st, tokens).value.output) == AllLeaves(st.output) + Numbers(tokens)
    decreases |tokens|
  {
    if |tokens| > 0 {
      StepLeaves(st, tokens[0]);
      var st' := Step(st, tokens[0]).value;
      RunLeaves(st', tokens[1..]);
      assert Numbers(tokens) == Numbers([tokens[0]]) + Numbers(tokens[1..]);
    }
  }

  /** The numbers of the parsed tree, left to right, are the number tokens
      of the input in order. */
  lemma ParseKeepsLeaves(tokens: seq<Token>)
    ensures Parse(tokens).Ok? ==> Leaves(Parse(tokens).value) == Numbers(tokens)
  {
    var empty := Stacks([], []);
    if Parse(tokens).Ok? {
      RunLeaves(empty, tokens);
      var st := Run(empty, tokens).value;
      DrainKeepsLeaves(st);
      var out := Drain(st).value.output;
      assert |out| == 1 && Parse(tokens).value == out[0];
      assert out[..0] == [];
      assert AllLeaves(out) == [] + Leaves(out[0]);
      assert AllLeaves(empty.output) + Numbers(tokens) == Numbers(tokens);
    }
  }

  /** A ")" with no "(" on the operator stack is rejected. */
  lemma CloseWithoutOpen(tokens: seq<Token>)
    requires |tokens| > 0 && tokens[0] == Word(")")
    ensures Parse(tokens) == Err(ParseError("Mismatched parentheses"))
  {
  }

  /** On ")", the operators popped are exactly those above the nearest "(":
      what is left is a prefix of the operator stack that is empty or has "("
      on top. */
  lemma {:induction false} PopUntilOpenStops(st: Stacks)
    ensures PopUntilOpen(st).Ok? ==> var ops := PopUntilOpen(st).value.operators;
      && ops <= st.operators
      && (|ops| == 0 || ops[|ops| - 1] == "(")
      && (forall k :: |ops| <= k < |st.operators| ==> st.operators[k] != "(")
    decreases |st.operators|
  {
    var n := |st.operators|;
    if n > 0 && st.operators[n - 1] != "(" && PopApply(st).Ok? {
      var st' := PopApply(st).value;
      assert st'.operators == st.operators[..n - 1];
      assert PopUntilOpen(st) == PopUntilOpen(st');
      PopUntilOpenStops(st');
      if PopUntilOpen(st').Ok? {
        var ops := PopUntilOpen(st').value.operators;
        assert forall k :: |ops| <= k < n - 1 ==> st'.operators[k] == st.operators[k];
      }
    }
  }

  /** A ")" with no "(" anywhere on the operator stack is rejected: applying
      the stacked operators fails first, or they all go and the parser
      reports mismatched parentheses. */
  lemma CloseWithoutOpenAnywhere(st: Stacks)
    requires "(" !in st.operators
    ensures Step(st, Word(")")).Err?
    ensures PopUntilOpen(st).Ok? ==> Step(st, Word(")")) == Err(ParseError("Mismatched parentheses"))
  {
    PopUntilOpenStops(st);
  }

  /** Before an operator is stacked, the operators popped are exactly the run
      on top whose precedence is at least the incoming one's: what is left is
      a prefix of the stack that is empty or has a lower-precedence top. */
  lemma {:induction false} PopWhileAtLeastStops(st: Stacks, token: string)
    ensures PopWhileAtLeast(st, token).Ok? ==> var ops := PopWhileAtLeast(st, token).value.operators;
      && ops <= st.operators
      && (|ops| == 0 || Precedence(ops[|ops| - 1]) < Precedence(token))
      && (forall k :: |ops| <= k < |st.operators| ==> Precedence(st.operators[k]) >= Precedence(token))
    decreases |st.operators|
  {
    var n := |st.operators|;
    if n > 0 && Precedence(st.operators[n - 1]) >= Precedence(token) && PopApply(st).Ok? {
      var st' := PopApply(st).value;
      assert st'.operators == st.operators[..n - 1];
      assert PopWhileAtLeast(st, token) == PopWhileAtLeast(st', token);
      PopWhileAtLeastStops(st', token);
      if PopWhileAtLeast(st', token).Ok? {
        var ops := PopWhileAtLeast(st', token).value.operators;
        assert forall k :: |ops| <= k < n - 1 ==> st'.operators[k] == st.operators[k];
      }
    }
  }

  /** Numbers alone parse only when there is exactly one. */
  lemma {:induction false} NumbersOnly(st: Stacks, tokens: seq<Token>)
    requires forall i :: 0 <= i < |tokens| ==> tokens[i].Num?
    ensures Run(st, tokens).Ok?
    ensures Run(st, tokens).value.operators == st.operators
    ensures |Run(st, tokens).value.output| == |st.output| + |tokens|
    decreases |tokens|
  {
    if |tokens| > 0 {
      NumbersOnly(Step(st, tokens[0]).value, tokens[1..]);
    }
  }

  lemma NumbersWithoutOperators(tokens: seq<Token>)
    requires forall i :: 0 <= i < |tokens| ==> tokens[i].Num?
    ensures |tokens| == 1 ==> Parse(tokens) == Ok(Number(tokens[0].value))
    ensures |tokens| != 1 ==> Parse(tokens) == Err(ParseError("Invalid expression"))
  {
    NumbersOnly(Stacks([], []), tokens);
  }

  lemma RunStep(st: Stacks, tokens: seq<Token>, st': Stacks)
    requires |tokens| > 0 && Step(st, tokens[0]) == Ok(st')
    ensures Run(st, tokens) == Run(st', tokens[1..])
  {
  }

  lemma DrainStep(st: Stacks, st': Stacks)
    requires |st.operators| > 0 && PopApply(st) == Ok(st')
    ensures Drain(st) == Drain(st')
  {
  }

  /** 1 + 2 * 3 groups as 1 + (2 * 3), and evaluates to 7. */
  lemma PrecedenceExample()
    ensures var tree := Operator("+", Number(1.0), Operator("*", Number(2.0), Number(3.0)));
      && Parse([Num(1.0), Word("+"), Num(2.0), Word("*"), Num(3.0)]) == Ok(tree)
      && Evaluate(tree) == Ok(7.0)
  {
    var n1, n2, n3 := Number(1.0), Number(2.0), Number(3.0);
    var product := Operator("*", n2, n3);
    PrecedenceRun();
    var d1 := Stacks([n1, product], ["+"]);
    assert [n1, n2, n3][..1] + [product] == [n1, product];
    assert ApplyOperator([n1, n2, n3], "*") == Ok([n1, product]);
    assert ["+", "*"][..1] == ["+"];
    DrainStep(Stacks([n1, n2, n3], ["+", "*"]), d1);
    var sum := Operator("+", n1, product);
    var d2 := Stacks([sum], []);
    assert [n1, product][..0] + [sum] == [sum];
    assert ApplyOperator([n1, product], "+") == Ok([sum]);
    DrainStep(d1, d2);
    assert Drain(d2) == Ok(d2);
    assert Evaluate(product) == Ok(6.0);
  }

  /** The tokens of 1 + 2 * 3 leave all three numbers and both operators
      stacked: "*" binds tighter, so "+" stays pending beneath it. */
  lemma PrecedenceRun()
    ensures Run(Stacks([], []), [Num(1.0), Word("+"), Num(2.0), Word("*"), Num(3.0)])
      == Ok(Stacks([Number(1.0), Number(2.0), Number(3.0)], ["+", "*"]))
  {
    var n1, n2, n3 := Number(1.0), Number(2.0), Number(3.0);
    var t0 := [Num(1.0), Word("+"), Num(2.0), Word("*"), Num(3.0)];
    var t3 := t0[3..];
    var s3 := Stacks([n1, n2], ["+"]);
    assert Run(Stacks([], []), t0) == Run(s3, t3) by {
      var s1 := Stacks([n1], []);
      var s2 := Stacks([n1], ["+"]);
      assert t0[1..][1..] == t0[2..] && t0[2..][1..] == t3;
      assert [] + [n1] == [n1] && [] + ["+"] == ["+"] && [n1] + [n2] == [n1, n2];
      RunStep(Stacks([], []), t0, s1);
      RunStep(s1, t0[1..], s2);
      RunStep(s2, t0[2..], s3);
    }
    var s4 := Stacks([n1, n2], ["+", "*"]);
    var s5 := Stacks([n1, n2, n3], ["+", "*"]);
    assert t3[1..][1..] == [];
    assert ["+"] + ["*"] == ["+", "*"] && [n1, n2] + [n3] == [n1, n2, n3];
    assert Precedence("+") < Precedence("*");
    RunStep(s3, t3, s4);
    RunStep(s4, t3[1..], s5);
  }

  /** Operators of one level group to the left: 8 - 2 - 1 is (8 - 2) - 1. */
  lemma LeftAssociativeExample()
    ensures Parse([Num(8.0), Word("-"), Num(2.0), Word("-"), Num(1.0)])
      == Ok(Operator("-", Operator("-", Number(8.0), Number(2.0)), Number(1.0)))
  {
    var first := Operator("-", Number(8.0), Number(2.0));
    var n3 := Number(1.0);
    LeftAssociativeOpening();
    LeftAssociativeClosing();
    assert [first, n3][..0] + [Operator("-", first, n3)] == [Operator("-", first, n3)];
    DrainStep(Stacks([first, n3], ["-"]), Stacks([Operator("-", first, n3)], []));
  }

  /** The first three tokens of 8 - 2 - 1 stack both numbers and the "-". */
  lemma LeftAssociativeOpening()
    ensures var t0 := [Num(8.0), Word("-"), Num(2.0), Word("-"), Num(1.0)];
      Run(Stacks([], []), t0) == Run(Stacks([Number(8.0), Number(2.0)], ["-"]), t0[3..])
  {
    var n1, n2 := Number(8.0), Number(2.0);
    var t0 := [Num(8.0), Word("-"), Num(2.0), Word("-"), Num(1.0)];
    var s1 := Stacks([n1], []);
    var s2 := Stacks([n1], ["-"]);
    assert t0[1..][1..] == t0[2..] && t0[2..][1..] == t0[3..];
    assert [] + [n1] == [n1] && [] + ["-"] == ["-"] && [n1] + [n2] == [n1, n2];
    RunStep(Stacks([], []), t0, s1);
    RunStep(s1, t0[1..], s2);
    RunStep(s2, t0[2..], Stacks([n1, n2], ["-"]));
  }

  /** The second "-" first applies the pending one: 8 - 2 is built before 1
      is read. */
  lemma LeftAssociativeClosing()
    ensures Run(Stacks([Number(8.0), Number(2.0)], ["-"]), [Word("-"), Num(1.0)])
      == Ok(Stacks([Operator("-", Number(8.0), Number(2.0)), Number(1.0)], ["-"]))
  {
    var n1, n2, n3 := Number(8.0), Number(2.0), Number(1.0);
    var first := Operator("-", n1, n2);
    var s3 := Stacks([n1, n2], ["-"]);
    var t3 := [Word("-"), Num(1.0)];
    var s4 := Stacks([first], ["-"]);
    assert t3[1..][1..] == [];
    assert [first] + [n3] == [first, n3];
    assert [n1, n2][..0] + [first] == [first];
    assert PopApply(s3) == Ok(Stacks([first], []));
    assert PopWhileAtLeast(s3, "-") == PopWhileAtLeast(Stacks([first], []), "-");
    assert PopWhileAtLeast(Stacks([first], []), "-") == Ok(Stacks([first], []));
    assert [] + ["-"] == ["-"];
    assert t3[0] == Word("-") && "-" != "(" && "-" != ")";
    assert Step(s3, t3[0]) == Ok(s4);
    RunStep(s3, t3, s4);
    RunStep(s4, t3[1..], Stacks([first, n3], ["-"]));
  }

  /** An unmatched "(" is not rejected: it is drained and applied like an
      operator, and fails like one when an operand is missing. */
  lemma UnmatchedOpenExample()
    ensures Parse([Word("("), Num(1.0), Num(2.0)]) == Ok(Operator("(", Number(1.0), Number(2.0)))
    ensures Parse([Word("("), Num(1.0)]) == Err(ParseError("Not enough operands for operator ("))
  {
    UnmatchedOpenApplied();
    UnmatchedOpenShort();
  }

  lemma UnmatchedOpenApplied()
    ensures Parse([Word("("), Num(1.0), Num(2.0)]) == Ok(Operator("(", Number(1.0), Number(2.0)))
  {
    var n1, n2 := Number(1.0), Number(2.0);
    var t0 := [Word("("), Num(1.0), Num(2.0)];
    assert t0[1..][1..] == t0[2..] && t0[2..][1..] == [];
    assert [] + ["("] == ["("] && [] + [n1] == [n1] && [n1] + [n2] == [n1, n2];
    RunStep(Stacks([], []), t0, Stacks([], ["("]));
    RunStep(Stacks([], ["("]), t0[1..], Stacks([n1], ["("]));
    RunStep(Stacks([n1], ["("]), t0[2..], Stacks([n1, n2], ["("]));
    assert [n1, n2][..0] + [Operator("(", n1, n2)] == [Operator("(", n1, n2)];
    DrainStep(Stacks([n1, n2], ["("]), Stacks([Operator("(", n1, n2)], []));
  }

  lemma UnmatchedOpenShort()
    ensures Parse([Word("("), Num(1.0)]) == Err(ParseError("Not enough operands for operator ("))
  {
    var n1 := Number(1.0);
    var u0 := [Word("("), Num(1.0)];
    assert u0[1..][1..] == [];
    assert [] + ["("] == ["("] && [] + [n1] == [n1];
    RunStep(Stacks([], []), u0, Stacks([], ["("]));
    RunStep(Stacks([], ["("]), u0[1..], Stacks([n1], ["("]));
    assert "Not enough operands for operator " + "(" == "Not enough operands for operator (";
    assert PopApply(Stacks([n1], ["("])) == Err(ParseError("Not enough operands for operator ("));
  }

  /** A division by zero fails however the operands are built. */
  lemma DivisionByZeroFails(l: Node, r: Node)
    requires Evaluate(l).Ok? && Evaluate(r) == Ok(0.0)
    ensures Evaluate(Operator("/", l, r)) == Err(DivisionByZero)
  {
  }

  /** An unknown operator fails once both operands evaluate. */
  lemma UnknownOperatorFails(op: string, l: Node, r: Node)
    requires !IsArithmetic(op) && Evaluate(l).Ok? && Evaluate(r).Ok?
    ensures Evaluate(Operator(op, l, r)) == Err(UnknownOperator)
  {
  }
}
