// Evaluate Reverse Polish Notation: numbers are pushed on a stack, an
// operator pops its right operand, then its left one, and pushes the result.
// Division truncates toward zero. Variants: stack loops, a right-to-left
// recursion, and a loop that reuses the token array as its stack.

module Rpn {
  import opened Common

  datatype Operator = Add | Sub | Mul | Div

  /** A token already classified: an integer literal or one of + - * /. */
  datatype Token = Num(value: int) | Op(op: Operator)

  function Abs(x: int): nat {
    if x < 0 then -x else x
  }

  /** Division truncating toward zero, as int(a / b) does for these operands. */
  function TruncDiv(a: int, b: int): int
    requires b != 0
  {
    var q := Abs(a) / Abs(b);
    if (a < 0) == (b < 0) then q else -q
  }

  /** The quotient leaves a remainder smaller than the divisor that is zero or
      has the sign of the dividend: truncation, not flooring. */
  lemma TruncDivRemainder(a: int, b: int)
    requires b != 0
    ensures Abs(a - TruncDiv(a, b) * b) < Abs(b)
    ensures a - TruncDiv(a, b) * b == 0 || (a - TruncDiv(a, b) * b < 0 <==> a < 0)
  {
    var q, m := Abs(a) / Abs(b), Abs(a) % Abs(b);
    var p := q * Abs(b);
    assert Abs(a) == p + m && 0 <= m < Abs(b);
    var d := TruncDiv(a, b);
    if b < 0 {
      NegRight(d, Abs(b));
    }
    if (a < 0) != (b < 0) {
      NegLeft(q, Abs(b));
    }
    assert d * b == (if a < 0 then -p else p);
  }

  lemma NegRight(x: int, y: int)
    ensures x * -y == -(x * y)
  {
  }

  lemma NegLeft(x: int, y: int)
    ensures (-x) * y == -(x * y)
  {
  }

  /** -7 / 2 is -3 here, where floor division gives -4; 6 / -132 is 0. */
  lemma TruncDivSamples()
    ensures TruncDiv(-7, 2) == -3 && TruncDiv(7, -2) == -3 && TruncDiv(6, -132) == 0
  {
  }

  /** One operator applied to a left and a right operand; None for a division
      by zero. */
  function Apply(op: Operator, a: int, b: int): (r: Option<int>)
    ensures r.None? <==> op == Div && b == 0
  {
    match op
    case Add => Some(a + b)
    case Sub => Some(a - b)
    case Mul => Some(a * b)
    case Div => if b == 0 then None else Some(TruncDiv(a, b))
  }

  /** One token on a stack (last element on top); None when an operator finds
      fewer than two operands or divides by zero. */
  function Step(stack: seq<int>, t: Token): Option<seq<int>> {
    match t
    case Num(n) => Some(stack + [n])
    case Op(op) =>
      if |stack| < 2 then None
      else
        var a, b := stack[|stack| - 2], stack[|stack| - 1];
        match Apply(op, a, b)
        case None => None
        case Some(c) => Some(stack[..|stack| - 2] + [c])
  }

  /** The tokens processed in order from a starting stack. */
  function Run(stack: seq<int>, ts: seq<Token>): Option<seq<int>>
    decreases |ts|
  {
    if ts == [] then Some(stack)
    else
      match Step(stack, ts[0])
      case None => None
      case Some(s) => Run(s, ts[1..])
  }

  /** The stack evaluators' answer: the bottom element of the final stack. */
  function Eval(ts: seq<Token>): Option<int> {
    match Run([], ts)
    case None => None
    case Some(s) => if |s| == 0 then None else Some(s[0])
  }

  /** Running a + b is running a, then b on the stack a leaves. */
  lemma {:induction false} RunAppend(stack: seq<int>, a: seq<Token>, b: seq<Token>)
    ensures Run(stack, a + b) ==
      match Run(stack, a)
      case None => None
      case Some(s) => Run(s, b)
    decreases |a|
  {
    if a == [] {
      assert a + b == b;
    } else {
      assert (a + b)[0] == a[0] && (a + b)[1..] == a[1..] + b;
      match Step(stack, a[0])
      case None =>
      case Some(s) => RunAppend(s, a[1..], b);
    }
  }

  /** One more token: the stack reached so far, stepped once. */
  lemma RunSnoc(ts: seq<Token>, t: Token)
    ensures Run([], ts + [t]) ==
      match Run([], ts)
      case None => None
      case Some(s) => Step(s, t)
  {
    RunAppend([], ts, [t]);
    match Run([], ts)
    case None =>
    case Some(s) =>
      assert [t][1..] == [];
  }

  /** Once a token has been pushed the stack never empties. */
  lemma {:induction false} RunKeepsOne(stack: seq<int>, ts: seq<Token>)
    requires |stack| >= 1 || |ts| >= 1
    ensures Run(stack, ts).Some? ==> |Run(stack, ts).value| >= 1
    decreases |ts|
  {
    if ts != [] {
      match Step(stack, ts[0])
      case None =>
      case Some(s) => RunKeepsOne(s, ts[1..]);
    }
  }

  /** An arithmetic expression tree, the meaning of a well-formed token list. */
  datatype Expr = Lit(n: int) | Bin(op: Operator, left: Expr, right: Expr)

  /** Its value; None when some division by zero occurs. */
  function Value(e: Expr): Option<int> {
    match e
    case Lit(n) => Some(n)
    case Bin(op, l, r) =>
      match Value(l)
      case None => None
      case Some(a) =>
        match Value(r)
        case None => None
        case Some(b) => Apply(op, a, b)
  }

  /** Its postfix token list: left operand, right operand, operator. */
  function Postfix(e: Expr): (ts: seq<Token>)
    ensures |ts| >= 1
  {
    match e
    case Lit(n) => [Num(n)]
    case Bin(op, l, r) => Postfix(l) + Postfix(r) + [Op(op)]
  }

  /** A postfix expression pushes exactly its value on whatever stack it finds
      and touches nothing below it. */
  lemma {:induction false} RunPostfix(stack: seq<int>, e: Expr)
    ensures Run(stack, Postfix(e)) ==
      match Value(e)
      case None => None
      case Some(v) => Some(stack + [v])
    decreases e
  {
    match e
    case Lit(n) =>
      assert Postfix(e)[1..] == [];
    case Bin(op, l, r) =>
      var pl, pr := Postfix(l), Postfix(r);
      assert Postfix(e) == pl + (pr + [Op(op)]);
      RunAppend(stack, pl, pr + [Op(op)]);
      RunPostfix(stack, l);
      match Value(l)
      case None =>
      case Some(a) =>
        RunAppend(stack + [a], pr, [Op(op)]);
        RunPostfix(stack + [a], r);
        match Value(r)
        case None =>
        case Some(b) =>
          var s := stack + [a] + [b];
          assert s[|s| - 2] == a && s[|s| - 1] == b && s[..|s| - 2] == stack;
          assert [Op(op)][1..] == [];
  }

  /** A well-formed expression leaves exactly one element, its value. */
  lemma EvalPostfix(e: Expr)
    ensures Run([], Postfix(e)) == (if Value(e).None? then None else Some([Value(e).value]))
    ensures Eval(Postfix(e)) == Value(e)
  {
    RunPostfix([], e);
    if Value(e).Some? {
      var v := Value(e).value;
      assert [] + [v] == [v];
    }
  }

  /** evalRPN: each operator pops the right operand, then the left one. */
  method Evaluate(tokens: seq<Token>) returns (r: Option<int>)
    ensures r == Eval(tokens)
  {
    var stack: seq<int> := [];
    for i := 0 to |tokens|
      invariant Run([], tokens[..i]) == Some(stack)
    {
      assert tokens[..i + 1] == tokens[..i] + [tokens[i]];
      RunSnoc(tokens[..i], tokens[i]);
      match tokens[i]
      case Num(n) =>
        stack := stack + [n];
      case Op(op) =>
        ghost var before := stack;
        if |stack| < 2 {
          RunAppend([], tokens[..i + 1], tokens[i + 1..]);
          assert tokens[..i + 1] + tokens[i + 1..] == tokens;
          return None;
        }
        var y := stack[|stack| - 1];
        stack := stack[..|stack| - 1];
        var x := stack[|stack| - 1];
        stack := stack[..|stack| - 1];
        if op == Div && y == 0 {
          RunAppend([], tokens[..i + 1], tokens[i + 1..]);
          assert tokens[..i + 1] + tokens[i + 1..] == tokens;
          return None;
        }
        var z := match op
          case Add => x + y
          case Sub => x - y
          case Mul => x * y
          case Div => TruncDiv(x, y);
        assert before[|before| - 2] == x && before[|before| - 1] == y;
        assert stack == before[..|before| - 2];
        assert Apply(op, x, y) == Some(z);
        stack := stack + [z];
    }
    assert tokens[..|tokens|] == tokens;
    if |stack| == 0 {
      return None;
    }
    return Some(stack[0]);
  }

  /** evalRPN_v2, _v3 and _v7: pop both operands, then apply the operator
      looked up in a table. */
  method EvaluateByTable(tokens: seq<Token>) returns (r: Option<int>)
    ensures r == Eval(tokens)
  {
    var stack: seq<int> := [];
    var i := 0;
    while i < |tokens|
      invariant 0 <= i <= |tokens|
      invariant Run([], tokens[..i]) == Some(stack)
    {
      assert tokens[..i + 1] == tokens[..i] + [tokens[i]];
      RunSnoc(tokens[..i], tokens[i]);
      if tokens[i].Op? {
        if |stack| < 2 {
          break;
        }
        var b, a := stack[|stack| - 1], stack[|stack| - 2];
        var c := Apply(tokens[i].op, a, b);
        if c.None? {
          break;
        }
        stack := stack[..|stack| - 2] + [c.value];
      } else {
        stack := stack + [tokens[i].value];
      }
      i := i + 1;
    }
    if i < |tokens| {
      RunAppend([], tokens[..i + 1], tokens[i + 1..]);
      assert tokens[..i + 1] + tokens[i + 1..] == tokens;
      return None;
    }
    assert tokens[..i] == tokens;
    if |stack| == 0 {
      return None;
    }
    return Some(stack[0]);
  }

  /** evalRPN_v4: a recursion reading the tokens from the back through a shared
      index. Index i reads tokens[i], a negative index counting from the end as
      Python does; below -|ts| the read raises. The result is the value and the
      index after the tokens consumed. */
  function Back(ts: seq<Token>, i: int): (r: Option<(int, int)>)
    requires -|ts| - 1 <= i < |ts|
    ensures r.Some? ==> -|ts| - 1 <= r.value.1 < i
    decreases i + |ts| + 1
  {
    if i < -|ts| then None
    else
      var t := ts[if i < 0 then i + |ts| else i];
      match t
      case Num(n) => Some((n, i - 1))
      case Op(op) =>
        match Back(ts, i - 1)
        case None => None
        case Some((b, j)) =>
          match Back(ts, j)
          case None => None
          case Some((a, k)) =>
            match Apply(op, a, b)
            case None => None
            case Some(c) => Some((c, k))
  }

  /** The recursive evaluator's answer for the whole token list. */
  function EvalBack(ts: seq<Token>): Option<int> {
    match Back(ts, |ts| - 1)
    case None => None
    case Some((v, _)) => Some(v)
  }

  /** From the last token of a postfix expression the recursion computes its
      value and stops just before its first token. */
  /** The three parts of a slice holding left + right + [last]. */
  lemma SliceParts(ts: seq<Token>, lo: int, hi: int, left: seq<Token>, right: seq<Token>, last: Token)
    requires 0 <= lo < hi <= |ts| && ts[lo..hi] == left + right + [last]
    ensures ts[hi - 1] == last
    ensures ts[lo..lo + |left|] == left && ts[lo + |left|..hi - 1] == right
  {
    var w := ts[lo..hi];
    assert w[..|left|] == left && w[|left|..|w| - 1] == right && w[|w| - 1] == last;
    assert ts[lo..lo + |left|] == w[..|left|];
    var u := ts[lo + |left|..hi - 1];
    assert |u| == |right|;
    forall k | 0 <= k < |u|
      ensures u[k] == right[k]
    {
      assert u[k] == ts[lo + |left| + k] == w[|left| + k];
    }
  }

  /** A value paired with the index the recursion stops at. */
  function Shifted(v: Option<int>, k: int): Option<(int, int)> {
    match v
    case None => None
    case Some(x) => Some((x, k))
  }

  /** The recursion at a number. */
  lemma BackAtNum(ts: seq<Token>, i: int, n: int)
    requires 0 <= i < |ts| && ts[i] == Num(n)
    ensures Back(ts, i) == Some((n, i - 1))
  {
  }

  /** The recursion at an operator, given what it computes for the right
      operand ending at i - 1 and the left operand ending at j. */
  lemma BackAtOp(ts: seq<Token>, i: int, j: int, k: int, op: Operator, l: Expr, r: Expr)
    requires 0 <= i < |ts| && ts[i] == Op(op) && -1 <= k < j < i
    requires Back(ts, i - 1) == Shifted(Value(r), j)
    requires Value(r).Some? ==> Back(ts, j) == Shifted(Value(l), k)
    ensures Back(ts, i) == Shifted(Value(Bin(op, l, r)), k)
  {
  }

  /** From the last token of a postfix expression the recursion computes its
      value and stops just before its first token. */
  lemma {:induction false} BackPostfix(ts: seq<Token>, lo: int, hi: int, e: Expr)
    requires 0 <= lo < hi <= |ts| && ts[lo..hi] == Postfix(e)
    ensures Back(ts, hi - 1) == Shifted(Value(e), lo - 1)
    decreases e
  {
    match e
    case Lit(n) =>
      assert ts[hi - 1] == ts[lo..hi][0];
      BackAtNum(ts, hi - 1, n);
    case Bin(op, l, r) =>
      var mid := lo + |Postfix(l)|;
      SliceParts(ts, lo, hi, Postfix(l), Postfix(r), Op(op));
      BackPostfix(ts, mid, hi - 1, r);
      BackPostfix(ts, lo, mid, l);
      BackAtOp(ts, hi - 1, mid - 1, lo - 1, op, l, r);
  }

  /** On every well-formed expression the recursion and the stack loops agree:
      both give the expression's value. */
  lemma BackAgrees(e: Expr)
    ensures EvalBack(Postfix(e)) == Value(e) == Eval(Postfix(e))
  {
    var ts := Postfix(e);
    assert ts[0..|ts|] == ts;
    BackPostfix(ts, 0, |ts|, e);
    EvalPostfix(e);
  }

  /** evalRPN_v6: the token array itself holds the stack, whose top is at
      index top, always below the token being read. Callers pass a token list
      on which no operator is short of operands and no division is by zero. */
  method InPlace(tokens: array<Token>) returns (r: Option<int>)
    requires Run([], tokens[..]).Some?
    modifies tokens
    ensures r == Eval(old(tokens[..]))
    ensures var s := Run([], old(tokens[..])).value;
      |s| <= tokens.Length && forall k :: 0 <= k < |s| ==> tokens[k] == Num(s[k])
  {
    ghost var ts := tokens[..];
    var top := -1;
    for i := 0 to tokens.Length
      invariant Run([], ts[..i]).Some?
      invariant |Run([], ts[..i]).value| == top + 1 && top < i
      invariant forall k :: 0 <= k <= top ==> tokens[k] == Num(Run([], ts[..i]).value[k])
      invariant tokens[i..] == ts[i..]
    {
      ghost var s := Run([], ts[..i]).value;
      assert ts[..i + 1] == ts[..i] + [ts[i]];
      RunSnoc(ts[..i], ts[i]);
      RunAppend([], ts[..i + 1], ts[i + 1..]);
      assert ts[..i + 1] + ts[i + 1..] == ts;
      assert tokens[i] == ts[i];
      match tokens[i]
      case Op(op) =>
        var b := tokens[top].value;
        top := top - 1;
        var a := tokens[top].value;
        var c := Apply(op, a, b);
        tokens[top] := Num(c.value);
      case Num(n) =>
        top := top + 1;
        tokens[top] := Num(n);
    }
    assert ts[..tokens.Length] == ts;
    if tokens.Length == 0 {
      return None;
    }
    RunKeepsOne([], ts);
    r := Some(tokens[0].value);
  }

  /** ["2", "1", "+", "3", "*"] is ((2 + 1) * 3) and evaluates to 9. */
  lemma SampleOne()
    ensures Eval([Num(2), Num(1), Op(Add), Num(3), Op(Mul)]) == Some(9)
  {
    var f := Bin(Mul, Bin(Add, Lit(2), Lit(1)), Lit(3));
    assert Postfix(f) == [Num(2), Num(1), Op(Add), Num(3), Op(Mul)];
    EvalPostfix(f);
  }

  /** ["4", "13", "5", "/", "+"] is (4 + (13 / 5)) and evaluates to 6. */
  lemma SampleTwo()
    ensures Eval([Num(4), Num(13), Num(5), Op(Div), Op(Add)]) == Some(6)
  {
    var e := Bin(Add, Lit(4), Bin(Div, Lit(13), Lit(5)));
    assert Postfix(e) == [Num(4), Num(13), Num(5), Op(Div), Op(Add)];
    EvalPostfix(e);
  }

  /** The right-to-left recursion gives 6 on the same tokens. */
  lemma SampleTwoBack()
    ensures EvalBack([Num(4), Num(13), Num(5), Op(Div), Op(Add)]) == Some(6)
  {
    var e := Bin(Add, Lit(4), Bin(Div, Lit(13), Lit(5)));
    assert Postfix(e) == [Num(4), Num(13), Num(5), Op(Div), Op(Add)];
    BackAgrees(e);
  }

  /** An operator with too few operands makes every evaluator fail. */
  lemma Underflow()
    ensures Eval([Num(1), Op(Add)]) == None && EvalBack([Num(1), Op(Add)]) == None
  {
  }
}
