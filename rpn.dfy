/**
 * The reverse Polish notation calculator (class RPN): single-digit operands,
 * the operators + - * /, and a member stack. Values are unbounded integers;
 * the source's int overflow is not modelled.
 */
module ReversePolish {
  import opened Wrappers
  import opened CNumbers

  /** The runtime_error messages evaluate and applyOperator throw. */
  datatype RpnError =
    | InsufficientValues
    | DivisionByZero
    | InvalidToken(token: string)
    | InvalidExpression

  /** The stack (bottom first, top last) and whether the run has thrown. */
  datatype Machine = Machine(stack: seq<int>, status: Outcome<RpnError>)

  /** isNumber: stoi reads the token, without throwing, as a value in 0..9. */
  predicate IsNumber(token: string) {
    var n := Stoi(token);
    n.Some? && 0 <= n.value <= 9
  }

  /** isOperator: exactly the four one-character tokens + - * /. */
  predicate IsOperator(token: string) {
    token == "+" || token == "-" || token == "*" || token == "/"
  }

  /** The value of a single digit token. */
  lemma IsNumberOfDigit(d: nat)
    requires d < 10
    ensures IsNumber([DigitChar(d)])
    ensures Stoi([DigitChar(d)]) == Some(d)
  {
    var s := [DigitChar(d)];
    assert s[..0] == [];
    StoiOfDigits(s, []);
    assert s + [] == s;
  }

  /** isNumber is checked first, yet no operator token reads as a number: a sign without digits makes stoi throw. */
  lemma OperatorIsNotNumber(token: string)
    requires IsOperator(token)
    ensures !IsNumber(token)
  {
    assert LeadingSpaces(token) == 0;
    assert token[0] == '+' || token[0] == '-' ==> DigitPrefixLength(token[1..]) == 0;
  }

  /**
   * C++ integer division of a by b: the quotient truncated toward zero. The
   * remainder it leaves is smaller than the divisor and has the sign of the dividend.
   */
  function TruncDiv(a: int, b: int): (q: int)
    requires b != 0
    ensures Abs(a - q * b) < Abs(b)
    ensures a >= 0 ==> a - q * b >= 0
    ensures a <= 0 ==> a - q * b <= 0
  {
    var m: int := Abs(a) / Abs(b);
    var q: int := if (a < 0) == (b < 0) then m else -m;
    TruncDivRemainder(a, b, m, q);
    q
  }

  function Abs(x: int): (y: nat)
    ensures y == x || y == -x
  {
    if x < 0 then -x else x
  }

  lemma MulSigns(x: int, y: int)
    ensures (-x) * y == -(x * y) && x * (-y) == -(x * y) && (-x) * (-y) == x * y
  {
  }

  /** The product of the truncated quotient and the divisor is the dividend less a remainder of the dividend's sign. */
  lemma TruncDivRemainder(a: int, b: int, m: int, q: int)
    requires b != 0 && m == Abs(a) / Abs(b)
    requires q == if (a < 0) == (b < 0) then m else -m
    ensures Abs(a - q * b) < Abs(b)
    ensures a >= 0 ==> a - q * b >= 0
    ensures a <= 0 ==> a - q * b <= 0
  {
    var A: int := Abs(a);
    var B: int := Abs(b);
    var r := A % B;
    var mB := m * B;
    assert A == mB + r && 0 <= r < B;
    MulSigns(m, B);
    var p := q * b;
    if a >= 0 {
      assert p == mB by {
        if b < 0 {
          assert b == -B && q == -m;
        }
      }
      assert a - p == r;
    } else {
      assert p == -mB by {
        if b > 0 {
          assert q == -m;
        } else {
          assert b == -B && q == m;
        }
      }
      assert a - p == -r;
    }
  }

  /**
   * applyOperator on a stack: with fewer than two values it throws and leaves the
   * stack as it was; otherwise it pops b (the top) and a, then pushes a op b.
   * Division by zero throws after both pops. A token that is not one of the four
   * operators pops both and pushes nothing (evaluate never passes one).
   */
  function Apply(stack: seq<int>, op: string): (m: Machine)
    ensures |stack| < 2 <==> m.status == Fail(InsufficientValues)
    ensures |stack| < 2 ==> m.stack == stack
    ensures m.status == Fail(DivisionByZero) <==> |stack| >= 2 && op == "/" && stack[|stack| - 1] == 0
    ensures m.status.Pass? || m.status == Fail(InsufficientValues) || m.status == Fail(DivisionByZero)
    ensures |stack| >= 2 ==> |m.stack| >= |stack| - 2 && m.stack[..|stack| - 2] == stack[..|stack| - 2]
    ensures |stack| >= 2 && IsOperator(op) && m.status.Pass? ==> |m.stack| == |stack| - 1
  {
    if |stack| < 2 then Machine(stack, Fail(InsufficientValues))
    else
      var b := stack[|stack| - 1];
      var a := stack[|stack| - 2];
      var below := stack[..|stack| - 2];
      if op == "+" then Machine(below + [a + b], Pass)
      else if op == "-" then Machine(below + [a - b], Pass)
      else if op == "*" then Machine(below + [a * b], Pass)
      else if op == "/" then
        if b == 0 then Machine(below, Fail(DivisionByZero)) else Machine(below + [TruncDiv(a, b)], Pass)
      else Machine(below, Pass)
  }

  /**
   * The token loop of evaluate from a given stack: numbers are pushed, operators
   * applied, and the first thrown error ends the run.
   */
  function Run(tokens: seq<string>, stack: seq<int>): Machine
    decreases |tokens|
  {
    if tokens == [] then Machine(stack, Pass)
    else
      var t := tokens[0];
      if IsNumber(t) then Run(tokens[1..], stack + [Stoi(t).value])
      else if IsOperator(t) then
        var m := Apply(stack, t);
        if m.status.Fail? then m else Run(tokens[1..], m.stack)
      else Machine(stack, Fail(InvalidToken(t)))
  }

  /** A token as `ss >> token` extracts it: non-empty and free of white space. */
  predicate Word(w: string) {
    |w| > 0 && forall k :: 0 <= k < |w| ==> !IsSpace(w[k])
  }

  /** The number of leading characters that are not white space. */
  function WordLength(s: string): (n: nat)
    ensures n <= |s|
    ensures forall k :: 0 <= k < n ==> !IsSpace(s[k])
    ensures n < |s| ==> IsSpace(s[n])
  {
    if s == [] || IsSpace(s[0]) then 0 else 1 + WordLength(s[1..])
  }

  /** The tokens `while (ss >> token)` extracts from an istringstream: the maximal runs of non-space characters. */
  function Tokens(s: string): (ts: seq<string>)
    ensures forall k :: 0 <= k < |ts| ==> Word(ts[k])
    decreases |s|
  {
    var t := s[LeadingSpaces(s)..];
    if t == [] then []
    else
      assert !IsSpace(t[0]);
      var n := WordLength(t);
      [t[..n]] + Tokens(t[n..])
  }

  /**
   * evaluate: the tokens run from an empty stack; an error thrown during the run
   * propagates, and otherwise the run must leave exactly one value, which is the
   * result.
   */
  function Evaluation(expression: string): Result<int, RpnError> {
    var m := Run(Tokens(expression), []);
    if m.status.Fail? then Failure(m.status.error)
    else if |m.stack| != 1 then Failure(InvalidExpression)
    else Success(m.stack[0])
  }

  /** Words separated by single spaces. */
  function Join(ws: seq<string>): string {
    if ws == [] then []
    else if |ws| == 1 then ws[0]
    else ws[0] + " " + Join(ws[1..])
  }

  lemma WordLengthOfWord(w: string, rest: string)
    requires Word(w) && (rest == [] || IsSpace(rest[0]))
    ensures WordLength(w + rest) == |w|
    decreases |w|
  {
    if |w| > 1 {
      assert (w + rest)[1..] == w[1..] + rest;
      WordLengthOfWord(w[1..], rest);
    } else {
      assert (w + rest)[1..] == rest;
    }
  }

  /** A word followed by nothing or by white space is the first token. */
  lemma TokensOfWordThen(w: string, rest: string)
    requires Word(w) && (rest == [] || IsSpace(rest[0]))
    ensures Tokens(w + rest) == [w] + Tokens(rest)
  {
    var s := w + rest;
    assert LeadingSpaces(s) == 0 by {
      assert s[0] == w[0];
    }
    assert s[0..] == s;
    WordLengthOfWord(w, rest);
    assert s[..|w|] == w && s[|w|..] == rest;
  }

  /** A leading space does not change the tokens. */
  lemma TokensSkipSpace(x: string)
    ensures Tokens(" " + x) == Tokens(x)
  {
    assert (" " + x)[1..] == x;
    assert (" " + x)[LeadingSpaces(" " + x)..] == x[LeadingSpaces(x)..];
  }

  /** Splitting undoes joining: the tokens of words joined by spaces are those words. */
  lemma {:induction false} TokensOfJoin(ws: seq<string>)
    requires forall k :: 0 <= k < |ws| ==> Word(ws[k])
    ensures Tokens(Join(ws)) == ws
    decreases |ws|
  {
    if |ws| == 1 {
      TokensOfWordThen(ws[0], []);
      assert ws[0] + [] == ws[0];
    } else if |ws| > 1 {
      var j := Join(ws[1..]);
      var spaced := " " + j;
      calc {
        Tokens(Join(ws));
        { assert Join(ws) == ws[0] + spaced; }
        Tokens(ws[0] + spaced);
        { TokensOfWordThen(ws[0], spaced); }
        [ws[0]] + Tokens(spaced);
        { TokensSkipSpace(j); }
        [ws[0]] + Tokens(j);
        { TokensOfJoin(ws[1..]); }
        [ws[0]] + ws[1..];
      }
    }
  }

  /** Running the tokens from index k on is running token k, then the tokens after it. */
  lemma RunFirst(tokens: seq<string>, k: nat, stack: seq<int>)
    requires k < |tokens|
    ensures var t := tokens[k];
      Run(tokens[k..], stack) ==
        if IsNumber(t) then Run(tokens[k + 1..], stack + [Stoi(t).value])
        else if IsOperator(t) then
          var m := Apply(stack, t);
          if m.status.Fail? then m else Run(tokens[k + 1..], m.stack)
        else Machine(stack, Fail(InvalidToken(t)))
  {
    assert tokens[k..][1..] == tokens[k + 1..];
  }

  class RPN {
    var st: seq<int>

    constructor ()
      ensures st == []
    {
      st := [];
    }

    /** applyOperator: the member stack changes as Apply says, and the thrown error, if any, is returned. */
    method ApplyOperator(op: string) returns (status: Outcome<RpnError>)
      modifies this`st
      ensures Machine(st, status) == Apply(old(st), op)
    {
      if |st| < 2 {
        return Fail(InsufficientValues);
      }
      var b := st[|st| - 1];
      st := st[..|st| - 1];
      var a := st[|st| - 1];
      st := st[..|st| - 1];
      if op == "+" {
        st := st + [a + b];
      } else if op == "-" {
        st := st + [a - b];
      } else if op == "*" {
        st := st + [a * b];
      } else if op == "/" {
        if b == 0 {
          return Fail(DivisionByZero);
        }
        st := st + [TruncDiv(a, b)];
      }
      return Pass;
    }

    /**
     * evaluate: the stack is emptied first, so the result depends on the expression
     * alone; then each extracted token is pushed or applied, and the single value
     * left is returned.
     */
    method Evaluate(expression: string) returns (result: Result<int, RpnError>)
      modifies this`st
      ensures result == Evaluation(expression)
      ensures st == Run(Tokens(expression), []).stack
    {
      while st != []
        decreases |st|
      {
        st := st[..|st| - 1];
      }
      var tokens := Tokens(expression);
      ghost var final := Run(tokens, []);
      var k := 0;
      while k < |tokens|
        invariant k <= |tokens|
        invariant Run(tokens[k..], st) == final
      {
        var token := tokens[k];
        RunFirst(tokens, k, st);
        if IsNumber(token) {
          st := st + [Stoi(token).value];
        } else if IsOperator(token) {
          var status := ApplyOperator(token);
          if status.Fail? {
            return Failure(status.error);
          }
        } else {
          return Failure(InvalidToken(token));
        }
        k := k + 1;
      }
      if |st| != 1 {
        return Failure(InvalidExpression);
      }
      return Success(st[|st| - 1]);
    }
  }

  /** An arithmetic expression over single digits, as a tree. */
  datatype Expr = Digit(d: nat) | Binary(op: char, left: Expr, right: Expr)

  predicate WellFormed(e: Expr) {
    match e
    case Digit(d) => d < 10
    case Binary(op, l, r) => (op == '+' || op == '-' || op == '*' || op == '/') && WellFormed(l) && WellFormed(r)
  }

  /** The postfix token sequence of an expression. */
  function Postfix(e: Expr): seq<string>
    requires WellFormed(e)
  {
    match e
    case Digit(d) => [[DigitChar(d)]]
    case Binary(op, l, r) => Postfix(l) + Postfix(r) + [[op]]
  }

  /** a op b with C++ arithmetic, or None for a division by zero. */
  function Combine(op: char, a: int, b: int): Option<int> {
    if op == '+' then Some(a + b)
    else if op == '-' then Some(a - b)
    else if op == '*' then Some(a * b)
    else if b == 0 then None
    else Some(TruncDiv(a, b))
  }

  /** The value of an expression with C++ arithmetic, or None when some division has a zero divisor. */
  function Value(e: Expr): Option<int>
    requires WellFormed(e)
  {
    match e
    case Digit(d) => Some(d)
    case Binary(op, l, r) =>
      var a := Value(l);
      var b := Value(r);
      if a.None? || b.None? then None else Combine(op, a.value, b.value)
  }

  lemma PostfixWords(e: Expr)
    requires WellFormed(e)
    ensures forall k :: 0 <= k < |Postfix(e)| ==> Word(Postfix(e)[k])
  {
  }

  /** A digit token pushes its value. */
  lemma RunDigit(d: nat, rest: seq<string>, stack: seq<int>)
    requires d < 10
    ensures Run([[DigitChar(d)]] + rest, stack) == Run(rest, stack + [d])
  {
    IsNumberOfDigit(d);
    assert ([[DigitChar(d)]] + rest)[1..] == rest;
  }

  /** An operator token applied to two pushed values pushes their combination, or throws division by zero. */
  lemma RunOperator(op: char, rest: seq<string>, stack: seq<int>, a: int, b: int)
    requires op == '+' || op == '-' || op == '*' || op == '/'
    ensures Combine(op, a, b).Some? ==>
      Run([[op]] + rest, stack + [a] + [b]) == Run(rest, stack + [Combine(op, a, b).value])
    ensures Combine(op, a, b).None? ==> Run([[op]] + rest, stack + [a] + [b]).status == Fail(DivisionByZero)
  {
    var s := stack + [a] + [b];
    OperatorIsNotNumber([op]);
    assert ([[op]] + rest)[0] == [op] && ([[op]] + rest)[1..] == rest;
    assert s[..|s| - 2] == stack && s[|s| - 1] == b && s[|s| - 2] == a;
  }

  /**
   * Running the postfix form of an expression pushes its value, or throws the
   * division-by-zero error when a division in it has a zero divisor.
   */
  lemma {:induction false} RunPostfix(e: Expr, rest: seq<string>, stack: seq<int>)
    requires WellFormed(e)
    ensures Value(e).Some? ==> Run(Postfix(e) + rest, stack) == Run(rest, stack + [Value(e).value])
    ensures Value(e).None? ==> Run(Postfix(e) + rest, stack).status == Fail(DivisionByZero)
    decreases e
  {
    match e
    case Digit(d) =>
      RunDigit(d, rest, stack);
    case Binary(op, l, r) =>
      var opRest := [[op]] + rest;
      var rRest := Postfix(r) + opRest;
      assert Postfix(e) + rest == Postfix(l) + rRest;
      RunPostfix(l, rRest, stack);
      if Value(l).Some? {
        var s1 := stack + [Value(l).value];
        RunPostfix(r, opRest, s1);
        if Value(r).Some? {
          RunOperator(op, rest, stack, Value(l).value, Value(r).value);
        }
      }
  }

  /** The calculator evaluates the postfix form of any expression to its value. */
  lemma EvaluatePostfix(e: Expr)
    requires WellFormed(e)
    ensures Evaluation(Join(Postfix(e))) == if Value(e).Some? then Success(Value(e).value) else Failure(DivisionByZero)
  {
    PostfixWords(e);
    TokensOfJoin(Postfix(e));
    RunPostfix(e, [], []);
    assert Postfix(e) + [] == Postfix(e);
  }

  /** "0 7 - 2 /" is -3: the division truncates toward zero where Euclidean division would give -4. */
  lemma TruncatingExample()
    ensures Evaluation("0 7 - 2 /") == Success(-3)
  {
    var e := Binary('/', Binary('-', Digit(0), Digit(7)), Digit(2));
    assert TruncDiv(-7, 2) == -3;
    assert Value(e) == Some(-3);
    var ws := ["0", "7", "-", "2", "/"];
    assert Postfix(e) == ws by {
      assert DigitChar(0) == '0' && DigitChar(7) == '7' && DigitChar(2) == '2';
    }
    assert Join(ws[4..]) == "/";
    assert Join(ws[3..]) == "2 /";
    assert Join(ws[2..]) == "- 2 /";
    assert Join(ws[1..]) == "7 - 2 /";
    assert Join(ws) == "0 7 - 2 /";
    EvaluatePostfix(e);
  }
  /** Every token is a word. */
  predicate AllWords(ts: seq<string>) {
    forall k :: 0 <= k < |ts| ==> Word(ts[k])
  }

  lemma WordsConcat(a: seq<string>, b: seq<string>)
    requires AllWords(a) && AllWords(b)
    ensures AllWords(a + b)
  {
    forall k | 0 <= k < |a + b|
      ensures Word((a + b)[k])
    {
      if k < |a| {
        assert (a + b)[k] == a[k];
      } else {
        assert (a + b)[k] == b[k - |a|];
      }
    }
  }

  /** An expression without tokens leaves no value: "invalid expression". */
  lemma EvaluationEmpty()
    ensures Evaluation("") == Failure(InvalidExpression)
  {
    assert Tokens("") == [];
  }

  /** Two complete expressions one after the other leave two values: "invalid expression". */
  lemma EvaluationTwoValues(e1: Expr, e2: Expr)
    requires WellFormed(e1) && WellFormed(e2) && Value(e1).Some? && Value(e2).Some?
    ensures Evaluation(Join(Postfix(e1) + Postfix(e2))) == Failure(InvalidExpression)
  {
    PostfixWords(e1);
    PostfixWords(e2);
    WordsConcat(Postfix(e1), Postfix(e2));
    TokensOfJoin(Postfix(e1) + Postfix(e2));
    RunPostfix(e1, Postfix(e2), []);
    RunPostfix(e2, [], [] + [Value(e1).value]);
    assert Postfix(e2) + [] == Postfix(e2);
  }

  /** A token that is neither a digit nor an operator stops the run at once: "invalid token". */
  lemma RunInvalidToken(w: string, rest: seq<string>, stack: seq<int>)
    requires !IsNumber(w) && !IsOperator(w)
    ensures Run([w] + rest, stack) == Machine(stack, Fail(InvalidToken(w)))
  {
    assert ([w] + rest)[0] == w;
  }

  /** An expression whose first token is not a digit or an operator fails with that token. */
  lemma EvaluationInvalidFirst(w: string, rest: seq<string>)
    requires Word(w) && !IsNumber(w) && !IsOperator(w) && AllWords(rest)
    ensures Evaluation(Join([w] + rest)) == Failure(InvalidToken(w))
  {
    WordsConcat([w], rest);
    TokensOfJoin([w] + rest);
    RunInvalidToken(w, rest, []);
  }

  /** A bad token after a complete expression fails with that token, whatever follows it. */
  lemma EvaluationInvalidAfter(e: Expr, w: string, rest: seq<string>)
    requires WellFormed(e) && Value(e).Some?
    requires Word(w) && !IsNumber(w) && !IsOperator(w) && AllWords(rest)
    ensures Evaluation(Join(Postfix(e) + [w] + rest)) == Failure(InvalidToken(w))
  {
    PostfixWords(e);
    WordsConcat([w], rest);
    WordsConcat(Postfix(e), [w] + rest);
    assert Postfix(e) + [w] + rest == Postfix(e) + ([w] + rest);
    TokensOfJoin(Postfix(e) + ([w] + rest));
    RunPostfix(e, [w] + rest, []);
    RunInvalidToken(w, rest, [] + [Value(e).value]);
  }

  /** An operator token with fewer than two values on the stack throws "insufficient values". */
  lemma RunOperatorShort(op: char, rest: seq<string>, stack: seq<int>)
    requires op == '+' || op == '-' || op == '*' || op == '/'
    requires |stack| < 2
    ensures Run([[op]] + rest, stack) == Machine(stack, Fail(InsufficientValues))
  {
    OperatorIsNotNumber([op]);
    assert ([[op]] + rest)[0] == [op];
  }

  /** An expression that starts with an operator has no operands for it. */
  lemma EvaluationOperatorFirst(op: char, rest: seq<string>)
    requires op == '+' || op == '-' || op == '*' || op == '/'
    requires AllWords(rest)
    ensures Evaluation(Join([[op]] + rest)) == Failure(InsufficientValues)
  {
    WordsConcat([[op]], rest);
    TokensOfJoin([[op]] + rest);
    RunOperatorShort(op, rest, []);
  }

  /** An operator right after a single complete expression has one operand only. */
  lemma EvaluationOperatorAfterOne(e: Expr, op: char, rest: seq<string>)
    requires WellFormed(e) && Value(e).Some?
    requires op == '+' || op == '-' || op == '*' || op == '/'
    requires AllWords(rest)
    ensures Evaluation(Join(Postfix(e) + [[op]] + rest)) == Failure(InsufficientValues)
  {
    PostfixWords(e);
    WordsConcat([[op]], rest);
    WordsConcat(Postfix(e), [[op]] + rest);
    assert Postfix(e) + [[op]] + rest == Postfix(e) + ([[op]] + rest);
    TokensOfJoin(Postfix(e) + ([[op]] + rest));
    RunPostfix(e, [[op]] + rest, []);
    RunOperatorShort(op, rest, [] + [Value(e).value]);
  }

  /** "+" has no operands: "insufficient values". */
  lemma InsufficientExample()
    ensures Evaluation("+") == Failure(InsufficientValues)
  {
    EvaluationOperatorFirst('+', []);
    assert Join([['+']]) == "+";
  }

  /** "1 2" leaves two values: "invalid expression". */
  lemma TwoValuesExample()
    ensures Evaluation("1 2") == Failure(InvalidExpression)
  {
    assert DigitChar(1) == '1' && DigitChar(2) == '2';
    EvaluationTwoValues(Digit(1), Digit(2));
    assert Join(["1"] + ["2"]) == "1 2";
  }

  /** "1 x" stops at x: "invalid token: x". */
  lemma InvalidTokenExample()
    ensures Evaluation("1 x") == Failure(InvalidToken("x"))
  {
    assert !IsNumber("x") by {
      assert LeadingSpaces("x") == 0;
      assert DigitPrefixLength("x") == 0;
    }
    assert DigitChar(1) == '1';
    EvaluationInvalidAfter(Digit(1), "x", []);
    assert Join(["1"] + ["x"] + []) == "1 x";
  }
}
