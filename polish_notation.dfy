/** Ch_08_Stacks_and_Queues/polish_notation.cpp: evaluation of a prefix
    ("Polish") expression held as a list of string tokens, on one stack of
    strings that reduces `op num num` whenever its top two entries are numeric. */
module PolishNotation {
  import opened Results

  /** The ways the C++ evaluation fails: `std::stoi` throws `invalid_argument`,
      `kOpFunctions.at` throws `out_of_range`, `std::divides` divides by zero
      (undefined behaviour), `stack.back()` reads an empty stack (undefined). */
  datatype Error = InvalidArgument | UnknownOperator | DivisionByZero | EmptyStack

  /** `std::isdigit` in the "C" locale. */
  predicate IsDigit(c: char)
  {
    '0' <= c <= '9'
  }

  predicate AllDigits(s: string)
  {
    forall k :: 0 <= k < |s| ==> IsDigit(s[k])
  }

  /** `IsNumeric`: every character is a digit; the empty string is numeric. */
  method IsNumeric(s: string) returns (b: bool)
    ensures b <==> AllDigits(s)
  {
    for i := 0 to |s|
      invariant AllDigits(s[..i])
    {
      if !IsDigit(s[i]) {
        return false;
      }
    }
    return true;
  }

  function DigitValue(c: char): nat
    requires IsDigit(c)
  {
    c as int - '0' as int
  }

  function DigitChar(d: nat): char
    requires d < 10
  {
    ('0' as int + d) as char
  }

  /** The number a string of decimal digits denotes. */
  function DecimalValue(s: string): nat
    requires AllDigits(s)
  {
    if s == [] then 0 else DecimalValue(s[..|s| - 1]) * 10 + DigitValue(s[|s| - 1])
  }

  /** Decimal text of a non-negative number, without leading zeros. */
  function NatToString(n: nat): string
  {
    if n < 10 then [DigitChar(n)] else NatToString(n / 10) + [DigitChar(n % 10)]
  }

  /** `std::to_string` on an `int`. */
  function IntToString(n: int): string
  {
    if n < 0 then "-" + NatToString(-n) else NatToString(n)
  }

  /** Length of the run of digits that `s` starts with. */
  function DigitRun(s: string): (n: nat)
    ensures n <= |s| && AllDigits(s[..n])
    ensures n < |s| ==> !IsDigit(s[n])
  {
    if s == [] || !IsDigit(s[0]) then 0 else 1 + DigitRun(s[1..])
  }

  /** `std::stoi`: an optional sign, then at least one digit; reading stops at
      the first character that is not a digit. */
  function Stoi(s: string): Result<int, Error>
  {
    var body := if |s| > 0 && (s[0] == '-' || s[0] == '+') then s[1..] else s;
    var n := DigitRun(body);
    if n == 0 then Err(InvalidArgument)
    else if s[0] == '-' then Ok(-(DecimalValue(body[..n]) as int))
    else Ok(DecimalValue(body[..n]))
  }

  /** C++ integer division, which truncates toward zero. */
  function TruncDiv(a: int, b: int): int
    requires b != 0
  {
    var q := (if a < 0 then -a else a) / (if b < 0 then -b else b);
    if (a < 0) != (b < 0) then -q else q
  }

  /** `kOpFunctions.at(op)(left, right)`. */
  function ApplyOp(op: string, left: int, right: int): Result<int, Error>
  {
    if op == "+" then Ok(left + right)
    else if op == "-" then Ok(left - right)
    else if op == "*" then Ok(left * right)
    else if op == "/" then (if right == 0 then Err(DivisionByZero) else Ok(TruncDiv(left, right)))
    else Err(UnknownOperator)
  }

  /** The condition of the reduction loop. */
  predicate CanReduce(st: seq<string>)
  {
    |st| >= 3 && AllDigits(st[|st| - 1]) && AllDigits(st[|st| - 2])
  }

  /** One reduction: pop the right operand, the left operand (the deeper entry)
      and the operator, and push the result as text. */
  function ReduceOnce(st: seq<string>): (r: Result<seq<string>, Error>)
    requires CanReduce(st)
    ensures r.Ok? ==> |r.value| == |st| - 2 && r.value[..|st| - 3] == st[..|st| - 3]
    ensures r.Ok? ==> exists v :: r.value[|st| - 3] == IntToString(v)
  {
    var n := |st|;
    match Stoi(st[n - 1])
    case Err(e) => Err(e)
    case Ok(right) =>
      match Stoi(st[n - 2])
      case Err(e) => Err(e)
      case Ok(left) =>
        match ApplyOp(st[n - 3], left, right)
        case Err(e) => Err(e)
        case Ok(v) => Ok(st[..n - 3] + [IntToString(v)])
  }

  /** The inner `while` loop: reduce as long as the top two entries are numeric. */
  function Reduce(st: seq<string>): Result<seq<string>, Error>
    decreases |st|
  {
    if !CanReduce(st) then Ok(st)
    else match ReduceOnce(st)
      case Err(e) => Err(e)
      case Ok(st') => Reduce(st')
  }

  /** The outer `for` loop over `toks`, started from stack `st`: each token is
      pushed, then the stack is reduced. */
  function Feed(st: seq<string>, toks: seq<string>): Result<seq<string>, Error>
    decreases |toks|
  {
    if toks == [] then Ok(st)
    else match Feed(st, toks[..|toks| - 1])
      case Err(e) => Err(e)
      case Ok(st') => Reduce(st' + [toks[|toks| - 1]])
  }

  /** What `EvaluatePolishNotation` returns: `std::stoi` of the top entry. */
  function Evaluate(toks: seq<string>): Result<int, Error>
  {
    match Feed([], toks)
    case Err(e) => Err(e)
    case Ok(st) => if st == [] then Err(EmptyStack) else Stoi(st[|st| - 1])
  }

  /** Once feeding a prefix of the tokens fails, feeding all of them fails the same way. */
  lemma {:induction false} FeedFailure(st: seq<string>, toks: seq<string>, k: nat, e: Error)
    requires k <= |toks| && Feed(st, toks[..k]) == Err(e)
    ensures Feed(st, toks) == Err(e)
    decreases |toks| - k
  {
    if k < |toks| {
      assert toks[..k + 1][..k] == toks[..k];
      FeedFailure(st, toks, k + 1, e);
    } else {
      assert toks[..k] == toks;
    }
  }

  /** The reduction loop of `EvaluatePolishNotation`, run on `stack`. */
  method ReduceStack(stack0: seq<string>) returns (r: Result<seq<string>, Error>)
    ensures r == Reduce(stack0)
  {
    var stack := stack0;
    while true
      invariant Reduce(stack) == Reduce(stack0)
      decreases |stack|
    {
      if |stack| < 3 { break; }
      var topNumeric := IsNumeric(stack[|stack| - 1]);
      if !topNumeric { break; }
      var secondNumeric := IsNumeric(stack[|stack| - 2]);
      if !secondNumeric { break; }
      var n := |stack|;
      var rightOperand := Stoi(stack[n - 1]);
      if rightOperand.Err? {
        return Err(rightOperand.error);
      }
      var leftOperand := Stoi(stack[n - 2]);
      if leftOperand.Err? {
        return Err(leftOperand.error);
      }
      var result := ApplyOp(stack[n - 3], leftOperand.value, rightOperand.value);
      if result.Err? {
        return Err(result.error);
      }
      stack := stack[..n - 3] + [IntToString(result.value)];
    }
    return Ok(stack);
  }

  /** `EvaluatePolishNotation`. */
  method EvaluatePolishNotation(inputExpression: seq<string>) returns (r: Result<int, Error>)
    ensures r == Evaluate(inputExpression)
  {
    var stack: seq<string> := [];
    for k := 0 to |inputExpression|
      invariant Feed([], inputExpression[..k]) == Ok(stack)
    {
      assert inputExpression[..k + 1][..k] == inputExpression[..k];
      var reduced := ReduceStack(stack + [inputExpression[k]]);
      if reduced.Err? {
        FeedFailure([], inputExpression, k + 1, reduced.error);
        return Err(reduced.error);
      }
      stack := reduced.value;
    }
    assert inputExpression[..|inputExpression|] == inputExpression;
    if stack == [] {
      return Err(EmptyStack);
    }
    r := Stoi(stack[|stack| - 1]);
  }

  // ----- Properties of the number conversions -----

  lemma {:induction false} NatToStringDigits(n: nat)
    ensures |NatToString(n)| >= 1 && AllDigits(NatToString(n))
    decreases n
  {
    if n >= 10 {
      NatToStringDigits(n / 10);
    }
  }

  /** Reading back the decimal text of `n` gives `n`. */
  lemma {:induction false} DecimalValueOfNatToString(n: nat)
    ensures AllDigits(NatToString(n)) && DecimalValue(NatToString(n)) == n
    decreases n
  {
    NatToStringDigits(n);
    if n >= 10 {
      var s := NatToString(n / 10);
      DecimalValueOfNatToString(n / 10);
      assert NatToString(n)[..|NatToString(n)| - 1] == s;
    }
  }

  lemma {:induction false} DigitRunOfDigits(s: string)
    requires AllDigits(s)
    ensures DigitRun(s) == |s|
    decreases |s|
  {
    if s != [] {
      DigitRunOfDigits(s[1..]);
    }
  }

  /** `std::stoi` on a non-empty digit string reads its decimal value. */
  lemma StoiOfDigits(s: string)
    requires s != [] && AllDigits(s)
    ensures Stoi(s) == Ok(DecimalValue(s))
  {
    DigitRunOfDigits(s);
    assert s[..|s|] == s;
  }

  /** `std::stoi` undoes `std::to_string`. */
  lemma StoiOfIntToString(n: int)
    ensures Stoi(IntToString(n)) == Ok(n)
  {
    if n < 0 {
      var body := NatToString(-n);
      DecimalValueOfNatToString(-n);
      DigitRunOfDigits(body);
      assert IntToString(n)[1..] == body;
      assert body[..|body|] == body;
    } else {
      DecimalValueOfNatToString(n);
      StoiOfDigits(NatToString(n));
    }
  }

  // ----- Reduction steps -----

  /** The reduction loop stops only when its guard fails, keeps everything
      below the entries it rewrote, and each step shrinks the stack by two. */
  lemma {:induction false} ReduceResult(st: seq<string>)
    requires Reduce(st).Ok?
    ensures var r := Reduce(st).value;
      && !CanReduce(r)
      && |r| <= |st| && |r| % 2 == |st| % 2
      && (r == st || (1 <= |r| && r[..|r| - 1] == st[..|r| - 1]))
    decreases |st|
  {
    if CanReduce(st) {
      var next := ReduceOnce(st).value;
      ReduceResult(next);
      assert Reduce(st) == Reduce(next);
      var r := Reduce(next).value;
      assert |next| + 2 == |st|;
      assert (|next| + 2) % 2 == |next| % 2;
      if r != next {
        assert r[..|r| - 1] == next[..|r| - 1];
        assert next[..|r| - 1] == next[..|st| - 3][..|r| - 1];
      }
    }
  }

  /** The deeper numeric entry is the left operand: `-`, `3`, `1` becomes `2`. */
  lemma LeftOperandIsDeeper()
    ensures ReduceOnce(["-", "3", "1"]) == Ok(["2"])
    ensures Reduce(["-", "3", "1"]) == Ok(["2"])
  {
    StoiOfDigits("3");
    StoiOfDigits("1");
    assert NatToString(2) == "2";
  }

  // ----- Evaluation of well-formed expressions -----

  /** A prefix expression tree over the four operators; a number leaf is the
      token as written. */
  datatype Expr = Num(token: string) | Apply(op: string, left: Expr, right: Expr)

  /** The token list of an expression, operator first. */
  function Prefix(e: Expr): seq<string>
  {
    match e
    case Num(token) => [token]
    case Apply(op, l, r) => [op] + Prefix(l) + Prefix(r)
  }

  /** The value an expression denotes, with the C++ operator semantics; a
      number token is read as `std::stoi` reads it. */
  function Eval(e: Expr): Result<int, Error>
  {
    match e
    case Num(token) => Stoi(token)
    case Apply(op, l, r) =>
      match Eval(l)
      case Err(err) => Err(err)
      case Ok(a) =>
        match Eval(r)
        case Err(err) => Err(err)
        case Ok(b) => ApplyOp(op, a, b)
  }

  /** Every number token is a non-empty run of digits (leading zeros
      allowed), every operator is known, no divisor is zero and every
      intermediate value is non-negative (so it is written without a sign). */
  predicate NonNegative(e: Expr)
  {
    match e
    case Num(token) => token != [] && AllDigits(token)
    case Apply(_, l, r) => NonNegative(l) && NonNegative(r) && Eval(e).Ok? && Eval(e).value >= 0
  }

  /** The stack entry that the tokens of `e` reduce to: a number token stays
      as written, an operator's result is pushed as `std::to_string` writes
      it (an expression that fails leaves no entry; "" stands for that). */
  function Reduced(e: Expr): string
  {
    match e
    case Num(token) => token
    case Apply(_, _, _) =>
      match Eval(e)
      case Ok(v) => IntToString(v)
      case Err(_) => ""
  }

  /** Feeding two token lists one after the other. */
  lemma {:induction false} FeedAppend(st: seq<string>, a: seq<string>, mid: seq<string>, b: seq<string>)
    requires Feed(st, a) == Ok(mid)
    ensures Feed(st, a + b) == Feed(mid, b)
    decreases |b|
  {
    if b == [] {
      assert a + b == a;
    } else {
      var b' := b[..|b| - 1];
      assert (a + b)[..|a + b| - 1] == a + b';
      assert (a + b)[|a + b| - 1] == b[|b| - 1];
      FeedAppend(st, a, mid, b');
    }
  }

  /** One more token fed, at the end. */
  lemma FeedSnoc(st: seq<string>, toks: seq<string>, t: string)
    ensures Feed(st, toks + [t]) == match Feed(st, toks) { case Err(e) => Err(e) case Ok(s) => Reduce(s + [t]) }
  {
    assert (toks + [t])[..|toks|] == toks;
  }

  lemma OperatorIsNotNumeric(op: string, a: int, b: int)
    requires ApplyOp(op, a, b).Ok?
    ensures !AllDigits(op)
  {
    assert op == "+" || op == "-" || op == "*" || op == "/";
    assert !IsDigit(op[0]);
  }

  /** A well-formed expression has a non-negative value, and the entry it
      reduces to is a digit string that denotes that value. */
  lemma EvalNonNegative(e: Expr)
    requires NonNegative(e)
    ensures Eval(e).Ok? && Eval(e).value >= 0
    ensures Reduced(e) != [] && AllDigits(Reduced(e)) && DecimalValue(Reduced(e)) == Eval(e).value
  {
    match e
    case Num(token) =>
      StoiOfDigits(token);
    case Apply(_, _, _) =>
      NatToStringDigits(Eval(e).value);
      DecimalValueOfNatToString(Eval(e).value);
  }

  /** An operator token is pushed without reducing. */
  lemma PushOperator(st: seq<string>, op: string)
    requires !AllDigits(op)
    ensures Feed(st, [op]) == Ok(st + [op])
  {
    assert [op][..0] == [];
  }

  /** A number just above an operator does not start a reduction. */
  lemma PushFirstOperand(st: seq<string>, op: string, left: string)
    requires !AllDigits(op)
    ensures Reduce(st + [op] + [left]) == Ok(st + [op, left])
  {
    assert st + [op] + [left] == st + [op, left];
  }

  /** `op a b` with two digit strings on top of any stack reduces to the
      text of the result. */
  lemma ReduceTriple(st: seq<string>, op: string, a: string, b: string, v: nat)
    requires a != [] && AllDigits(a) && b != [] && AllDigits(b)
    requires ApplyOp(op, DecimalValue(a), DecimalValue(b)) == Ok(v)
    ensures Reduce(st + [op, a] + [b]) == Reduce(st + [NatToString(v)])
  {
    var full := st + [op, a] + [b];
    assert full == st + [op, a, b];
    StoiOfDigits(a);
    StoiOfDigits(b);
    assert full[..|full| - 3] == st;
    assert ReduceOnce(full) == Ok(st + [NatToString(v)]);
  }

  /** Feeding the tokens of a non-negative expression on top of any stack
      leaves what pushing the single entry it reduces to would leave. */
  lemma {:induction false} FeedPrefix(st: seq<string>, e: Expr)
    requires NonNegative(e)
    ensures Feed(st, Prefix(e)) == Reduce(st + [Reduced(e)])
    decreases e
  {
    match e
    case Num(token) =>
      assert [token][..0] == [];
    case Apply(op, l, r) =>
      var a, b, v := Eval(l).value, Eval(r).value, Eval(e).value;
      EvalNonNegative(e);
      EvalNonNegative(l);
      EvalNonNegative(r);
      var sa, sb := Reduced(l), Reduced(r);
      assert ApplyOp(op, DecimalValue(sa), DecimalValue(sb)) == Ok(v);
      var withLeft := st + [op, sa];
      assert Feed(st, [op] + Prefix(l)) == Ok(withLeft) by {
        OperatorIsNotNumeric(op, a, b);
        PushOperator(st, op);
        FeedAppend(st, [op], st + [op], Prefix(l));
        FeedPrefix(st + [op], l);
        PushFirstOperand(st, op, sa);
      }
      assert Feed(st, [op] + Prefix(l) + Prefix(r)) == Reduce(withLeft + [sb]) by {
        FeedAppend(st, [op] + Prefix(l), withLeft, Prefix(r));
        FeedPrefix(withLeft, r);
      }
      ReduceTriple(st, op, sa, sb, v);
      assert Reduced(e) == NatToString(v);
  }

  /** For a well-formed expression whose intermediate results are all
      non-negative, the stack ends with exactly one entry, which denotes the
      value: the number token itself for a lone number, the value's decimal
      text otherwise. */
  lemma EvaluatePrefix(e: Expr)
    requires NonNegative(e)
    ensures Feed([], Prefix(e)) == Ok([Reduced(e)])
    ensures Evaluate(Prefix(e)) == Eval(e)
  {
    FeedPrefix([], e);
    assert [] + [Reduced(e)] == [Reduced(e)];
    EvalNonNegative(e);
    StoiOfDigits(Reduced(e));
  }

  /** The driver's sample `+ * - 3 1 5 + 44 66` evaluates to 120. */
  lemma SampleEvaluation()
    ensures Evaluate(["+", "*", "-", "3", "1", "5", "+", "44", "66"]) == Ok(120)
  {
    var product := Apply("*", Apply("-", Num("3"), Num("1")), Num("5"));
    var sum := Apply("+", Num("44"), Num("66"));
    var e := Apply("+", product, sum);
    SampleProduct();
    SampleSum();
    assert Eval(e) == Ok(120);
    assert Prefix(e) == ["+", "*", "-", "3", "1", "5", "+", "44", "66"];
    EvaluatePrefix(e);
  }

  lemma SampleProduct()
    ensures NonNegative(Apply("*", Apply("-", Num("3"), Num("1")), Num("5")))
    ensures Eval(Apply("*", Apply("-", Num("3"), Num("1")), Num("5"))) == Ok(10)
  {
    StoiOfDigits("3");
    StoiOfDigits("1");
    StoiOfDigits("5");
    assert Eval(Apply("-", Num("3"), Num("1"))) == Ok(2);
  }

  lemma SampleSum()
    ensures NonNegative(Apply("+", Num("44"), Num("66")))
    ensures Eval(Apply("+", Num("44"), Num("66"))) == Ok(110)
  {
    StoiOfDigits("44");
    StoiOfDigits("66");
    assert DecimalValue("44") == 44 && DecimalValue("66") == 66;
  }

  /** Number tokens with leading zeros are read by their value:
      `- 010 07` evaluates to 3. */
  lemma LeadingZerosRead()
    ensures Evaluate(["-", "010", "07"]) == Ok(3)
  {
    StoiOfDigits("010");
    StoiOfDigits("07");
    assert DecimalValue("010") == 10 && DecimalValue("07") == 7;
    var e := Apply("-", Num("010"), Num("07"));
    assert Eval(e) == Ok(3);
    assert Prefix(e) == ["-", "010", "07"];
    EvaluatePrefix(e);
  }

  /** `1 - 3` is pushed back as the text "-2". */
  lemma NegativeResultText()
    ensures ReduceOnce(["+", "-", "1", "3"]) == Ok(["+", "-2"])
  {
    var four := ["+", "-", "1", "3"];
    assert DecimalValue("1") == 1 && DecimalValue("3") == 3;
    StoiOfDigits("1");
    StoiOfDigits("3");
    assert NatToString(2) == "2";
    assert IntToString(-2) == "-2";
    assert four[..|four| - 3] == ["+"];
    assert Stoi(four[3]) == Ok(3) && Stoi(four[2]) == Ok(1);
    assert ApplyOp(four[1], 1, 3) == Ok(-2);
    assert ["+"] + [IntToString(-2)] == ["+", "-2"];
  }

  /** A negative intermediate result is pushed as "-2", which is not numeric,
      so `+ - 1 3 5` stops reducing and answers 5 where the expression is 3. */
  lemma NegativeIntermediateStalls()
    ensures Eval(Apply("+", Apply("-", Num("1"), Num("3")), Num("5"))) == Ok(3)
    ensures Evaluate(["+", "-", "1", "3", "5"]) == Ok(5)
  {
    assert Eval(Apply("-", Num("1"), Num("3"))) == Ok(-2) by {
      StoiOfDigits("1");
      StoiOfDigits("3");
      assert DecimalValue("1") == 1 && DecimalValue("3") == 3;
    }
    assert DecimalValue("5") == 5;
    StoiOfDigits("5");
    StalledFeed();
  }

  lemma StalledFeed()
    ensures Feed([], ["+", "-", "1", "3", "5"]) == Ok(["+", "-2", "5"])
  {
    StalledFeedPrefix();
    FeedSnoc([], ["+", "-", "1", "3"], "5");
    assert ["+", "-", "1", "3"] + ["5"] == ["+", "-", "1", "3", "5"];
    assert ["+", "-2"] + ["5"] == ["+", "-2", "5"];
    assert !IsDigit("-2"[0]);
    assert Reduce(["+", "-2", "5"]) == Ok(["+", "-2", "5"]);
  }

  lemma StalledFeedPrefix()
    ensures Feed([], ["+", "-", "1", "3"]) == Ok(["+", "-2"])
  {
    OperatorsFed();
    FeedSnoc([], ["+", "-", "1"], "3");
    assert ["+", "-", "1"] + ["3"] == ["+", "-", "1", "3"];
    NegativeResultText();
    assert Reduce(["+", "-2"]) == Ok(["+", "-2"]);
  }

  lemma OperatorsFed()
    ensures Feed([], ["+", "-", "1"]) == Ok(["+", "-", "1"])
  {
    assert !IsDigit("+"[0]) && !IsDigit("-"[0]);
    FeedSnoc([], [], "+");
    assert [] + ["+"] == ["+"];
    FeedSnoc([], ["+"], "-");
    assert ["+"] + ["-"] == ["+", "-"];
    FeedSnoc([], ["+", "-"], "1");
    assert ["+", "-"] + ["1"] == ["+", "-", "1"];
  }

}
