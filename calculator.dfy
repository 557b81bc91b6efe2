/**
  Parsing and evaluating one binary expression, as the calculator server does
  for every message it receives (`parseExpression`, `calculateExpression`).

  The numeric parse (`strconv.ParseFloat`) and floating-point arithmetic are
  not modelled: the parse is a parameter `parseFloat` that may fail, and the
  four arithmetic operations are parameters over an abstract number type.
*/
module Calculator {
  import opened Wrappers
  import opened Tokenizer

  /** The errors the two functions return, one per `errors.New` in the source. */
  datatype Error =
    | NoExpression          // "no expression to evaluate"
    | InvalidExpression     // "invalid expression"
    | InvalidFirstNumber    // "invalid first number"
    | InvalidSecondNumber   // "invalid second number"
    | InvalidOperator       // "invalid operator"

  /** The text each error carries. */
  function Message(e: Error): (r: string) {
    match e
    case NoExpression => "no expression to evaluate"
    case InvalidExpression => "invalid expression"
    case InvalidFirstNumber => "invalid first number"
    case InvalidSecondNumber => "invalid second number"
    case InvalidOperator => "invalid operator"
  }

  /** Distinct errors carry distinct texts, so a logged message names the
      check that failed. */
  lemma MessagesDistinct(e1: Error, e2: Error)
    ensures Message(e1) == Message(e2) <==> e1 == e2
  {
  }

  /** A successfully parsed expression: two operands and the operator text. */
  datatype Parsed<Num> = Parsed(first: Num, operator: string, second: Num)

  /** The four arithmetic operations of the number type. */
  datatype Arithmetic<!Num> = Arithmetic(
    add: (Num, Num) -> Num,
    sub: (Num, Num) -> Num,
    mul: (Num, Num) -> Num,
    div: (Num, Num) -> Num)

  /** `s[p]` is an operator character and no other character of `s` is. */
  predicate UniqueOperatorAt(s: string, p: int) {
    0 <= p < |s| && IsOperatorChar(s[p]) &&
    forall j :: 0 <= j < |s| && j != p ==> !IsOperatorChar(s[j])
  }

  /** `parseExpression`: rejects the empty input, then any input whose token
      list is not exactly three long, then checks the first operand, then the
      second; the operator is the middle token. */
  function ParseExpression<Num>(expression: string, parseFloat: string -> Option<Num>)
    : (r: Result<Parsed<Num>, Error>)
    ensures expression == [] ==> r == Failure(NoExpression)
    ensures r == Failure(InvalidExpression) <==> expression != [] && CountOperators(expression) != 1
    ensures r.Success? ==> IsOperatorToken(r.value.operator)
  {
    if |expression| == 0 then Failure(NoExpression)
    else
      SplitLength(expression);
      SplitWellFormed(expression);
      var result := Split(expression);
      if |result| != 3 then Failure(InvalidExpression)
      else
        match parseFloat(result[0])
        case None => Failure(InvalidFirstNumber)
        case Some(first) =>
          match parseFloat(result[2])
          case None => Failure(InvalidSecondNumber)
          case Some(second) => Success(Parsed(first, result[1], second))
  }

  /** `calculateExpression`: dispatch on the operator text; exactly the four
      strings "+", "-", "*" and "/" are accepted. */
  function CalculateExpression<Num>(first: Num, second: Num, operator: string, arith: Arithmetic<Num>)
    : (r: Result<Num, Error>)
    ensures r.Success? <==> operator in {"+", "-", "*", "/"}
    ensures r.Failure? ==> r.error == InvalidOperator
    ensures operator == "+" ==> r == Success(arith.add(first, second))
    ensures operator == "-" ==> r == Success(arith.sub(first, second))
    ensures operator == "*" ==> r == Success(arith.mul(first, second))
    ensures operator == "/" ==> r == Success(arith.div(first, second))
  {
    match operator
    case "+" => Success(arith.add(first, second))
    case "-" => Success(arith.sub(first, second))
    case "*" => Success(arith.mul(first, second))
    case "/" => Success(arith.div(first, second))
    case _ => Failure(InvalidOperator)
  }

  /** The operator tokens of the tokenizer are exactly the strings the
      evaluator accepts. */
  lemma OperatorTokenAccepted(t: string)
    ensures IsOperatorToken(t) <==> t in {"+", "-", "*", "/"}
  {
    if IsOperatorToken(t) {
      assert t == [t[0]];
    }
  }

  /** Joining three tokens. */
  lemma JoinThree(a: string, b: string, c: string)
    ensures Join([a, b, c]) == a + b + c
  {
    var ts := [a, b, c];
    assert ts[1..] == [b, c] && [b, c][1..] == [c] && [c][1..] == [];
    assert Join([c]) == c + Join([]) == c;
    assert Join([b, c]) == b + Join([c]);
  }

  /** The three tokens around the only operator character of `s`. */
  lemma SplitAtUniqueOperator(s: string, p: int)
    requires UniqueOperatorAt(s, p)
    ensures Split(s) == [s[..p], [s[p]], s[p + 1..]]
  {
    var ts := [s[..p], [s[p]], s[p + 1..]];
    assert Join(ts) == s by {
      JoinThree(s[..p], [s[p]], s[p + 1..]);
      assert s == s[..p] + [s[p]] + s[p + 1..];
    }
    assert WellFormedTokens(ts) by {
      assert NoOperator(ts[0]) by {
        forall j | 0 <= j < |ts[0]| ensures !IsOperatorChar(ts[0][j]) {
          assert ts[0][j] == s[j];
        }
      }
      assert NoOperator(ts[2]) by {
        forall j | 0 <= j < |ts[2]| ensures !IsOperatorChar(ts[2][j]) {
          assert ts[2][j] == s[p + 1 + j];
        }
      }
    }
    SplitUnique(s, ts);
  }

  /** Exactly one operator character, counted or located. */
  lemma OneOperatorIffUnique(s: string)
    ensures CountOperators(s) == 1 <==> exists p :: UniqueOperatorAt(s, p)
  {
    SplitLength(s);
    if CountOperators(s) == 1 {
      var ts := Split(s);
      SplitWellFormed(s);
      JoinSplit(s);
      var p := |ts[0]|;
      assert ts == [ts[0], ts[1], ts[2]];
      JoinThree(ts[0], ts[1], ts[2]);
      assert s == ts[0] + ts[1] + ts[2];
      assert IsOperatorToken(ts[1]) && NoOperator(ts[0]) && NoOperator(ts[2]);
      forall j | 0 <= j < |s| && j != p ensures !IsOperatorChar(s[j]) {
        if j < p { assert s[j] == ts[0][j]; } else { assert s[j] == ts[2][j - p - 1]; }
      }
      assert s[p] == ts[1][0];
      assert UniqueOperatorAt(s, p);
    }
    if p :| UniqueOperatorAt(s, p) {
      SplitAtUniqueOperator(s, p);
    }
  }

  /** What `parseExpression` returns for an input with a single operator
      character at `p`: the first operand (the text before `p`) is checked
      before the second (the text after `p`), and on success the operator is
      that character. */
  lemma ParseAtUniqueOperator<Num>(s: string, p: int, parseFloat: string -> Option<Num>)
    requires UniqueOperatorAt(s, p)
    ensures ParseExpression(s, parseFloat) ==
      if parseFloat(s[..p]).None? then Failure(InvalidFirstNumber)
      else if parseFloat(s[p + 1..]).None? then Failure(InvalidSecondNumber)
      else Success(Parsed(parseFloat(s[..p]).value, [s[p]], parseFloat(s[p + 1..]).value))
  {
    SplitAtUniqueOperator(s, p);
  }

  /** A successful parse comes from an input with one operator character;
      its operands are the parses of the text on either side of it. */
  lemma ParseSuccess<Num>(s: string, parseFloat: string -> Option<Num>)
    requires ParseExpression(s, parseFloat).Success?
    ensures exists p :: (UniqueOperatorAt(s, p) &&
      parseFloat(s[..p]).Some? && parseFloat(s[p + 1..]).Some? &&
      ParseExpression(s, parseFloat).value ==
        Parsed(parseFloat(s[..p]).value, [s[p]], parseFloat(s[p + 1..]).value))
  {
    OneOperatorIffUnique(s);
    var p :| UniqueOperatorAt(s, p);
    ParseAtUniqueOperator(s, p, parseFloat);
  }

  /** Every expression `parseExpression` accepts is accepted by
      `calculateExpression`, so a session only fails at evaluation on an
      operator it could never have parsed. */
  lemma ParsedOperatorAccepted<Num>(s: string, parseFloat: string -> Option<Num>, arith: Arithmetic<Num>)
    requires ParseExpression(s, parseFloat).Success?
    ensures var e := ParseExpression(s, parseFloat).value;
      CalculateExpression(e.first, e.second, e.operator, arith).Success?
  {
  }

  /** Worked inputs: a chain of operators and a leading sign are both rejected
      as invalid expressions, before any operand is parsed. */
  lemma InvalidExpressionExamples<Num>(parseFloat: string -> Option<Num>)
    ensures Split("3+4-5") == ["3", "+", "4", "-", "5"]
    ensures Split("-5*3") == ["", "-", "5", "*", "3"]
    ensures ParseExpression("42", parseFloat) == Failure(InvalidExpression)
    ensures ParseExpression("3+4-5", parseFloat) == Failure(InvalidExpression)
    ensures ParseExpression("-5*3", parseFloat) == Failure(InvalidExpression)
  {
    assert "3+4-5"[1..] == "+4-5" && "+4-5"[1..] == "4-5" && "4-5"[1..] == "-5";
    assert "-5"[1..] == "5" && "5"[1..] == "";
    UniqueOperand("5");
    assert Split("-5") == ["", "-", "5"];
    assert "4" + "" == "4";
    assert Split("4-5") == ["4", "-", "5"];
    assert Split("+4-5") == ["", "+", "4", "-", "5"];
    assert "-5*3"[1..] == "5*3" && "5*3"[1..] == "*3" && "*3"[1..] == "3" && "3"[1..] == "";
    UniqueOperand("3");
    assert Split("*3") == ["", "*", "3"];
    assert Split("5*3") == ["5", "*", "3"];
    assert "42"[1..] == "2" && "2"[1..] == "";
    assert CountOperators("2") == 0;
  }

  /** Worked inputs for the operand checks. */
  lemma OperandExamples<Num>(parseFloat: string -> Option<Num>)
    requires parseFloat("") == None && parseFloat("abc") == None
    ensures parseFloat("3").Some? ==> ParseExpression("3+", parseFloat) == Failure(InvalidSecondNumber)
    ensures ParseExpression("abc+2", parseFloat) == Failure(InvalidFirstNumber)
    ensures parseFloat("3").Some? && parseFloat("4").Some? ==>
      ParseExpression("3+4", parseFloat) == Success(Parsed(parseFloat("3").value, "+", parseFloat("4").value))
  {
    assert "3+"[..1] == "3" && "3+"[2..] == "";
    assert "abc+2"[..3] == "abc" && "abc+2"[4..] == "2";
    assert "3+4"[..1] == "3" && "3+4"[2..] == "4";
    assert UniqueOperatorAt("3+", 1);
    assert UniqueOperatorAt("abc+2", 3);
    assert UniqueOperatorAt("3+4", 1);
    ParseAtUniqueOperator("3+", 1, parseFloat);
    ParseAtUniqueOperator("abc+2", 3, parseFloat);
    ParseAtUniqueOperator("3+4", 1, parseFloat);
  }
}
