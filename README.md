# EveryoneCalculator expression core, in Dafny

The EveryoneCalculator server gets `{name, expression}` messages over WebSocket
connections. It evaluates each expression and broadcasts the result line to every
connected client. This project models the server's expression logic in `main.go`:

- `splitExpressionWithDelimiter` is the tokenizer. `tokenizer.dfy` models it as a
  method with a loop (`Tokenizer.SplitExpressionWithDelimiter`). The method is proved
  equal to a recursive reference definition (`Tokenizer.Split`). Lemmas about that
  definition state the round trip (the tokens join back to the input), the token
  count (2k+1 for k operator characters), the token shape (operators at odd
  positions, operator-free operands at even positions), and that these properties
  pin the token list down uniquely.
- `parseExpression` and `calculateExpression` are modelled as functions in
  `calculator.dfy`. The model keeps the source's checks in the source's order:
  1. empty input
  2. token count
  3. first operand
  4. second operand
  
  Lemmas say what the parse returns in terms of the input's single operator
  character. They also show that every parsed operator is accepted by the evaluator.
- `wrappers.dfy` holds `Option` and `Result`. They stand for Go's `(value, err)` returns.

Two calls into other code become parameters:

- `strconv.ParseFloat` is the parameter `parseFloat: string -> Option<Num>`, over an
  abstract number type `Num`.
- The four float64 operations are the fields of an `Arithmetic<Num>` parameter.

Strings are `seq<char>`, one element per byte. This is exact for the tokenizer,
because every operator is a single ASCII byte.

The loop at main.go:126-135 has no `break`, so it splits at every operator
character. `"3+4-5"` gives five tokens and `"-5*3"` gives
`["", "-", "5", "*", "3"]`; both are rejected as invalid expressions before any
operand is parsed. There are two operand errors, "invalid first number" and
"invalid second number", and the first operand is checked first.

## Model

| member | source | states |
|---|---|---|
| `Tokenizer.SplitExpressionWithDelimiter` | main.go:122-139 | the loop's result equals the reference tokenization `Split(s)`; its tokens join back to `s`; it has 2k+1 tokens for k operator characters; operators sit at odd positions and operator-free operands at even ones |
| `Tokenizer.Split` | main.go:126-137 | the token list is never empty, even for the empty input (the tail token is always appended) |
| `Tokenizer.JoinSplit` | main.go:124-137 | concatenating all tokens gives back exactly the input |
| `Tokenizer.SplitLength` | main.go:126-137 | the number of tokens is 2 * (number of `+ - * /` characters) + 1 |
| `Tokenizer.SplitWellFormed` | main.go:127-133 | every odd-position token is a single character from `+ - * /`; every even-position token contains no operator character and may be empty |
| `Tokenizer.SplitUnique` | main.go:122-139 | any token list that has the shape above and joins back to `s` is exactly the tokenizer's output for `s` |
| `Tokenizer.UniqueOperand` | main.go:126-137 | an input with no operator character becomes one token, the input itself |
| `Calculator.ParseExpression` | main.go:95-120 | the empty input fails with "no expression to evaluate"; the result is "invalid expression" exactly when the input is non-empty and does not have exactly one operator character; a successful parse carries a one-character operator from `+ - * /` |
| `Calculator.SplitAtUniqueOperator` | main.go:126-137 | an input whose only operator character is at `p` is split into the text before `p`, that character and the text after it |
| `Calculator.OneOperatorIffUnique` | main.go:100-104 | the count of operator characters is 1 exactly when there is a position holding the only operator character |
| `Calculator.ParseAtUniqueOperator` | main.go:106-118 | with the single operator at `p`: an unparsable text before `p` gives "invalid first number", whatever follows; otherwise an unparsable text after `p` gives "invalid second number"; otherwise the result is the two parses and the operator character |
| `Calculator.ParseSuccess` | main.go:106-118 | a successful parse comes from an input with one operator character; its operands are the parses of the text on either side, and its operator is that character |
| `Calculator.MessagesDistinct` | main.go:96-153 | the texts `Message` gives the errors (those of the source's `errors.New` calls) are pairwise distinct, so a logged message names the check that failed |
| `Calculator.CalculateExpression` | main.go:141-154 | succeeds exactly when the operator is one of `"+"`, `"-"`, `"*"`, `"/"`, and then applies the matching operation; any other operator gives "invalid operator" |
| `Calculator.OperatorTokenAccepted` | main.go:141-153 | a one-character operator token is exactly one of the four strings the evaluator accepts |
| `Calculator.ParsedOperatorAccepted` | main.go:49-55 | the evaluator accepts every expression that `parseExpression` accepts |
| `Calculator.InvalidExpressionExamples` | main.go:100-104 | `"3+4-5"` splits into five tokens and `"-5*3"` into `["", "-", "5", "*", "3"]`; these two and `"42"` fail with "invalid expression" whatever the number parser does |
| `Calculator.OperandExamples` | main.go:106-114 | if the parser rejects `""` and `"abc"`: `"abc+2"` fails with "invalid first number"; `"3+"` fails with "invalid second number" when `"3"` parses; `"3+4"` gives the two parses and `"+"` |

## Left out

- `strconv.ParseFloat` is a parameter of the model, not a model of decimal parsing: its accepted syntax, rounding and range errors are not modelled.
- `Calculator.CalculateExpression` does not model float64 arithmetic. The four operations, division by zero (infinities, NaN) included, are abstract parameters. The model only states which operator selects which operation.
- The value parts Go returns beside an error (`0, "", 0`) are not modelled; a `Failure` carries only the error.
- The result line built with `fmt.Sprintf("%s: %.2f %s %.2f = %.2f")` is not modelled, because it is float formatting in a foreign library.
- The WebSocket handler `compute`, `ReadJSON`, `WriteMessage`, the `home` handler and its template are not modelled, because they are network I/O and foreign library calls. Only the parse-then-calculate order of `compute` appears, in `Calculator.ParsedOperatorAccepted`.
- The `broadcast` channel, the `broadCastMessages` goroutine, the `clients` map and its `mutex` are not modelled, because their point is concurrency between goroutines.
- Flag parsing and `main` are not modelled, because they are process start-up only.
