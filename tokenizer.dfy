/**
  The expression tokenizer of the calculator server (`splitExpressionWithDelimiter`).

  The input is scanned byte by byte. At every byte that is `+`, `-`, `*` or `/`
  the pending operand text is closed and the operator is emitted as a token of
  its own; the text after the last operator is emitted at the end. The scan does
  not stop at the first operator, so "3+4-5" gives five tokens.
*/
module Tokenizer {

  /** The four bytes the tokenizer splits at. */
  predicate IsOperatorChar(c: char) {
    c == '+' || c == '-' || c == '*' || c == '/'
  }

  /** A token that is one operator character. */
  predicate IsOperatorToken(t: string) {
    |t| == 1 && IsOperatorChar(t[0])
  }

  /** A string that holds no operator character (an operand token, possibly empty). */
  predicate NoOperator(t: string) {
    forall j :: 0 <= j < |t| ==> !IsOperatorChar(t[j])
  }

  /** The shape of every token list the tokenizer produces: odd length,
      operators at odd positions, operator-free operands at even positions. */
  predicate WellFormedTokens(ts: seq<string>) {
    |ts| % 2 == 1 &&
    forall k :: 0 <= k < |ts| ==>
      if k % 2 == 1 then IsOperatorToken(ts[k]) else NoOperator(ts[k])
  }

  /** Number of operator characters in `s`. */
  function CountOperators(s: string): (r: nat) {
    if s == [] then 0
    else (if IsOperatorChar(s[0]) then 1 else 0) + CountOperators(s[1..])
  }

  /** Concatenation of all tokens, in order. */
  function Join(ts: seq<string>): (r: string) {
    if ts == [] then [] else ts[0] + Join(ts[1..])
  }

  /** Puts `prefix` in front of the first token of a non-empty token list. */
  function Glue(prefix: string, ts: seq<string>): (r: seq<string>)
    requires |ts| >= 1
    ensures |r| == |ts| && r[0] == prefix + ts[0] && r[1..] == ts[1..]
  {
    [prefix + ts[0]] + ts[1..]
  }

  /** Reference definition of the tokenizer, by recursion on the first
      character: an operator starts a new operand after an empty one, any other
      character belongs to the first operand of the rest. Never empty. */
  function Split(s: string): (r: seq<string>)
    ensures |r| >= 1
  {
    if s == [] then [[]]
    else if IsOperatorChar(s[0]) then [[], [s[0]]] + Split(s[1..])
    else Glue([s[0]], Split(s[1..]))
  }

  /** Concatenating the tokens gives back exactly the input. */
  lemma {:induction false} JoinSplit(s: string)
    ensures Join(Split(s)) == s
  {
    if s == [] {
    } else if IsOperatorChar(s[0]) {
      var t := Split(s[1..]);
      JoinSplit(s[1..]);
      assert ([[], [s[0]]] + t)[1..] == [[s[0]]] + t;
      assert ([[s[0]]] + t)[1..] == t;
    } else {
      var t := Split(s[1..]);
      JoinSplit(s[1..]);
      assert t == [t[0]] + t[1..];
      assert Join(t) == t[0] + Join(t[1..]);
    }
  }

  /** There are exactly 2k+1 tokens, k being the number of operator characters. */
  lemma {:induction false} SplitLength(s: string)
    ensures |Split(s)| == 2 * CountOperators(s) + 1
  {
    if s != [] {
      SplitLength(s[1..]);
    }
  }

  /** Operators sit at odd positions, operator-free operands at even positions. */
  lemma {:induction false} SplitWellFormed(s: string)
    ensures WellFormedTokens(Split(s))
  {
    if s != [] {
      var t := Split(s[1..]);
      SplitWellFormed(s[1..]);
      if IsOperatorChar(s[0]) {
        var r := [[], [s[0]]] + t;
        forall k | 2 <= k < |r|
          ensures if k % 2 == 1 then IsOperatorToken(r[k]) else NoOperator(r[k])
        {
          assert r[k] == t[k - 2];
        }
      } else {
        var r := Glue([s[0]], t);
        assert NoOperator(r[0]) by {
          forall j | 0 <= j < |r[0]| ensures !IsOperatorChar(r[0][j]) {
            if j > 0 { assert r[0][j] == t[0][j - 1]; }
          }
        }
        forall k | 1 <= k < |r|
          ensures if k % 2 == 1 then IsOperatorToken(r[k]) else NoOperator(r[k])
        {
          assert r[k] == t[k];
        }
      }
    }
  }

  /** The tokenizer's output is the only well-formed token list that joins
      back to the input: the reference definition is pinned down by the
      properties above. */
  lemma {:induction false} SplitUnique(s: string, ts: seq<string>)
    requires WellFormedTokens(ts) && Join(ts) == s
    ensures ts == Split(s)
    decreases |s|
  {
    var tail := ts[1..];
    assert ts == [ts[0]] + tail;
    if |ts| == 1 {
      assert Join(tail) == [];
      assert ts[0] == s;
      if s != [] {
        assert NoOperator(ts[0]);
        UniqueOperand(s);
      }
    } else {
      assert WellFormedTokens(ts) ==> IsOperatorToken(ts[1]);
      assert tail == [ts[1]] + ts[2..];
      assert Join(tail) == ts[1] + Join(ts[2..]);
      var w := ts[2..];
      assert WellFormedTokens(w) by {
        forall k | 0 <= k < |w|
          ensures if k % 2 == 1 then IsOperatorToken(w[k]) else NoOperator(w[k])
        {
          assert w[k] == ts[k + 2];
        }
      }
      if ts[0] == [] {
        assert s == ts[1] + Join(w);
        assert s[0] == ts[1][0] && s[1..] == Join(w);
        SplitUnique(s[1..], w);
        assert ts[1] == [s[0]];
        assert ts == [ts[0], ts[1]] + w;
      } else {
        var ts' := [ts[0][1..]] + tail;
        assert s == [ts[0][0]] + (ts[0][1..] + Join(tail));
        assert Join(ts') == ts[0][1..] + Join(tail) by {
          assert ts'[1..] == tail;
        }
        assert WellFormedTokens(ts') by {
          assert NoOperator(ts[0]);
          forall k | 0 <= k < |ts'|
            ensures if k % 2 == 1 then IsOperatorToken(ts'[k]) else NoOperator(ts'[k])
          {
            if k > 0 { assert ts'[k] == ts[k]; }
            else {
              forall j | 0 <= j < |ts'[0]| ensures !IsOperatorChar(ts'[0][j]) {
                assert ts'[0][j] == ts[0][j + 1];
              }
            }
          }
        }
        assert s[1..] == Join(ts');
        SplitUnique(s[1..], ts');
        assert !IsOperatorChar(s[0]) by { assert NoOperator(ts[0]); assert ts[0][0] == s[0]; }
        assert [s[0]] + ts'[0] == ts[0];
      }
    }
  }

  /** An operator-free string is a single operand token. */
  lemma {:induction false} UniqueOperand(s: string)
    requires NoOperator(s)
    ensures Split(s) == [s]
  {
    if s != [] {
      assert NoOperator(s[1..]) by {
        forall j | 0 <= j < |s[1..]| ensures !IsOperatorChar(s[1..][j]) {
          assert s[1..][j] == s[j + 1];
        }
      }
      UniqueOperand(s[1..]);
      assert !IsOperatorChar(s[0]);
      assert s == [s[0]] + s[1..];
    }
  }

  /** Gluing an empty prefix changes nothing. */
  lemma GlueEmpty(ts: seq<string>)
    requires |ts| >= 1
    ensures Glue([], ts) == ts
  {
    assert [] + ts[0] == ts[0];
    assert [ts[0]] + ts[1..] == ts;
  }

  /** `splitExpressionWithDelimiter`: one left-to-right pass that closes the
      pending operand and emits each operator character it meets. */
  method SplitExpressionWithDelimiter(s: string) returns (result: seq<string>)
    ensures result == Split(s)
    ensures Join(result) == s
    ensures |result| == 2 * CountOperators(s) + 1
    ensures WellFormedTokens(result)
  {
    result := [];
    var start := 0;
    GlueEmpty(Split(s));
    assert s[0..0] == [] && s[0..] == s;
    for i := 0 to |s|
      invariant start <= i
      invariant result + Glue(s[start..i], Split(s[i..])) == Split(s)
    {
      var rest := Split(s[i + 1..]);
      assert s[i..] == [s[i]] + s[i + 1..];
      if IsOperatorChar(s[i]) {
        assert Split(s[i..]) == [[], [s[i]]] + rest;
        assert s[start..i] + [] == s[start..i] && s[i..i + 1] == [s[i]];
        assert Glue(s[start..i], Split(s[i..])) == [s[start..i], [s[i]]] + rest;
        result := result + [s[start..i]];
        result := result + [s[i..i + 1]];
        start := i + 1;
        GlueEmpty(rest);
      } else {
        assert Split(s[i..]) == Glue([s[i]], rest);
        assert s[start..i + 1] == s[start..i] + [s[i]];
        assert s[start..i] + ([s[i]] + rest[0]) == s[start..i + 1] + rest[0];
        assert Glue(s[start..i], Split(s[i..])) == Glue(s[start..i + 1], rest);
      }
    }
    assert s[|s|..] == [] && s[start..|s|] == s[start..];
    assert s[start..] + [] == s[start..];
    assert Glue(s[start..], [[]]) == [s[start..]];
    result := result + [s[start..]];
    JoinSplit(s);
    SplitLength(s);
    SplitWellFormed(s);
  }
}
