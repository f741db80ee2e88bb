/** Laws of the postfix evaluator: every token pops a fixed number of operands
    and pushes one, so whether an expression evaluates (and which depth error
    it reports) is decided by a simple operand count that never looks at the
    operands themselves. */
module ExpressionLaws {
  import opened Operands
  import opened Expressions

  datatype Option<T> = None | Some(value: T)

  /** A token the evaluator accepts: an operator or an alphabet symbol. */
  predicate IsToken(token: char) {
    IsOperator(token) || IsSymbolOfAlphabet(token)
  }

  /** How many operands a token pops (it always pushes one). */
  function Arity(token: char): nat
    requires IsToken(token)
  {
    if token == '*' then 1 else if IsOperator(token) then 2 else 0
  }

  /** The stack depth after the tokens, starting from `depth`, or None when a
      token is unknown or finds too few operands. */
  function Depth(tokens: string, depth: nat): Option<nat>
    decreases |tokens|
  {
    if tokens == [] then Some(depth)
    else if !IsToken(tokens[0]) || depth < Arity(tokens[0]) then None
    else Depth(tokens[1..], depth - Arity(tokens[0]) + 1)
  }

  /** One token: unknown symbols are rejected, known ones need Arity operands,
      pop exactly those and push one; the operands below are untouched. */
  lemma StepPopsArityPushesOne(stack: seq<Operand>, token: char, word: string)
    requires ValidWord(word) && StackFits(stack, word)
    ensures !IsToken(token) ==> Step(stack, token, word) == Failure("Unknown symbol in expression: " + [token])
    ensures IsToken(token) ==> (Step(stack, token, word).Success? <==> |stack| >= Arity(token))
    ensures IsToken(token) && |stack| < Arity(token) ==> Step(stack, token, word) == Failure("Missing operands")
    ensures Step(stack, token, word).Success? ==>
              var next := Step(stack, token, word).value;
              var kept := |stack| - Arity(token);
              |next| == kept + 1 && next[..kept] == stack[..kept]
  {
    if IsToken(token) && |stack| >= Arity(token) {
      var next := Step(stack, token, word).value;
      var kept := |stack| - Arity(token);
      assert next[..kept] == stack[..kept];
    }
  }

  /** A symbol pushes the leaf operand it denotes for the word. */
  lemma SymbolPushesLeaf(stack: seq<Operand>, token: char, word: string)
    requires ValidWord(word) && StackFits(stack, word) && IsSymbolOfAlphabet(token)
    ensures Step(stack, token, word) == Success(stack + [LeafOf(token, word)])
    ensures LeafOf(token, word).containsEpsilon <==> token == EPSILON
  {
  }

  /** Whatever the operand, what the star pushes contains the empty word. */
  lemma StarContainsEpsilon(stack: seq<Operand>, word: string)
    requires ValidWord(word) && StackFits(stack, word) && |stack| >= 1
    ensures Step(stack, '*', word).Success?
    ensures var next := Step(stack, '*', word).value; next[|next| - 1].containsEpsilon
  {
  }

  /** The token loop succeeds exactly when the operand count does, and then
      leaves the counted number of operands. */
  lemma {:induction false} RunFollowsDepth(stack: seq<Operand>, tokens: string, word: string)
    requires ValidWord(word) && StackFits(stack, word)
    ensures Run(stack, tokens, word).outcome.Pass? <==> Depth(tokens, |stack|).Some?
    ensures Run(stack, tokens, word).outcome.Pass? ==>
              |Run(stack, tokens, word).operands| == Depth(tokens, |stack|).value
    decreases |tokens|
  {
    if tokens != [] {
      StepPopsArityPushesOne(stack, tokens[0], word);
      var step := Step(stack, tokens[0], word);
      if step.Success? {
        RunFollowsDepth(step.value, tokens[1..], word);
        assert Run(stack, tokens, word) == Run(step.value, tokens[1..], word);
        assert Depth(tokens, |stack|) == Depth(tokens[1..], |step.value|);
      } else {
        assert Run(stack, tokens, word).outcome.Fail?;
        assert Depth(tokens, |stack|).None?;
      }
    }
  }

  /** The token loop's errors: an unknown symbol or too few operands. */
  lemma {:induction false} RunErrors(stack: seq<Operand>, tokens: string, word: string)
    requires ValidWord(word) && StackFits(stack, word)
    ensures var outcome := Run(stack, tokens, word).outcome;
            outcome.Fail? ==>
              outcome.error == "Missing operands" ||
              exists k :: 0 <= k < |tokens| && !IsToken(tokens[k]) &&
                          outcome.error == "Unknown symbol in expression: " + [tokens[k]]
    decreases |tokens|
  {
    if tokens != [] {
      StepPopsArityPushesOne(stack, tokens[0], word);
      var step := Step(stack, tokens[0], word);
      if step.Success? {
        RunErrors(step.value, tokens[1..], word);
        var outcome := Run(stack, tokens, word).outcome;
        if outcome.Fail? && outcome.error != "Missing operands" {
          var k :| 0 <= k < |tokens[1..]| && !IsToken(tokens[1..][k]) &&
                   outcome.error == "Unknown symbol in expression: " + [tokens[1..][k]];
          assert tokens[1..][k] == tokens[k + 1];
        }
      }
    }
  }

  /** calculateValueOfExpression on a fresh stack: an invalid word is reported
      first; otherwise the count decides between the value and the two depth
      errors, and a malformed token string reports a missing operand or its
      first unknown symbol. */
  lemma EvaluateDecidedByDepth(expression: string, word: string)
    ensures !ValidWord(word) ==> Evaluate(expression, word, []) == Failure(WordVerdict(word).error)
    ensures ValidWord(word) && Depth(expression, 0) == Some(1) ==> Evaluate(expression, word, []).Success?
    ensures ValidWord(word) && Depth(expression, 0) == Some(0) ==>
              Evaluate(expression, word, []) == Failure("Missing operands")
    ensures ValidWord(word) && Depth(expression, 0).Some? && Depth(expression, 0).value > 1 ==>
              Evaluate(expression, word, []) == Failure("Too much operands")
    ensures ValidWord(word) && Depth(expression, 0).None? ==>
              var e := Evaluate(expression, word, []);
              e.Failure? &&
              (e.error == "Missing operands" ||
               exists k :: 0 <= k < |expression| && !IsToken(expression[k]) &&
                           e.error == "Unknown symbol in expression: " + [expression[k]])
  {
    if ValidWord(word) {
      RunFollowsDepth([], expression, word);
      RunErrors([], expression, word);
    }
  }

  /** The expression evaluates for a valid word exactly when the operand count
      ends at one; in particular this does not depend on which valid word. */
  lemma EvaluateSucceedsIff(expression: string, word: string)
    ensures Evaluate(expression, word, []).Success? <==> ValidWord(word) && Depth(expression, 0) == Some(1)
  {
    EvaluateDecidedByDepth(expression, word);
  }

  /** Two operands and no operator: "Too much operands". */
  lemma TwoSymbolsAreTooMuch(word: string)
    requires ValidWord(word)
    ensures Evaluate("ab", word, []) == Failure("Too much operands")
  {
    EvaluateDecidedByDepth("ab", word);
  }

  /** An operator before its operands: "Missing operands". */
  lemma LeadingOperatorMissesOperands(word: string)
    requires ValidWord(word)
    ensures Evaluate("+a", word, []) == Failure("Missing operands")
  {
    assert "+a"[1..] == "a";
  }
}
