/** The postfix evaluator of solution.cpp (struct Expression).

    An expression is a string of tokens: the symbols a, b, c and the epsilon
    symbol push a leaf operand for the reference word, `+` and `.` pop two
    operands and push their union or concatenation, and `*` pops one operand e
    and pushes e^0 + e^1 + ... + e^(2L+2), L being the length of the word.
    ParseException becomes the Failure/Fail alternatives below, carrying the
    message the source throws.

    The pure specification (Step, Run, Evaluate) describes one evaluation as a
    function of the token string, the word and the stack it starts from; the
    class Expression holds the token string and the stack as fields and its
    methods are proved to follow that specification. */
module Expressions {
  import opened Operands

  datatype Result<T> = Success(value: T) | Failure(error: string)

  datatype Outcome = Pass | Fail(error: string)

  datatype OperatorType = Plus | Multiply | KleeneStar

  // ---------------------------------------------------------------------------
  // Classifiers

  /** isOperator: the character denotes one of the three operators. */
  predicate IsOperator(character: char)
    ensures IsOperator(character) <==> exists op :: OperatorSymbol(op) == character
  {
    assert OperatorSymbol(Plus) == '+' && OperatorSymbol(Multiply) == '.' && OperatorSymbol(KleeneStar) == '*';
    character in {'+', '.', '*'}
  }

  /** isSymbolOfAlphabet: a letter or the empty-word symbol, and never an operator. */
  predicate IsSymbolOfAlphabet(character: char)
    ensures IsSymbolOfAlphabet(character) <==> IsLetter(character) || character == EPSILON
    ensures IsSymbolOfAlphabet(character) ==> !IsOperator(character)
  {
    character in {'a', 'b', 'c', EPSILON}
  }

  /** A letter a reference word may contain: an alphabet symbol other than epsilon. */
  predicate IsLetter(character: char) {
    character in {'a', 'b', 'c'}
  }

  /** The character that denotes each operator in an expression. */
  function OperatorSymbol(op: OperatorType): char {
    match op
    case Plus => '+'
    case Multiply => '.'
    case KleeneStar => '*'
  }

  /** operatorCode: the operator a character denotes, or the "Unknown operator" error. */
  function OperatorCode(character: char): (r: Result<OperatorType>)
    ensures r.Success? <==> IsOperator(character)
    ensures r.Success? ==> OperatorSymbol(r.value) == character
    ensures r.Failure? ==> r.error == "Unknown operator symbol: " + [character]
  {
    match character
    case '+' => Success(Plus)
    case '.' => Success(Multiply)
    case '*' => Success(KleeneStar)
    case _ => Failure("Unknown operator symbol: " + [character])
  }

  /** Operator symbols and alphabet symbols are disjoint, so the evaluator's
      three-way test on each token is unambiguous. */
  lemma ClassifiersDisjoint(character: char)
    ensures !(IsOperator(character) && IsSymbolOfAlphabet(character))
    ensures IsLetter(character) <==> IsSymbolOfAlphabet(character) && character != EPSILON
  {
  }

  /** OperatorSymbol and OperatorCode are inverse. */
  lemma OperatorCodeRoundTrip(op: OperatorType)
    ensures OperatorCode(OperatorSymbol(op)) == Success(op)
  {
  }

  // ---------------------------------------------------------------------------
  // The word check

  ghost predicate ValidWord(word: string) {
    |word| > 0 && forall i :: 0 <= i < |word| ==> IsLetter(word[i])
  }

  /** The position of the first character of `word` that is not a letter. */
  function FirstNonLetter(word: string): (k: nat)
    requires exists i :: 0 <= i < |word| && !IsLetter(word[i])
    ensures k < |word| && !IsLetter(word[k])
    ensures forall j :: 0 <= j < k ==> IsLetter(word[j])
  {
    if !IsLetter(word[0]) then 0
    else
      assert exists i :: 0 <= i < |word[1..]| && !IsLetter(word[1..][i]) by {
        var i :| 0 <= i < |word| && !IsLetter(word[i]);
        assert word[1..][i - 1] == word[i];
      }
      1 + FirstNonLetter(word[1..])
  }

  /** What checkWord decides: an empty word, or the first character outside
      {a, b, c} (the epsilon symbol included), is rejected. */
  function WordVerdict(word: string): (r: Outcome)
    ensures r.Pass? <==> ValidWord(word)
  {
    if |word| == 0 then Fail("Word is empty")
    else if forall i :: 0 <= i < |word| ==> IsLetter(word[i]) then Pass
    else Fail("Unknown symbol in word: " + [word[FirstNonLetter(word)]])
  }

  // ---------------------------------------------------------------------------
  // Kleene star

  /** The number of iterations of the star loop for a word of length L. */
  function StarIterations(L: nat): nat
  {
    2 * L + 2
  }

  /** e^n, built as e^0 = the epsilon leaf and e^(n+1) = e^n . e. */
  ghost function PowerOf(e: Operand, word: string, n: nat): (r: Operand)
    requires e.Valid() && e.wordLength == |word|
    ensures r.Valid() && r.Tidy() && r.wordLength == |word|
  {
    if n == 0 then LeafOf(EPSILON, word) else ConcatOf(PowerOf(e, word, n - 1), e)
  }

  /** e^0 + e^1 + ... + e^n. */
  ghost function StarUpTo(e: Operand, word: string, n: nat): (r: Operand)
    requires e.Valid() && e.wordLength == |word|
    ensures r.Valid() && r.Tidy() && r.wordLength == |word|
    ensures r.containsEpsilon
  {
    if n == 0 then LeafOf(EPSILON, word)
    else UnionOf(StarUpTo(e, word, n - 1), PowerOf(e, word, n))
  }

  /** What the star operator pushes for e. */
  ghost function StarOf(e: Operand, word: string): Operand
    requires e.Valid() && e.wordLength == |word|
  {
    StarUpTo(e, word, StarIterations(|word|))
  }

  // ---------------------------------------------------------------------------
  // One evaluation, as a function

  /** Every operand on the stack is a well-shaped, tidy operand for `word`. */
  ghost predicate StackFits(stack: seq<Operand>, word: string) {
    forall k :: 0 <= k < |stack| ==>
      stack[k].Valid() && stack[k].Tidy() && stack[k].wordLength == |word|
  }

  /** calculateOperator: the stack after applying one operator, or "Missing operands". */
  ghost function ApplyOperator(stack: seq<Operand>, op: OperatorType, word: string): (r: Result<seq<Operand>>)
    requires StackFits(stack, word)
    ensures r.Success? ==> StackFits(r.value, word)
  {
    if op == KleeneStar then
      if |stack| < 1 then Failure("Missing operands")
      else Success(stack[..|stack| - 1] + [StarOf(stack[|stack| - 1], word)])
    else if |stack| < 2 then Failure("Missing operands")
    else
      var right, left := stack[|stack| - 1], stack[|stack| - 2];
      Success(stack[..|stack| - 2] + [if op == Plus then UnionOf(left, right) else ConcatOf(left, right)])
  }

  /** One token of the expression. */
  ghost function Step(stack: seq<Operand>, token: char, word: string): (r: Result<seq<Operand>>)
    requires ValidWord(word) && StackFits(stack, word)
    ensures r.Success? ==> StackFits(r.value, word)
  {
    if IsOperator(token) then ApplyOperator(stack, OperatorCode(token).value, word)
    else if IsSymbolOfAlphabet(token) then Success(stack + [LeafOf(token, word)])
    else Failure("Unknown symbol in expression: " + [token])
  }

  /** The stack when the token loop stops, and the error that stopped it early, if any. */
  datatype RunState = RunState(operands: seq<Operand>, outcome: Outcome)

  /** The token loop: tokens left to right, stopping at the first error with
      the stack as it was before the failing token. */
  ghost function Run(stack: seq<Operand>, tokens: string, word: string): (r: RunState)
    requires ValidWord(word) && StackFits(stack, word)
    ensures StackFits(r.operands, word)
    decreases |tokens|
  {
    if tokens == [] then RunState(stack, Pass)
    else
      match Step(stack, tokens[0], word)
      case Failure(message) => RunState(stack, Fail(message))
      case Success(next) => Run(next, tokens[1..], word)
  }

  /** calculateValueOfExpression: check the word, run the tokens, and demand
      exactly one operand at the end. */
  ghost function Evaluate(expression: string, word: string, stack: seq<Operand>): (r: Result<Operand>)
    requires StackFits(stack, word)
    ensures !ValidWord(word) ==> r == Failure(WordVerdict(word).error)
    ensures r.Success? ==> ValidWord(word) && r.value.Valid() && r.value.Tidy() && r.value.wordLength == |word|
  {
    match WordVerdict(word)
    case Fail(message) => Failure(message)
    case Pass =>
      var run := Run(stack, expression, word);
      if run.outcome.Fail? then Failure(run.outcome.error)
      else if |run.operands| > 1 then Failure("Too much operands")
      else if |run.operands| < 1 then Failure("Missing operands")
      else Success(run.operands[|run.operands| - 1])
  }

  /** The stack an evaluation leaves behind (the source never clears it). */
  ghost function StackAfter(expression: string, word: string, stack: seq<Operand>): seq<Operand>
    requires StackFits(stack, word)
  {
    if WordVerdict(word).Fail? then stack else Run(stack, expression, word).operands
  }

  // ---------------------------------------------------------------------------
  // The evaluator object

  class Expression {
    /** The operand stack; its top is the last element. */
    var operands: seq<Operand>
    /** The postfix token string. */
    var expression: string

    constructor ()
      ensures operands == [] && expression == []
    {
      operands := [];
      expression := [];
    }

    /** The copy the solver makes for every trial: same tokens, same stack. */
    constructor Copy(other: Expression)
      ensures operands == other.operands && expression == other.expression
    {
      operands := other.operands;
      expression := other.expression;
    }

    /** readExpression without the input stream: stores the token string that
        was read and rejects an empty one. */
    method ReadExpression(input: string) returns (r: Outcome)
      modifies this
      ensures expression == input && operands == old(operands)
      ensures r == if input == [] then Fail("Expression is empty") else Pass
    {
      expression := input;
      if expression == [] {
        return Fail("Expression is empty");
      }
      return Pass;
    }

    /** checkWord: scans the word and reports the first character outside {a, b, c}. */
    method CheckWord(word: string) returns (r: Outcome)
      ensures r == WordVerdict(word)
    {
      if |word| == 0 {
        return Fail("Word is empty");
      }
      for i := 0 to |word|
        invariant forall j :: 0 <= j < i ==> IsLetter(word[j])
      {
        var element := word[i];
        if element == EPSILON || !IsSymbolOfAlphabet(element) {
          return Fail("Unknown symbol in word: " + [element]);
        }
      }
      return Pass;
    }

    /** calculateKleeneStar: pops e and pushes e^0 + ... + e^(2L+2), built by
        alternately multiplying the current power by e and adding it. */
    method CalculateKleeneStar(word: string) returns (r: Outcome)
      requires StackFits(operands, word)
      modifies this
      ensures expression == old(expression)
      ensures r == if |old(operands)| < 1 then Fail("Missing operands") else Pass
      ensures ApplyOperator(old(operands), KleeneStar, word) ==
              if r.Pass? then Success(operands) else Failure(r.error)
      ensures r.Fail? ==> operands == old(operands)
    {
      if |operands| < 1 {
        return Fail("Missing operands");
      }
      var currentPow := NewLeaf(EPSILON, word);
      var startOperand := operands[|operands| - 1];
      operands := operands[..|operands| - 1];
      var currentOperand := currentPow;
      for i := 0 to StarIterations(|word|)
        invariant expression == old(expression)
        invariant operands == old(operands)[..|old(operands)| - 1]
        invariant currentPow == PowerOf(startOperand, word, i)
        invariant currentOperand == StarUpTo(startOperand, word, i)
      {
        var nextPow := Operands.Multiply(currentPow, startOperand);
        var nextOperand := Add(currentOperand, nextPow);
        currentPow := nextPow;
        currentOperand := nextOperand;
      }
      operands := operands + [currentOperand];
      return Pass;
    }

    /** calculateOperator: star is delegated; `+` and `.` need two operands. */
    method CalculateOperator(word: string, currentOperator: OperatorType) returns (r: Outcome)
      requires StackFits(operands, word)
      modifies this
      ensures expression == old(expression)
      ensures ApplyOperator(old(operands), currentOperator, word) ==
              if r.Pass? then Success(operands) else Failure(r.error)
      ensures r.Fail? ==> operands == old(operands)
    {
      if currentOperator == KleeneStar {
        r := CalculateKleeneStar(word);
        return;
      }
      if |operands| < 2 {
        return Fail("Missing operands");
      }
      var right := operands[|operands| - 1];
      var left := operands[|operands| - 2];
      operands := operands[..|operands| - 2];
      var combined;
      if currentOperator == Plus {
        combined := Add(left, right);
      } else {
        combined := Operands.Multiply(left, right);
      }
      operands := operands + [combined];
      return Pass;
    }

    /** calculateValueOfExpression: the evaluation specified by Evaluate, leaving
        the stack StackAfter describes. */
    method CalculateValueOfExpression(word: string) returns (r: Result<Operand>)
      requires StackFits(operands, word)
      modifies this
      ensures expression == old(expression)
      ensures r == Evaluate(expression, word, old(operands))
      ensures operands == StackAfter(expression, word, old(operands))
    {
      var verdict := CheckWord(word);
      if verdict.Fail? {
        return Failure(verdict.error);
      }
      for i := 0 to |expression|
        invariant expression == old(expression)
        invariant StackFits(operands, word)
        invariant Run(old(operands), expression, word) == Run(operands, expression[i..], word)
      {
        var token := expression[i];
        assert expression[i..][0] == token && expression[i..][1..] == expression[i + 1..];
        if IsOperator(token) {
          var currentOperator := OperatorCode(token).value;
          var outcome := CalculateOperator(word, currentOperator);
          if outcome.Fail? {
            return Failure(outcome.error);
          }
        } else if IsSymbolOfAlphabet(token) {
          var leaf := NewLeaf(token, word);
          operands := operands + [leaf];
        } else {
          return Failure("Unknown symbol in expression: " + [token]);
        }
      }
      assert expression[|expression|..] == [];
      if |operands| > 1 {
        return Failure("Too much operands");
      }
      if |operands| < 1 {
        return Failure("Missing operands");
      }
      return Success(operands[|operands| - 1]);
    }
  }
}
