/** struct Solver of solution.cpp: evaluates the expression afresh for every
    window word[i..i+len] of the input word, in order of start position and
    then of length, and answers the longest window that is a substring of
    some word of the expression's language. The first trial that raises
    an error aborts the whole computation with that error. */
module Solvers {
  import opened Operands
  import opened Expressions

  /** A window of `word`: a non-empty slice, in range. */
  ghost predicate IsTrial(word: string, i: int, len: int) {
    0 <= i < |word| && 1 <= len <= |word| - i
  }

  /** The value one trial computes: the expression evaluated on the window
      with an empty stack. */
  ghost function TrialResult(expression: string, word: string, i: nat, len: nat): Result<Operand>
    requires IsTrial(word, i, len)
  {
    Evaluate(expression, word[i..i + len], [])
  }

  /** The window is found inside some word of the expression's language. */
  ghost predicate Matches(expression: string, word: string, i: int, len: int) {
    IsTrial(word, i, len) &&
    TrialResult(expression, word, i, len).Success? &&
    TrialResult(expression, word, i, len).value.containsWordAsSubstring
  }

  /** Trial (i', len') comes before trial (i, len) in the solver's order. */
  ghost predicate Before(i': int, len': int, i: int, len: int) {
    i' < i || (i' == i && len' < len)
  }

  /** Everything Solve promises about its result r. */
  ghost predicate SolvePromise(expression: string, word: string, r: Result<nat>) {
    && (r.Success? <==> forall i, len :: IsTrial(word, i, len) ==> TrialResult(expression, word, i, len).Success?)
    && (r.Success? ==> r.value <= |word|)
    && (r.Success? ==> forall i, len :: Matches(expression, word, i, len) ==> len <= r.value)
    && (r.Success? && r.value > 0 ==> exists i :: Matches(expression, word, i, r.value))
    && (r.Failure? ==>
          exists i, len :: IsTrial(word, i, len) &&
            TrialResult(expression, word, i, len) == Failure(r.error) &&
            forall i', len' :: IsTrial(word, i', len') && Before(i', len', i, len) ==>
              TrialResult(expression, word, i', len').Success?)
  }

  /** Solve's promise leaves no choice: for the same tokens and word, any two
      results that keep it are equal, so solve answers the same every time. */
  lemma SolvePromiseDeterminesResult(expression: string, word: string, r1: Result<nat>, r2: Result<nat>)
    requires SolvePromise(expression, word, r1) && SolvePromise(expression, word, r2)
    ensures r1 == r2
  {
    if r1.Success? {
      SuccessValueDetermined(expression, word, r1, r2);
    } else {
      FailureErrorDetermined(expression, word, r1, r2);
    }
  }

  lemma SuccessValueDetermined(expression: string, word: string, r1: Result<nat>, r2: Result<nat>)
    requires SolvePromise(expression, word, r1) && SolvePromise(expression, word, r2) && r1.Success?
    ensures r1 == r2
  {
    assert r2.Success?;
    if r1.value > 0 {
      var i :| Matches(expression, word, i, r1.value);
    }
    if r2.value > 0 {
      var i :| Matches(expression, word, i, r2.value);
    }
  }

  /** Trial (i, len) fails and every trial before it succeeds. */
  ghost predicate FirstFailure(expression: string, word: string, i: int, len: int) {
    && IsTrial(word, i, len)
    && TrialResult(expression, word, i, len).Failure?
    && forall i', len' :: IsTrial(word, i', len') && Before(i', len', i, len) ==>
         TrialResult(expression, word, i', len').Success?
  }

  /** The order of trials is total, so at most one trial fails first. */
  lemma FirstFailureUnique(expression: string, word: string, i1: int, len1: int, i2: int, len2: int)
    requires FirstFailure(expression, word, i1, len1) && FirstFailure(expression, word, i2, len2)
    ensures i1 == i2 && len1 == len2
  {
    if Before(i1, len1, i2, len2) {
      assert false;
    } else if Before(i2, len2, i1, len1) {
      assert false;
    }
  }

  lemma FailureErrorDetermined(expression: string, word: string, r1: Result<nat>, r2: Result<nat>)
    requires SolvePromise(expression, word, r1) && SolvePromise(expression, word, r2) && r1.Failure?
    ensures r1 == r2
  {
    assert r2.Failure?;
    var i1, len1 :| IsTrial(word, i1, len1) &&
      TrialResult(expression, word, i1, len1) == Failure(r1.error) &&
      forall i', len' :: IsTrial(word, i', len') && Before(i', len', i1, len1) ==>
        TrialResult(expression, word, i', len').Success?;
    var i2, len2 :| IsTrial(word, i2, len2) &&
      TrialResult(expression, word, i2, len2) == Failure(r2.error) &&
      forall i', len' :: IsTrial(word, i', len') && Before(i', len', i2, len2) ==>
        TrialResult(expression, word, i', len').Success?;
    FirstFailureUnique(expression, word, i1, len1, i2, len2);
  }

  class Solver {
    const expression: Expression
    const word: string

    /** Solver(const Expression &, const string &): the solver keeps its own
        copy of the expression, so later changes to the caller's object do
        not reach it. */
    constructor (expression: Expression, word: string)
      ensures fresh(this.expression)
      ensures this.expression.operands == expression.operands
      ensures this.expression.expression == expression.expression
      ensures this.word == word
    {
      this.expression := new Expression.Copy(expression);
      this.word := word;
    }

    /** solve: the length of the longest matching window (0 when none
        matches), or the error of the first failing trial. The expression
        starts with an empty stack, as it does after readExpression. */
    method Solve() returns (r: Result<nat>)
      requires expression.operands == []
      ensures r.Success? <==>
                forall i, len :: IsTrial(word, i, len) ==> TrialResult(expression.expression, word, i, len).Success?
      ensures r.Success? ==> r.value <= |word|
      ensures r.Success? ==> forall i, len :: Matches(expression.expression, word, i, len) ==> len <= r.value
      ensures r.Success? && r.value > 0 ==> exists i :: Matches(expression.expression, word, i, r.value)
      ensures r.Failure? ==>
                exists i, len :: IsTrial(word, i, len) &&
                  TrialResult(expression.expression, word, i, len) == Failure(r.error) &&
                  forall i', len' :: IsTrial(word, i', len') && Before(i', len', i, len) ==>
                    TrialResult(expression.expression, word, i', len').Success?
    {
      var answer: nat := 0;
      for startPosition := 0 to |word|
        invariant answer <= |word|
        invariant forall i, len :: IsTrial(word, i, len) && i < startPosition ==>
                    TrialResult(expression.expression, word, i, len).Success?
        invariant forall i, len :: Matches(expression.expression, word, i, len) && i < startPosition ==>
                    len <= answer
        invariant answer > 0 ==> exists i :: Matches(expression.expression, word, i, answer)
      {
        var scanned := ScanFrom(startPosition, answer);
        if scanned.Failure? {
          ghost var len :| IsTrial(word, startPosition, len) &&
                     TrialResult(expression.expression, word, startPosition, len) == Failure(scanned.error) &&
                     forall len' :: 1 <= len' < len ==> TrialResult(expression.expression, word, startPosition, len').Success?;
          assert forall i', len' :: IsTrial(word, i', len') && Before(i', len', startPosition, len) ==>
                   TrialResult(expression.expression, word, i', len').Success?;
          return Failure(scanned.error);
        }
        answer := scanned.value;
      }
      return Success(answer);
    }

    /** The inner loop of solve: every window starting at `startPosition`, by
        increasing length, raising `answer` to the longest one that matches,
        or the error of the first window that fails. */
    method ScanFrom(startPosition: nat, answer: nat) returns (r: Result<nat>)
      requires expression.operands == [] && startPosition < |word| && answer <= |word|
      requires answer > 0 ==> exists i :: Matches(expression.expression, word, i, answer)
      ensures r.Success? <==>
                forall len :: IsTrial(word, startPosition, len) ==>
                  TrialResult(expression.expression, word, startPosition, len).Success?
      ensures r.Success? ==> answer <= r.value <= |word|
      ensures r.Success? ==> forall len :: Matches(expression.expression, word, startPosition, len) ==> len <= r.value
      ensures r.Success? && r.value > 0 ==> exists i :: Matches(expression.expression, word, i, r.value)
      ensures r.Failure? ==>
                exists len :: IsTrial(word, startPosition, len) &&
                  TrialResult(expression.expression, word, startPosition, len) == Failure(r.error) &&
                  forall len' :: 1 <= len' < len ==> TrialResult(expression.expression, word, startPosition, len').Success?
    {
      var longest := answer;
      for length := 1 to |word| - startPosition + 1
        invariant answer <= longest <= |word|
        invariant forall len :: IsTrial(word, startPosition, len) && len < length ==>
                    TrialResult(expression.expression, word, startPosition, len).Success?
        invariant forall len :: Matches(expression.expression, word, startPosition, len) && len < length ==>
                    len <= longest
        invariant longest > 0 ==> exists i :: Matches(expression.expression, word, i, longest)
      {
        var result := Trial(startPosition, length);
        if result.Failure? {
          return Failure(result.error);
        }
        if result.value.IsWordEqualToSomeSubstringInLanguage() {
          assert Matches(expression.expression, word, startPosition, length);
          longest := if longest < length then length else longest;
        }
      }
      return Success(longest);
    }

    /** One iteration of solve: a copy of the expression evaluated on the window. */
    method Trial(startPosition: nat, length: nat) returns (result: Result<Operand>)
      requires expression.operands == [] && IsTrial(word, startPosition, length)
      ensures result == TrialResult(expression.expression, word, startPosition, length)
    {
      var toCheck := word[startPosition..startPosition + length];
      var bufferExpression := new Expression.Copy(expression);
      result := bufferExpression.CalculateValueOfExpression(toCheck);
    }
  }
}
