/** Whole-program consequences: what `a*` decides, and what solve answers for
    the expression `ab.` on two words. */
module Scenarios {
  import opened Languages
  import opened Expressions
  import opened ExpressionLaws
  import opened Solvers
  import opened ExpressionSemantics

  /** Every character of x is 'a'. */
  ghost predicate OnlyAs(x: string) {
    forall i :: 0 <= i < |x| ==> x[i] == 'a'
  }

  /** The string of n letters 'a'. */
  function As(n: nat): (x: string)
    ensures |x| == n && OnlyAs(x)
  {
    if n == 0 then [] else As(n - 1) + ['a']
  }

  lemma {:induction false} AsInPower(n: nat)
    ensures As(n) in PowerLanguage(iset{"a"}, n)
  {
    if n > 0 {
      AsInPower(n - 1);
      ConcatIntro(PowerLanguage(iset{"a"}, n - 1), iset{"a"}, As(n - 1), "a");
    }
  }

  lemma {:induction false} PowerInStar(A: Language, k: nat, n: nat)
    requires k <= n
    ensures PowerLanguage(A, k) <= StarLanguage(A, n)
  {
    if k < n {
      PowerInStar(A, k, n - 1);
    }
  }

  lemma {:induction false} PowerOfAsIsOnlyAs(n: nat, x: string)
    requires x in PowerLanguage(iset{"a"}, n)
    ensures OnlyAs(x)
  {
    if n > 0 {
      var y, z := ConcatElim(PowerLanguage(iset{"a"}, n - 1), iset{"a"}, x);
      PowerOfAsIsOnlyAs(n - 1, y);
    }
  }

  lemma {:induction false} StarOfAsIsOnlyAs(n: nat, x: string)
    requires x in StarLanguage(iset{"a"}, n)
    ensures OnlyAs(x)
  {
    if n > 0 {
      if x in StarLanguage(iset{"a"}, n - 1) {
        StarOfAsIsOnlyAs(n - 1, x);
      } else {
        PowerOfAsIsOnlyAs(n, x);
      }
    }
  }

  lemma LanguageOfAStar(bound: nat)
    ensures LanguageOf("a*", bound) == Some(StarLanguage(iset{"a"}, bound))
  {
    assert "a*"[1..] == "*" && "a*"[1..][1..] == [];
    assert LeafLanguage('a') == iset{"a"};
  }

  /** For `a*`, a valid reference word is found inside the language exactly
      when it consists of a's only: the unrolling bound 2L+2 is always long
      enough for a word of length L. */
  lemma AStarMatchesExactlyRunsOfA(w: string)
    requires ValidWord(w)
    ensures Evaluate("a*", w, []).Success?
    ensures Evaluate("a*", w, []).value.containsWordAsSubstring <==> OnlyAs(w)
  {
    var bound := StarIterations(|w|);
    var A := StarLanguage(iset{"a"}, bound);
    LanguageOfAStar(bound);
    EvaluateMeaning("a*", w);
    if OnlyAs(w) {
      assert w == As(|w|);
      AsInPower(|w|);
      PowerInStar(iset{"a"}, |w|, bound);
      assert OccursAt(w, w, 0);
    } else if SomeOccurs(A, w) {
      var x :| x in A && Occurs(w, x);
      StarOfAsIsOnlyAs(bound, x);
      OccursInOnlyAs(w, x);
    }
  }

  lemma OccursInOnlyAs(w: string, x: string)
    requires Occurs(w, x) && OnlyAs(x)
    ensures OnlyAs(w)
  {
    var j :| OccursAt(w, x, j);
    forall i | 0 <= i < |w|
      ensures w[i] == 'a'
    {
      assert x[j..j + |w|][i] == x[j + i];
    }
  }

  lemma LanguageOfAbConcat(bound: nat)
    ensures LanguageOf("ab.", bound) == Some(Concat(iset{"a"}, iset{"b"}))
  {
    assert "ab."[1..] == "b." && "b."[1..] == "." && "."[1..] == [];
    assert LeafLanguage('a') == iset{"a"} && LeafLanguage('b') == iset{"b"};
  }

  /** A window matches `ab.` only if it is at most two characters long. */
  lemma AbMatchesAreShort(word: string, i: nat, len: nat)
    requires Matches("ab.", word, i, len)
    ensures len <= 2
  {
    MatchesMeaning("ab.", word, i, len);
    LanguageOfAbConcat(StarIterations(len));
    var x, j :| x in Concat(iset{"a"}, iset{"b"}) && OccursAt(word[i..i + len], x, j);
    var y, z := ConcatElim(iset{"a"}, iset{"b"}, x);
  }

  /** Every window of a valid word is a valid word. */
  lemma WindowIsValid(word: string, i: nat, len: nat)
    requires ValidWord(word) && IsTrial(word, i, len)
    ensures ValidWord(word[i..i + len])
  {
    var window := word[i..i + len];
    forall k | 0 <= k < |window|
      ensures IsLetter(window[k])
    {
      assert window[k] == word[i + k];
    }
  }

  lemma AbEvaluatesOnEveryWindowOfAabb()
    ensures forall i, len :: IsTrial("aabb", i, len) ==> TrialResult("ab.", "aabb", i, len).Success?
  {
    forall i, len | IsTrial("aabb", i, len)
      ensures TrialResult("ab.", "aabb", i, len).Success?
    {
      assert ValidWord("aabb");
      WindowIsValid("aabb", i, len);
      EvaluateSucceedsIff("ab.", "aabb"[i..i + len]);
    }
  }

  lemma AbOccursInAbLanguage()
    ensures SomeOccurs(Concat(iset{"a"}, iset{"b"}), "ab")
  {
    ConcatIntro(iset{"a"}, iset{"b"}, "a", "b");
    assert "a" + "b" == "ab";
    assert OccursAt("ab", "ab", 0);
  }

  lemma AbMatchesInsideAabb()
    ensures Matches("ab.", "aabb", 1, 2)
  {
    var word := "aabb";
    assert word[1..3] == "ab";
    assert ValidWord("ab");
    MatchesMeaning("ab.", word, 1, 2);
    LanguageOfAbConcat(StarIterations(2));
    AbOccursInAbLanguage();
  }

  lemma AabbSucceeds(expression: string, word: string, r: Result<nat>)
    requires expression == "ab." && word == "aabb"
    requires r.Success? <==> forall i, len :: IsTrial(word, i, len) ==> TrialResult(expression, word, i, len).Success?
    ensures r.Success?
  {
    AbEvaluatesOnEveryWindowOfAabb();
  }

  lemma AabbAtLeastTwo(expression: string, word: string, r: Result<nat>)
    requires expression == "ab." && word == "aabb" && r.Success?
    requires forall i, len :: Matches(expression, word, i, len) ==> len <= r.value
    ensures r.value >= 2
  {
    AbMatchesInsideAabb();
  }

  lemma AabbAtMostTwo(expression: string, word: string, r: Result<nat>)
    requires expression == "ab." && r.Success?
    requires r.value > 0 ==> exists i :: Matches(expression, word, i, r.value)
    ensures r.value <= 2
  {
    if r.value > 0 {
      var i :| Matches(expression, word, i, r.value);
      AbMatchesAreShort(word, i, r.value);
    }
  }

  lemma AabbAnswer(expression: string, word: string, r: Result<nat>)
    requires expression == "ab." && word == "aabb"
    requires SolvePromise(expression, word, r)
    ensures r == Success(2)
  {
    AabbSucceeds(expression, word, r);
    AabbAtLeastTwo(expression, word, r);
    AabbAtMostTwo(expression, word, r);
  }

  /** The longest substring of "aabb" found inside a word of `ab.` is "ab". */
  method SolveAbOnAabb() returns (r: Result<nat>)
    ensures r == Success(2)
  {
    var expression := new Expression();
    var read := expression.ReadExpression("ab.");
    var solver := new Solver(expression, "aabb");
    r := solver.Solve();
    AabbAnswer(solver.expression.expression, solver.word, r);
  }

  /** solve can be called again on the same solver and gives the same answer:
      every trial works on its own copy of the expression, so the solver's
      state is never changed. */
  method SolveTwice(expression: Expression, word: string) returns (r1: Result<nat>, r2: Result<nat>)
    requires expression.operands == []
    ensures r1 == r2
  {
    var solver := new Solver(expression, word);
    r1 := solver.Solve();
    r2 := solver.Solve();
    SolvePromiseDeterminesResult(solver.expression.expression, solver.word, r1, r2);
  }

  lemma FirstWindowOfXabyFails(expression: string, word: string)
    requires expression == "ab." && word == "xaby"
    ensures IsTrial(word, 0, 1)
    ensures TrialResult(expression, word, 0, 1) == Failure("Unknown symbol in word: x")
  {
    assert word[0..1] == "x";
    assert !IsLetter("x"[0]);
    assert FirstNonLetter("x") == 0;
  }

  lemma XabyAnswer(expression: string, word: string, r: Result<nat>)
    requires expression == "ab." && word == "xaby"
    requires r.Success? <==> forall i, len :: IsTrial(word, i, len) ==> TrialResult(expression, word, i, len).Success?
    requires r.Failure? ==>
               exists i, len :: IsTrial(word, i, len) &&
                 TrialResult(expression, word, i, len) == Failure(r.error) &&
                 forall i', len' :: IsTrial(word, i', len') && Before(i', len', i, len) ==>
                   TrialResult(expression, word, i', len').Success?
    ensures r == Failure("Unknown symbol in word: x")
  {
    FirstWindowOfXabyFails(expression, word);
    var i, len :| IsTrial(word, i, len) &&
                  TrialResult(expression, word, i, len) == Failure(r.error) &&
                  forall i', len' :: IsTrial(word, i', len') && Before(i', len', i, len) ==>
                    TrialResult(expression, word, i', len').Success?;
    assert !Before(0, 1, i, len);
  }

  /** A word holding a character outside {a, b, c} aborts the search at the
      very first trial, even where a longer window would match. */
  method SolveAbOnXaby() returns (r: Result<nat>)
    ensures r == Failure("Unknown symbol in word: x")
  {
    var expression := new Expression();
    var read := expression.ReadExpression("ab.");
    var solver := new Solver(expression, "xaby");
    r := solver.Solve();
    XabyAnswer(solver.expression.expression, solver.word, r);
  }
}
