/** What an evaluated expression means. Each token string denotes a language
    (the star unrolled to a bound, as the evaluator unrolls it), and the
    operand the evaluator computes for a reference word w agrees with the
    facts of that language relative to w. In particular its word flag says
    whether w occurs inside some word of the language, which is what
    Solver::solve asks of every window. */
module ExpressionSemantics {
  import opened Operands
  import opened Languages
  import opened Expressions
  import opened ExpressionLaws
  import opened Solvers

  /** The language of a single alphabet symbol. */
  ghost function LeafLanguage(character: char): Language {
    if character == EPSILON then iset{[]} else iset{[character]}
  }

  /** A^n. */
  ghost function PowerLanguage(A: Language, n: nat): Language {
    if n == 0 then iset{[]} else Concat(PowerLanguage(A, n - 1), A)
  }

  /** A^0 + A^1 + ... + A^n. */
  ghost function StarLanguage(A: Language, n: nat): Language {
    if n == 0 then iset{[]} else StarLanguage(A, n - 1) + PowerLanguage(A, n)
  }

  /** One token on a stack of languages; None when the evaluator would fail. */
  ghost function LangStep(stack: seq<Language>, token: char, bound: nat): Option<seq<Language>> {
    if token == '*' then
      if |stack| < 1 then None
      else Some(stack[..|stack| - 1] + [StarLanguage(stack[|stack| - 1], bound)])
    else if IsOperator(token) then
      if |stack| < 2 then None
      else
        var right, left := stack[|stack| - 1], stack[|stack| - 2];
        Some(stack[..|stack| - 2] + [if token == '+' then left + right else Concat(left, right)])
    else if IsSymbolOfAlphabet(token) then Some(stack + [LeafLanguage(token)])
    else None
  }

  ghost function LangRun(stack: seq<Language>, tokens: string, bound: nat): Option<seq<Language>>
    decreases |tokens|
  {
    if tokens == [] then Some(stack)
    else
      match LangStep(stack, tokens[0], bound)
      case None => None
      case Some(next) => LangRun(next, tokens[1..], bound)
  }

  /** The language a postfix expression denotes with stars unrolled `bound` times. */
  ghost function LanguageOf(expression: string, bound: nat): Option<Language> {
    match LangRun([], expression, bound)
    case None => None
    case Some(stack) => if |stack| == 1 then Some(stack[0]) else None
  }

  /** Operand k of the stack agrees with the facts of language k, which is non-empty. */
  ghost predicate Describes(stack: seq<Operand>, langs: seq<Language>, w: string) {
    |stack| == |langs| &&
    forall k :: 0 <= k < |stack| ==> NonEmpty(langs[k]) && Agree(stack[k], FactsOf(langs[k], w))
  }

  lemma LeafMeaning(character: char, w: string)
    requires IsSymbolOfAlphabet(character) && |w| > 0
    ensures NonEmpty(LeafLanguage(character))
    ensures Agree(LeafOf(character, w), FactsOf(LeafLanguage(character), w))
  {
    if character == EPSILON {
      EpsilonLeafExact(w);
      assert [] in LeafLanguage(character);
    } else {
      LetterLeafExact(character, w);
      assert [character] in LeafLanguage(character);
    }
  }

  lemma ConcatNonEmpty(A: Language, B: Language)
    requires NonEmpty(A) && NonEmpty(B)
    ensures NonEmpty(Concat(A, B))
  {
    var x :| x in A;
    var y :| y in B;
    ConcatIntro(A, B, x, y);
  }

  /** PowerOf computes the facts of A^n. */
  lemma {:induction false} PowerMeaning(e: Operand, A: Language, w: string, n: nat)
    requires |w| > 0 && NonEmpty(A) && Agree(e, FactsOf(A, w))
    ensures NonEmpty(PowerLanguage(A, n))
    ensures Agree(PowerOf(e, w, n), FactsOf(PowerLanguage(A, n), w))
  {
    if n == 0 {
      EpsilonLeafExact(w);
      assert [] in PowerLanguage(A, n);
    } else {
      PowerMeaning(e, A, w, n - 1);
      ConcatNonEmpty(PowerLanguage(A, n - 1), A);
      ConcatExact(PowerOf(e, w, n - 1), e, PowerLanguage(A, n - 1), A, w);
    }
  }

  /** StarUpTo computes the facts of A^0 + ... + A^n. */
  lemma {:induction false} StarMeaning(e: Operand, A: Language, w: string, n: nat)
    requires |w| > 0 && NonEmpty(A) && Agree(e, FactsOf(A, w))
    ensures NonEmpty(StarLanguage(A, n))
    ensures Agree(StarUpTo(e, w, n), FactsOf(StarLanguage(A, n), w))
  {
    if n == 0 {
      EpsilonLeafExact(w);
      assert [] in StarLanguage(A, n);
    } else {
      StarMeaning(e, A, w, n - 1);
      PowerMeaning(e, A, w, n);
      UnionExact(StarUpTo(e, w, n - 1), PowerOf(e, w, n), StarLanguage(A, n - 1), PowerLanguage(A, n), w);
    }
  }

  /** Replacing the top of two matching stacks by a matching pair keeps them matching. */
  lemma DescribesPush(stack: seq<Operand>, langs: seq<Language>, kept: nat, o: Operand, A: Language, w: string)
    requires Describes(stack, langs, w) && kept <= |stack|
    requires NonEmpty(A) && Agree(o, FactsOf(A, w))
    ensures Describes(stack[..kept] + [o], langs[..kept] + [A], w)
  {
    var s, l := stack[..kept] + [o], langs[..kept] + [A];
    forall k | 0 <= k < |s|
      ensures NonEmpty(l[k]) && Agree(s[k], FactsOf(l[k], w))
    {
      if k < kept {
        assert s[k] == stack[k] && l[k] == langs[k];
      }
    }
  }

  lemma StarStepMeaning(stack: seq<Operand>, langs: seq<Language>, w: string)
    requires ValidWord(w) && StackFits(stack, w) && Describes(stack, langs, w) && |stack| >= 1
    ensures Step(stack, '*', w).Success? && LangStep(langs, '*', StarIterations(|w|)).Some?
    ensures Describes(Step(stack, '*', w).value, LangStep(langs, '*', StarIterations(|w|)).value, w)
  {
    var n := |stack|;
    StarMeaning(stack[n - 1], langs[n - 1], w, StarIterations(|w|));
    DescribesPush(stack, langs, n - 1, StarOf(stack[n - 1], w), StarLanguage(langs[n - 1], StarIterations(|w|)), w);
  }

  lemma BinaryStepMeaning(stack: seq<Operand>, langs: seq<Language>, token: char, w: string)
    requires ValidWord(w) && StackFits(stack, w) && Describes(stack, langs, w) && |stack| >= 2
    requires token == '+' || token == '.'
    ensures Step(stack, token, w).Success? && LangStep(langs, token, StarIterations(|w|)).Some?
    ensures Describes(Step(stack, token, w).value, LangStep(langs, token, StarIterations(|w|)).value, w)
  {
    var n := |stack|;
    var a, b, A, B := stack[n - 2], stack[n - 1], langs[n - 2], langs[n - 1];
    if token == '+' {
      UnionExact(a, b, A, B, w);
      assert A <= A + B;
      DescribesPush(stack, langs, n - 2, UnionOf(a, b), A + B, w);
    } else {
      ConcatExact(a, b, A, B, w);
      ConcatNonEmpty(A, B);
      DescribesPush(stack, langs, n - 2, ConcatOf(a, b), Concat(A, B), w);
    }
  }

  /** One token keeps the operand stack describing the language stack, and
      both fail on the same tokens. */
  lemma StepMeaning(stack: seq<Operand>, langs: seq<Language>, token: char, w: string)
    requires ValidWord(w) && StackFits(stack, w) && Describes(stack, langs, w)
    ensures Step(stack, token, w).Success? <==> LangStep(langs, token, StarIterations(|w|)).Some?
    ensures Step(stack, token, w).Success? ==>
              Describes(Step(stack, token, w).value, LangStep(langs, token, StarIterations(|w|)).value, w)
  {
    if token == '*' && |stack| >= 1 {
      StarStepMeaning(stack, langs, w);
    } else if (token == '+' || token == '.') && |stack| >= 2 {
      BinaryStepMeaning(stack, langs, token, w);
    } else if IsSymbolOfAlphabet(token) {
      LeafMeaning(token, w);
      DescribesPush(stack, langs, |stack|, LeafOf(token, w), LeafLanguage(token), w);
      assert stack[..|stack|] == stack && langs[..|langs|] == langs;
    }
  }

  /** The token loop keeps the operand stack describing the language stack. */
  lemma {:induction false} RunMeaning(stack: seq<Operand>, langs: seq<Language>, tokens: string, w: string)
    requires ValidWord(w) && StackFits(stack, w) && Describes(stack, langs, w)
    ensures Run(stack, tokens, w).outcome.Pass? <==> LangRun(langs, tokens, StarIterations(|w|)).Some?
    ensures Run(stack, tokens, w).outcome.Pass? ==>
              Describes(Run(stack, tokens, w).operands, LangRun(langs, tokens, StarIterations(|w|)).value, w)
    decreases |tokens|
  {
    if tokens != [] {
      StepMeaning(stack, langs, tokens[0], w);
      var step := Step(stack, tokens[0], w);
      if step.Success? {
        RunMeaning(step.value, LangStep(langs, tokens[0], StarIterations(|w|)).value, tokens[1..], w);
      }
    }
  }

  /** For a valid word w, the expression evaluates exactly when it denotes a
      language, and the value holds that language's facts: w occurs in one of
      its words exactly when the word flag is set, and it contains the empty
      word exactly when the epsilon flag is set. */
  lemma EvaluateMeaning(expression: string, w: string)
    requires ValidWord(w)
    ensures Evaluate(expression, w, []).Success? <==> LanguageOf(expression, StarIterations(|w|)).Some?
    ensures Evaluate(expression, w, []).Success? ==>
              var value, A := Evaluate(expression, w, []).value, LanguageOf(expression, StarIterations(|w|)).value;
              Agree(value, FactsOf(A, w)) &&
              (value.containsWordAsSubstring <==> SomeOccurs(A, w)) &&
              (value.containsEpsilon <==> [] in A)
  {
    RunMeaning([], [], expression, w);
  }

  /** What solve counts: a window matches exactly when it is a valid word and
      occurs inside some word of the language the expression denotes for a
      word of its length. */
  lemma MatchesMeaning(expression: string, word: string, i: nat, len: nat)
    requires IsTrial(word, i, len)
    ensures Matches(expression, word, i, len) <==>
              var window := word[i..i + len];
              ValidWord(window) && LanguageOf(expression, StarIterations(len)).Some? &&
              SomeOccurs(LanguageOf(expression, StarIterations(len)).value, window)
  {
    var window := word[i..i + len];
    if ValidWord(window) {
      EvaluateMeaning(expression, window);
    }
  }
}
