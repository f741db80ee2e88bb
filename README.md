# Substring search in a regular language: a Dafny model

The program reads a regular expression in postfix notation over the alphabet
{a, b, c}. In that notation `1` is the empty word, `+` is union, `.` is
concatenation and `*` is the Kleene star. It also reads a word u. It prints
the length of the longest substring of u that occurs as a substring of some
word of the expression's language.

Languages are never enumerated. For a fixed reference word W of length L, an
`Operand` holds a fixed set of boolean facts about its language:
- which windows W[i..i+n) belong to the language;
- whether the empty word does;
- whether W occurs inside some word of the language;
- for each length p, whether some word of the language ends with the first
  p characters of W;
- for each length p, whether some word of the language starts with the last
  p characters of W.

Union and concatenation combine these facts directly. The star is unrolled
2L+2 times. `Solver::solve` re-evaluates the expression with every window of
u as the reference word and keeps the longest window for which the evaluator
reports W inside the language.

The model has five layers:

- `Operands` (operand.dfy) models the operand. It is a datatype with the
  source's three tables, its two flags and the word length. Each operation
  of the source has a declarative specification function: `EmptyOperand`,
  `LeafOf`, `UnionOf` and `ConcatOf`. The empty operand is built by an
  initializer list with no loops, so `EmptyOperand` is its whole model. The
  other three operations also have a method with the source's loops
  (`NewLeaf`, `Add`, and `Multiply` with the two `Update…ForMultiply`
  helpers), proved to compute exactly that function.
- `OperandAlgebra` (operand_algebra.dfy) gives the algebraic laws of union
  and concatenation on operands.
- `Languages` (languages.dfy) gives the tables a meaning. `FactsOf(A, W)` is
  the operand holding the true facts of a language A, a possibly infinite
  set of strings, relative to W. It is stated on the non-empty windows, the
  two flags and the boundary lengths 1..L-1, and sets every other entry to
  false. Leaves, union and concatenation are proved to agree with `FactsOf`
  of the resulting language on exactly those entries (`Agree`).
  Concatenation reads only these entries. Union ORs the other entries only
  into themselves, so no entry that `Agree` compares depends on them
  (`OperandAlgebra.UnionRespectsAgree`).
- `Expressions` and `ExpressionLaws` (expression.dfy, expression_laws.dfy)
  model the postfix evaluator. `Expression` is a class whose operand stack
  and token string are fields, and whose methods are proved against the
  functions `Step`, `Run` and `Evaluate`. The laws show that every token
  pops its arity and pushes one operand. As a result, success and the depth
  errors are decided by an operand count.
- `Solvers` and `ExpressionSemantics` (solver.dfy, expression_semantics.dfy)
  model the search and its meaning. `Solver.Solve` is proved to return the
  longest matching window, or the error of the first failing trial. The
  semantics proves that the evaluated operand agrees with the facts of the
  language the expression denotes, with the star bounded as the
  evaluator bounds it. So a window "matches" exactly when it occurs inside
  a word of that language. `Scenarios` (scenarios.dfy) draws whole-program
  consequences from these results.

`ParseException` becomes the `Failure`/`Fail` alternatives of `Result` and
`Outcome`. They carry the message text the source throws.

Where the source's documentation and its code differ, the model follows the
code:
- Every trial checks its own window. A word containing a character outside
  {a, b, c} therefore aborts the search at the first trial containing that
  character. For example, `ab.` with the word `xaby` reports
  "Unknown symbol in word: x" rather than 2 (`Scenarios.SolveAbOnXaby`).
- Concatenation keeps a side's word flag and boundary facts even when the
  other side's language is empty. Union is exact for all languages, but
  concatenation is exact only when both factors are non-empty. Every
  expression denotes a non-empty language, so this case never arises during
  evaluation
  (`OperandAlgebra.ConcatWithEmptyKeepsWordFlag`).

## Model

| member | source | states |
|---|---|---|
| Operands.EmptyOperand | solution.cpp:212-216 | the operand for a word of length L has (L+1)x(L+1) and L+1 tables with every fact false |
| Operands.LeafOf | solution.cpp:175-209 | a leaf operand is well shaped for the word; the epsilon leaf sets only the epsilon fact; a letter c sets the windows W[i]=c, the word flag when W is c, and the boundary facts of length 1 |
| Operands.NewLeaf | solution.cpp:175-209 | the constructor's loops build exactly LeafOf |
| Operands.UnionOf | solution.cpp:224-244 | the union is well shaped for the same word and keeps operands tidy: only window entries and non-zero boundary lengths are ever set |
| Operands.Add | solution.cpp:224-244 | operator+'s nested loops compute exactly UnionOf: an OR over every window entry and every boundary length 1..L, all other entries copied from the left operand |
| Operands.ConcatOf | solution.cpp:246-255 | the concatenation is well shaped and tidy for the same word |
| Operands.UpdateContainsSubstringForMultiply | solution.cpp:129-170 | each window entry becomes its old value OR some split point 0..n with its left part in left and its right part in right, with empty parts read from the epsilon flags; the epsilon flag becomes left's AND right's; nothing else changes |
| Operands.UpdateContainsWordAsSubstringForMultiply | solution.cpp:57-127 | the word flag is left's OR right's OR W straddling the boundary; each boundary entry 1..L-1 gets its three-way join rule; other entries are unchanged |
| Operands.Multiply | solution.cpp:246-255 | operator* (a blank operand filled by the two helpers) computes exactly ConcatOf |
| OperandAlgebra.UnionIsPointwiseOr | solution.cpp:224-244 | for tidy operands, every entry of the union is the OR of the two entries |
| OperandAlgebra.OperandExtensionality | solution.cpp:32-55 | two operands are equal when their shapes and every entry agree |
| OperandAlgebra.UnionCommutative | solution.cpp:224-244 | a + b == b + a for tidy operands |
| OperandAlgebra.UnionAssociative | solution.cpp:224-244 | (a + b) + c == a + (b + c) for tidy operands |
| OperandAlgebra.UnionIdempotent | solution.cpp:224-244 | a + a == a |
| OperandAlgebra.UnionEmptyRightIdentity | solution.cpp:212-244 | the empty operand is a right identity of union on every well-shaped operand |
| OperandAlgebra.UnionEmptyIdentity | solution.cpp:212-244 | the empty operand is a two-sided identity of union on tidy operands |
| OperandAlgebra.AgreeReflexive | solution.cpp:32-55 | agreement on the non-empty windows, both flags and boundary lengths 1..L-1 is reflexive |
| OperandAlgebra.AgreeSymmetric | solution.cpp:32-55 | that agreement is symmetric |
| OperandAlgebra.AgreeTransitive | solution.cpp:32-55 | that agreement is transitive |
| OperandAlgebra.ConcatRespectsAgree | solution.cpp:57-170 | concatenation depends only on the facts it reads: operands that agree give equal products |
| OperandAlgebra.UnionRespectsAgree | solution.cpp:224-244 | unions of agreeing operands agree |
| OperandAlgebra.ConcatEpsilonIdentity | solution.cpp:175-255 | the epsilon leaf is a left and right identity of concatenation, up to agreement |
| OperandAlgebra.ConcatWithEmptyKeepsWordFlag | solution.cpp:57-78 | concatenation with the empty operand keeps the other side's word flag, although the empty product contains no word |
| Languages.FactsOf | solution.cpp:35-55 | the operand holding the facts the field comments describe, on the non-empty windows, both flags and boundary lengths 1..L-1 (all other entries false), is well shaped and tidy |
| Languages.EmptyOperandExact | solution.cpp:212-216 | the empty operand holds exactly the facts of the empty language |
| Languages.EpsilonLeafExact | solution.cpp:175-185 | the epsilon leaf holds exactly the facts of {""} |
| Languages.LetterLeafExact | solution.cpp:186-208 | a letter leaf agrees with the facts of {c} on the entries Agree compares |
| Languages.UnionExact | solution.cpp:224-244 | if a and b agree with the facts of A and B, then a + b agrees with the facts of A union B |
| Languages.ConcatWindowExact | solution.cpp:129-167 | the window rule of concatenation decides exactly which windows are in A.B |
| Languages.ConcatEpsilonExact | solution.cpp:169 | the product contains the empty word exactly when both factors do |
| Languages.ConcatWordSound | solution.cpp:57-78 | for non-empty A and B, a set word flag of the product means W occurs in a word of A.B |
| Languages.ConcatWordComplete | solution.cpp:57-78 | if W occurs in a word of A.B, the product's word flag is set |
| Languages.ConcatSuffixSound | solution.cpp:89-102 | for non-empty A, the join rule for "some word ends with W[..p]" is sound for A.B |
| Languages.ConcatSuffixComplete | solution.cpp:89-102 | that join rule holds whenever some word of A.B ends with W[..p] |
| Languages.ConcatPrefixSound | solution.cpp:113-125 | for non-empty B, the join rule for "some word starts with the last s characters of W" is sound for A.B |
| Languages.ConcatPrefixComplete | solution.cpp:113-125 | that join rule holds whenever some word of A.B starts with the last s characters of W |
| Languages.ConcatExact | solution.cpp:246-255 | if a and b agree with the facts of non-empty A and B, then a * b agrees with the facts of A.B |
| Expressions.OperatorCode | solution.cpp:286-298 | succeeds exactly on the operator symbols, is inverse to the symbol of each operator, and otherwise fails with "Unknown operator symbol: c" |
| Expressions.ClassifiersDisjoint | solution.cpp:264-272 | no character is both an operator and an alphabet symbol; letters are the alphabet symbols other than epsilon |
| Expressions.OperatorCodeRoundTrip | solution.cpp:286-298 | decoding the symbol of an operator gives that operator back |
| Expressions.IsOperator | solution.cpp:264-267 | a character is an operator exactly when it is the symbol of one of the three operators |
| Expressions.IsSymbolOfAlphabet | solution.cpp:269-272 | a character is an alphabet symbol exactly when it is a letter a, b, c or the empty-word symbol 1, and no alphabet symbol is an operator |
| Expressions.FirstNonLetter | solution.cpp:278-283 | the position found is the first character outside {a, b, c} |
| Expressions.WordVerdict | solution.cpp:274-284 | a word passes exactly when it is non-empty and made of a, b and c only |
| Expressions.PowerOf | solution.cpp:320-342 | every power e^n built by the star loop is well shaped and tidy for the word |
| Expressions.StarUpTo | solution.cpp:320-342 | every partial sum e^0 + ... + e^n is well shaped and tidy and contains the empty word |
| Expressions.ApplyOperator | solution.cpp:300-342 | a successful operator leaves a stack of well-shaped operands for the word |
| Expressions.Step | solution.cpp:356-366 | a successful token leaves a stack of well-shaped operands for the word |
| Expressions.Run | solution.cpp:356-366 | the token loop always ends with a stack of well-shaped operands |
| Expressions.Evaluate | solution.cpp:354-376 | an invalid word fails with the word check's message before any token is read; a value is returned only for a valid word and is a well-shaped operand for it |
| Expressions.Expression.constructor | solution.cpp:259-262 | a fresh expression has no tokens and an empty stack |
| Expressions.Expression.Copy | solution.cpp:398 | the copy has the same tokens and the same stack |
| Expressions.Expression.ReadExpression | solution.cpp:346-352 | stores the tokens read and fails with "Expression is empty" exactly on an empty token string |
| Expressions.Expression.CheckWord | solution.cpp:274-284 | the loop reports "Word is empty" or the first character outside {a, b, c}, as WordVerdict does |
| Expressions.Expression.CalculateKleeneStar | solution.cpp:320-342 | fails with "Missing operands" on an empty stack; otherwise replaces the top e by e^0 + ... + e^(2L+2), built by the loop of powers, whose iteration count `StarIterations(L)` = 2L+2 is the one at line 334 |
| Expressions.Expression.CalculateOperator | solution.cpp:300-318 | follows ApplyOperator: `+` and `.` need two operands and replace them by their union or product; on failure the stack is unchanged |
| Expressions.Expression.CalculateValueOfExpression | solution.cpp:354-376 | returns Evaluate: the word check first, then the tokens left to right, then "Too much operands" / "Missing operands" unless exactly one operand remains, whose value is returned; the stack left behind is the stack after the loop |
| ExpressionLaws.StepPopsArityPushesOne | solution.cpp:300-366 | an unknown token fails with "Unknown symbol in expression"; a known token succeeds exactly when the stack holds its arity (0, 1 or 2); it then pops that many operands and pushes one, leaving the operands below untouched |
| ExpressionLaws.SymbolPushesLeaf | solution.cpp:361-362 | a symbol pushes its leaf, which contains the empty word exactly for the epsilon symbol |
| ExpressionLaws.StarContainsEpsilon | solution.cpp:320-342 | the star's value always contains the empty word |
| ExpressionLaws.RunFollowsDepth | solution.cpp:356-366 | the token loop succeeds exactly when the operand count does, and then leaves the counted number of operands |
| ExpressionLaws.RunErrors | solution.cpp:300-366 | the loop's only errors are "Missing operands" and "Unknown symbol in expression" for a token actually in the string |
| ExpressionLaws.EvaluateDecidedByDepth | solution.cpp:354-376 | on a fresh stack: an invalid word gives the word error; otherwise a final count of 1 gives a value, 0 gives "Missing operands", more than 1 gives "Too much operands", and a failed count gives a missing-operand or unknown-symbol error |
| ExpressionLaws.EvaluateSucceedsIff | solution.cpp:354-376 | evaluation succeeds exactly when the word is valid and the count ends at one |
| ExpressionLaws.TwoSymbolsAreTooMuch | solution.cpp:369-371 | `ab` fails with "Too much operands" |
| ExpressionLaws.LeadingOperatorMissesOperands | solution.cpp:308-310 | `+a` fails with "Missing operands" |
| Solvers.Solver.constructor | solution.cpp:386-387 | the solver holds a fresh copy of the given expression (same tokens, same stack) and the word, so later changes to the caller's object do not reach it |
| Solvers.Solver.Trial | solution.cpp:396-399 | one trial evaluates a copy of the expression on the window and returns exactly TrialResult |
| Solvers.Solver.ScanFrom | solution.cpp:395-404 | the inner loop over lengths: succeeds exactly when every window at that start evaluates; then raises the answer to at least every matching length there and stays at most the word's length, a positive answer being a matching length; otherwise returns the error of the shortest failing window |
| Solvers.Solver.Solve | solution.cpp:391-408 | succeeds exactly when every window evaluates; then returns the longest window whose value reports W inside the language (0 if none), at most the word's length; otherwise returns the error of the first failing window in start-then-length order |
| ExpressionSemantics.LeafMeaning | solution.cpp:175-209 | a leaf agrees with the facts of its symbol's non-empty language |
| ExpressionSemantics.PowerMeaning | solution.cpp:320-342 | if e agrees with the facts of non-empty A, then e^n agrees with the facts of A^n |
| ExpressionSemantics.StarMeaning | solution.cpp:320-342 | if e agrees with the facts of non-empty A, then e^0 + ... + e^n agrees with the facts of A^0 + ... + A^n |
| ExpressionSemantics.StepMeaning | solution.cpp:356-366 | one token keeps each operand of the stack agreeing with the facts of the matching language, and the two fail on the same tokens |
| ExpressionSemantics.RunMeaning | solution.cpp:356-366 | the same for the whole token loop |
| ExpressionSemantics.EvaluateMeaning | solution.cpp:354-376 | for a valid word W, evaluation succeeds exactly when the expression denotes a language; the value then agrees with its facts, and in particular the word flag is set exactly when W occurs inside one of its words, and the epsilon flag exactly when it contains the empty word |
| Operands.Operand.IsWordEqualToSomeSubstringInLanguage | solution.cpp:220-222 | reports the word flag; ExpressionSemantics.EvaluateMeaning shows it is set exactly when W occurs inside a word of the language |
| ExpressionSemantics.MatchesMeaning | solution.cpp:391-408 | a window counts for solve exactly when it is a valid word that occurs inside a word of the language the expression denotes for its length |
| Scenarios.AStarMatchesExactlyRunsOfA | solution.cpp:320-342 | for `a*` and any valid word W, W is reported inside the language exactly when W consists of a's only |
| Scenarios.AbMatchesAreShort | solution.cpp:391-408 | no window longer than 2 matches `ab.` |
| Scenarios.SolveAbOnAabb | solution.cpp:391-408 | solve for `ab.` on `aabb` answers 2 |
| Solvers.SolvePromiseDeterminesResult | solution.cpp:391-408 | any two results that keep every promise of solve for the same tokens and word are equal |
| Solvers.FirstFailureUnique | solution.cpp:393-395 | trials are visited in a total order (start position, then length), so at most one trial is the first to fail |
| Scenarios.SolveTwice | solution.cpp:391-408 | calling solve twice on the same solver gives the same answer, because each trial evaluates its own copy of the expression (line 398) and nothing else changes |
| Scenarios.SolveAbOnXaby | solution.cpp:274-284 | solve for `ab.` on `xaby` fails with "Unknown symbol in word: x" |

## Left out

- `main` is not modelled. It reads from input.txt, prints the answer or the exception text, and sets the exit code. `ReadExpression` takes the token string as a parameter instead of reading a stream.
- The default constructor `Operand()` builds an operand with empty tables and no word, which no operation accepts; it is not modelled.
- The default constructor `Solver()` (an empty expression and an empty word, for which `solve()` returns 0) is not modelled; `main` never uses it.
- C++ exceptions become `Result`/`Outcome` values that carry the same message text. Stack unwinding is not modelled.
- A Dafny `char` stands for one byte of the input, which the source reads into `std::string`. For non-ASCII input the only visible difference is the character quoted in "Unknown symbol in word: c" and "Unknown symbol in expression: c": one byte in the source, a whole character in the model.
- `std::stack` is modelled as a sequence whose last element is the top. The `int` vectors used as booleans are modelled as `bool`.
- `ulong` arithmetic is modelled with unbounded integers. No loop bound or length in the source comes near overflow.
- Expressions.Expression.CalculateValueOfExpression: the source leaves the operands of a failed evaluation on the stack. The model states the stack that remains in every case, but `Solvers.Solver.Solve` requires the expression it copies to start with an empty stack. `main` always creates it that way.
- ExpressionSemantics.EvaluateMeaning: the model does not prove that the star bound 2L+2 is sufficient in general, that is, that the bounded union holds the same facts as the unbounded star. The semantics is stated for the bounded language that the evaluator actually computes.
- Languages.FactsOf: the field comments of solution.cpp:35-52 also give a meaning to the length-0 windows (the empty word is in the language) and to boundary length L (some word ends with, or starts with, all of W). The source does not keep those entries up to date. No operation sets a length-0 window. Concatenation never sets boundary length L (solution.cpp:89, 113): `aa.` on W = "a" leaves it false although "aa" ends with "a". A letter leaf for a one-character W does set it. `FactsOf` sets these entries to false, and the exactness lemmas state agreement only on the other entries. This is harmless: concatenation never reads them, and union ORs them only into themselves, so no entry that `Agree` compares depends on them (`OperandAlgebra.UnionRespectsAgree`).
- Operands.ConcatOf: concatenation with an operand of the empty language keeps the other side's word flag and boundary facts. The model keeps this behaviour. It is unreachable from expressions, whose languages are never empty.
