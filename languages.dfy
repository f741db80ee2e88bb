/** What the Operand tables of solution.cpp mean.

    FactsOf(A, w) is the Operand that holds the true facts about a language A
    (a possibly infinite set of strings) relative to the reference word w on
    the entries Agree compares: the non-empty windows, the two flags and the
    boundary lengths 1..L-1 (every other entry is false). Concatenation reads
    only these entries, and union computes each of them from the same entries
    of its operands. The lemmas below show that the leaves and the union and
    concatenation rules agree with these facts on those entries, so an
    operand built from leaves never has to enumerate its language.
    Concatenation is exact for non-empty languages only: its word flag and
    its boundary rules keep a side's fact even when the other side is empty
    (see OperandAlgebra.ConcatWithEmptyKeepsWordFlag); every language an
    expression denotes is non-empty. */
module Languages {
  import opened Operands
  import opened OperandAlgebra

  type Language = iset<string>

  /** w occurs in x starting at position j. */
  ghost predicate OccursAt(w: string, x: string, j: int) {
    0 <= j && j + |w| <= |x| && x[j..j + |w|] == w
  }

  /** w occurs as a contiguous substring of x. */
  ghost predicate Occurs(w: string, x: string) {
    exists j :: OccursAt(w, x, j)
  }

  ghost predicate EndsWith(x: string, u: string) {
    |u| <= |x| && x[|x| - |u|..] == u
  }

  ghost predicate StartsWith(x: string, u: string) {
    |u| <= |x| && x[..|u|] == u
  }

  ghost predicate NonEmpty(A: Language) {
    exists x :: x in A
  }

  /** Some string of A contains w. */
  ghost predicate SomeOccurs(A: Language, w: string) {
    exists x :: x in A && Occurs(w, x)
  }

  /** Some string of A ends with u. */
  ghost predicate SomeEndsWith(A: Language, u: string) {
    exists x :: x in A && EndsWith(x, u)
  }

  /** Some string of A starts with u. */
  ghost predicate SomeStartsWith(A: Language, u: string) {
    exists x :: x in A && StartsWith(x, u)
  }

  /** z is a string of A followed by a string of B, split after k characters. */
  ghost predicate SplitsAt(A: Language, B: Language, z: string, k: int) {
    0 <= k <= |z| && z[..k] in A && z[k..] in B
  }

  /** z is a string of A followed by a string of B. */
  ghost predicate InConcat(A: Language, B: Language, z: string) {
    exists k :: SplitsAt(A, B, z, k)
  }

  /** The concatenation A.B of two languages. */
  ghost function Concat(A: Language, B: Language): Language {
    iset z | InConcat(A, B, z)
  }

  lemma ConcatIntro(A: Language, B: Language, x: string, y: string)
    requires x in A && y in B
    ensures x + y in Concat(A, B)
  {
    assert (x + y)[..|x|] == x && (x + y)[|x|..] == y;
    assert SplitsAt(A, B, x + y, |x|);
  }

  lemma ConcatElim(A: Language, B: Language, z: string) returns (x: string, y: string)
    requires z in Concat(A, B)
    ensures x in A && y in B && z == x + y
  {
    var k :| SplitsAt(A, B, z, k);
    x, y := z[..k], z[k..];
    assert z == x + y;
  }

  /** Row i of the true substring table of A relative to w. */
  ghost function FactsRow(A: Language, w: string, i: nat): seq<bool>
    requires i <= |w|
  {
    seq(|w| + 1, n requires 0 <= n <= |w| => InWindow(|w|, i, n) && w[i..i + n] in A)
  }

  /** The facts an Operand for reference word w should hold about A. */
  ghost function FactsOf(A: Language, w: string): (r: Operand)
    ensures r.Valid() && r.Tidy() && r.wordLength == |w|
  {
    var L := |w|;
    Operand(
      seq(L + 1, i requires 0 <= i <= L => FactsRow(A, w, i)),
      [] in A,
      SomeOccurs(A, w),
      seq(L + 1, p requires 0 <= p <= L => 1 <= p < L && SomeEndsWith(A, w[..p])),
      seq(L + 1, s requires 0 <= s <= L => 1 <= s < L && SomeStartsWith(A, w[L - s..])),
      L)
  }

  /** The window entry (i, n) of FactsOf(A, w) says whether w[i..i+n) is in A. */
  lemma FactsWindow(A: Language, w: string, i: nat, n: nat)
    requires InWindow(|w|, i, n)
    ensures FactsOf(A, w).containsSubstring[i][n] == (w[i..i + n] in A)
  {
    assert FactsOf(A, w).containsSubstring[i] == FactsRow(A, w, i);
  }

  /** The boundary entry p of FactsOf(A, w) says whether some string of A ends with w[..p]. */
  lemma FactsSuffix(A: Language, w: string, p: nat)
    requires p <= |w|
    ensures FactsOf(A, w).containsSuffixEqualsToPrefix[p] == (1 <= p < |w| && SomeEndsWith(A, w[..p]))
  {
  }

  /** The boundary entry s of FactsOf(A, w) says whether some string of A starts with w[|w|-s..]. */
  lemma FactsPrefix(A: Language, w: string, s: nat)
    requires s <= |w|
    ensures FactsOf(A, w).containsPrefixEqualsToSuffix[s] == (1 <= s < |w| && SomeStartsWith(A, w[|w| - s..]))
  {
  }

  // ---------------------------------------------------------------------------
  // Leaves and the empty operand

  /** The empty operand holds the facts of the empty language. */
  lemma EmptyOperandExact(w: string)
    ensures EmptyOperand(|w|) == FactsOf(iset{}, w)
  {
    var f := FactsOf(iset{}, w);
    forall i, n | 0 <= i <= |w| && 0 <= n <= |w|
      ensures !f.containsSubstring[i][n]
    {
      assert f.containsSubstring[i] == FactsRow(iset{}, w, i);
    }
    forall p | 0 <= p <= |w|
      ensures !f.containsSuffixEqualsToPrefix[p] && !f.containsPrefixEqualsToSuffix[p]
    {
      FactsSuffix(iset{}, w, p);
      FactsPrefix(iset{}, w, p);
    }
    OperandExtensionality(EmptyOperand(|w|), f);
  }

  /** The epsilon leaf holds the facts of the language {""}. */
  lemma EpsilonLeafExact(w: string)
    requires |w| > 0
    ensures LeafOf(EPSILON, w) == FactsOf(iset{[]}, w)
  {
    var f := FactsOf(iset{[]}, w);
    var L := |w|;
    forall i, n | 0 <= i <= L && 0 <= n <= L
      ensures !f.containsSubstring[i][n]
    {
      assert f.containsSubstring[i] == FactsRow(iset{[]}, w, i);
      if InWindow(L, i, n) {
        assert |w[i..i + n]| == n;
      }
    }
    forall p | 0 <= p <= L
      ensures !f.containsSuffixEqualsToPrefix[p] && !f.containsPrefixEqualsToSuffix[p]
    {
      FactsSuffix(iset{[]}, w, p);
      FactsPrefix(iset{[]}, w, p);
    }
    OperandExtensionality(LeafOf(EPSILON, w), f);
  }

  /** A letter leaf holds the facts of the language {c}, except that for a
      one-letter word it also sets the boundary entries at length L, which
      concatenation never reads. */
  lemma LetterLeafExact(c: char, w: string)
    requires c != EPSILON && |w| > 0
    ensures Agree(LeafOf(c, w), FactsOf(iset{[c]}, w))
  {
    var L := |w|;
    var leaf, f := LeafOf(c, w), FactsOf(iset{[c]}, w);
    forall i: nat, n: nat | InWindow(L, i, n)
      ensures leaf.containsSubstring[i][n] == f.containsSubstring[i][n]
    {
      FactsWindow(iset{[c]}, w, i, n);
      if n == 1 {
        assert w[i..i + 1] == [w[i]];
      } else {
        assert |w[i..i + n]| != |[c]|;
      }
    }
    LetterWord(c, w);
    forall p | 1 <= p < L
      ensures f.containsSuffixEqualsToPrefix[p] == leaf.containsSuffixEqualsToPrefix[p]
      ensures f.containsPrefixEqualsToSuffix[p] == leaf.containsPrefixEqualsToSuffix[p]
    {
      FactsSuffix(iset{[c]}, w, p);
      FactsPrefix(iset{[c]}, w, p);
      LetterSuffix(c, w, p);
      LetterPrefix(c, w, p);
    }
  }

  lemma LetterWord(c: char, w: string)
    requires |w| > 0
    ensures SomeOccurs(iset{[c]}, w) == (|w| == 1 && w[0] == c)
  {
    if |w| == 1 && w[0] == c {
      assert [c][0..1] == w;
      assert OccursAt(w, [c], 0);
    }
    if SomeOccurs(iset{[c]}, w) {
      var x :| x in iset{[c]} && Occurs(w, x);
      var j :| OccursAt(w, x, j);
      assert w == x[j..j + |w|];
    }
  }

  lemma LetterSuffix(c: char, w: string, p: nat)
    requires 1 <= p < |w|
    ensures SomeEndsWith(iset{[c]}, w[..p]) == (p == 1 && w[0] == c)
  {
    if SomeEndsWith(iset{[c]}, w[..p]) {
      var x :| x in iset{[c]} && EndsWith(x, w[..p]);
      assert w[..p] == x[|x| - p..];
    }
    if p == 1 && w[0] == c {
      assert w[..1] == [c];
      assert EndsWith([c], w[..p]);
    }
  }

  lemma LetterPrefix(c: char, w: string, s: nat)
    requires 1 <= s < |w|
    ensures SomeStartsWith(iset{[c]}, w[|w| - s..]) == (s == 1 && w[|w| - 1] == c)
  {
    var L := |w|;
    if SomeStartsWith(iset{[c]}, w[L - s..]) {
      var x :| x in iset{[c]} && StartsWith(x, w[L - s..]);
      assert w[L - s..] == x[..s];
    }
    if s == 1 && w[L - 1] == c {
      assert w[L - 1..] == [c];
      assert StartsWith([c], w[L - s..]);
    }
  }

  // ---------------------------------------------------------------------------
  // Union

  /** The union rule is exact: from operands that hold the facts of A and B it
      computes the facts of A + B. */
  lemma UnionExact(a: Operand, b: Operand, A: Language, B: Language, w: string)
    requires Agree(a, FactsOf(A, w)) && Agree(b, FactsOf(B, w))
    ensures Agree(UnionOf(a, b), FactsOf(A + B, w))
  {
    var fa, fb, f := FactsOf(A, w), FactsOf(B, w), FactsOf(A + B, w);
    UnionRespectsAgree(a, fa, b, fb);
    UnionIsPointwiseOr(fa, fb);
    var u := UnionOf(fa, fb);
    forall i: nat, n: nat | InWindow(|w|, i, n)
      ensures u.containsSubstring[i][n] == f.containsSubstring[i][n]
    {
      FactsWindow(A, w, i, n);
      FactsWindow(B, w, i, n);
      FactsWindow(A + B, w, i, n);
    }
    assert SomeOccurs(A + B, w) == (SomeOccurs(A, w) || SomeOccurs(B, w));
    forall p | 1 <= p < |w|
      ensures u.containsSuffixEqualsToPrefix[p] == f.containsSuffixEqualsToPrefix[p]
      ensures u.containsPrefixEqualsToSuffix[p] == f.containsPrefixEqualsToSuffix[p]
    {
      FactsSuffix(A, w, p); FactsSuffix(B, w, p); FactsSuffix(A + B, w, p);
      FactsPrefix(A, w, p); FactsPrefix(B, w, p); FactsPrefix(A + B, w, p);
      assert SomeEndsWith(A + B, w[..p]) == (SomeEndsWith(A, w[..p]) || SomeEndsWith(B, w[..p]));
      assert SomeStartsWith(A + B, w[|w| - p..]) ==
             (SomeStartsWith(A, w[|w| - p..]) || SomeStartsWith(B, w[|w| - p..]));
    }
    assert Agree(u, f);
    AgreeTransitive(UnionOf(a, b), u, f);
  }

  // ---------------------------------------------------------------------------
  // Concatenation

  /** A piece of the reference word is in A exactly when the facts of A say so. */
  lemma PieceMeaning(A: Language, w: string, i: nat, k: nat)
    requires i + k <= |w| && (k == 0 || i < |w|)
    ensures Piece(FactsOf(A, w), i, k) == (w[i..i + k] in A)
  {
    if k == 0 {
      assert w[i..i] == [];
    } else {
      FactsWindow(A, w, i, k);
    }
  }

  lemma ConcatWindowExact(A: Language, B: Language, w: string, i: nat, n: nat)
    requires InWindow(|w|, i, n)
    ensures SplitCovers(FactsOf(A, w), FactsOf(B, w), i, n) == (w[i..i + n] in Concat(A, B))
  {
    if SplitCovers(FactsOf(A, w), FactsOf(B, w), i, n) {
      ConcatWindowSound(A, B, w, i, n);
    }
    if w[i..i + n] in Concat(A, B) {
      ConcatWindowComplete(A, B, w, i, n);
    }
  }

  lemma ConcatWindowSound(A: Language, B: Language, w: string, i: nat, n: nat)
    requires InWindow(|w|, i, n) && SplitCovers(FactsOf(A, w), FactsOf(B, w), i, n)
    ensures w[i..i + n] in Concat(A, B)
  {
    var fa, fb := FactsOf(A, w), FactsOf(B, w);
    var window := w[i..i + n];
    var k :| 0 <= k <= n && Piece(fa, i, k) && Piece(fb, i + k, n - k);
    PieceMeaning(A, w, i, k);
    PieceMeaning(B, w, i + k, n - k);
    assert window[..k] == w[i..i + k] && window[k..] == w[i + k..i + n];
    assert SplitsAt(A, B, window, k);
  }

  lemma ConcatWindowComplete(A: Language, B: Language, w: string, i: nat, n: nat)
    requires InWindow(|w|, i, n) && w[i..i + n] in Concat(A, B)
    ensures SplitCovers(FactsOf(A, w), FactsOf(B, w), i, n)
  {
    var fa, fb := FactsOf(A, w), FactsOf(B, w);
    var window := w[i..i + n];
    var k :| SplitsAt(A, B, window, k);
    assert window[..k] == w[i..i + k] && window[k..] == w[i + k..i + n];
    PieceMeaning(A, w, i, k);
    PieceMeaning(B, w, i + k, n - k);
    assert Piece(fa, i, k) && Piece(fb, i + k, n - k);
  }

  lemma ConcatEpsilonExact(A: Language, B: Language)
    ensures ([] in A && [] in B) == ([] in Concat(A, B))
  {
    var e: string := [];
    if e in Concat(A, B) {
      var k :| SplitsAt(A, B, e, k);
      assert e[..k] == e && e[k..] == e;
    }
    if e in A && e in B {
      ConcatIntro(A, B, e, e);
      assert e + e == e;
    }
  }

  /** Each way the word rule can fire yields a string of A.B containing w. */
  lemma ConcatWordSound(A: Language, B: Language, w: string)
    requires NonEmpty(A) && NonEmpty(B) && |w| > 0
    ensures var fa, fb := FactsOf(A, w), FactsOf(B, w);
      fa.containsWordAsSubstring || fb.containsWordAsSubstring || Spans(fa, fb) ==>
      SomeOccurs(Concat(A, B), w)
  {
    var fa, fb := FactsOf(A, w), FactsOf(B, w);
    if fa.containsWordAsSubstring {
      WordFromLeft(A, B, w);
    } else if fb.containsWordAsSubstring {
      WordFromRight(A, B, w);
    } else if Spans(fa, fb) {
      WordAcross(A, B, w);
    }
  }

  lemma WordFromLeft(A: Language, B: Language, w: string)
    requires NonEmpty(B) && SomeOccurs(A, w)
    ensures SomeOccurs(Concat(A, B), w)
  {
    var someB :| someB in B;
    var x :| x in A && Occurs(w, x);
    var j :| OccursAt(w, x, j);
    var z := x + someB;
    ConcatIntro(A, B, x, someB);
    assert z[j..j + |w|] == x[j..j + |w|];
    assert OccursAt(w, z, j);
  }

  lemma WordFromRight(A: Language, B: Language, w: string)
    requires NonEmpty(A) && SomeOccurs(B, w)
    ensures SomeOccurs(Concat(A, B), w)
  {
    var someA :| someA in A;
    var y :| y in B && Occurs(w, y);
    var j :| OccursAt(w, y, j);
    var z := someA + y;
    ConcatIntro(A, B, someA, y);
    assert z[|someA| + j..|someA| + j + |w|] == y[j..j + |w|];
    assert OccursAt(w, z, |someA| + j);
  }

  lemma WordAcross(A: Language, B: Language, w: string)
    requires |w| > 0 && Spans(FactsOf(A, w), FactsOf(B, w))
    ensures SomeOccurs(Concat(A, B), w)
  {
    var fa, fb := FactsOf(A, w), FactsOf(B, w);
    var L := |w|;
    var p :| 1 <= p < L && fa.containsSuffixEqualsToPrefix[p] && fb.containsPrefixEqualsToSuffix[L - p];
    FactsSuffix(A, w, p);
    FactsPrefix(B, w, L - p);
    assert w[L - (L - p)..] == w[p..];
    var x :| x in A && EndsWith(x, w[..p]);
    var y :| y in B && StartsWith(y, w[p..]);
    var z := x + y;
    ConcatIntro(A, B, x, y);
    var j := |x| - p;
    assert z[j..j + L] == x[|x| - p..] + y[..L - p];
    assert w[..p] + w[p..] == w;
    assert OccursAt(w, z, j);
  }

  /** Every string of A.B containing w is found by the word rule. */
  lemma ConcatWordComplete(A: Language, B: Language, w: string)
    requires |w| > 0
    ensures var fa, fb := FactsOf(A, w), FactsOf(B, w);
      SomeOccurs(Concat(A, B), w) ==>
      fa.containsWordAsSubstring || fb.containsWordAsSubstring || Spans(fa, fb)
  {
    var fa, fb := FactsOf(A, w), FactsOf(B, w);
    var L := |w|;
    if SomeOccurs(Concat(A, B), w) {
      var z :| z in Concat(A, B) && Occurs(w, z);
      var x, y := ConcatElim(A, B, z);
      var j :| OccursAt(w, z, j);
      if j + L <= |x| {
        assert x[j..j + L] == z[j..j + L];
        assert OccursAt(w, x, j);
      } else if j >= |x| {
        assert y[j - |x|..j - |x| + L] == z[j..j + L];
        assert OccursAt(w, y, j - |x|);
      } else {
        StraddleFound(A, B, w, x, y, j);
      }
    }
  }

  /** An occurrence of w in x + y that starts in x and ends in y is found by Spans. */
  lemma StraddleFound(A: Language, B: Language, w: string, x: string, y: string, j: nat)
    requires x in A && y in B && OccursAt(w, x + y, j) && j < |x| < j + |w|
    ensures Spans(FactsOf(A, w), FactsOf(B, w))
  {
    var L := |w|;
    var z := x + y;
    var p := |x| - j;
    assert x[|x| - p..] == z[j..j + p] == w[..p];
    assert EndsWith(x, w[..p]);
    assert y[..L - p] == z[|x|..j + L] == w[p..];
    assert StartsWith(y, w[p..]);
    FactsSuffix(A, w, p);
    FactsPrefix(B, w, L - p);
    assert w[L - (L - p)..] == w[p..];
    assert FactsOf(A, w).containsSuffixEqualsToPrefix[p] && FactsOf(B, w).containsPrefixEqualsToSuffix[L - p];
  }

  /** Each way the suffix rule can fire yields a string of A.B ending with w[..p]. */
  lemma ConcatSuffixSound(A: Language, B: Language, w: string, p: nat)
    requires NonEmpty(A) && 1 <= p < |w|
    ensures SuffixJoin(FactsOf(A, w), FactsOf(B, w), p) ==> SomeEndsWith(Concat(A, B), w[..p])
  {
    var fa, fb := FactsOf(A, w), FactsOf(B, w);
    var someA :| someA in A;
    if fb.containsSuffixEqualsToPrefix[p] {
      var y :| y in B && EndsWith(y, w[..p]);
      var z := someA + y;
      ConcatIntro(A, B, someA, y);
      assert z[|z| - p..] == y[|y| - p..];
      assert EndsWith(z, w[..p]);
    } else if fa.containsSuffixEqualsToPrefix[p] && fb.containsEpsilon {
      var x :| x in A && EndsWith(x, w[..p]);
      ConcatIntro(A, B, x, []);
      assert x + [] == x;
    } else if exists q :: 1 <= q < p && fb.containsSubstring[q][p - q] && fa.containsSuffixEqualsToPrefix[q] {
      var q :| 1 <= q < p && fb.containsSubstring[q][p - q] && fa.containsSuffixEqualsToPrefix[q];
      SuffixThroughWindow(A, B, w, p, q);
    }
  }

  /** A string of A that ends with w[..q] followed by the window w[q..p) of B. */
  lemma SuffixThroughWindow(A: Language, B: Language, w: string, p: nat, q: nat)
    requires 1 <= q < p < |w|
    requires FactsOf(B, w).containsSubstring[q][p - q] && FactsOf(A, w).containsSuffixEqualsToPrefix[q]
    ensures SomeEndsWith(Concat(A, B), w[..p])
  {
    FactsWindow(B, w, q, p - q);
    FactsSuffix(A, w, q);
    var x :| x in A && EndsWith(x, w[..q]);
    var z := x + w[q..p];
    ConcatIntro(A, B, x, w[q..p]);
    assert z[|z| - p..] == x[|x| - q..] + w[q..p];
    assert w[..q] + w[q..p] == w[..p];
    assert EndsWith(z, w[..p]);
  }

  /** Every string of A.B ending with w[..p] is found by the suffix rule. */
  lemma ConcatSuffixComplete(A: Language, B: Language, w: string, p: nat)
    requires 1 <= p < |w|
    ensures SomeEndsWith(Concat(A, B), w[..p]) ==> SuffixJoin(FactsOf(A, w), FactsOf(B, w), p)
  {
    var fa, fb := FactsOf(A, w), FactsOf(B, w);
    if SomeEndsWith(Concat(A, B), w[..p]) {
      var z :| z in Concat(A, B) && EndsWith(z, w[..p]);
      var x, y := ConcatElim(A, B, z);
      if |y| >= p {
        assert y[|y| - p..] == z[|z| - p..];
        assert EndsWith(y, w[..p]);
      } else if |y| == 0 {
        assert z == x;
        assert fa.containsSuffixEqualsToPrefix[p] && fb.containsEpsilon;
      } else {
        SuffixSplitInside(A, B, w, p, x, y);
      }
    }
  }

  /** A string x + y of A.B ending with w[..p] where y is a non-empty part of that suffix. */
  lemma SuffixSplitInside(A: Language, B: Language, w: string, p: nat, x: string, y: string)
    requires 1 <= p < |w| && x in A && y in B && 0 < |y| < p && EndsWith(x + y, w[..p])
    ensures SuffixJoin(FactsOf(A, w), FactsOf(B, w), p)
  {
    var fa, fb := FactsOf(A, w), FactsOf(B, w);
    var z := x + y;
    var q := p - |y|;
    assert y == z[|z| - |y|..] == w[q..p];
    FactsWindow(B, w, q, p - q);
    assert x[|x| - q..] == z[|z| - p..|z| - |y|] == w[..q];
    assert EndsWith(x, w[..q]);
    FactsSuffix(A, w, q);
    assert fb.containsSubstring[q][p - q] && fa.containsSuffixEqualsToPrefix[q];
  }

  /** Each way the prefix rule can fire yields a string of A.B starting with w[L-s..]. */
  lemma ConcatPrefixSound(A: Language, B: Language, w: string, s: nat)
    requires NonEmpty(B) && 1 <= s < |w|
    ensures PrefixJoin(FactsOf(A, w), FactsOf(B, w), s) ==> SomeStartsWith(Concat(A, B), w[|w| - s..])
  {
    var fa, fb := FactsOf(A, w), FactsOf(B, w);
    var L := |w|;
    var someB :| someB in B;
    FactsPrefix(A, w, s);
    FactsPrefix(B, w, s);
    if fa.containsPrefixEqualsToSuffix[s] {
      var x :| x in A && StartsWith(x, w[L - s..]);
      var z := x + someB;
      ConcatIntro(A, B, x, someB);
      assert z[..s] == x[..s];
      assert StartsWith(z, w[L - s..]);
    } else if fa.containsEpsilon && fb.containsPrefixEqualsToSuffix[s] {
      var y :| y in B && StartsWith(y, w[L - s..]);
      ConcatIntro(A, B, [], y);
      assert [] + y == y;
    } else if exists t :: 1 <= t < s && fa.containsSubstring[L - s][s - t] && fb.containsPrefixEqualsToSuffix[t] {
      var t :| 1 <= t < s && fa.containsSubstring[L - s][s - t] && fb.containsPrefixEqualsToSuffix[t];
      PrefixThroughWindow(A, B, w, s, t);
    }
  }

  /** A window of A followed by a string of B that starts with w[L-t..]. */
  lemma PrefixThroughWindow(A: Language, B: Language, w: string, s: nat, t: nat)
    requires 1 <= t < s < |w|
    requires FactsOf(A, w).containsSubstring[|w| - s][s - t] && FactsOf(B, w).containsPrefixEqualsToSuffix[t]
    ensures SomeStartsWith(Concat(A, B), w[|w| - s..])
  {
    var L := |w|;
    FactsWindow(A, w, L - s, s - t);
    FactsPrefix(B, w, t);
    var y :| y in B && StartsWith(y, w[L - t..]);
    var z := w[L - s..L - t] + y;
    ConcatIntro(A, B, w[L - s..L - t], y);
    assert z[..s] == w[L - s..L - t] + y[..t];
    assert w[L - s..L - t] + w[L - t..] == w[L - s..];
    assert StartsWith(z, w[L - s..]);
  }

  /** Every string of A.B starting with w[L-s..] is found by the prefix rule. */
  lemma ConcatPrefixComplete(A: Language, B: Language, w: string, s: nat)
    requires 1 <= s < |w|
    ensures SomeStartsWith(Concat(A, B), w[|w| - s..]) ==> PrefixJoin(FactsOf(A, w), FactsOf(B, w), s)
  {
    var fa, fb := FactsOf(A, w), FactsOf(B, w);
    var L := |w|;
    if SomeStartsWith(Concat(A, B), w[L - s..]) {
      var z :| z in Concat(A, B) && StartsWith(z, w[L - s..]);
      var x, y := ConcatElim(A, B, z);
      if |x| >= s {
        assert x[..s] == z[..s];
        assert StartsWith(x, w[L - s..]);
      } else if |x| == 0 {
        assert z == y;
        assert fa.containsEpsilon && fb.containsPrefixEqualsToSuffix[s];
      } else {
        PrefixSplitInside(A, B, w, s, x, y);
      }
    }
  }

  /** A string x + y of A.B starting with w[L-s..] where x is a non-empty part of that prefix. */
  lemma PrefixSplitInside(A: Language, B: Language, w: string, s: nat, x: string, y: string)
    requires 1 <= s < |w| && x in A && y in B && 0 < |x| < s && StartsWith(x + y, w[|w| - s..])
    ensures PrefixJoin(FactsOf(A, w), FactsOf(B, w), s)
  {
    var fa, fb := FactsOf(A, w), FactsOf(B, w);
    var L := |w|;
    var z := x + y;
    var t := s - |x|;
    assert x == z[..|x|] == w[L - s..L - t];
    FactsWindow(A, w, L - s, s - t);
    assert y[..t] == z[|x|..s] == w[L - t..];
    assert StartsWith(y, w[L - t..]);
    FactsPrefix(B, w, t);
    assert fa.containsSubstring[L - s][s - t] && fb.containsPrefixEqualsToSuffix[t];
  }

  /** The concatenation rule is exact on non-empty languages: from operands that
      hold the facts of A and B it computes the facts of A.B. */
  lemma ConcatExact(a: Operand, b: Operand, A: Language, B: Language, w: string)
    requires NonEmpty(A) && NonEmpty(B) && |w| > 0
    requires Agree(a, FactsOf(A, w)) && Agree(b, FactsOf(B, w))
    ensures Agree(ConcatOf(a, b), FactsOf(Concat(A, B), w))
  {
    var fa, fb, f := FactsOf(A, w), FactsOf(B, w), FactsOf(Concat(A, B), w);
    var L := |w|;
    AgreeSymmetric(a, fa);
    AgreeSymmetric(b, fb);
    ConcatRespectsAgree(fa, a, fb, b);
    var c := ConcatOf(fa, fb);
    forall i: nat, n: nat | InWindow(L, i, n)
      ensures c.containsSubstring[i][n] == f.containsSubstring[i][n]
    {
      assert c.containsSubstring[i] == ConcatRow(fa, fb, i);
      FactsWindow(Concat(A, B), w, i, n);
      ConcatWindowExact(A, B, w, i, n);
    }
    ConcatEpsilonExact(A, B);
    ConcatWordSound(A, B, w);
    ConcatWordComplete(A, B, w);
    forall p | 1 <= p < L
      ensures c.containsSuffixEqualsToPrefix[p] == f.containsSuffixEqualsToPrefix[p]
      ensures c.containsPrefixEqualsToSuffix[p] == f.containsPrefixEqualsToSuffix[p]
    {
      ConcatSuffixSound(A, B, w, p);
      ConcatSuffixComplete(A, B, w, p);
      ConcatPrefixSound(A, B, w, p);
      ConcatPrefixComplete(A, B, w, p);
    }
  }
}
