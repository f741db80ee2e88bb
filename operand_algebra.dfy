/** Algebraic laws of the Operand operations of solution.cpp: union is a
    commutative, associative, idempotent OR with the empty operand as identity,
    the epsilon leaf is an identity for concatenation, and both operations
    respect Agree: concatenation reads only the entries Agree compares, and
    union computes each of those entries from the same entries of its
    operands. */
module OperandAlgebra {
  import opened Operands

  /** On tidy operands the union is the OR of every entry, not only of the
      entries its loops visit. */
  lemma UnionIsPointwiseOr(a: Operand, b: Operand)
    requires Compatible(a, b) && a.Tidy() && b.Tidy()
    ensures var u := UnionOf(a, b);
      && u.containsEpsilon == (a.containsEpsilon || b.containsEpsilon)
      && u.containsWordAsSubstring == (a.containsWordAsSubstring || b.containsWordAsSubstring)
      && (forall i, n :: 0 <= i <= a.wordLength && 0 <= n <= a.wordLength ==>
            u.containsSubstring[i][n] == (a.containsSubstring[i][n] || b.containsSubstring[i][n]))
      && (forall p :: 0 <= p <= a.wordLength ==>
            && u.containsSuffixEqualsToPrefix[p] == (a.containsSuffixEqualsToPrefix[p] || b.containsSuffixEqualsToPrefix[p])
            && u.containsPrefixEqualsToSuffix[p] == (a.containsPrefixEqualsToSuffix[p] || b.containsPrefixEqualsToSuffix[p]))
  {
    var u := UnionOf(a, b);
    var L := a.wordLength;
    forall i, n | 0 <= i <= L && 0 <= n <= L
      ensures u.containsSubstring[i][n] == (a.containsSubstring[i][n] || b.containsSubstring[i][n])
    {
      assert u.containsSubstring[i] == UnionRow(a, b, i);
      if !(i < L && n <= L - i) {
        assert !InWindow(L, i, n);
      }
    }
  }

  /** Two operands with equal flags, equal tables and equal boundary vectors are equal. */
  lemma OperandExtensionality(a: Operand, b: Operand)
    requires Compatible(a, b)
    requires a.containsEpsilon == b.containsEpsilon && a.containsWordAsSubstring == b.containsWordAsSubstring
    requires forall i, n :: 0 <= i <= a.wordLength && 0 <= n <= a.wordLength ==>
               a.containsSubstring[i][n] == b.containsSubstring[i][n]
    requires forall p :: 0 <= p <= a.wordLength ==>
               && a.containsSuffixEqualsToPrefix[p] == b.containsSuffixEqualsToPrefix[p]
               && a.containsPrefixEqualsToSuffix[p] == b.containsPrefixEqualsToSuffix[p]
    ensures a == b
  {
    TableExtensionality(a.containsSubstring, b.containsSubstring, a.wordLength);
  }

  lemma UnionCommutative(a: Operand, b: Operand)
    requires Compatible(a, b) && a.Tidy() && b.Tidy()
    ensures UnionOf(a, b) == UnionOf(b, a)
  {
    UnionIsPointwiseOr(a, b);
    UnionIsPointwiseOr(b, a);
    OperandExtensionality(UnionOf(a, b), UnionOf(b, a));
  }

  lemma UnionAssociative(a: Operand, b: Operand, c: Operand)
    requires Compatible(a, b) && Compatible(b, c) && a.Tidy() && b.Tidy() && c.Tidy()
    ensures UnionOf(UnionOf(a, b), c) == UnionOf(a, UnionOf(b, c))
  {
    var ab, bc := UnionOf(a, b), UnionOf(b, c);
    UnionIsPointwiseOr(a, b);
    UnionIsPointwiseOr(b, c);
    UnionIsPointwiseOr(ab, c);
    UnionIsPointwiseOr(a, bc);
    OperandExtensionality(UnionOf(ab, c), UnionOf(a, bc));
  }

  /** Needs no tidiness: every entry is either OR-ed with itself or copied. */
  lemma UnionIdempotent(a: Operand)
    requires a.Valid()
    ensures UnionOf(a, a) == a
  {
    var u := UnionOf(a, a);
    forall i, n | 0 <= i <= a.wordLength && 0 <= n <= a.wordLength
      ensures u.containsSubstring[i][n] == a.containsSubstring[i][n]
    {
      assert u.containsSubstring[i] == UnionRow(a, a, i);
    }
    OperandExtensionality(u, a);
  }

  /** The empty-language operand is a right identity of union on every
      well-shaped operand: the entries outside the loops are copied from the
      left operand. */
  lemma UnionEmptyRightIdentity(a: Operand)
    requires a.Valid()
    ensures UnionOf(a, EmptyOperand(a.wordLength)) == a
  {
    var e := EmptyOperand(a.wordLength);
    var u := UnionOf(a, e);
    forall i, n | 0 <= i <= a.wordLength && 0 <= n <= a.wordLength
      ensures u.containsSubstring[i][n] == a.containsSubstring[i][n]
    {
      assert u.containsSubstring[i] == UnionRow(a, e, i);
    }
    OperandExtensionality(u, a);
  }

  /** The empty-language operand is a left identity of union on tidy operands,
      the only ones the program builds. */
  lemma UnionEmptyIdentity(a: Operand)
    requires a.Valid() && a.Tidy()
    ensures UnionOf(a, EmptyOperand(a.wordLength)) == a
    ensures UnionOf(EmptyOperand(a.wordLength), a) == a
  {
    var e := EmptyOperand(a.wordLength);
    UnionEmptyRightIdentity(a);
    UnionIsPointwiseOr(e, a);
    OperandExtensionality(UnionOf(e, a), a);
  }

  /** Agree is an equivalence. */
  lemma AgreeReflexive(a: Operand)
    requires a.Valid()
    ensures Agree(a, a)
  {
  }

  lemma AgreeSymmetric(a: Operand, b: Operand)
    requires Agree(a, b)
    ensures Agree(b, a)
  {
  }

  lemma AgreeTransitive(a: Operand, b: Operand, c: Operand)
    requires Agree(a, b) && Agree(b, c)
    ensures Agree(a, c)
  {
  }

  /** Concatenation reads only the facts Agree compares, so agreeing operands
      have equal concatenations. */
  lemma ConcatRespectsAgree(a: Operand, a': Operand, b: Operand, b': Operand)
    requires Agree(a, a') && Agree(b, b') && a.wordLength == b.wordLength
    ensures ConcatOf(a, b) == ConcatOf(a', b')
  {
    var L := a.wordLength;
    var c, c' := ConcatOf(a, b), ConcatOf(a', b');
    forall i, n | 0 <= i <= L && 0 <= n <= L
      ensures c.containsSubstring[i][n] == c'.containsSubstring[i][n]
    {
      assert c.containsSubstring[i] == ConcatRow(a, b, i);
      assert c'.containsSubstring[i] == ConcatRow(a', b', i);
      if InWindow(L, i, n) {
        SplitCoversRespectsAgree(a, a', b, b', i, n);
      }
    }
    forall p | 1 <= p < L
      ensures SuffixJoin(a, b, p) == SuffixJoin(a', b', p) && PrefixJoin(a, b, p) == PrefixJoin(a', b', p)
    {
      JoinsRespectAgree(a, a', b, b', p);
    }
    assert Spans(a, b) == Spans(a', b');
    OperandExtensionality(c, c');
  }

  lemma SplitCoversRespectsAgree(a: Operand, a': Operand, b: Operand, b': Operand, i: nat, n: nat)
    requires Agree(a, a') && Agree(b, b') && a.wordLength == b.wordLength && InWindow(a.wordLength, i, n)
    ensures SplitCovers(a, b, i, n) == SplitCovers(a', b', i, n)
  {
    var L := a.wordLength;
    forall k | 0 <= k <= n
      ensures Piece(a, i, k) == Piece(a', i, k) && Piece(b, i + k, n - k) == Piece(b', i + k, n - k)
    {
      if k != 0 { assert InWindow(L, i, k); }
      if k != n { assert InWindow(L, i + k, n - k); }
    }
  }

  lemma JoinsRespectAgree(a: Operand, a': Operand, b: Operand, b': Operand, p: nat)
    requires Agree(a, a') && Agree(b, b') && a.wordLength == b.wordLength && 1 <= p < a.wordLength
    ensures SuffixJoin(a, b, p) == SuffixJoin(a', b', p) && PrefixJoin(a, b, p) == PrefixJoin(a', b', p)
  {
    var L := a.wordLength;
    forall q | 1 <= q < p
      ensures b.containsSubstring[q][p - q] == b'.containsSubstring[q][p - q]
      ensures a.containsSubstring[L - p][p - q] == a'.containsSubstring[L - p][p - q]
    {
      assert InWindow(L, q, p - q);
      assert InWindow(L, L - p, p - q);
    }
  }

  /** Union preserves agreement. */
  lemma UnionRespectsAgree(a: Operand, a': Operand, b: Operand, b': Operand)
    requires Agree(a, a') && Agree(b, b') && a.wordLength == b.wordLength
    ensures Agree(UnionOf(a, b), UnionOf(a', b'))
  {
    var L := a.wordLength;
    forall i: nat, n: nat | InWindow(L, i, n)
      ensures UnionOf(a, b).containsSubstring[i][n] == UnionOf(a', b').containsSubstring[i][n]
    {
      assert UnionOf(a, b).containsSubstring[i] == UnionRow(a, b, i);
      assert UnionOf(a', b').containsSubstring[i] == UnionRow(a', b', i);
    }
  }

  /** The epsilon leaf is a two-sided identity of concatenation, up to the
      boundary entries at length L, which concatenation never sets. */
  lemma ConcatEpsilonIdentity(a: Operand, word: string)
    requires a.Valid() && a.wordLength == |word|
    ensures Agree(ConcatOf(a, LeafOf(EPSILON, word)), a)
    ensures Agree(ConcatOf(LeafOf(EPSILON, word), a), a)
  {
    var e := LeafOf(EPSILON, word);
    var L := |word|;
    var right, left := ConcatOf(a, e), ConcatOf(e, a);
    forall i: nat, n: nat | InWindow(L, i, n)
      ensures right.containsSubstring[i][n] == a.containsSubstring[i][n]
      ensures left.containsSubstring[i][n] == a.containsSubstring[i][n]
    {
      assert right.containsSubstring[i] == ConcatRow(a, e, i);
      assert left.containsSubstring[i] == ConcatRow(e, a, i);
      if a.containsSubstring[i][n] {
        assert Piece(a, i, n) && Piece(e, i + n, 0);
        assert Piece(e, i, 0) && Piece(a, i, n);
      }
    }
  }

  /** The word flag of a concatenation survives an empty right or left operand:
      concatenating with the empty language keeps the other side's flag even though
      the table and the epsilon flag become empty. */
  lemma ConcatWithEmptyKeepsWordFlag(a: Operand)
    requires a.Valid()
    ensures var e := EmptyOperand(a.wordLength);
      && ConcatOf(a, e).containsWordAsSubstring == a.containsWordAsSubstring
      && ConcatOf(e, a).containsWordAsSubstring == a.containsWordAsSubstring
      && !ConcatOf(a, e).containsEpsilon
      && (forall i, n :: 0 <= i <= a.wordLength && 0 <= n <= a.wordLength ==> !ConcatOf(a, e).containsSubstring[i][n])
  {
    var e := EmptyOperand(a.wordLength);
    forall i, n | 0 <= i <= a.wordLength && 0 <= n <= a.wordLength
      ensures !ConcatOf(a, e).containsSubstring[i][n]
    {
      assert ConcatOf(a, e).containsSubstring[i] == ConcatRow(a, e, i);
    }
  }
}
