/** The language algebra of solution.cpp (struct Operand).

    An Operand does not hold the strings of a language. It holds, for one fixed
    reference word W of length L = wordLength, the facts about that language
    that are needed to decide whether W occurs inside one of its strings:

    - containsSubstring[i][n]: the window W[i..i+n) is a string of the language;
    - containsEpsilon: the empty string is in the language;
    - containsWordAsSubstring: W occurs inside some string of the language;
    - containsSuffixEqualsToPrefix[p]: some string of the language ends with W[..p];
    - containsPrefixEqualsToSuffix[s]: some string of the language starts with W[L-s..].

    The C++ struct is a value type that is copied on every operation, so it is a
    datatype here. Each operation has a declarative specification function
    (EmptyOperand, LeafOf, UnionOf, ConcatOf) and, where the source fills its
    tables in loops, a method with those loops proved equal to it. */
module Operands {

  /** The symbol that denotes the empty string in expressions. */
  const EPSILON: char := '1'

  datatype Operand = Operand(
    containsSubstring: seq<seq<bool>>,
    containsEpsilon: bool,
    containsWordAsSubstring: bool,
    containsSuffixEqualsToPrefix: seq<bool>,
    containsPrefixEqualsToSuffix: seq<bool>,
    wordLength: nat)
  {
    /** The tables have the (L+1) x (L+1) and L+1 shapes that the constructors allocate. */
    ghost predicate Valid() {
      && |containsSubstring| == wordLength + 1
      && (forall i :: 0 <= i < |containsSubstring| ==> |containsSubstring[i]| == wordLength + 1)
      && |containsSuffixEqualsToPrefix| == wordLength + 1
      && |containsPrefixEqualsToSuffix| == wordLength + 1
    }

    /** Only entries that name a window of W, and boundary lengths other than 0, are ever set. */
    ghost predicate Tidy()
      requires Valid()
    {
      && (forall i, n :: 0 <= i <= wordLength && 0 <= n <= wordLength && containsSubstring[i][n] ==>
            InWindow(wordLength, i, n))
      && !containsSuffixEqualsToPrefix[0]
      && !containsPrefixEqualsToSuffix[0]
    }

    /** The one fact the evaluator reports (isWordEqualToSomeSubstringInLanguage). */
    function IsWordEqualToSomeSubstringInLanguage(): bool {
      containsWordAsSubstring
    }
  }

  /** (i, n) names a non-empty window W[i..i+n) of a word of length L. */
  predicate InWindow(L: nat, i: nat, n: nat) {
    i < L && 1 <= n <= L - i
  }

  /** Two operands for the same reference word, in the shape the constructors allocate. */
  ghost predicate Compatible(left: Operand, right: Operand) {
    left.Valid() && right.Valid() && left.wordLength == right.wordLength
  }

  /** a and b hold the same facts at the window entries, the two flags and the
      boundary lengths 1..L-1. Concatenation reads only these entries; union
      ORs the other entries only into themselves, so no entry compared here
      ever depends on them. */
  ghost predicate Agree(a: Operand, b: Operand) {
    && Compatible(a, b)
    && a.containsEpsilon == b.containsEpsilon
    && a.containsWordAsSubstring == b.containsWordAsSubstring
    && (forall i: nat, n: nat :: InWindow(a.wordLength, i, n) ==> a.containsSubstring[i][n] == b.containsSubstring[i][n])
    && (forall p :: 1 <= p < a.wordLength ==>
          && a.containsSuffixEqualsToPrefix[p] == b.containsSuffixEqualsToPrefix[p]
          && a.containsPrefixEqualsToSuffix[p] == b.containsPrefixEqualsToSuffix[p])
  }

  // ---------------------------------------------------------------------------
  // Constructors

  /** The empty language: every fact false (Operand(ulong wordLength)). */
  function EmptyOperand(L: nat): (r: Operand)
    ensures r.Valid() && r.Tidy() && r.wordLength == L
    ensures !r.containsEpsilon && !r.containsWordAsSubstring
    ensures forall i, n :: 0 <= i <= L && 0 <= n <= L ==> !r.containsSubstring[i][n]
    ensures forall n :: 0 <= n <= L ==> !r.containsSuffixEqualsToPrefix[n] && !r.containsPrefixEqualsToSuffix[n]
  {
    Operand(seq(L + 1, _ => seq(L + 1, _ => false)), false, false, seq(L + 1, _ => false), seq(L + 1, _ => false), L)
  }

  /** The language of one symbol relative to `word` (Operand(char, const string &)).
      The epsilon symbol gives the language {""}; any other character c the language {c}. */
  ghost function LeafOf(character: char, word: string): (r: Operand)
    requires character != EPSILON ==> |word| > 0
    ensures r.Valid() && r.Tidy() && r.wordLength == |word|
  {
    var L := |word|;
    if character == EPSILON then
      EmptyOperand(L).(containsEpsilon := true)
    else
      Operand(
        seq(L + 1, i requires 0 <= i <= L => seq(L + 1, n => i < L && n == 1 && word[i] == character)),
        false,
        L == 1 && word[0] == character,
        seq(L + 1, p => p == 1 && word[0] == character),
        seq(L + 1, s => s == 1 && word[L - 1] == character),
        L)
  }

  /** Builds a leaf the way the constructor does: zero tables, then the two
      boundary entries and a loop over the positions of the word. */
  method NewLeaf(character: char, word: string) returns (r: Operand)
    requires character != EPSILON ==> |word| > 0
    ensures r == LeafOf(character, word)
  {
    var L := |word|;
    r := EmptyOperand(L);
    if character == EPSILON {
      r := r.(containsEpsilon := true);
      return;
    }
    r := r.(containsWordAsSubstring := if L == 1 then word[0] == character else false);
    if word[0] == character {
      r := r.(containsSuffixEqualsToPrefix := r.containsSuffixEqualsToPrefix[1 := true]);
    }
    if word[L - 1] == character {
      r := r.(containsPrefixEqualsToSuffix := r.containsPrefixEqualsToSuffix[1 := true]);
    }
    var table := r.containsSubstring;
    for startPosition := 0 to L
      invariant Square(table, L)
      invariant forall i, n :: 0 <= i <= L && 0 <= n <= L ==>
                  table[i][n] == (i < startPosition && n == 1 && word[i] == character)
    {
      if character == word[startPosition] {
        table := table[startPosition := table[startPosition][1 := true]];
      }
    }
    ghost var spec := LeafOf(character, word);
    TableExtensionality(table, spec.containsSubstring, L);
    r := r.(containsSubstring := table);
    assert r.containsSuffixEqualsToPrefix == spec.containsSuffixEqualsToPrefix;
    assert r.containsPrefixEqualsToSuffix == spec.containsPrefixEqualsToSuffix;
  }

  // ---------------------------------------------------------------------------
  // Union (operator+)

  /** Union as the source computes it: every window entry (lengths 0..L-i, rows 0..L-1)
      and every boundary entry 1..L is the OR of the two operands; the remaining
      entries are copied from the left operand. */
  ghost function UnionOf(left: Operand, right: Operand): (r: Operand)
    requires Compatible(left, right)
    ensures r.Valid() && r.wordLength == left.wordLength
    ensures left.Tidy() && right.Tidy() ==> r.Tidy()
  {
    var L := left.wordLength;
    Operand(
      seq(L + 1, i requires 0 <= i <= L => UnionRow(left, right, i)),
      left.containsEpsilon || right.containsEpsilon,
      left.containsWordAsSubstring || right.containsWordAsSubstring,
      seq(L + 1, p requires 0 <= p <= L =>
        if 1 <= p then left.containsSuffixEqualsToPrefix[p] || right.containsSuffixEqualsToPrefix[p]
        else left.containsSuffixEqualsToPrefix[p]),
      seq(L + 1, s requires 0 <= s <= L =>
        if 1 <= s then left.containsPrefixEqualsToSuffix[s] || right.containsPrefixEqualsToSuffix[s]
        else left.containsPrefixEqualsToSuffix[s]),
      L)
  }

  /** Row i of the union's substring table. */
  ghost function UnionRow(left: Operand, right: Operand, i: nat): seq<bool>
    requires Compatible(left, right) && i <= left.wordLength
  {
    var L := left.wordLength;
    seq(L + 1, n requires 0 <= n <= L =>
      if i < L && n <= L - i then left.containsSubstring[i][n] || right.containsSubstring[i][n]
      else left.containsSubstring[i][n])
  }

  /** operator+: ORs `right` into a copy of `left` with nested loops. */
  method Add(left: Operand, right: Operand) returns (r: Operand)
    requires Compatible(left, right)
    ensures r == UnionOf(left, right)
  {
    var L := left.wordLength;
    var table := left.containsSubstring;
    for startPosition := 0 to L
      invariant |table| == L + 1
      invariant forall i :: 0 <= i < startPosition ==> table[i] == UnionRow(left, right, i)
      invariant forall i :: startPosition <= i <= L ==> table[i] == left.containsSubstring[i]
    {
      var row := UnionRowAt(left, right, startPosition);
      table := table[startPosition := row];
    }
    var suffixes := left.containsSuffixEqualsToPrefix;
    var prefixes := left.containsPrefixEqualsToSuffix;
    for length := 1 to L + 1
      invariant |suffixes| == |prefixes| == L + 1
      invariant forall p :: 0 <= p <= L ==>
                  suffixes[p] == if 1 <= p < length
                                 then left.containsSuffixEqualsToPrefix[p] || right.containsSuffixEqualsToPrefix[p]
                                 else left.containsSuffixEqualsToPrefix[p]
      invariant forall s :: 0 <= s <= L ==>
                  prefixes[s] == if 1 <= s < length
                                 then left.containsPrefixEqualsToSuffix[s] || right.containsPrefixEqualsToSuffix[s]
                                 else left.containsPrefixEqualsToSuffix[s]
    {
      suffixes := suffixes[length := suffixes[length] || right.containsSuffixEqualsToPrefix[length]];
      prefixes := prefixes[length := prefixes[length] || right.containsPrefixEqualsToSuffix[length]];
    }
    UnionOfParts(left, right, table, suffixes, prefixes);
    r := Operand(table,
                 left.containsEpsilon || right.containsEpsilon,
                 left.containsWordAsSubstring || right.containsWordAsSubstring,
                 suffixes, prefixes, L);
  }

  /** The inner loop of operator+ over one row: ORs the window entries of length 0..L-i. */
  method UnionRowAt(left: Operand, right: Operand, startPosition: nat) returns (row: seq<bool>)
    requires Compatible(left, right) && startPosition < left.wordLength
    ensures row == UnionRow(left, right, startPosition)
  {
    var L := left.wordLength;
    row := left.containsSubstring[startPosition];
    for length := 0 to L - startPosition + 1
      invariant |row| == L + 1
      invariant forall n :: 0 <= n <= L ==>
                  row[n] == if n < length
                            then left.containsSubstring[startPosition][n] || right.containsSubstring[startPosition][n]
                            else left.containsSubstring[startPosition][n]
    {
      row := row[length := row[length] || right.containsSubstring[startPosition][length]];
    }
  }

  /** Assembles the union from its rows and boundary vectors. */
  lemma UnionOfParts(left: Operand, right: Operand, table: seq<seq<bool>>, suffixes: seq<bool>, prefixes: seq<bool>)
    requires Compatible(left, right)
    requires |table| == left.wordLength + 1
    requires forall i :: 0 <= i <= left.wordLength ==> table[i] == UnionRow(left, right, i)
    requires |suffixes| == |prefixes| == left.wordLength + 1
    requires forall p :: 0 <= p <= left.wordLength ==>
               suffixes[p] == if 1 <= p then left.containsSuffixEqualsToPrefix[p] || right.containsSuffixEqualsToPrefix[p]
                              else left.containsSuffixEqualsToPrefix[p]
    requires forall s :: 0 <= s <= left.wordLength ==>
               prefixes[s] == if 1 <= s then left.containsPrefixEqualsToSuffix[s] || right.containsPrefixEqualsToSuffix[s]
                              else left.containsPrefixEqualsToSuffix[s]
    ensures UnionOf(left, right) ==
              Operand(table,
                      left.containsEpsilon || right.containsEpsilon,
                      left.containsWordAsSubstring || right.containsWordAsSubstring,
                      suffixes, prefixes, left.wordLength)
  {
    var spec := UnionOf(left, right);
    assert table == spec.containsSubstring;
    assert suffixes == spec.containsSuffixEqualsToPrefix;
    assert prefixes == spec.containsPrefixEqualsToSuffix;
  }

  // ---------------------------------------------------------------------------
  // Concatenation (operator*)

  /** A piece of length k starting at i belongs to the operand's language; the
      empty piece is decided by containsEpsilon, as the split loop does. */
  ghost predicate Piece(o: Operand, i: nat, k: nat)
    requires o.Valid() && i <= o.wordLength && k <= o.wordLength
  {
    if k == 0 then o.containsEpsilon else o.containsSubstring[i][k]
  }

  /** Some split W[i..i+k) ++ W[i+k..i+n) has its left part in `left` and its right part in `right`. */
  ghost predicate SplitCovers(left: Operand, right: Operand, i: nat, n: nat)
    requires Compatible(left, right) && i + n <= left.wordLength
  {
    exists k :: 0 <= k <= n && Piece(left, i, k) && Piece(right, i + k, n - k)
  }

  /** The same, with only the split points k < m considered. */
  ghost predicate SplitCoversBelow(left: Operand, right: Operand, i: nat, n: nat, m: nat)
    requires Compatible(left, right) && i + n <= left.wordLength
  {
    exists k :: 0 <= k < m && k <= n && Piece(left, i, k) && Piece(right, i + k, n - k)
  }

  /** Considering one more split point m adds exactly the split W[i..i+m) ++ W[i+m..i+n). */
  lemma SplitCoversBelowStep(left: Operand, right: Operand, i: nat, n: nat, m: nat)
    requires Compatible(left, right) && i + n <= left.wordLength && m <= n
    ensures SplitCoversBelow(left, right, i, n, m + 1) ==
              (SplitCoversBelow(left, right, i, n, m) || (Piece(left, i, m) && Piece(right, i + m, n - m)))
  {
    if Piece(left, i, m) && Piece(right, i + m, n - m) {
      assert SplitCoversBelow(left, right, i, n, m + 1);
    }
  }

  /** Once every split point 0..n has been considered, the split rule is decided. */
  lemma SplitCoversBelowAll(left: Operand, right: Operand, i: nat, n: nat)
    requires Compatible(left, right) && i + n <= left.wordLength
    ensures SplitCoversBelow(left, right, i, n, n + 1) == SplitCovers(left, right, i, n)
  {
  }

  /** W straddles the boundary: a string of `left` ends with W[..p] and a string of
      `right` starts with the remaining W[p..], for some 1 <= p < L. */
  ghost predicate Spans(left: Operand, right: Operand)
    requires Compatible(left, right)
  {
    var L := left.wordLength;
    exists p :: 1 <= p < L && left.containsSuffixEqualsToPrefix[p] && right.containsPrefixEqualsToSuffix[L - p]
  }

  /** Some string of left.right ends with W[..p]: wholly inside the right string, or
      inside the left string followed by the empty string, or W[..q] ends a left
      string and W[q..p) is a right string. */
  ghost predicate SuffixJoin(left: Operand, right: Operand, p: nat)
    requires Compatible(left, right) && p <= left.wordLength
  {
    || right.containsSuffixEqualsToPrefix[p]
    || (left.containsSuffixEqualsToPrefix[p] && right.containsEpsilon)
    || exists q :: 1 <= q < p && right.containsSubstring[q][p - q] && left.containsSuffixEqualsToPrefix[q]
  }

  /** Some string of left.right starts with W[L-s..]: the mirror image of SuffixJoin. */
  ghost predicate PrefixJoin(left: Operand, right: Operand, s: nat)
    requires Compatible(left, right) && s <= left.wordLength
  {
    var L := left.wordLength;
    || left.containsPrefixEqualsToSuffix[s]
    || (left.containsEpsilon && right.containsPrefixEqualsToSuffix[s])
    || exists t :: 1 <= t < s && left.containsSubstring[L - s][s - t] && right.containsPrefixEqualsToSuffix[t]
  }

  /** Spans with only the split points p < m considered. */
  ghost predicate SpansBelow(left: Operand, right: Operand, m: nat)
    requires Compatible(left, right)
  {
    var L := left.wordLength;
    exists p :: 1 <= p < m && p < L && left.containsSuffixEqualsToPrefix[p] && right.containsPrefixEqualsToSuffix[L - p]
  }

  /** Considering one more split point m adds exactly W[..m) ++ W[m..). */
  lemma SpansBelowStep(left: Operand, right: Operand, m: nat)
    requires Compatible(left, right) && 1 <= m < left.wordLength
    ensures SpansBelow(left, right, m + 1) ==
              (SpansBelow(left, right, m) ||
               (left.containsSuffixEqualsToPrefix[m] && right.containsPrefixEqualsToSuffix[left.wordLength - m]))
  {
  }

  /** SuffixJoin with only the inner split points q < m considered. */
  ghost predicate SuffixJoinBelow(left: Operand, right: Operand, p: nat, m: nat)
    requires Compatible(left, right) && p <= left.wordLength
  {
    || right.containsSuffixEqualsToPrefix[p]
    || (left.containsSuffixEqualsToPrefix[p] && right.containsEpsilon)
    || exists q :: 1 <= q < m && q < p && right.containsSubstring[q][p - q] && left.containsSuffixEqualsToPrefix[q]
  }

  lemma SuffixJoinBelowStep(left: Operand, right: Operand, p: nat, m: nat)
    requires Compatible(left, right) && p <= left.wordLength && 1 <= m < p
    ensures SuffixJoinBelow(left, right, p, m + 1) ==
              (SuffixJoinBelow(left, right, p, m) ||
               (right.containsSubstring[m][p - m] && left.containsSuffixEqualsToPrefix[m]))
  {
  }

  /** PrefixJoin with only the inner split points t < m considered. */
  ghost predicate PrefixJoinBelow(left: Operand, right: Operand, s: nat, m: nat)
    requires Compatible(left, right) && s <= left.wordLength
  {
    var L := left.wordLength;
    || left.containsPrefixEqualsToSuffix[s]
    || (left.containsEpsilon && right.containsPrefixEqualsToSuffix[s])
    || exists t :: 1 <= t < m && t < s && left.containsSubstring[L - s][s - t] && right.containsPrefixEqualsToSuffix[t]
  }

  lemma PrefixJoinBelowStep(left: Operand, right: Operand, s: nat, m: nat)
    requires Compatible(left, right) && s <= left.wordLength && 1 <= m < s
    ensures PrefixJoinBelow(left, right, s, m + 1) ==
              (PrefixJoinBelow(left, right, s, m) ||
               (left.containsSubstring[left.wordLength - s][s - m] && right.containsPrefixEqualsToSuffix[m]))
  {
  }

  /** Concatenation as the source computes it, starting from the empty operand:
      window entries from the split rule, the boundary vectors at lengths 1..L-1
      from SuffixJoin and PrefixJoin (lengths 0 and L stay false), and the word flag
      from either side or a straddling split. */
  ghost function ConcatOf(left: Operand, right: Operand): (r: Operand)
    requires Compatible(left, right)
    ensures r.Valid() && r.Tidy() && r.wordLength == left.wordLength
  {
    var L := left.wordLength;
    Operand(
      seq(L + 1, i requires 0 <= i <= L => ConcatRow(left, right, i)),
      left.containsEpsilon && right.containsEpsilon,
      left.containsWordAsSubstring || right.containsWordAsSubstring || Spans(left, right),
      seq(L + 1, p requires 0 <= p <= L => 1 <= p < L && SuffixJoin(left, right, p)),
      seq(L + 1, s requires 0 <= s <= L => 1 <= s < L && PrefixJoin(left, right, s)),
      L)
  }

  /** Row i of the concatenation's substring table. */
  ghost function ConcatRow(left: Operand, right: Operand, i: nat): seq<bool>
    requires Compatible(left, right) && i <= left.wordLength
  {
    var L := left.wordLength;
    seq(L + 1, n requires 0 <= n <= L => InWindow(L, i, n) && SplitCovers(left, right, i, n))
  }

  /** updateContainsSubstringForMultiply: ORs the split rule into every window entry
      of `result` and sets its epsilon flag; nothing else changes. */
  method UpdateContainsSubstringForMultiply(result: Operand, left: Operand, right: Operand) returns (r: Operand)
    requires Compatible(left, right) && Compatible(result, left)
    ensures r.Valid() && r.wordLength == left.wordLength
    ensures forall i, n :: 0 <= i <= left.wordLength && 0 <= n <= left.wordLength ==>
              r.containsSubstring[i][n] ==
                (result.containsSubstring[i][n] || (InWindow(left.wordLength, i, n) && SplitCovers(left, right, i, n)))
    ensures r == result.(containsSubstring := r.containsSubstring,
                         containsEpsilon := left.containsEpsilon && right.containsEpsilon)
  {
    var L := left.wordLength;
    var table := result.containsSubstring;
    for startPosition := 0 to L
      invariant Square(table, L)
      invariant forall i, n :: 0 <= i < startPosition && 0 <= n <= L ==>
                  table[i][n] == (result.containsSubstring[i][n] || (InWindow(L, i, n) && SplitCovers(left, right, i, n)))
      invariant forall i :: startPosition <= i <= L ==> table[i] == result.containsSubstring[i]
    {
      var row := table[startPosition];
      for length := 1 to L - startPosition + 1
        invariant |row| == L + 1
        invariant forall n :: 0 <= n <= L ==>
                    row[n] == (result.containsSubstring[startPosition][n] ||
                               (n < length && InWindow(L, startPosition, n) && SplitCovers(left, right, startPosition, n)))
      {
        var entry := SplitEntry(row[length], left, right, startPosition, length);
        row := row[length := entry];
      }
      table := table[startPosition := row];
    }
    r := result.(containsSubstring := table,
                 containsEpsilon := left.containsEpsilon && right.containsEpsilon);
  }

  /** The innermost loop of updateContainsSubstringForMultiply: ORs into `entry`
      every split of W[i..i+n) into a left piece and a right piece. */
  method SplitEntry(initial: bool, left: Operand, right: Operand, startPosition: nat, length: nat)
    returns (entry: bool)
    requires Compatible(left, right) && 1 <= length && startPosition + length <= left.wordLength
    ensures entry == (initial || SplitCovers(left, right, startPosition, length))
  {
    entry := initial;
    for prefixLength := 0 to length + 1
      invariant entry == (initial || SplitCoversBelow(left, right, startPosition, length, prefixLength))
    {
      SplitCoversBelowStep(left, right, startPosition, length, prefixLength);
      var suffixLength := length - prefixLength;
      if prefixLength == 0 {
        if left.containsEpsilon {
          entry := entry || right.containsSubstring[startPosition][length];
        }
        continue;
      }
      if suffixLength == 0 {
        if right.containsEpsilon {
          entry := entry || left.containsSubstring[startPosition][length];
        }
        continue;
      }
      entry := entry || (left.containsSubstring[startPosition][prefixLength] &&
                         right.containsSubstring[startPosition + prefixLength][suffixLength]);
    }
    SplitCoversBelowAll(left, right, startPosition, length);
  }

  /** updateContainsWordAsSubstringForMultiply: sets the word flag of `result` and
      its boundary entries 1..L-1 from the two operands; nothing else changes. */
  method UpdateContainsWordAsSubstringForMultiply(result: Operand, left: Operand, right: Operand) returns (r: Operand)
    requires Compatible(left, right) && Compatible(result, left)
    ensures r.Valid() && r.wordLength == left.wordLength
    ensures r.containsWordAsSubstring ==
              (left.containsWordAsSubstring || right.containsWordAsSubstring || Spans(left, right))
    ensures forall p :: 0 <= p <= left.wordLength ==>
              r.containsSuffixEqualsToPrefix[p] ==
                if 1 <= p < left.wordLength then SuffixJoin(left, right, p) else result.containsSuffixEqualsToPrefix[p]
    ensures forall s :: 0 <= s <= left.wordLength ==>
              r.containsPrefixEqualsToSuffix[s] ==
                if 1 <= s < left.wordLength then PrefixJoin(left, right, s) else result.containsPrefixEqualsToSuffix[s]
    ensures r == result.(containsWordAsSubstring := r.containsWordAsSubstring,
                         containsSuffixEqualsToPrefix := r.containsSuffixEqualsToPrefix,
                         containsPrefixEqualsToSuffix := r.containsPrefixEqualsToSuffix)
  {
    var L := left.wordLength;
    var found := left.containsWordAsSubstring || right.containsWordAsSubstring;
    for prefixLength := 1 to if L == 0 then 1 else L
      invariant found == (left.containsWordAsSubstring || right.containsWordAsSubstring ||
                          SpansBelow(left, right, prefixLength))
    {
      SpansBelowStep(left, right, prefixLength);
      var suffixLength := L - prefixLength;
      found := found || (left.containsSuffixEqualsToPrefix[prefixLength] &&
                         right.containsPrefixEqualsToSuffix[suffixLength]);
    }
    assert SpansBelow(left, right, if L == 0 then 1 else L) == Spans(left, right);

    var suffixes := result.containsSuffixEqualsToPrefix;
    for prefixLength := 1 to if L == 0 then 1 else L
      invariant |suffixes| == L + 1
      invariant forall p :: 0 <= p <= L ==>
                  suffixes[p] == if 1 <= p < prefixLength then SuffixJoin(left, right, p)
                                 else result.containsSuffixEqualsToPrefix[p]
    {
      var entry := SuffixJoinAt(left, right, prefixLength);
      suffixes := suffixes[prefixLength := entry];
    }

    var prefixes := result.containsPrefixEqualsToSuffix;
    for suffixLength := 1 to if L == 0 then 1 else L
      invariant |prefixes| == L + 1
      invariant forall s :: 0 <= s <= L ==>
                  prefixes[s] == if 1 <= s < suffixLength then PrefixJoin(left, right, s)
                                 else result.containsPrefixEqualsToSuffix[s]
    {
      var entry := PrefixJoinAt(left, right, suffixLength);
      prefixes := prefixes[suffixLength := entry];
    }

    r := result.(containsWordAsSubstring := found,
                 containsSuffixEqualsToPrefix := suffixes,
                 containsPrefixEqualsToSuffix := prefixes);
  }

  /** The inner loop over subPrefixLength: decides SuffixJoin at one length. */
  method SuffixJoinAt(left: Operand, right: Operand, prefixLength: nat) returns (entry: bool)
    requires Compatible(left, right) && prefixLength <= left.wordLength
    ensures entry == SuffixJoin(left, right, prefixLength)
  {
    entry := right.containsSuffixEqualsToPrefix[prefixLength];
    entry := entry || (left.containsSuffixEqualsToPrefix[prefixLength] && right.containsEpsilon);
    for subPrefixLength := 1 to if prefixLength == 0 then 1 else prefixLength
      invariant entry == SuffixJoinBelow(left, right, prefixLength, subPrefixLength)
    {
      SuffixJoinBelowStep(left, right, prefixLength, subPrefixLength);
      var suffixOfPrefixLength := prefixLength - subPrefixLength;
      entry := entry || (right.containsSubstring[subPrefixLength][suffixOfPrefixLength] &&
                         left.containsSuffixEqualsToPrefix[subPrefixLength]);
    }
  }

  /** The inner loop over subSuffixLength: decides PrefixJoin at one length. */
  method PrefixJoinAt(left: Operand, right: Operand, suffixLength: nat) returns (entry: bool)
    requires Compatible(left, right) && suffixLength <= left.wordLength
    ensures entry == PrefixJoin(left, right, suffixLength)
  {
    var L := left.wordLength;
    entry := left.containsPrefixEqualsToSuffix[suffixLength];
    entry := entry || (left.containsEpsilon && right.containsPrefixEqualsToSuffix[suffixLength]);
    for subSuffixLength := 1 to if suffixLength == 0 then 1 else suffixLength
      invariant entry == PrefixJoinBelow(left, right, suffixLength, subSuffixLength)
    {
      PrefixJoinBelowStep(left, right, suffixLength, subSuffixLength);
      var prefixOfSuffixLength := suffixLength - subSuffixLength;
      entry := entry || (left.containsSubstring[L - suffixLength][prefixOfSuffixLength] &&
                         right.containsPrefixEqualsToSuffix[subSuffixLength]);
    }
  }

  /** operator*: a blank result for the same word, filled by the two helpers. */
  method Multiply(left: Operand, right: Operand) returns (r: Operand)
    requires Compatible(left, right)
    ensures r == ConcatOf(left, right)
  {
    var L := left.wordLength;
    r := EmptyOperand(L);
    r := UpdateContainsSubstringForMultiply(r, left, right);
    r := UpdateContainsWordAsSubstringForMultiply(r, left, right);
    ghost var spec := ConcatOf(left, right);
    TableExtensionality(r.containsSubstring, spec.containsSubstring, L);
    assert r.containsSuffixEqualsToPrefix == spec.containsSuffixEqualsToPrefix;
    assert r.containsPrefixEqualsToSuffix == spec.containsPrefixEqualsToSuffix;
  }

  // ---------------------------------------------------------------------------
  // Helpers

  /** A table with L+1 rows of L+1 entries. */
  ghost predicate Square(table: seq<seq<bool>>, L: nat) {
    |table| == L + 1 && forall i :: 0 <= i < |table| ==> |table[i]| == L + 1
  }

  /** Two square tables with the same entries are equal. */
  lemma TableExtensionality(a: seq<seq<bool>>, b: seq<seq<bool>>, L: nat)
    requires Square(a, L) && Square(b, L)
    requires forall i, n :: 0 <= i <= L && 0 <= n <= L ==> a[i][n] == b[i][n]
    ensures a == b
  {
    forall i | 0 <= i <= L
      ensures a[i] == b[i]
    {
      assert forall n :: 0 <= n <= L ==> a[i][n] == b[i][n];
    }
  }
}
