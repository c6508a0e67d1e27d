/**
 * `evaluate_match_index` of src/Evaluation.py: the found id-pairs are scored
 * against the perfect id-pairs by the size of their intersection.
 *
 * Both indexes are taken as sets of `(id, id)` pairs.
 */
module Evaluation {
  /** One row of a match index: the ids of the two linked records. */
  type Pair = (string, string)

  /** The result dictionary, one field per key. */
  datatype EvaluateResult = EvaluateResult(
    perfectMatchTotal: int,
    matchCorrect: int,
    matchIncorrect: int,
    missingMatches: int)

  /** A finite set splits into what it shares with `other` and what it does not. */
  lemma SplitBy<T>(s: set<T>, other: set<T>)
    ensures |s| == |s * other| + |s - other|
  {
    assert s == (s * other) + (s - other);
    assert (s * other) !! (s - other);
  }

  /**
   * `evaluate_match_index(match_index, perfect_match_index)`: the found pairs
   * that are perfect matches are correct, the others incorrect, and the
   * perfect matches not found are missing.
   */
  function EvaluateMatchIndex(matchIndex: set<Pair>, perfectMatchIndex: set<Pair>): (r: EvaluateResult)
    ensures r.perfectMatchTotal == |perfectMatchIndex|
    ensures r.matchCorrect == |matchIndex * perfectMatchIndex|
    ensures r.matchIncorrect == |matchIndex - perfectMatchIndex|
    ensures r.missingMatches == |perfectMatchIndex - matchIndex|
  {
    SplitBy(matchIndex, perfectMatchIndex);
    SplitBy(perfectMatchIndex, matchIndex);
    assert perfectMatchIndex * matchIndex == matchIndex * perfectMatchIndex;
    var correct := |matchIndex * perfectMatchIndex|;
    EvaluateResult(
      |perfectMatchIndex|,
      correct,
      |matchIndex| - correct,
      |perfectMatchIndex| - correct)
  }

  /** Every found pair is either correct or incorrect. */
  lemma FoundPairsAreCorrectOrIncorrect(matchIndex: set<Pair>, perfectMatchIndex: set<Pair>)
    ensures var r := EvaluateMatchIndex(matchIndex, perfectMatchIndex);
      r.matchCorrect + r.matchIncorrect == |matchIndex|
  {
    SplitBy(matchIndex, perfectMatchIndex);
  }

  /** Every perfect match is either found or missing. */
  lemma PerfectPairsAreCorrectOrMissing(matchIndex: set<Pair>, perfectMatchIndex: set<Pair>)
    ensures var r := EvaluateMatchIndex(matchIndex, perfectMatchIndex);
      r.matchCorrect + r.missingMatches == r.perfectMatchTotal
  {
    SplitBy(perfectMatchIndex, matchIndex);
    assert perfectMatchIndex * matchIndex == matchIndex * perfectMatchIndex;
  }

  /** No count is negative, and the correct count is bounded by both set sizes. */
  lemma CountsAreBounded(matchIndex: set<Pair>, perfectMatchIndex: set<Pair>)
    ensures var r := EvaluateMatchIndex(matchIndex, perfectMatchIndex);
      0 <= r.matchCorrect <= |matchIndex| && r.matchCorrect <= |perfectMatchIndex| &&
      0 <= r.matchIncorrect <= |matchIndex| && 0 <= r.missingMatches <= |perfectMatchIndex|
  {
    FoundPairsAreCorrectOrIncorrect(matchIndex, perfectMatchIndex);
    PerfectPairsAreCorrectOrMissing(matchIndex, perfectMatchIndex);
  }

  /** The perfect total depends on the perfect matches alone. */
  lemma PerfectTotalIgnoresFoundPairs(m1: set<Pair>, m2: set<Pair>, perfectMatchIndex: set<Pair>)
    ensures EvaluateMatchIndex(m1, perfectMatchIndex).perfectMatchTotal
         == EvaluateMatchIndex(m2, perfectMatchIndex).perfectMatchTotal
  {
  }

  /** Finding exactly the perfect matches leaves nothing incorrect and nothing missing. */
  lemma PerfectFindIsExact(perfectMatchIndex: set<Pair>)
    ensures var r := EvaluateMatchIndex(perfectMatchIndex, perfectMatchIndex);
      r.matchCorrect == r.perfectMatchTotal && r.matchIncorrect == 0 && r.missingMatches == 0
  {
    assert perfectMatchIndex * perfectMatchIndex == perfectMatchIndex;
    assert perfectMatchIndex - perfectMatchIndex == {};
  }

  /** Nothing incorrect and nothing missing happens only when exactly the perfect matches were found. */
  lemma ExactOnlyForPerfectFind(matchIndex: set<Pair>, perfectMatchIndex: set<Pair>)
    requires EvaluateMatchIndex(matchIndex, perfectMatchIndex).matchIncorrect == 0
    requires EvaluateMatchIndex(matchIndex, perfectMatchIndex).missingMatches == 0
    ensures matchIndex == perfectMatchIndex
  {
    assert matchIndex - perfectMatchIndex == {};
    assert perfectMatchIndex - matchIndex == {};
  }

  /** Finding nothing leaves every perfect match missing. */
  lemma EmptyFindMissesEverything(perfectMatchIndex: set<Pair>)
    ensures var r := EvaluateMatchIndex({}, perfectMatchIndex);
      r.matchCorrect == 0 && r.matchIncorrect == 0 && r.missingMatches == r.perfectMatchTotal
  {
    assert {} * perfectMatchIndex == {};
    assert perfectMatchIndex - {} == perfectMatchIndex;
  }

  /** The correct count does not depend on which index is called the perfect one. */
  lemma CorrectIsSymmetric(a: set<Pair>, b: set<Pair>)
    ensures EvaluateMatchIndex(a, b).matchCorrect == EvaluateMatchIndex(b, a).matchCorrect
  {
    assert a * b == b * a;
  }
}
