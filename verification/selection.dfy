/** The candidate-selection loop both `DetachScheduleFile.call()` and
    `transferLink` use: the first candidate is the seed with score 0, and
    a later candidate that passes the filter replaces the current best only
    when its score is strictly greater. */
module Selection {

  /** No eligible candidate scores above 0. */
  predicate NoPositive<T>(cands: seq<T>, eligible: T -> bool, score: T -> real)
  {
    forall i :: 0 <= i < |cands| && eligible(cands[i]) ==> score(cands[i]) <= 0.0
  }

  /** Position `k` is what the loop picks: the seed when no eligible
      candidate scores above 0, otherwise the earliest eligible candidate of
      maximal score. */
  predicate IsSeededArgMax<T>(cands: seq<T>, eligible: T -> bool, score: T -> real, k: int)
  {
    && 0 <= k < |cands|
    && (NoPositive(cands, eligible, score) ==> k == 0)
    && (!NoPositive(cands, eligible, score) ==>
          && eligible(cands[k])
          && score(cands[k]) > 0.0
          && (forall i :: 0 <= i < |cands| && eligible(cands[i]) ==> score(cands[i]) <= score(cands[k]))
          && (forall i :: 0 <= i < k && eligible(cands[i]) ==> score(cands[i]) < score(cands[k])))
  }

  /** The loop from position `i` on, with `best`/`bestScore` the loop
      variables `bestCandidate`/`candidateSimilarity`. */
  function SeededArgMaxFrom<T>(cands: seq<T>, eligible: T -> bool, score: T -> real,
                               i: nat, best: nat, bestScore: real): (k: nat)
    requires i <= |cands| && best < |cands|
    requires bestScore >= 0.0
    requires bestScore == 0.0 ==>
      best == 0 && forall j :: 0 <= j < i && eligible(cands[j]) ==> score(cands[j]) <= 0.0
    requires bestScore > 0.0 ==>
      && best < i && eligible(cands[best]) && score(cands[best]) == bestScore
      && (forall j :: 0 <= j < i && eligible(cands[j]) ==> score(cands[j]) <= bestScore)
      && (forall j :: 0 <= j < best && eligible(cands[j]) ==> score(cands[j]) < bestScore)
    ensures IsSeededArgMax(cands, eligible, score, k)
    decreases |cands| - i
  {
    if i == |cands| then best
    else if eligible(cands[i]) && score(cands[i]) > bestScore then
      SeededArgMaxFrom(cands, eligible, score, i + 1, i, score(cands[i]))
    else
      SeededArgMaxFrom(cands, eligible, score, i + 1, best, bestScore)
  }

  /** The whole loop over a non-empty candidate list. */
  function SeededArgMax<T>(cands: seq<T>, eligible: T -> bool, score: T -> real): (k: nat)
    requires |cands| > 0
    ensures IsSeededArgMax(cands, eligible, score, k)
  {
    SeededArgMaxFrom(cands, eligible, score, 0, 0, 0.0)
  }

  /** The description pins the position down: at most one position meets it. */
  lemma SeededArgMaxUnique<T>(cands: seq<T>, eligible: T -> bool, score: T -> real, k1: int, k2: int)
    requires IsSeededArgMax(cands, eligible, score, k1)
    requires IsSeededArgMax(cands, eligible, score, k2)
    ensures k1 == k2
  {
  }
}
