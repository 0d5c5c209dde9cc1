/** The rank-1 fast path of the evaluation: a single scan over the gallery
    that keeps the best similarity seen so far, replacing it only on a strictly
    greater one. The scan starts from similarity -1.0 and an empty label.

    `Rank1ScanFixed` below is the scan as evidently intended: it starts from "no
    match yet", so the first gallery entry is always taken. */
module RankOne {
  import opened Text
  import opened Ranking

  /** The scan's starting state: similarity -1.0, empty label. The state of
      the scan is a `Match`: the best similarity so far and its label. */
  const Seed: Match := Match(-1.0, "")

  /** `i` is the first index holding the largest score of `ms`. */
  predicate IsFirstMax(ms: seq<Match>, i: int) {
    && 0 <= i < |ms|
    && (forall j :: 0 <= j < |ms| ==> ms[j].score <= ms[i].score)
    && (forall j :: 0 <= j < i ==> ms[j].score < ms[i].score)
  }

  /** The score at `i` is larger than every other score of `ms`. */
  predicate IsUniqueMax(ms: seq<Match>, i: int) {
    && 0 <= i < |ms|
    && forall j :: 0 <= j < |ms| && j != i ==> ms[j].score < ms[i].score
  }

  /** One iteration: a strictly greater similarity replaces the best. */
  function Step(b: Match, m: Match): (r: Match)
    ensures r == b || r == m
    ensures b.score <= r.score && m.score <= r.score
    ensures r.score == b.score ==> r == b
  {
    if m.score > b.score then m else b
  }

  /** The scan over the (similarity, label) entries of one probe, in gallery
      order. The result is the first maximal entry when that entry beats -1.0,
      and the untouched seed otherwise. */
  function Rank1Scan(ms: seq<Match>): (r: Match)
    ensures -1.0 <= r.score
    ensures forall j :: 0 <= j < |ms| ==> ms[j].score <= r.score
    ensures r.score == -1.0 ==> r.identity == ""
    ensures -1.0 < r.score ==> exists i :: IsFirstMax(ms, i) && ms[i] == r
    decreases |ms|
  {
    if |ms| == 0 then Seed
    else
      var front := ms[..|ms| - 1];
      var b := Rank1Scan(front);
      var m := ms[|ms| - 1];
      assert forall j :: 0 <= j < |front| ==> front[j] == ms[j];
      if m.score > b.score then
        assert IsFirstMax(ms, |ms| - 1);
        Step(b, m)
      else
        assert -1.0 < b.score ==> exists i :: IsFirstMax(ms, i) && ms[i] == b by {
          if -1.0 < b.score {
            var i :| IsFirstMax(front, i) && front[i] == b;
            assert IsFirstMax(ms, i);
          }
        }
        Step(b, m)
  }

  /** The loop of `compute_rank1_accuracy` over the gallery, computing the
      same state as the fold `Rank1Scan`. */
  method ScanBestMatch(ms: seq<Match>) returns (bestSimilarity: real, bestMatch: string)
    ensures Match(bestSimilarity, bestMatch) == Rank1Scan(ms)
  {
    bestSimilarity, bestMatch := -1.0, "";
    var i := 0;
    while i < |ms|
      invariant 0 <= i <= |ms|
      invariant Match(bestSimilarity, bestMatch) == Rank1Scan(ms[..i])
    {
      assert ms[..i + 1][..i] == ms[..i];
      if ms[i].score > bestSimilarity {
        bestSimilarity := ms[i].score;
        bestMatch := ms[i].identity;
      }
      i := i + 1;
    }
    assert ms[..|ms|] == ms;
  }

  /** The best match the scan reports for a probe. */
  predicate Rank1Hit(target: string, ms: seq<Match>)
    ensures |ms| == 0 ==> (Rank1Hit(target, ms) <==> target == "")
    ensures Rank1Hit(target, ms) && target != "" ==> HasLabel(ms, target)
  {
    Rank1Scan(ms).identity == target
  }

  /** There is only one first maximum. */
  lemma FirstMaxUnique(ms: seq<Match>, i: int, k: int)
    requires IsFirstMax(ms, i) && IsFirstMax(ms, k)
    ensures i == k
  {
    assert ms[i].score == ms[k].score;
  }

  /** The scan reports the label of the first maximal entry once its score
      beats -1.0. */
  lemma Rank1ScanFirstMax(ms: seq<Match>, i: int)
    requires IsFirstMax(ms, i) && -1.0 < ms[i].score
    ensures Rank1Scan(ms).identity == ms[i].identity
  {
    var r := Rank1Scan(ms);
    var k :| IsFirstMax(ms, k) && ms[k] == r;
    FirstMaxUnique(ms, i, k);
  }

  /** When no score beats -1.0 (in particular for an empty gallery) the scan
      reports the empty label. */
  lemma Rank1ScanNoneAbove(ms: seq<Match>)
    requires forall j :: 0 <= j < |ms| ==> ms[j].score <= -1.0
    ensures Rank1Scan(ms) == Seed
  {
  }

  /** A unique maximum is the first maximum. */
  lemma UniqueMaxIsFirstMax(ms: seq<Match>, i: int)
    requires IsUniqueMax(ms, i)
    ensures IsFirstMax(ms, i)
  {
  }

  /** At rank 1, with a unique maximum at `i`, the general path hits exactly
      when the label at `i` is the probe's. */
  lemma RankOneHitAtUniqueMax(target: string, ms: seq<Match>, i: int)
    requires IsUniqueMax(ms, i)
    ensures RankNHit(target, ms, 1) <==> ms[i].identity == target
  {
    RankNHitIffFewAbove(target, ms, 1);
    forall k | 0 <= k < |ms|
      ensures !Greater(ms[k], ms[i])
    {
      if k == i { GreaterIrreflexive(ms[i]); }
    }
    NoneGreater(ms[i], ms);
    forall j | 0 <= j < |ms| && j != i
      ensures CountGreater(ms[j], ms) > 0
    {
      CountGreaterPositive(ms[j], ms, i);
    }
  }

  /** The fast path and the general path at N = 1 agree on a probe whose
      maximum score is unique and above -1.0. */
  lemma Rank1AgreesWithRankN(target: string, ms: seq<Match>, i: int)
    requires IsUniqueMax(ms, i) && -1.0 < ms[i].score
    ensures Rank1Hit(target, ms) <==> RankNHit(target, ms, 1)
  {
    UniqueMaxIsFirstMax(ms, i);
    Rank1ScanFirstMax(ms, i);
    RankOneHitAtUniqueMax(target, ms, i);
  }

  /** On a tie they can disagree: the scan keeps the earlier "A", while the
      pair order puts the larger label "B" first. */
  lemma Rank1TieDisagrees()
    ensures Rank1Hit("A", [Match(0.5, "A"), Match(0.5, "B")])
    ensures !RankNHit("A", [Match(0.5, "A"), Match(0.5, "B")], 1)
  {
    var ms := [Match(0.5, "A"), Match(0.5, "B")];
    assert IsFirstMax(ms, 0);
    Rank1ScanFirstMax(ms, 0);
    RankNHitIffFewAbove("A", ms, 1);
    assert StringLess("A", "B");
    CountGreaterPositive(ms[0], ms, 1);
  }

  /** As written, the scan never leaves its seed on an empty gallery, so a
      probe whose label is empty counts as a rank-1 hit there. */
  lemma Rank1EmptyGalleryHitsEmptyLabel(target: string)
    ensures Rank1Hit(target, []) <==> target == ""
    ensures !RankNHit(target, [], 1)
  {
  }

  /** The same happens on a non-empty gallery whose scores do not beat -1.0:
      the scan misses the probe's own label that the general path finds. */
  lemma Rank1SeedHidesLowScores()
    ensures !Rank1Hit("A", [Match(-1.0, "A")])
    ensures RankNHit("A", [Match(-1.0, "A")], 1)
  {
    var ms := [Match(-1.0, "A")];
    RankOneHitAtUniqueMax("A", ms, 0);
  }

  /** The corrected scan: starts from "no match yet", so the first entry is
      always taken, then only a strictly greater score replaces the best. */
  function Rank1ScanFixed(ms: seq<Match>): (r: Option<Match>)
    ensures r.None? <==> |ms| == 0
    ensures r.Some? ==> exists i :: IsFirstMax(ms, i) && ms[i] == r.value
    decreases |ms|
  {
    if |ms| == 0 then None
    else
      var front := ms[..|ms| - 1];
      var b := Rank1ScanFixed(front);
      var m := ms[|ms| - 1];
      assert forall j :: 0 <= j < |front| ==> front[j] == ms[j];
      if b.None? || m.score > b.value.score then
        assert IsFirstMax(ms, |ms| - 1) by {
          if b.Some? {
            var i :| IsFirstMax(front, i) && front[i] == b.value;
          }
        }
        Some(m)
      else
        var i :| IsFirstMax(front, i) && front[i] == b.value;
        assert IsFirstMax(ms, i);
        b
  }

  /** The corrected hit test: there is a best match and it carries the label. */
  predicate Rank1HitFixed(target: string, ms: seq<Match>) {
    var r := Rank1ScanFixed(ms);
    r.Some? && r.value.identity == target
  }

  /** The corrected scan hits exactly when the first maximal entry carries the
      probe's label; an empty gallery never hits. */
  lemma Rank1FixedIsFirstMax(target: string, ms: seq<Match>)
    ensures |ms| == 0 ==> !Rank1HitFixed(target, ms)
    ensures forall i :: IsFirstMax(ms, i) ==> (Rank1HitFixed(target, ms) <==> ms[i].identity == target)
  {
    forall i | IsFirstMax(ms, i)
      ensures Rank1HitFixed(target, ms) <==> ms[i].identity == target
    {
      var k :| IsFirstMax(ms, k) && ms[k] == Rank1ScanFixed(ms).value;
      FirstMaxUnique(ms, i, k);
    }
  }

  /** The corrected fast path agrees with the general path at N = 1 whenever
      the maximum score is unique, whatever its value. */
  lemma Rank1FixedAgreesWithRankN(target: string, ms: seq<Match>, i: int)
    requires IsUniqueMax(ms, i)
    ensures Rank1HitFixed(target, ms) <==> RankNHit(target, ms, 1)
  {
    UniqueMaxIsFirstMax(ms, i);
    Rank1FixedIsFirstMax(target, ms);
    RankOneHitAtUniqueMax(target, ms, i);
  }
}
