/** The evaluation run: per-probe hit tests aggregated into accuracies, and
    the whole pipeline of `main` (load, split, rank 1, 2 and 3).

    The embedding model and cosine similarity are replaced by an abstract
    `Scorer` over the two image paths. This assumes every image read and every
    inference succeeds; `get_embedding` does not check them and would
    otherwise return the stale or zeroed static result. */
module Evaluation {
  import opened Text
  import opened Dataset
  import opened Ranking
  import opened RankOne

  /** Similarity of the probe at the first path to the gallery image at the
      second. */
  type Scorer = (string, string) -> real

  /** The (similarity, label) pair of every gallery entry for one probe, in
      gallery order: the `similarities` vector before sorting. */
  function MatchesFor(score: Scorer, probe: Image, gallery: seq<Image>): (r: seq<Match>)
    ensures |r| == |gallery|
    ensures forall i :: 0 <= i < |r| ==>
              r[i].identity == gallery[i].identity && r[i].score == score(probe.path, gallery[i].path)
  {
    seq(|gallery|, i requires 0 <= i < |gallery| =>
      Match(score(probe.path, gallery[i].path), gallery[i].identity))
  }

  /** How many probes pass the hit test `hit`: `correct_matches`. */
  function CountHits(probes: seq<Image>, hit: Image -> bool): (r: nat)
    ensures r <= |probes|
    ensures r == 0 <==> forall i :: 0 <= i < |probes| ==> !hit(probes[i])
    ensures r == |probes| <==> forall i :: 0 <= i < |probes| ==> hit(probes[i])
    decreases |probes|
  {
    if |probes| == 0 then 0
    else
      var rest := CountHits(probes[1..], hit);
      assert forall i :: 1 <= i < |probes| ==> probes[i] == probes[1..][i - 1];
      (if hit(probes[0]) then 1 else 0) + rest
  }

  /** The positions of the probes that pass the hit test `hit`. */
  function HitIndices(probes: seq<Image>, hit: Image -> bool): set<int> {
    set i | 0 <= i < |probes| && hit(probes[i])
  }

  /** The count is exactly the number of probe positions that pass the test. */
  lemma CountHitsIsHitSetSize(probes: seq<Image>, hit: Image -> bool)
    ensures CountHits(probes, hit) == |HitIndices(probes, hit)|
  {
    CountHitsFrom(probes, hit, 0);
    assert probes[0..] == probes;
    assert HitIndices(probes, hit) == set i | 0 <= i < |probes| && hit(probes[i]);
  }

  /** `CountHits` of the suffix from `lo` counts the passing positions from `lo` on. */
  lemma {:induction false} CountHitsFrom(probes: seq<Image>, hit: Image -> bool, lo: nat)
    requires lo <= |probes|
    ensures CountHits(probes[lo..], hit) == |set i | lo <= i < |probes| && hit(probes[i])|
    decreases |probes| - lo
  {
    var here := set i | lo <= i < |probes| && hit(probes[i]);
    if lo == |probes| {
      assert here == {};
    } else {
      CountHitsFrom(probes, hit, lo + 1);
      var later := set i | lo + 1 <= i < |probes| && hit(probes[i]);
      assert probes[lo..][1..] == probes[lo + 1..];
      assert probes[lo..][0] == probes[lo];
      if hit(probes[lo]) {
        assert here == later + {lo};
      } else {
        assert here == later;
      }
    }
  }

  /** A weaker hit test never counts more probes. */
  lemma {:induction false} CountHitsMonotone(probes: seq<Image>, hit: Image -> bool, hit': Image -> bool)
    requires forall i :: 0 <= i < |probes| ==> hit(probes[i]) ==> hit'(probes[i])
    ensures CountHits(probes, hit) <= CountHits(probes, hit')
    decreases |probes|
  {
    if |probes| > 0 {
      CountHitsMonotone(probes[1..], hit, hit');
    }
  }

  /** Hit tests that agree on every probe count the same. */
  lemma CountHitsSame(probes: seq<Image>, hit: Image -> bool, hit': Image -> bool)
    requires forall i :: 0 <= i < |probes| ==> (hit(probes[i]) <==> hit'(probes[i]))
    ensures CountHits(probes, hit) == CountHits(probes, hit')
  {
    CountHitsMonotone(probes, hit, hit');
    CountHitsMonotone(probes, hit', hit);
  }

  /** `static_cast<float>(correct_matches) / probes.size()`, exactly. */
  function Accuracy(correct: nat, total: nat): (r: real)
    requires 0 < total && correct <= total
    ensures 0.0 <= r <= 1.0
    ensures r == 0.0 <==> correct == 0
    ensures r == 1.0 <==> correct == total
  {
    correct as real / total as real
  }

  /** More hits out of the same probes is a higher accuracy. */
  lemma AccuracyMonotone(c: nat, c': nat, total: nat)
    requires 0 < total && c <= c' <= total
    ensures Accuracy(c, total) <= Accuracy(c', total)
  {
    DivideMonotone(c as real, c' as real, total as real);
  }

  lemma DivideMonotone(x: real, y: real, t: real)
    requires 0.0 < t && x <= y
    ensures x / t <= y / t
  {
    var a, b := x / t, y / t;
    assert a * t == x && b * t == y;
    assert (b - a) * t == y - x;
  }

  /** Rank-1 hit test of `compute_rank1_accuracy` for one probe. */
  predicate Rank1ProbeHit(score: Scorer, gallery: seq<Image>, probe: Image) {
    Rank1Hit(probe.identity, MatchesFor(score, probe, gallery))
  }

  /** Rank-N hit test of `compute_rankN_accuracy<N>` for one probe. */
  predicate RankNProbeHit(score: Scorer, gallery: seq<Image>, n: nat, probe: Image) {
    RankNHit(probe.identity, MatchesFor(score, probe, gallery), n)
  }

  /** Rank-1 hit test with the corrected scan. */
  predicate Rank1FixedProbeHit(score: Scorer, gallery: seq<Image>, probe: Image) {
    Rank1HitFixed(probe.identity, MatchesFor(score, probe, gallery))
  }

  /** `compute_rank1_accuracy`: the fraction of probes whose best match by the
      fast-path scan carries their own label. */
  function Rank1Accuracy(score: Scorer, gallery: seq<Image>, probes: seq<Image>): (r: real)
    requires |probes| > 0
    ensures 0.0 <= r <= 1.0
    ensures r == 1.0 <==> forall i :: 0 <= i < |probes| ==> Rank1ProbeHit(score, gallery, probes[i])
    ensures r == 0.0 <==> forall i :: 0 <= i < |probes| ==> !Rank1ProbeHit(score, gallery, probes[i])
    ensures r == |HitIndices(probes, p => Rank1ProbeHit(score, gallery, p))| as real / |probes| as real
  {
    var hits := CountHits(probes, p => Rank1ProbeHit(score, gallery, p));
    CountHitsIsHitSetSize(probes, p => Rank1ProbeHit(score, gallery, p));
    Accuracy(hits, |probes|)
  }

  /** `compute_rankN_accuracy<N>`: the fraction of probes whose label is among
      their top `min(N, |gallery|)` sorted pairs. An empty gallery or N = 0
      gives no hit at all. */
  function RankNAccuracy(score: Scorer, gallery: seq<Image>, probes: seq<Image>, n: nat): (r: real)
    requires |probes| > 0
    ensures 0.0 <= r <= 1.0
    ensures r == 1.0 <==> forall i :: 0 <= i < |probes| ==> RankNProbeHit(score, gallery, n, probes[i])
    ensures |gallery| == 0 || n == 0 ==> r == 0.0
    ensures r == |HitIndices(probes, p => RankNProbeHit(score, gallery, n, p))| as real / |probes| as real
  {
    var hits := CountHits(probes, p => RankNProbeHit(score, gallery, n, p));
    CountHitsIsHitSetSize(probes, p => RankNProbeHit(score, gallery, n, p));
    assert |gallery| == 0 || n == 0 ==> hits == 0 by {
      if |gallery| == 0 || n == 0 {
        forall i | 0 <= i < |probes|
          ensures !RankNProbeHit(score, gallery, n, probes[i])
        {
          assert Sort(MatchesFor(score, probes[i], gallery))[..0] == [];
        }
      }
    }
    Accuracy(hits, |probes|)
  }

  /** The corrected rank-1 accuracy; an empty gallery gives no hit. */
  function Rank1FixedAccuracy(score: Scorer, gallery: seq<Image>, probes: seq<Image>): (r: real)
    requires |probes| > 0
    ensures 0.0 <= r <= 1.0
    ensures r == 1.0 <==> forall i :: 0 <= i < |probes| ==> Rank1FixedProbeHit(score, gallery, probes[i])
    ensures |gallery| == 0 ==> r == 0.0
    ensures r == |HitIndices(probes, p => Rank1FixedProbeHit(score, gallery, p))| as real / |probes| as real
  {
    var hits := CountHits(probes, p => Rank1FixedProbeHit(score, gallery, p));
    CountHitsIsHitSetSize(probes, p => Rank1FixedProbeHit(score, gallery, p));
    assert |gallery| == 0 ==> hits == 0 by {
      if |gallery| == 0 {
        forall i | 0 <= i < |probes|
          ensures !Rank1FixedProbeHit(score, gallery, probes[i])
        {
          Rank1FixedIsFirstMax(probes[i].identity, MatchesFor(score, probes[i], gallery));
        }
      }
    }
    Accuracy(hits, |probes|)
  }

  /** Rank-N accuracy never drops as N grows. */
  lemma RankNAccuracyMonotone(score: Scorer, gallery: seq<Image>, probes: seq<Image>, n: nat, m: nat)
    requires |probes| > 0 && n <= m
    ensures RankNAccuracy(score, gallery, probes, n) <= RankNAccuracy(score, gallery, probes, m)
  {
    var hit := p => RankNProbeHit(score, gallery, n, p);
    var hit' := p => RankNProbeHit(score, gallery, m, p);
    forall i | 0 <= i < |probes| && hit(probes[i])
      ensures hit'(probes[i])
    {
      RankNHitMonotone(probes[i].identity, MatchesFor(score, probes[i], gallery), n, m);
    }
    CountHitsMonotone(probes, hit, hit');
    AccuracyMonotone(CountHits(probes, hit), CountHits(probes, hit'), |probes|);
  }

  /** Every probe's scores have a single largest value, above -1.0. */
  predicate UniqueMaxAbove(score: Scorer, gallery: seq<Image>, probe: Image) {
    var ms := MatchesFor(score, probe, gallery);
    exists i :: 0 <= i < |ms| && IsUniqueMax(ms, i) && -1.0 < ms[i].score
  }

  /** The fast path reports the same rank-1 accuracy as the general path at
      N = 1 when every probe's best score is unique and above -1.0. */
  lemma Rank1AccuracyMatchesRankN(score: Scorer, gallery: seq<Image>, probes: seq<Image>)
    requires |probes| > 0
    requires forall i :: 0 <= i < |probes| ==> UniqueMaxAbove(score, gallery, probes[i])
    ensures Rank1Accuracy(score, gallery, probes) == RankNAccuracy(score, gallery, probes, 1)
  {
    forall i | 0 <= i < |probes|
      ensures Rank1ProbeHit(score, gallery, probes[i]) <==> RankNProbeHit(score, gallery, 1, probes[i])
    {
      var ms := MatchesFor(score, probes[i], gallery);
      var k :| IsUniqueMax(ms, k) && -1.0 < ms[k].score;
      Rank1AgreesWithRankN(probes[i].identity, ms, k);
    }
    CountHitsSame(probes, p => Rank1ProbeHit(score, gallery, p), p => RankNProbeHit(score, gallery, 1, p));
  }

  /** The corrected fast path needs only uniqueness of each best score. */
  lemma Rank1FixedAccuracyMatchesRankN(score: Scorer, gallery: seq<Image>, probes: seq<Image>)
    requires |probes| > 0
    requires forall i :: 0 <= i < |probes| ==>
               exists k :: IsUniqueMax(MatchesFor(score, probes[i], gallery), k)
    ensures Rank1FixedAccuracy(score, gallery, probes) == RankNAccuracy(score, gallery, probes, 1)
  {
    forall i | 0 <= i < |probes|
      ensures Rank1FixedProbeHit(score, gallery, probes[i]) <==> RankNProbeHit(score, gallery, 1, probes[i])
    {
      var ms := MatchesFor(score, probes[i], gallery);
      var k :| IsUniqueMax(ms, k);
      Rank1FixedAgreesWithRankN(probes[i].identity, ms, k);
    }
    CountHitsSame(probes, p => Rank1FixedProbeHit(score, gallery, p), p => RankNProbeHit(score, gallery, 1, p));
  }

  /** The three figures `main` prints. */
  datatype Report = Report(rank1: real, rank2: real, rank3: real)

  /** `main` on a directory listing: load, split, then rank 1, 2 and 3.
      `None` stands for the run without probes, where each division is
      0.0f / 0 and every figure printed is NaN. */
  function Evaluate(score: Scorer, directory: string, names: seq<string>): (r: Option<Report>)
    ensures r.None? <==> forall img :: img in LoadImages(directory, names) ==> IsGallery(img)
    ensures r.Some? ==> 0.0 <= r.value.rank1 <= 1.0 && 0.0 <= r.value.rank2 <= 1.0
    ensures r.Some? ==> r.value.rank2 <= r.value.rank3 <= 1.0
  {
    var images := LoadImages(directory, names);
    var part := Split(images);
    NoProbesIffAllGallery(images);
    if |part.probes| == 0 then
      None
    else
      RankNAccuracyMonotone(score, part.gallery, part.probes, 2, 3);
      Some(Report(
        Rank1Accuracy(score, part.gallery, part.probes),
        RankNAccuracy(score, part.gallery, part.probes, 2),
        RankNAccuracy(score, part.gallery, part.probes, 3)))
  }

  /** The split leaves no probe exactly when every image carries the marker. */
  lemma NoProbesIffAllGallery(images: seq<Image>)
    ensures |Split(images).probes| == 0 <==> forall img :: img in images ==> IsGallery(img)
  {
    SplitIsPartition(images);
    var part := Split(images);
    if |part.probes| > 0 {
      assert part.probes[0] in multiset(images);
    }
  }

  /** A hidden file such as `.DS_Store`, alone in its directory besides `.`
      and `..`, is a probe with the empty label; the fast path counts it as a
      rank-1 hit although there is nothing to match, while rank 2 and 3
      report 0. */
  lemma EmptyLabelProbeFinding(score: Scorer)
    ensures Evaluate(score, "faces", [".", "..", ".DS_Store"]) == Some(Report(1.0, 0.0, 0.0))
    ensures Rank1FixedAccuracy(score, [], [HiddenFile]) == 0.0
  {
    HiddenFileLoadsAsProbe();
    assert Rank1ProbeHit(score, [], HiddenFile) by {
      Rank1EmptyGalleryHitsEmptyLabel("");
    }
    assert Rank1Accuracy(score, [], [HiddenFile]) == 1.0;
  }

  /** The image `load_images` makes of `faces/.DS_Store`. */
  const HiddenFile: Image := Image("faces/.DS_Store", "")

  lemma HiddenFileLoadsAsProbe()
    ensures LoadImages("faces", [".", "..", ".DS_Store"]) == [HiddenFile]
    ensures Split([HiddenFile]) == Partition([], [HiddenFile])
  {
    assert LabelOf(".DS_Store") == "" by {
      assert ".DS_Store"[0] == '.';
    }
    assert "faces" + "/" + ".DS_Store" == "faces/.DS_Store";
    LoadImagesSingle("faces", ".DS_Store");
    LoadImagesSingle("faces", ".");
    LoadImagesSingle("faces", "..");
    LoadImagesAppend("faces", ["."], [".."]);
    LoadImagesAppend("faces", [".", ".."], [".DS_Store"]);
    assert [".", ".."] + [".DS_Store"] == [".", "..", ".DS_Store"];
    assert ["."] + [".."] == [".", ".."];
    HiddenFileIsNotGallery();
    SplitUnique([HiddenFile], [], [HiddenFile]);
  }

  /** The path `faces/.DS_Store` does not contain ".normal": `find` scans
      every start position and fails at each. */
  lemma HiddenFileIsNotGallery()
    ensures !IsGallery(HiddenFile)
  {
    var p, m := HiddenFile.path, GalleryMarker;
    assert p[8..15][0] != m[0];
    assert FindFrom(p, m, 8) == None;
    assert FindFrom(p, m, 7) == None;
    assert p[6..13][1] != m[1];
    assert FindFrom(p, m, 6) == None;
    assert FindFrom(p, m, 3) == None;
    assert FindFrom(p, m, 0) == None;
  }
}
