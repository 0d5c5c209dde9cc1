# Rank-N face identification accuracy, modelled in Dafny

This project models the evaluation program of the MobileFaceNet/ArcFace demo
(`demos/mbf_arcface/src/eval.cc`). The program reads a directory of face images
and labels each image with its file name up to the first `.`. It splits the
images into a gallery (every path containing `.normal`) and probes (all other
images). For each probe it ranks the gallery by similarity and reports
rank-1, rank-2 and rank-3 accuracy.

The model has five modules:

- `Text` (`text.dfy`) covers the two string operations the program relies on.
  `std::string::find` is `Find`, which returns `None` where C++ returns `npos`.
  The lexicographic `operator<` on `std::string` is `StringLess`, proved to be
  a strict total order.
- `Dataset` (`dataset.dfy`) derives labels (`LabelOf`). It maps a directory
  listing to images, skipping `.` and `..` (`LoadImages`). It also splits
  images into gallery and probes (`Split`), which is proved to be an
  order-preserving partition (`IsMerge`).
- `Ranking` (`ranking.dfy`) covers the general rank-N path. The
  (similarity, label) pairs are ordered as `std::greater<std::pair<float,
  std::string>>` orders them (`Greater`) and sorted with an insertion sort
  (`Sort`). `SortUnique` shows that any sort gives the same sequence. The hit
  test is `RankNHit`. `RankNHitIffFewAbove` states it without sorting: a probe
  hits at rank N exactly when some gallery entry with its label has fewer
  than N pairs ranked strictly above it.
- `RankOne` (`rank_one.dfy`) covers the rank-1 fast path. It is a left-to-right
  scan seeded with similarity `-1.0` and an empty label that replaces the best
  only on a strictly greater score (`Rank1Scan`, and the loop
  `ScanBestMatch`). It also holds the corrected scan `Rank1ScanFixed`, the
  comparisons with the rank-N path at N = 1, and the cases where the two paths
  disagree.
- `Evaluation` (`evaluation.dfy`) counts hits and computes accuracies. It
  also models the pipeline of `main` (`Evaluate`).

Similarities are an abstract `Scorer` of type `(string, string) -> real`
over the probe path and the gallery path. This rests on an assumption: every
image is read and every inference succeeds. `get_embedding` ignores what
`read_image` and `inference_arcface_model` report and copies the static
`fr_result.embedding` (eval.cc:24, 58, 71, 77). Under the assumption that
vector depends only on the image at the path. The similarity is a function of
the two embeddings.

## Model

| member | source | states |
|---|---|---|
| Text.Find | demos/mbf_arcface/src/eval.cc:46 | the result is the first index where the substring occurs, or `None` exactly when it occurs nowhere (`npos`) |
| Text.ContainsIffOccurs | demos/mbf_arcface/src/eval.cc:172 | `find(sub) != npos` holds exactly when `sub` occurs at some position |
| Text.StringLess | demos/mbf_arcface/src/eval.cc:136 | the order on labels inside `std::greater` on the pair: lexicographic by character, where a proper prefix is smaller and related strings are distinct |
| Text.StringLessTransitive | demos/mbf_arcface/src/eval.cc:136 | string `<` is transitive |
| Text.StringLessTotal | demos/mbf_arcface/src/eval.cc:136 | any two different strings are ordered one way or the other |
| Dataset.LabelOf | demos/mbf_arcface/src/eval.cc:46 | the label is a prefix of the file name, contains no `.`, and is either the whole name or stops right before a `.` |
| Dataset.LabelOfUnique | demos/mbf_arcface/src/eval.cc:46 | any prefix with those three properties is the label, so they pin the label down |
| Dataset.ImageOf | demos/mbf_arcface/src/eval.cc:45-47 | an entry's image has path `directory`, then `/`, then the file name; its label is the dot-free prefix of the file name that is either the whole name or stops right before a `.` |
| Dataset.EntryImages | demos/mbf_arcface/src/eval.cc:42-47 | an entry contributes no image exactly when it is `.` or `..`; otherwise it contributes exactly one image, `ImageOf` of the entry |
| Dataset.DotEntries | demos/mbf_arcface/src/eval.cc:42-44 | the count of skipped `.`/`..` entries is zero exactly when the listing has none |
| Dataset.LoadImages | demos/mbf_arcface/src/eval.cc:39-48 | one image per non-dot entry; without dot entries, image `i` has path `directory + "/" + name_i` and that name's label |
| Dataset.LoadImagesSound | demos/mbf_arcface/src/eval.cc:41-47 | every loaded image is the image of some non-dot entry of the listing |
| Dataset.LoadImagesAppend | demos/mbf_arcface/src/eval.cc:40-48 | loading a concatenated listing gives the concatenated image lists, so enumeration order is kept |
| Dataset.LoadImagesSingle | demos/mbf_arcface/src/eval.cc:42-47 | a single entry yields nothing if it is `.` or `..`, otherwise exactly its image |
| Dataset.IsGallery | demos/mbf_arcface/src/eval.cc:172 | an image is a gallery image exactly when `.normal` occurs somewhere in its path |
| Dataset.Split | demos/mbf_arcface/src/eval.cc:171-177 | gallery and probes interleave to the input in order, every gallery image carries `.normal`, no probe does, and their multisets add up to the input |
| Dataset.MergeLength | demos/mbf_arcface/src/eval.cc:171-177 | an order-preserving interleaving has as many elements as its two parts together |
| Dataset.SplitIsPartition | demos/mbf_arcface/src/eval.cc:171-177 | \|gallery\| + \|probes\| = \|images\|; an input image is in the gallery iff its path contains `.normal`, and in the probes iff it does not |
| Dataset.SplitUnique | demos/mbf_arcface/src/eval.cc:171-177 | any order-preserving interleaving that puts marked images on one side and unmarked ones on the other is the split |
| Ranking.Greater | demos/mbf_arcface/src/eval.cc:136 | `std::greater` on (score, label): a higher score ranks higher, a lower score never does, and on equal scores the larger label ranks higher |
| Ranking.GreaterIrreflexive | demos/mbf_arcface/src/eval.cc:136 | no pair ranks above itself |
| Ranking.GreaterTransitive | demos/mbf_arcface/src/eval.cc:136 | the `std::greater` order on (score, label) pairs is transitive |
| Ranking.GreaterTotal | demos/mbf_arcface/src/eval.cc:136 | distinct pairs are always ordered, so equal-ranked pairs are identical |
| Ranking.GreaterAsymmetric | demos/mbf_arcface/src/eval.cc:136 | two pairs never rank above each other |
| Ranking.NotGreaterTransitive | demos/mbf_arcface/src/eval.cc:136 | "ranks no higher than" is transitive |
| Ranking.Insert | demos/mbf_arcface/src/eval.cc:136 | inserting into a descending sequence keeps it descending and adds exactly the new pair |
| Ranking.Sort | demos/mbf_arcface/src/eval.cc:136 | the sorted pairs are in descending `std::greater` order and are a permutation of the input |
| Ranking.SortUnique | demos/mbf_arcface/src/eval.cc:136 | two descending permutations of the same pairs are equal, so an unstable `std::sort` has only one possible result |
| Ranking.CountGreaterPermutation | demos/mbf_arcface/src/eval.cc:136 | the number of pairs above a given pair does not depend on their order |
| Ranking.GreaterPrefix | demos/mbf_arcface/src/eval.cc:136-145 | in the sorted pairs, the pairs ranked above `m` are exactly the first `CountGreater(m)` positions |
| Ranking.RankNHit | demos/mbf_arcface/src/eval.cc:136-145 | a hit needs N > 0 and some gallery entry with the probe's label; once N covers the whole gallery, a hit is exactly that label being present |
| Ranking.FoundInTop | demos/mbf_arcface/src/eval.cc:139-145 | the search loop sets `found` exactly when one of the first `min(N, size)` sorted pairs carries the probe's label |
| Ranking.RankNHitIffFewAbove | demos/mbf_arcface/src/eval.cc:130-149 | a probe is a rank-N hit iff some gallery entry with its label has fewer than N pairs ranked strictly above it |
| Ranking.RankNHitMonotone | demos/mbf_arcface/src/eval.cc:136-145 | a hit at rank N is a hit at every rank M >= N |
| Ranking.RankNEmptyGalleryMisses | demos/mbf_arcface/src/eval.cc:130-145 | with no gallery entries, no probe is a hit at any rank |
| RankOne.Step | demos/mbf_arcface/src/eval.cc:99-102 | one iteration keeps the old best or takes the new entry, never lowers the best similarity, ends at least at the entry's score, and keeps the old best on a tie |
| RankOne.Rank1Scan | demos/mbf_arcface/src/eval.cc:95-103 | the scan ends at least at -1.0 and no lower than any score; at -1.0 the best label is empty; above -1.0 it is the first entry with the largest score |
| RankOne.ScanBestMatch | demos/mbf_arcface/src/eval.cc:95-103 | the imperative loop computes the same best similarity and best label as the fold `Rank1Scan` |
| RankOne.Rank1ScanFirstMax | demos/mbf_arcface/src/eval.cc:95-103 | if the first maximal entry scores above -1.0, its label is the best match |
| RankOne.Rank1ScanNoneAbove | demos/mbf_arcface/src/eval.cc:95-103 | if no score is above -1.0, including an empty gallery, the best match stays the empty string |
| RankOne.Rank1Hit | demos/mbf_arcface/src/eval.cc:106 | on an empty gallery the fast path hits exactly for the empty label; a hit with a non-empty label means some gallery entry carries it |
| RankOne.FirstMaxUnique | demos/mbf_arcface/src/eval.cc:99-102 | the first maximal entry is unique |
| RankOne.RankOneHitAtUniqueMax | demos/mbf_arcface/src/eval.cc:136-145 | with a unique maximum score, the rank-1 general path hits iff that entry's label is the probe's |
| RankOne.Rank1AgreesWithRankN | demos/mbf_arcface/src/eval.cc:95-106 | when the maximum score is unique and above -1.0, the fast path and the general path at N = 1 agree |
| RankOne.Rank1TieDisagrees | demos/mbf_arcface/src/eval.cc:99-102 | on tied scores (0.5, "A"), (0.5, "B") the fast path keeps "A" and hits, while the pair sort puts "B" first and misses |
| RankOne.Rank1EmptyGalleryHitsEmptyLabel | demos/mbf_arcface/src/eval.cc:95-108 | with an empty gallery, the fast path counts a hit exactly for the empty label, while the general path never hits |
| RankOne.Rank1SeedHidesLowScores | demos/mbf_arcface/src/eval.cc:96-99 | a gallery entry scoring exactly -1.0 never replaces the seed, so the fast path misses a label the general path finds |
| RankOne.Rank1ScanFixed | demos/mbf_arcface/src/eval.cc:95-103 | the corrected scan has no best match only for an empty gallery, and otherwise returns the first maximal entry |
| RankOne.Rank1FixedIsFirstMax | demos/mbf_arcface/src/eval.cc:95-108 | the corrected test never hits on an empty gallery, and otherwise hits iff the first maximal entry carries the probe's label |
| RankOne.Rank1FixedAgreesWithRankN | demos/mbf_arcface/src/eval.cc:95-108 | the corrected fast path agrees with the general path at N = 1 whenever the maximum score is unique |
| Evaluation.MatchesFor | demos/mbf_arcface/src/eval.cc:130-134 | the `similarities` vector has one pair per gallery image, in gallery order, holding that image's score against the probe and its label |
| Evaluation.CountHits | demos/mbf_arcface/src/eval.cc:105-109 | 0 <= correct_matches <= \|probes\|; the count is 0 iff no probe hits and \|probes\| iff every probe hits |
| Evaluation.CountHitsIsHitSetSize | demos/mbf_arcface/src/eval.cc:105-109 | `correct_matches` is exactly the number of probe positions that pass the hit test |
| Evaluation.CountHitsMonotone | demos/mbf_arcface/src/eval.cc:147-149 | a hit test that holds whenever another one does counts at least as many probes |
| Evaluation.Accuracy | demos/mbf_arcface/src/eval.cc:111 | the ratio is in [0, 1]; it is 0 iff there are no hits and 1 iff every probe hits |
| Evaluation.AccuracyMonotone | demos/mbf_arcface/src/eval.cc:152 | more hits out of the same number of probes give a higher accuracy |
| Evaluation.Rank1Accuracy | demos/mbf_arcface/src/eval.cc:80-112 | rank-1 accuracy is the number of probes whose best match carries their label over the number of probes; it is in [0, 1], 1 iff every probe hits and 0 iff none does |
| Evaluation.RankNAccuracy | demos/mbf_arcface/src/eval.cc:114-153 | rank-N accuracy is the number of rank-N hits over the number of probes; it is in [0, 1], 1 iff every probe hits, and 0 for an empty gallery |
| Evaluation.Rank1FixedAccuracy | demos/mbf_arcface/src/eval.cc:80-112 | corrected rank-1 accuracy is the number of corrected hits over the number of probes; it is in [0, 1], 1 iff every probe hits, and 0 for an empty gallery |
| Evaluation.RankNAccuracyMonotone | demos/mbf_arcface/src/eval.cc:136-152 | rank-N accuracy never decreases as N grows |
| Evaluation.Rank1AccuracyMatchesRankN | demos/mbf_arcface/src/eval.cc:95-108 | when every probe's maximum score is unique and above -1.0, rank-1 accuracy from the fast path equals rank-N accuracy at N = 1 |
| Evaluation.Rank1FixedAccuracyMatchesRankN | demos/mbf_arcface/src/eval.cc:95-108 | when every probe's maximum score is unique, the corrected fast path equals rank-N accuracy at N = 1 |
| Evaluation.NoProbesIffAllGallery | demos/mbf_arcface/src/eval.cc:171-177 | the split has no probes exactly when every image's path contains `.normal` |
| Evaluation.Evaluate | demos/mbf_arcface/src/eval.cc:155-185 | the run has no figures (NaN) exactly when every loaded image is a gallery image; otherwise all three figures are in [0, 1] and rank 2 <= rank 3 |
| Evaluation.EmptyLabelProbeFinding | demos/mbf_arcface/src/eval.cc:95-108 | a directory listing `.`, `..` and `.DS_Store` reports rank-1 accuracy 1.0 and rank-2 and rank-3 accuracy 0.0; the corrected rank-1 accuracy is 0.0 |
| Evaluation.HiddenFileLoadsAsProbe | demos/mbf_arcface/src/eval.cc:45-46 | the listing `.`, `..`, `.DS_Store` of `faces` loads as one image with path `faces/.DS_Store` and an empty label, and the split makes it a probe |
| Evaluation.HiddenFileIsNotGallery | demos/mbf_arcface/src/eval.cc:172 | the path `faces/.DS_Store` does not contain `.normal` |

## Findings

| source | as written | input that shows it | evidently intended | confidence | as-written member | corrected member |
|---|---|---|---|---|---|---|
| demos/mbf_arcface/src/eval.cc:95-106 | `best_match` starts empty and is only replaced by a score above `-1.0`. So a probe whose label is empty is a rank-1 hit when no gallery score beats `-1.0`, including when the gallery is empty | a directory whose listing is `.`, `..` and `.DS_Store`. Its label is the empty string, it becomes a probe, the gallery is empty, and rank-1 accuracy is 1.0 while rank 2 and rank 3 are 0.0 | a probe with no gallery match is never a hit. The scan takes the first gallery entry unconditionally and then keeps the first maximum | medium (the empty label needs a dot-file in the dataset directory, and the run must get past `get_embedding` on a file that is not an image); not executed | Evaluation.EmptyLabelProbeFinding | Evaluation.Rank1FixedAccuracy |

The corrected scan is `RankOne.Rank1ScanFixed`. It is proved never to hit on
an empty gallery (`RankOne.Rank1FixedIsFirstMax`). It also agrees with the
general path at N = 1 whenever the maximum is unique
(`Evaluation.Rank1FixedAccuracyMatchesRankN`), with no condition on the value
of the maximum. `Evaluate` keeps the program's rank-1 behaviour as written.

## Left out

- Embedding computation is left out: `get_embedding`, model initialisation and inference, DMA buffers and `read_image` run on NPU hardware and do file I/O. Similarities are the abstract `Scorer` over the two image paths instead.
- Failed reads and inferences are left out. `get_embedding` does not check `read_image` or `inference_arcface_model`, and copies the static `fr_result.embedding` whatever happened. That struct starts zeroed (postprocess.h:20). So after a failure, for instance on a file that is not an image, the embedding is all zeros or the vector of an earlier image. The model assumes every read and inference succeeds. The Findings row also makes this assumption, since `.DS_Store` is not an image.
- `cosine_similarity.h` is left out because it is single-precision float arithmetic with `std::sqrt`. Scores are exact reals, so there is no rounding and no NaN. A zero-norm embedding makes the C++ similarity NaN, every comparison with it false, and the entry never the rank-1 best. The model does not cover that case.
- Directory traversal is left out. `opendir`/`readdir` become the `names` parameter in enumeration order. A directory that fails to open gives an empty listing, as `load_images` returns an empty vector after `perror`.
- Console output is left out. The three `printf` lines become the `Report` value.
- The `std::map` cache of gallery embeddings is left out. Gallery paths are unique, so the gallery embeddings are indexed like the gallery and the scorer is applied directly.
- Repeated inference is left out. Rank 1, 2 and 3 each run the embedder again. The model assumes inference is deterministic, so every pass uses the same `Scorer`.
- Evaluation.Accuracy: computes the exact rational `correct / |probes|`. It does not model the rounding of `static_cast<float>` or of the float division.
- Evaluation.Rank1Accuracy: requires at least one probe. With zero probes the C++ returns 0.0f / 0, which is NaN. `Evaluate` returns `None` for that run instead.
- Evaluation.RankNAccuracy: requires at least one probe, for the same reason. N is a runtime `nat`, not a template parameter. N = 0 is allowed and gives no hits, although the program only instantiates N = 2 and N = 3.
- Integer widths are left out. `correct_matches` is an `int` and the size is cast with `static_cast<int>`. Both are unbounded here, because counts never come near 2^31.
- Character order: labels compare as `char` sequences. The program compares file-name bytes as unsigned chars, and the model reads each byte as the character with that code, so the two orders agree.
- Tie order: when scores are equal, the pairs are ordered by the larger label first. That is what `std::greater` on the pair does. A stable sort that kept gallery order would rank ties differently; the code does not do that.
- Other files are left out. `evaluate_onnx.py` is a wrapper around external libraries, `postprocess.h` holds only declarations, and `main.cc` is the two-image demo: it runs inference on two image paths and prints their embeddings and cosine similarity. None of them is part of this model.
