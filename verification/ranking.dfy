/** The general rank-N path of the evaluation: for one probe, the
    (similarity, label) pairs of all gallery entries are sorted with
    `std::greater<>` and the probe is a hit when its label is among the first
    `min(N, |gallery|)` of them. Similarities are abstract real numbers. */
module Ranking {
  import opened Text

  /** A `std::pair<float, std::string>`: a similarity and a gallery label. */
  datatype Match = Match(score: real, identity: string)

  /** `a > b` on pairs, that is `b < a` with `std::pair`'s lexicographic
      `operator<`: the score decides, and on equal scores the label does. */
  predicate Greater(a: Match, b: Match)
    ensures b.score < a.score ==> Greater(a, b)
    ensures a.score < b.score ==> !Greater(a, b)
    ensures a.score == b.score ==> (Greater(a, b) <==> StringLess(b.identity, a.identity))
  {
    b.score < a.score || (!(a.score < b.score) && StringLess(b.identity, a.identity))
  }

  lemma GreaterIrreflexive(a: Match)
    ensures !Greater(a, a)
  {
    StringLessIrreflexive(a.identity);
  }

  lemma GreaterTransitive(a: Match, b: Match, c: Match)
    requires Greater(a, b) && Greater(b, c)
    ensures Greater(a, c)
  {
    if a.score == b.score == c.score {
      StringLessTransitive(c.identity, b.identity, a.identity);
    }
  }

  /** Distinct pairs are always ordered: the order is a strict total order,
      so equal-ranking pairs are identical. */
  lemma GreaterTotal(a: Match, b: Match)
    requires a != b
    ensures Greater(a, b) || Greater(b, a)
  {
    if a.score == b.score {
      StringLessTotal(a.identity, b.identity);
    }
  }

  lemma GreaterAsymmetric(a: Match, b: Match)
    requires Greater(a, b)
    ensures !Greater(b, a)
  {
    if a.score == b.score {
      StringLessAsymmetric(b.identity, a.identity);
    }
  }

  /** "Not greater" is transitive too, since the order is total. */
  lemma NotGreaterTransitive(a: Match, b: Match, c: Match)
    requires !Greater(a, b) && !Greater(b, c)
    ensures !Greater(a, c)
  {
    if Greater(a, c) && a != b {
      GreaterTotal(a, b);
      GreaterTransitive(b, a, c);
    }
  }

  /** Descending order: no entry is greater than an entry before it. */
  predicate SortedDescending(s: seq<Match>) {
    forall i, j :: 0 <= i < j < |s| ==> !Greater(s[j], s[i])
  }

  /** Inserts `x` into a descending sequence ahead of the first entry that is
      not greater than it. */
  function Insert(x: Match, s: seq<Match>): (r: seq<Match>)
    requires SortedDescending(s)
    ensures SortedDescending(r)
    ensures multiset(r) == multiset(s) + multiset{x}
    decreases |s|
  {
    if |s| == 0 then [x]
    else if Greater(s[0], x) then
      var tail := Insert(x, s[1..]);
      assert s == [s[0]] + s[1..];
      InsertHeadStaysFirst(x, s, tail);
      [s[0]] + tail
    else
      ConsBelowHead(x, s);
      [x] + s
  }

  /** Putting `s[0]` in front of the insertion into `s[1..]` keeps the order,
      because both `x` and every later entry rank below `s[0]`. */
  lemma InsertHeadStaysFirst(x: Match, s: seq<Match>, tail: seq<Match>)
    requires |s| > 0 && SortedDescending(s) && Greater(s[0], x)
    requires SortedDescending(tail)
    requires multiset(tail) == multiset(s[1..]) + multiset{x}
    ensures SortedDescending([s[0]] + tail)
  {
    var r := [s[0]] + tail;
    forall j | 0 < j < |r|
      ensures !Greater(r[j], r[0])
    {
      assert r[j] == tail[j - 1];
      assert tail[j - 1] in multiset(tail);
      if r[j] == x {
        GreaterAsymmetric(s[0], x);
      } else {
        assert r[j] in multiset(s[1..]);
        var k :| 0 <= k < |s[1..]| && s[1..][k] == r[j];
        assert s[k + 1] == r[j];
      }
    }
  }

  /** `x` may go first when it is not below the head of a descending `s`. */
  lemma ConsBelowHead(x: Match, s: seq<Match>)
    requires |s| > 0 && SortedDescending(s) && !Greater(s[0], x)
    ensures SortedDescending([x] + s)
  {
    var r := [x] + s;
    forall i, j | 0 <= i < j < |r|
      ensures !Greater(r[j], r[i])
    {
      if i == 0 {
        if j > 1 {
          NotGreaterTransitive(s[j - 1], s[0], x);
        }
      }
    }
  }

  /** `std::sort(..., std::greater<>())`, by insertion. Because `Greater` is a
      strict total order, any sort gives the same sequence (`SortUnique`). */
  function Sort(ms: seq<Match>): (r: seq<Match>)
    ensures SortedDescending(r)
    ensures multiset(r) == multiset(ms)
    ensures |r| == |ms|
  {
    if |ms| == 0 then []
    else
      assert ms == [ms[0]] + ms[1..];
      var r := Insert(ms[0], Sort(ms[1..]));
      assert |r| == |multiset(r)|;
      r
  }

  /** Two descending permutations of the same pairs are equal, so the order
      `std::sort` visits elements in does not matter. */
  lemma {:induction false} SortUnique(s: seq<Match>, t: seq<Match>)
    requires SortedDescending(s) && SortedDescending(t)
    requires multiset(s) == multiset(t)
    ensures s == t
    decreases |s|
  {
    assert |s| == |multiset(s)| == |multiset(t)| == |t|;
    if |s| > 0 {
      SameHead(s, t);
      MultisetTail(s);
      MultisetTail(t);
      SortUnique(s[1..], t[1..]);
      assert s == [s[0]] + s[1..] && t == [t[0]] + t[1..];
    }
  }

  /** Both descending permutations start with the greatest pair. */
  lemma SameHead(s: seq<Match>, t: seq<Match>)
    requires SortedDescending(s) && SortedDescending(t)
    requires multiset(s) == multiset(t)
    requires |s| > 0 && |t| > 0
    ensures s[0] == t[0]
  {
    assert s[0] in multiset(t) && t[0] in multiset(s);
    var i :| 0 <= i < |t| && t[i] == s[0];
    var j :| 0 <= j < |s| && s[j] == t[0];
    if s[0] != t[0] {
      GreaterTotal(s[0], t[0]);
    }
  }

  lemma MultisetTail<T>(s: seq<T>)
    requires |s| > 0
    ensures multiset(s[1..]) == multiset(s) - multiset{s[0]}
  {
    assert s == [s[0]] + s[1..];
  }

  /** How many entries of `s` rank strictly above `m`. */
  function CountGreater(m: Match, s: seq<Match>): (r: nat)
    ensures r <= |s|
  {
    if |s| == 0 then 0
    else (if Greater(s[0], m) then 1 else 0) + CountGreater(m, s[1..])
  }

  lemma {:induction false} CountGreaterAppend(m: Match, a: seq<Match>, b: seq<Match>)
    ensures CountGreater(m, a + b) == CountGreater(m, a) + CountGreater(m, b)
    decreases |a|
  {
    if |a| == 0 {
      assert a + b == b;
    } else {
      assert (a + b)[0] == a[0] && (a + b)[1..] == a[1..] + b;
      CountGreaterAppend(m, a[1..], b);
    }
  }

  /** The count depends only on which pairs there are, not on their order. */
  lemma {:induction false} CountGreaterPermutation(m: Match, a: seq<Match>, b: seq<Match>)
    requires multiset(a) == multiset(b)
    ensures CountGreater(m, a) == CountGreater(m, b)
    decreases |a|
  {
    assert |a| == |multiset(a)| == |multiset(b)| == |b|;
    if |a| > 0 {
      assert a[0] in multiset(b);
      var k :| 0 <= k < |b| && b[k] == a[0];
      var rest := RemoveAt(b, k);
      MultisetTail(a);
      CountGreaterPermutation(m, a[1..], rest);
      CountGreaterRemove(m, b, k);
    }
  }

  /** `s` without its entry at `k`; one copy of `s[k]` fewer. */
  function RemoveAt(s: seq<Match>, k: nat): (r: seq<Match>)
    requires k < |s|
    ensures |r| == |s| - 1
    ensures multiset(r) == multiset(s) - multiset{s[k]}
  {
    assert s == s[..k] + [s[k]] + s[k + 1..];
    s[..k] + s[k + 1..]
  }

  /** Removing the entry at `k` lowers the count by one exactly when that
      entry ranks above `m`. */
  lemma CountGreaterRemove(m: Match, s: seq<Match>, k: nat)
    requires k < |s|
    ensures CountGreater(m, s) == (if Greater(s[k], m) then 1 else 0) + CountGreater(m, RemoveAt(s, k))
  {
    assert s == s[..k] + [s[k]] + s[k + 1..];
    CountGreaterAppend(m, s[..k] + [s[k]], s[k + 1..]);
    CountGreaterAppend(m, s[..k], [s[k]]);
    CountGreaterAppend(m, s[..k], s[k + 1..]);
  }

  /** In a descending sequence, the entries above `m` are exactly its first
      `CountGreater(m, s)` entries. */
  lemma {:induction false} GreaterPrefix(m: Match, s: seq<Match>)
    requires SortedDescending(s)
    ensures forall i :: 0 <= i < |s| ==> (Greater(s[i], m) <==> i < CountGreater(m, s))
    decreases |s|
  {
    if |s| > 0 {
      GreaterPrefix(m, s[1..]);
      if !Greater(s[0], m) {
        forall i | 0 < i < |s|
          ensures !Greater(s[i], m)
        {
          NotGreaterTransitive(s[i], s[0], m);
        }
        NoneGreater(m, s[1..]);
      }
    }
  }

  lemma {:induction false} NoneGreater(m: Match, s: seq<Match>)
    requires forall i :: 0 <= i < |s| ==> !Greater(s[i], m)
    ensures CountGreater(m, s) == 0
    decreases |s|
  {
    if |s| > 0 {
      NoneGreater(m, s[1..]);
    }
  }

  /** Some entry ranks above `m`, so the count of entries above `m` is positive. */
  lemma {:induction false} CountGreaterPositive(m: Match, s: seq<Match>, k: int)
    requires 0 <= k < |s| && Greater(s[k], m)
    ensures CountGreater(m, s) > 0
    decreases |s|
  {
    if k > 0 {
      CountGreaterPositive(m, s[1..], k - 1);
    }
  }

  /** The smaller of two counts: `std::min(N, similarities.size())`. */
  function Min(a: nat, b: nat): (r: nat)
    ensures r <= a && r <= b && (r == a || r == b)
  {
    if a < b then a else b
  }

  /** Some entry of `s` carries `label`. */
  predicate HasLabel(s: seq<Match>, target: string) {
    exists i :: 0 <= i < |s| && s[i].identity == target
  }

  /** The hit test of `compute_rankN_accuracy<N>` for one probe: after the
      sort, one of the first `min(N, size)` pairs carries the probe's label. */
  predicate RankNHit(target: string, ms: seq<Match>, n: nat)
    ensures RankNHit(target, ms, n) ==> 0 < n && HasLabel(ms, target)
    ensures |ms| <= n ==> (RankNHit(target, ms, n) <==> HasLabel(ms, target))
  {
    var sorted := Sort(ms);
    PermutationHasLabel(sorted, ms, target);
    assert |ms| <= n ==> sorted[..Min(n, |sorted|)] == sorted;
    HasLabel(sorted[..Min(n, |sorted|)], target)
  }

  /** Reordering keeps the labels present. */
  lemma PermutationHasLabel(s: seq<Match>, t: seq<Match>, target: string)
    requires multiset(s) == multiset(t)
    ensures HasLabel(s, target) <==> HasLabel(t, target)
    ensures forall k :: 0 <= k <= |s| && HasLabel(s[..k], target) ==> HasLabel(t, target)
  {
    forall k | 0 <= k <= |s| && HasLabel(s[..k], target)
      ensures HasLabel(t, target)
    {
      var i :| 0 <= i < k && s[..k][i].identity == target;
      assert s[i] in multiset(t);
    }
    assert s[..|s|] == s;
    if HasLabel(t, target) {
      var i :| 0 <= i < |t| && t[i].identity == target;
      assert t[i] in multiset(s);
    }
  }

  /** The search loop over the sorted pairs, stopping at the first pair that
      carries the probe's label. */
  method FoundInTop(sorted: seq<Match>, target: string, n: nat) returns (found: bool)
    ensures found <==> HasLabel(sorted[..Min(n, |sorted|)], target)
  {
    var top := sorted[..Min(n, |sorted|)];
    found := false;
    var i := 0;
    while i < Min(n, |sorted|)
      invariant 0 <= i <= |top|
      invariant !found
      invariant forall k :: 0 <= k < i ==> top[k].identity != target
    {
      if sorted[i].identity == target {
        assert top[i].identity == target;
        found := true;
        break;
      }
      i := i + 1;
    }
  }

  /** The hit test without sorting: some gallery entry with the probe's label
      has fewer than `n` pairs ranked strictly above it. */
  lemma RankNHitIffFewAbove(target: string, ms: seq<Match>, n: nat)
    ensures RankNHit(target, ms, n) <==>
              exists j :: 0 <= j < |ms| && ms[j].identity == target && CountGreater(ms[j], ms) < n
  {
    if RankNHit(target, ms, n) {
      HitHasFewAbove(target, ms, n);
    }
    if exists j :: 0 <= j < |ms| && ms[j].identity == target && CountGreater(ms[j], ms) < n {
      var j :| 0 <= j < |ms| && ms[j].identity == target && CountGreater(ms[j], ms) < n;
      FewAboveIsHit(target, ms, n, j);
    }
  }

  /** A pair in the top `n` has fewer than `n` pairs above it: they all come
      before it in the sorted sequence. */
  lemma HitHasFewAbove(target: string, ms: seq<Match>, n: nat)
    requires RankNHit(target, ms, n)
    ensures exists j :: 0 <= j < |ms| && ms[j].identity == target && CountGreater(ms[j], ms) < n
  {
    var s := Sort(ms);
    var k := Min(n, |s|);
    var i :| 0 <= i < k && s[..k][i].identity == target;
    var p := s[i];
    assert p in multiset(ms);
    var j :| 0 <= j < |ms| && ms[j] == p;
    CountGreaterPermutation(p, s, ms);
    GreaterPrefix(p, s);
    GreaterIrreflexive(p);
    assert CountGreater(ms[j], ms) <= i < n;
  }

  /** A pair with `c < n` pairs above it sits at position `c` of the sorted
      sequence, inside the top `n`. */
  lemma FewAboveIsHit(target: string, ms: seq<Match>, n: nat, j: int)
    requires 0 <= j < |ms| && ms[j].identity == target && CountGreater(ms[j], ms) < n
    ensures RankNHit(target, ms, n)
  {
    var s := Sort(ms);
    var p := ms[j];
    assert p in multiset(s);
    CountGreaterPermutation(p, s, ms);
    SortedPosition(p, s);
    var c := CountGreater(p, s);
    assert s[..Min(n, |s|)][c].identity == target;
  }

  /** In a descending sequence, a pair sits right after the pairs ranked
      above it. */
  lemma SortedPosition(p: Match, s: seq<Match>)
    requires SortedDescending(s) && p in s
    ensures CountGreater(p, s) < |s| && s[CountGreater(p, s)] == p
  {
    var i :| 0 <= i < |s| && s[i] == p;
    var c := CountGreater(p, s);
    GreaterPrefix(p, s);
    GreaterIrreflexive(p);
    assert c <= i;
    assert !Greater(s[c], p);
    if c < i {
      assert !Greater(s[i], s[c]);
    }
    if s[c] != p {
      GreaterTotal(s[c], p);
    }
  }

  /** Taking more of the ranking never loses a hit: the top-N pairs are a
      prefix of the top-(N+1) pairs. */
  lemma RankNHitMonotone(target: string, ms: seq<Match>, n: nat, m: nat)
    requires n <= m
    requires RankNHit(target, ms, n)
    ensures RankNHit(target, ms, m)
  {
    var s := Sort(ms);
    var i :| 0 <= i < Min(n, |s|) && s[..Min(n, |s|)][i].identity == target;
    assert s[..Min(m, |s|)][i].identity == target;
  }

  /** Without gallery entries there is nothing to match, at any rank. */
  lemma RankNEmptyGalleryMisses(target: string, n: nat)
    ensures !RankNHit(target, [], n)
  {
  }
}
