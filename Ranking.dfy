/**
 The selection step of `RAGSystem.get_relevant_chunks`, over a given list of
 similarity scores (one per stored chunk): keep the indices whose score is
 strictly above the threshold, sort them by score, highest first, with
 Python's stable `sorted(..., reverse=True)` (equal scores keep ascending
 index order), and cut the list with the slice `[:n]`.
 */
module Ranking {

  /** The order of the result: higher score first; among equal scores, lower index first. */
  predicate Before(scores: seq<real>, i: int, j: int) {
    && 0 <= i < |scores| && 0 <= j < |scores|
    && (scores[i] > scores[j] || (scores[i] == scores[j] && i < j))
  }

  /** Every index is a valid position of the score list. */
  predicate InRange(idx: seq<int>, n: int) {
    forall k | 0 <= k < |idx| :: 0 <= idx[k] < n
  }

  /** The indices are in `Before` order (which also makes them distinct). */
  predicate Ranked(scores: seq<real>, idx: seq<int>) {
    forall k, l | 0 <= k < l < |idx| :: Before(scores, idx[k], idx[l])
  }

  /** `[i for i, sim in enumerate(scores) if sim > threshold]`, from position `from` on. */
  function Above(scores: seq<real>, threshold: real, from: nat): (idx: seq<int>)
    requires from <= |scores|
    ensures forall k | 0 <= k < |idx| :: from <= idx[k] < |scores| && scores[idx[k]] > threshold
    ensures forall k, l | 0 <= k < l < |idx| :: idx[k] < idx[l]
    decreases |scores| - from
  {
    if from == |scores| then []
    else if scores[from] > threshold then [from] + Above(scores, threshold, from + 1)
    else Above(scores, threshold, from + 1)
  }

  /** `Above` leaves no qualifying index out. */
  lemma {:induction false} AboveComplete(scores: seq<real>, threshold: real, from: nat)
    requires from <= |scores|
    ensures forall j | from <= j < |scores| && scores[j] > threshold :: j in Above(scores, threshold, from)
    decreases |scores| - from
  {
    if from < |scores| {
      AboveComplete(scores, threshold, from + 1);
    }
  }

  /**
   Inserts index `x` into a ranked list, after every index whose score is at
   least `x`'s: with `x` larger than every index already there, this keeps
   equal scores in index order, as a stable sort does.
   */
  function Insert(scores: seq<real>, x: int, s: seq<int>): (r: seq<int>)
    requires 0 <= x < |scores| && InRange(s, |scores|)
    ensures InRange(r, |scores|)
    ensures |r| == |s| + 1
  {
    if s == [] then [x]
    else if scores[x] > scores[s[0]] then [x] + s
    else
      [s[0]] + Insert(scores, x, s[1..])
  }

  /** `sorted(idx, key=lambda i: scores[i], reverse=True)` for a list of indices in ascending order. */
  function SortDescending(scores: seq<real>, idx: seq<int>): (r: seq<int>)
    requires InRange(idx, |scores|)
    ensures InRange(r, |scores|)
    ensures |r| == |idx|
  {
    if idx == [] then []
    else
      Insert(scores, idx[|idx| - 1], SortDescending(scores, idx[..|idx| - 1]))
  }

  /** Python's slice `s[:n]`, a negative `n` counting from the end. */
  function Prefix(s: seq<int>, n: int): (r: seq<int>)
    ensures |r| <= |s| && r == s[..|r|]
    ensures n >= 0 ==> |r| == if n <= |s| then n else |s|
  {
    if n >= 0 then (if n <= |s| then s[..n] else s)
    else if |s| + n >= 0 then s[..|s| + n]
    else []
  }

  /** The indices `get_relevant_chunks` returns: above the threshold, best first, at most `n` of them. */
  function TopIndices(scores: seq<real>, threshold: real, n: int): seq<int>
  {
    Prefix(SortDescending(scores, Above(scores, threshold, 0)), n)
  }

  /** The members of an insertion: the new index and the old ones. */
  lemma {:induction false} InsertMembers(scores: seq<real>, x: int, s: seq<int>)
    requires 0 <= x < |scores| && InRange(s, |scores|)
    ensures forall y :: y in Insert(scores, x, s) <==> y == x || y in s
    decreases |s|
  {
    if s != [] && scores[x] <= scores[s[0]] {
      InsertMembers(scores, x, s[1..]);
      assert s == [s[0]] + s[1..];
    }
  }

  /** Insertion adds exactly the new index. */
  lemma {:induction false} InsertPermutes(scores: seq<real>, x: int, s: seq<int>)
    requires 0 <= x < |scores| && InRange(s, |scores|)
    ensures multiset(Insert(scores, x, s)) == multiset(s) + multiset{x}
    decreases |s|
  {
    if s != [] && scores[x] <= scores[s[0]] {
      InsertPermutes(scores, x, s[1..]);
      assert s == [s[0]] + s[1..];
    }
  }

  /** Sorting is a permutation: the same indices, each as often. */
  lemma {:induction false} SortPermutes(scores: seq<real>, idx: seq<int>)
    requires InRange(idx, |scores|)
    ensures multiset(SortDescending(scores, idx)) == multiset(idx)
    decreases |idx|
  {
    if idx != [] {
      var init := idx[..|idx| - 1];
      SortPermutes(scores, init);
      InsertPermutes(scores, idx[|idx| - 1], SortDescending(scores, init));
      assert idx == init + [idx[|idx| - 1]];
    }
  }

  /** Inserting a new largest index into a ranked list keeps it ranked. */
  lemma {:induction false} InsertRanked(scores: seq<real>, x: int, s: seq<int>)
    requires 0 <= x < |scores| && InRange(s, |scores|)
    requires Ranked(scores, s)
    requires forall k | 0 <= k < |s| :: s[k] < x
    ensures Ranked(scores, Insert(scores, x, s))
    decreases |s|
  {
    if s != [] && scores[x] <= scores[s[0]] {
      var t := s[1..];
      InsertRanked(scores, x, t);
      InsertMembers(scores, x, t);
      var u := Insert(scores, x, t);
      assert Insert(scores, x, s) == [s[0]] + u;
      forall l | 0 <= l < |u| ensures Before(scores, s[0], u[l]) {
        assert u[l] in u;
        if u[l] != x {
          var m :| 0 <= m < |t| && t[m] == u[l];
          assert s[m + 1] == u[l];
        }
      }
    }
  }

  /** Sorting a list of distinct indices given in ascending order ranks them. */
  lemma {:induction false} SortRanked(scores: seq<real>, idx: seq<int>)
    requires InRange(idx, |scores|)
    requires forall k, l | 0 <= k < l < |idx| :: idx[k] < idx[l]
    ensures Ranked(scores, SortDescending(scores, idx))
    decreases |idx|
  {
    if idx != [] {
      var init := idx[..|idx| - 1];
      var x := idx[|idx| - 1];
      SortRanked(scores, init);
      SortPermutes(scores, init);
      var s := SortDescending(scores, init);
      forall k | 0 <= k < |s| ensures s[k] < x {
        assert s[k] in multiset(init);
        var m :| 0 <= m < |init| && init[m] == s[k];
      }
      InsertRanked(scores, x, s);
    }
  }

  /** A ranked list has non-increasing scores, and equal scores appear in ascending index order. */
  lemma RankedOrder(scores: seq<real>, r: seq<int>)
    requires InRange(r, |scores|) && Ranked(scores, r)
    ensures forall k, l | 0 <= k < l < |r| :: scores[r[k]] >= scores[r[l]]
    ensures forall k, l | 0 <= k < l < |r| && scores[r[k]] == scores[r[l]] :: r[k] < r[l]
  {
  }

  /** The sorted list of qualifying indices is ranked, and each of them scores above the threshold. */
  lemma SortedAboveSound(scores: seq<real>, threshold: real)
    ensures var sorted := SortDescending(scores, Above(scores, threshold, 0));
      && Ranked(scores, sorted)
      && (forall k | 0 <= k < |sorted| :: scores[sorted[k]] > threshold)
  {
    var above := Above(scores, threshold, 0);
    var sorted := SortDescending(scores, above);
    SortRanked(scores, above);
    SortPermutes(scores, above);
    forall k | 0 <= k < |sorted| ensures scores[sorted[k]] > threshold {
      assert sorted[k] in multiset(above);
    }
  }

  /** Every qualifying index is in the sorted list. */
  lemma SortedAboveComplete(scores: seq<real>, threshold: real, i: int)
    requires 0 <= i < |scores| && scores[i] > threshold
    ensures i in SortDescending(scores, Above(scores, threshold, 0))
  {
    var above := Above(scores, threshold, 0);
    AboveComplete(scores, threshold, 0);
    SortPermutes(scores, above);
    assert i in multiset(above);
  }

  /**
   What `get_relevant_chunks` selects, for any scores, threshold and `n`:
   valid indices only, each scoring strictly above the threshold, ranked
   best first with equal scores in ascending index order (`RankedOrder`),
   and at most `n` of them when `n` is not negative.
   */
  lemma TopIndicesSound(scores: seq<real>, threshold: real, n: int)
    ensures var r := TopIndices(scores, threshold, n);
      && InRange(r, |scores|)
      && (forall k | 0 <= k < |r| :: scores[r[k]] > threshold)
      && Ranked(scores, r)
      && (n >= 0 ==> |r| <= n)
  {
    SortedAboveSound(scores, threshold);
    PrefixSound(scores, threshold, SortDescending(scores, Above(scores, threshold, 0)), n);
  }

  /** A prefix of a ranked list of valid indices above the threshold is one too, and `[:n]` keeps at most `n`. */
  lemma PrefixSound(scores: seq<real>, threshold: real, s: seq<int>, n: int)
    requires InRange(s, |scores|) && Ranked(scores, s)
    requires forall k | 0 <= k < |s| :: scores[s[k]] > threshold
    ensures var r := Prefix(s, n);
      && InRange(r, |scores|) && Ranked(scores, r)
      && (forall k | 0 <= k < |r| :: scores[r[k]] > threshold)
      && (n >= 0 ==> |r| <= n)
  {
    var r := Prefix(s, n);
    assert forall k | 0 <= k < |r| :: r[k] == s[k];
  }

  /**
   Nothing better was left out: an index that scores above the threshold but
   is not returned ranks after the last one returned, and can only be
   missing because `n` results were already taken.
   */
  lemma TopIndicesComplete(scores: seq<real>, threshold: real, n: int, i: int)
    requires 0 <= i < |scores| && scores[i] > threshold
    requires i !in TopIndices(scores, threshold, n)
    ensures var r := TopIndices(scores, threshold, n);
      && (n >= 0 ==> |r| == n)
      && (r != [] ==> Before(scores, r[|r| - 1], i))
  {
    var sorted := SortDescending(scores, Above(scores, threshold, 0));
    SortedAboveSound(scores, threshold);
    SortedAboveComplete(scores, threshold, i);
    var r := Prefix(sorted, n);
    var p :| 0 <= p < |sorted| && sorted[p] == i;
    assert p >= |r| by {
      assert forall k | 0 <= k < |r| :: r[k] == sorted[k];
    }
    assert r != [] ==> r[|r| - 1] == sorted[|r| - 1];
  }

  /** When fewer than `n` indices come back, every qualifying index is among them. */
  lemma TopIndicesShort(scores: seq<real>, threshold: real, n: int, i: int)
    requires 0 <= i < |scores| && scores[i] > threshold
    requires |TopIndices(scores, threshold, n)| < n
    ensures i in TopIndices(scores, threshold, n)
  {
    SortedAboveComplete(scores, threshold, i);
    assert TopIndices(scores, threshold, n) == SortDescending(scores, Above(scores, threshold, 0));
  }

  /** The worked example: scores 0.9, 0.5, 0.5 with threshold 0.3 rank as 0, 1, 2; with 0.6 only 0 survives. */
  lemma TopIndicesExample()
    ensures TopIndices([0.9, 0.5, 0.5], 0.3, 5) == [0, 1, 2]
    ensures TopIndices([0.9, 0.5, 0.5], 0.6, 5) == [0]
  {
    var s := [0.9, 0.5, 0.5];
    ExampleAbove(s);
    ExampleSort(s);
    assert TopIndices(s, 0.3, 5) == Prefix([0, 1, 2], 5) == [0, 1, 2];
    assert TopIndices(s, 0.6, 5) == Prefix([0], 5) == [0];
  }

  /** The qualifying indices of the example, for both thresholds. */
  lemma ExampleAbove(s: seq<real>)
    requires s == [0.9, 0.5, 0.5]
    ensures Above(s, 0.3, 0) == [0, 1, 2]
    ensures Above(s, 0.6, 0) == [0]
  {
    assert Above(s, 0.3, 2) == [2];
    assert Above(s, 0.3, 1) == [1, 2];
    assert Above(s, 0.6, 3) == [];
    assert Above(s, 0.6, 2) == [];
    assert Above(s, 0.6, 1) == [];
  }

  /** The stable sort of the example keeps the tied indices 1 and 2 in order. */
  lemma ExampleSort(s: seq<real>)
    requires s == [0.9, 0.5, 0.5]
    ensures SortDescending(s, [0]) == [0]
    ensures SortDescending(s, [0, 1, 2]) == [0, 1, 2]
  {
    assert [0][..0] == [];
    assert [0, 1][..1] == [0];
    assert [0, 1, 2][..2] == [0, 1];
    assert Insert(s, 1, [0]) == [0] + Insert(s, 1, []);
    assert SortDescending(s, [0, 1]) == [0, 1];
    assert Insert(s, 2, [1]) == [1] + Insert(s, 2, []);
    assert Insert(s, 2, [0, 1]) == [0] + Insert(s, 2, [1]);
  }
}
