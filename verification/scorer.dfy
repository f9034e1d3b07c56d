/** Ranking of the accepted windows against the reference mask
    (`compute_similarity`). */
module Scorer {
  import opened Results
  import opened Numbers
  import opened Raster
  import opened Sampler

  /** A window with its score; lower is a better match. */
  datatype Scored = Scored(score: real, crop: Grid, origin: Origin)

  /** Sum of absolute pixel differences of two rows of equal length. */
  function RowDiff(a: seq<Pixel>, b: seq<Pixel>): (d: nat)
    requires |a| == |b|
    ensures d <= 255 * |a|
    ensures d == 0 <==> a == b
  {
    if a == [] then 0
    else
      var n := |a|;
      var d := RowDiff(a[..n - 1], b[..n - 1]) + AbsInt(a[n - 1] as int - b[n - 1] as int);
      assert a == a[..n - 1] + [a[n - 1]] && b == b[..n - 1] + [b[n - 1]];
      d
  }

  /** Sum of absolute pixel differences of two grids of the same shape. */
  function GridDiff(a: Grid, b: Grid): (d: nat)
    requires SameShape(a, b)
    ensures d == 0 <==> a == b
  {
    if a == [] then 0
    else
      var n := |a|;
      var d := GridDiff(a[..n - 1], b[..n - 1]) + RowDiff(a[n - 1], b[n - 1]);
      assert a == a[..n - 1] + [a[n - 1]] && b == b[..n - 1] + [b[n - 1]];
      d
  }

  lemma {:induction false} GridDiffBound(a: Grid, b: Grid, h: nat, w: nat)
    requires IsGrid(a, h, w) && IsGrid(b, h, w)
    ensures GridDiff(a, b) <= 255 * (h * w)
  {
    if h > 0 {
      var n := h - 1;
      GridDiffBound(a[..n], b[..n], n, w);
      assert GridDiff(a, b) == GridDiff(a[..n], b[..n]) + RowDiff(a[n], b[n]);
      assert |a[n]| == w;
      RowsStep(h, w);
    }
  }

  /** `np.mean(np.abs(crop/255 - glyph_bin/255))`: the mean absolute
      difference of the normalised pixels. It lies in [0, 1] and is 0 exactly
      when the window equals the reference cell for cell. */
  function Score(crop: Grid, ref: Grid, h: nat, w: nat): (s: real)
    requires h > 0 && w > 0 && IsGrid(crop, h, w) && IsGrid(ref, h, w)
    ensures 0.0 <= s <= 1.0
    ensures s == 0.0 <==> crop == ref
  {
    GridDiffBound(crop, ref, h, w);
    FractionFacts(GridDiff(crop, ref), 255 * (h * w));
    GridDiff(crop, ref) as real / (255 * (h * w)) as real
  }

  predicate WellShaped(samples: seq<Sample>, h: nat, w: nat) {
    forall k :: 0 <= k < |samples| ==> IsGrid(samples[k].crop, h, w)
  }

  /** The `(sim, crop, pos)` entries, one per sample, in sample order. */
  function ScoreAll(samples: seq<Sample>, ref: Grid, h: nat, w: nat): (r: seq<Scored>)
    requires h > 0 && w > 0 && IsGrid(ref, h, w) && WellShaped(samples, h, w)
    ensures |r| == |samples|
    ensures forall k :: 0 <= k < |r| ==> r[k].crop == samples[k].crop && r[k].origin == samples[k].origin
    ensures forall k :: 0 <= k < |r| ==> r[k].score == Score(samples[k].crop, ref, h, w)
    ensures forall k :: 0 <= k < |r| ==> 0.0 <= r[k].score <= 1.0
  {
    seq(|samples|, k requires 0 <= k < |samples| =>
      Scored(Score(samples[k].crop, ref, h, w), samples[k].crop, samples[k].origin))
  }

  // ---------------------------------------------------------------------
  // Stable sorting by score
  // ---------------------------------------------------------------------

  predicate SortedByScore(s: seq<Scored>) {
    forall i, j :: 0 <= i < j < |s| ==> s[i].score <= s[j].score
  }

  /** Places `e` after every entry whose score is not larger than its own. */
  function Insert(s: seq<Scored>, e: Scored): (r: seq<Scored>)
    ensures |r| == |s| + 1
  {
    if s == [] then [e]
    else if e.score < s[0].score then [e] + s
    else [s[0]] + Insert(s[1..], e)
  }

  /** Insertion adds `e` and loses nothing. */
  lemma {:induction false} InsertIsPermutation(s: seq<Scored>, e: Scored)
    ensures multiset(Insert(s, e)) == multiset(s) + multiset{e}
  {
    if s != [] && e.score >= s[0].score {
      var t := Insert(s[1..], e);
      InsertIsPermutation(s[1..], e);
      assert Insert(s, e) == [s[0]] + t;
      assert multiset([s[0]] + t) == multiset{s[0]} + multiset(t);
      assert s == [s[0]] + s[1..];
      assert multiset(s) == multiset{s[0]} + multiset(s[1..]);
    }
  }

  /** A lower bound on all scores survives an insertion that respects it. */
  lemma {:induction false} InsertBounded(s: seq<Scored>, e: Scored, lo: real)
    requires lo <= e.score && forall k :: 0 <= k < |s| ==> lo <= s[k].score
    ensures forall k :: 0 <= k < |Insert(s, e)| ==> lo <= Insert(s, e)[k].score
  {
    if s != [] && e.score >= s[0].score {
      InsertBounded(s[1..], e, lo);
    }
  }

  lemma {:induction false} InsertKeepsSorted(s: seq<Scored>, e: Scored)
    requires SortedByScore(s)
    ensures SortedByScore(Insert(s, e))
  {
    if s != [] {
      var r := Insert(s, e);
      if e.score >= s[0].score {
        var t := Insert(s[1..], e);
        InsertKeepsSorted(s[1..], e);
        InsertBounded(s[1..], e, s[0].score);
        assert r == [s[0]] + t;
        forall i, j | 0 <= i < j < |r|
          ensures r[i].score <= r[j].score
        {
          if i > 0 {
            assert r[i] == t[i - 1] && r[j] == t[j - 1];
          }
        }
      } else {
        assert r == [e] + s;
        forall i, j | 0 <= i < j < |r|
          ensures r[i].score <= r[j].score
        {
          if i > 0 {
            assert r[i] == s[i - 1] && r[j] == s[j - 1];
          } else {
            assert r[j] == s[j - 1];
          }
        }
      }
    }
  }

  /** `list.sort(key=lambda x: x[0])`. Python's sort is stable and a stable
      sort by a key has exactly one result, which insertion from the left
      computes. */
  function Sort(xs: seq<Scored>): (r: seq<Scored>)
    ensures |r| == |xs|
    ensures multiset(r) == multiset(xs)
    ensures SortedByScore(r)
  {
    if xs == [] then []
    else
      var n := |xs|;
      assert xs == xs[..n - 1] + [xs[n - 1]];
      InsertKeepsSorted(Sort(xs[..n - 1]), xs[n - 1]);
      InsertIsPermutation(Sort(xs[..n - 1]), xs[n - 1]);
      Insert(Sort(xs[..n - 1]), xs[n - 1])
  }

  lemma {:induction false} InsertLargest(s: seq<Scored>, e: Scored)
    requires forall k :: 0 <= k < |s| ==> s[k].score <= e.score
    ensures Insert(s, e) == s + [e]
  {
    if s != [] {
      InsertLargest(s[1..], e);
    }
  }

  /** Sorting an already sorted list changes nothing. */
  lemma {:induction false} SortOfSorted(s: seq<Scored>)
    requires SortedByScore(s)
    ensures Sort(s) == s
  {
    if s != [] {
      var n := |s|;
      SortOfSorted(s[..n - 1]);
      InsertLargest(s[..n - 1], s[n - 1]);
      assert s[..n - 1] + [s[n - 1]] == s;
    }
  }

  /** Re-sorting after every append, as glyp_ref_gen.py:75 does, gives the list a single
      sort of everything appended so far gives. */
  lemma ResortIsSortOnce(xs: seq<Scored>, e: Scored)
    ensures Sort(Sort(xs) + [e]) == Sort(xs + [e])
  {
    var s := Sort(xs);
    assert (s + [e])[..|s|] == s;
    assert (xs + [e])[..|xs|] == xs;
    SortOfSorted(s);
  }

  /** Index of the earliest entry of minimal score. */
  function FirstMin(xs: seq<Scored>): (k: nat)
    requires xs != []
    ensures k < |xs|
    ensures forall j :: 0 <= j < |xs| ==> xs[k].score <= xs[j].score
    ensures forall j :: 0 <= j < k ==> xs[k].score < xs[j].score
  {
    if |xs| == 1 then 0
    else
      var n := |xs|;
      var k := FirstMin(xs[..n - 1]);
      if xs[n - 1].score < xs[k].score then n - 1 else k
  }

  /** The head of the stable sort is the earliest entry of minimal score. */
  lemma {:induction false} SortHeadIsFirstMin(xs: seq<Scored>)
    requires xs != []
    ensures Sort(xs)[0] == xs[FirstMin(xs)]
  {
    var n := |xs|;
    if n > 1 {
      var pre := xs[..n - 1];
      SortHeadIsFirstMin(pre);
    }
  }

  /** The result of compute_similarity as a single sort once sampling is
      over; with nothing sampled, `scores[0]` raises IndexError. */
  function BestMatch(samples: seq<Sample>, ref: Grid, h: nat, w: nat): (best: Result<Scored>)
    requires h > 0 && w > 0 && IsGrid(ref, h, w) && WellShaped(samples, h, w)
    ensures best.Failure? <==> samples == []
    ensures best.Failure? ==> best.error == NoSamples
    ensures best.Success? ==> 0.0 <= best.value.score <= 1.0
    ensures best.Success? ==> best.value in ScoreAll(samples, ref, h, w)
  {
    var ranked := Sort(ScoreAll(samples, ref, h, w));
    if ranked == [] then Failure(NoSamples)
    else
      assert ranked[0] in multiset(ranked);
      Success(ranked[0])
  }

  /** The best match has the minimal score of all samples, and of the samples
      with that score it is the one sampled first. */
  lemma BestMatchIsFirstMinimum(samples: seq<Sample>, ref: Grid, h: nat, w: nat)
    requires h > 0 && w > 0 && IsGrid(ref, h, w) && WellShaped(samples, h, w)
    requires samples != []
    ensures var b := BestMatch(samples, ref, h, w).value;
      exists k :: 0 <= k < |samples|
        && b == ScoreAll(samples, ref, h, w)[k]
        && b.crop == samples[k].crop && b.origin == samples[k].origin
        && (forall j :: 0 <= j < |samples| ==> b.score <= Score(samples[j].crop, ref, h, w))
        && (forall j :: 0 <= j < k ==> b.score < Score(samples[j].crop, ref, h, w))
  {
    var all := ScoreAll(samples, ref, h, w);
    SortHeadIsFirstMin(all);
    var k := FirstMin(all);
    assert forall j :: 0 <= j < |samples| ==> all[j].score == Score(samples[j].crop, ref, h, w);
  }

  lemma ScoreAllSnoc(samples: seq<Sample>, ref: Grid, h: nat, w: nat, i: nat)
    requires h > 0 && w > 0 && IsGrid(ref, h, w) && WellShaped(samples, h, w) && i < |samples|
    ensures ScoreAll(samples[..i + 1], ref, h, w) ==
      ScoreAll(samples[..i], ref, h, w) + [Scored(Score(samples[i].crop, ref, h, w), samples[i].crop, samples[i].origin)]
  {
    var a := ScoreAll(samples[..i + 1], ref, h, w);
    var b := ScoreAll(samples[..i], ref, h, w) + [Scored(Score(samples[i].crop, ref, h, w), samples[i].crop, samples[i].origin)];
    assert forall k :: 0 <= k < |a| ==> a[k] == b[k];
  }

  /** `compute_similarity` as written: append each scored window, re-sort
      the whole list, and return its head; the empty list has no head. */
  method ComputeSimilarity(samples: seq<Sample>, ref: Grid, h: nat, w: nat) returns (best: Result<Scored>)
    requires h > 0 && w > 0 && IsGrid(ref, h, w) && WellShaped(samples, h, w)
    ensures best == BestMatch(samples, ref, h, w)
  {
    var scores: seq<Scored> := [];
    for i := 0 to |samples|
      invariant scores == Sort(ScoreAll(samples[..i], ref, h, w))
    {
      var sim := Score(samples[i].crop, ref, h, w);
      ScoreAllSnoc(samples, ref, h, w, i);
      ResortIsSortOnce(ScoreAll(samples[..i], ref, h, w), Scored(sim, samples[i].crop, samples[i].origin));
      scores := scores + [Scored(sim, samples[i].crop, samples[i].origin)];
      scores := Sort(scores);
    }
    assert samples[..|samples|] == samples;
    if scores == [] {
      best := Failure(NoSamples);
    } else {
      best := Success(scores[0]);
    }
  }
}
