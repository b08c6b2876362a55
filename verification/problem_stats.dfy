/** The solved-problem statistics of the profile page: window and verdict filtering,
    de-duplication of solved problems, hardest and mean rating, and the rating buckets.
    Only the integer statistics are modelled. */
module ProblemStats {
  import opened Wrappers
  import opened Codeforces
  import Seqs

  /** Submissions created at or after `cutoff` (seconds), inclusive. */
  function InWindow(cutoff: int): Submission -> bool {
    (s: Submission) => s.creationTimeSeconds >= cutoff
  }

  /** The identity of a problem: its contest and its index within the contest. */
  function Key(s: Submission): (int, string) {
    (s.problem.contestId, s.problem.index)
  }

  function KeySet(s: seq<Submission>): set<(int, string)> {
    set x | x in s :: Key(x)
  }

  /** No key occurs twice. */
  predicate DistinctKeys(s: seq<Submission>) {
    forall i, j :: 0 <= i < j < |s| ==> Key(s[i]) != Key(s[j])
  }

  /** `s[i]` is the first submission of its problem in `s`. */
  predicate IsFirst(s: seq<Submission>, i: int)
    requires 0 <= i < |s|
  {
    forall k :: 0 <= k < i ==> Key(s[k]) != Key(s[i])
  }

  /** Reference de-duplication: the first submission of every problem, in order of first
      appearance. */
  function FirstOccurrences(s: seq<Submission>): (r: seq<Submission>)
    ensures |r| <= |s|
    ensures DistinctKeys(r)
    ensures KeySet(r) == KeySet(s)
    ensures forall x :: x in r ==> x in s
    decreases |s|
  {
    if |s| == 0 then []
    else
      var prev := FirstOccurrences(s[..|s| - 1]);
      var last := s[|s| - 1];
      assert s == s[..|s| - 1] + [last];
      assert KeySet(s) == KeySet(s[..|s| - 1]) + {Key(last)};
      if Key(last) in KeySet(prev) then prev
      else
        assert forall x :: x in prev ==> Key(x) != Key(last);
        prev + [last]
  }

  /** Every first occurrence is kept, so the result holds exactly the first submission of
      each problem (one per key, by `DistinctKeys`). */
  lemma {:induction false} FirstOccurrencesKeepsFirsts(s: seq<Submission>, i: int)
    requires 0 <= i < |s| && IsFirst(s, i)
    ensures s[i] in FirstOccurrences(s)
    decreases |s|
  {
    var init := s[..|s| - 1];
    if i < |s| - 1 {
      assert init[i] == s[i];
      assert IsFirst(init, i);
      FirstOccurrencesKeepsFirsts(init, i);
    }
  }

  /** One more submission: kept exactly when its problem has not been seen. */
  lemma FirstOccurrencesSnoc(s: seq<Submission>, x: Submission)
    ensures FirstOccurrences(s + [x])
      == if Key(x) in KeySet(FirstOccurrences(s)) then FirstOccurrences(s) else FirstOccurrences(s) + [x]
  {
    var t := s + [x];
    assert t[..|t| - 1] == s && t[|t| - 1] == x;
  }

  lemma KeySetSnoc(s: seq<Submission>, x: Submission)
    ensures KeySet(s + [x]) == KeySet(s) + {Key(x)}
  {
  }

  /** The `forEach` over accepted submissions that fills a map keyed by problem, keeping the
      first submission of each. */
  method UniqueProblems(accepted: seq<Submission>) returns (solved: seq<Submission>)
    ensures solved == FirstOccurrences(accepted)
  {
    solved := [];
    var seen: set<(int, string)> := {};
    var i := 0;
    while i < |accepted|
      invariant 0 <= i <= |accepted|
      invariant solved == FirstOccurrences(accepted[..i])
      invariant seen == KeySet(solved)
    {
      var s := accepted[i];
      assert accepted[..i + 1] == accepted[..i] + [s];
      FirstOccurrencesSnoc(accepted[..i], s);
      if Key(s) !in seen {
        KeySetSnoc(solved, s);
        seen := seen + {Key(s)};
        solved := solved + [s];
      }
      i := i + 1;
    }
    assert accepted[..|accepted|] == accepted;
  }

  predicate HasPositiveRating(s: Submission) {
    s.problem.rating.Some? && s.problem.rating.value > 0
  }

  /** The positive ratings of the solved problems, in order (unrated and 0 are skipped). */
  function PositiveRatings(solved: seq<Submission>): (r: seq<int>)
    ensures |r| <= |solved|
    ensures forall i :: 0 <= i < |r| ==> r[i] > 0
  {
    if |solved| == 0 then []
    else
      (if HasPositiveRating(solved[0]) then [solved[0].problem.rating.value] else [])
      + PositiveRatings(solved[1..])
  }

  /** A rated solved problem contributes its rating. */
  lemma {:induction false} PositiveRatingsComplete(solved: seq<Submission>, i: int)
    requires 0 <= i < |solved| && HasPositiveRating(solved[i])
    ensures solved[i].problem.rating.value in PositiveRatings(solved)
  {
    if i > 0 {
      PositiveRatingsComplete(solved[1..], i - 1);
    }
  }

  /** There are positive ratings exactly when some solved problem has one. */
  lemma {:induction false} PositiveRatingsEmpty(solved: seq<Submission>)
    ensures |PositiveRatings(solved)| == 0 <==> forall i :: 0 <= i < |solved| ==> !HasPositiveRating(solved[i])
  {
    if |solved| > 0 {
      PositiveRatingsEmpty(solved[1..]);
      assert forall i :: 1 <= i < |solved| ==> solved[i] == solved[1..][i - 1];
    }
  }

  /** The hardest rating: the largest positive rating, 0 when there is none. */
  function Hardest(solved: seq<Submission>): (m: int)
    ensures m >= 0
    ensures m == 0 <==> forall i :: 0 <= i < |solved| ==> !HasPositiveRating(solved[i])
    ensures forall i :: 0 <= i < |solved| && HasPositiveRating(solved[i]) ==> solved[i].problem.rating.value <= m
    ensures m != 0 ==> m in PositiveRatings(solved)
  {
    var xs := PositiveRatings(solved);
    PositiveRatingsEmpty(solved);
    if |xs| > 0 then
      assert forall i :: 0 <= i < |solved| && HasPositiveRating(solved[i]) ==> solved[i].problem.rating.value in xs by {
        forall i | 0 <= i < |solved| && HasPositiveRating(solved[i])
          ensures solved[i].problem.rating.value in xs
        {
          PositiveRatingsComplete(solved, i);
        }
      }
      Seqs.Max(xs)
    else 0
  }

  /** The mean rating of the rated solved problems, rounded; 0 when there is none.
      Otherwise it is the integer nearest the mean, halves rounded up
      (m - 1/2 <= mean < m + 1/2), so it lies between the smallest and the largest rating. */
  function Average(solved: seq<Submission>): (m: int)
    ensures var xs := PositiveRatings(solved);
      |xs| == 0 ==> m == 0
    ensures var xs := PositiveRatings(solved);
      |xs| > 0 ==>
        && Seqs.Min(xs) <= m <= Seqs.Max(xs)
        && 2 * |xs| * m - |xs| <= 2 * Seqs.Sum(xs) < 2 * |xs| * m + |xs|
  {
    var xs := PositiveRatings(solved);
    if |xs| > 0 then
      RoundedMeanBetween(xs);
      RoundedMeanIsNearest(xs);
      RoundedMean(xs)
    else 0
  }

  /** `Math.round(sum / count)`: JavaScript rounds halves up. */
  function RoundedMean(xs: seq<int>): int
    requires |xs| > 0
  {
    (2 * Seqs.Sum(xs) + |xs|) / (2 * |xs|)
  }

  /** Multiplying by a non-negative number preserves order. */
  lemma MulMonotone(d: int, x: int, y: int)
    requires d >= 0 && x <= y
    ensures d * x <= d * y
  {
    assert d * y - d * x == d * (y - x);
  }

  /** Floor division is bracketed by multiples of the divisor. */
  lemma DivBetween(a: int, d: int, lo: int, hi: int)
    requires d > 0 && d * lo <= a < d * (hi + 1)
    ensures lo <= a / d <= hi
  {
    var q, r := a / d, a % d;
    assert a == d * q + r && 0 <= r < d;
    assert d * (q + 1) == d * q + d;
    if q < lo {
      MulMonotone(d, q + 1, lo);
      assert false;
    }
    if q > hi {
      MulMonotone(d, hi + 1, q);
      assert false;
    }
  }

  /** The rounded mean of `n` values summing to `sum`, all between `lo` and `hi`, lies
      between `lo` and `hi`. */
  lemma RoundedMeanBounds(sum: int, n: int, lo: int, hi: int)
    requires n > 0 && n * lo <= sum <= n * hi
    ensures lo <= (2 * sum + n) / (2 * n) <= hi
  {
    var d := 2 * n;
    assert d * lo == 2 * (n * lo);
    assert d * (hi + 1) == 2 * (n * hi) + 2 * n;
    DivBetween(2 * sum + n, d, lo, hi);
  }

  /** `(2 * sum + n) / (2 * n)` is the integer nearest `sum / n`, halves rounded up. */
  lemma RoundedMeanNearest(sum: int, n: int)
    requires n > 0
    ensures var q := (2 * sum + n) / (2 * n);
      2 * n * q - n <= 2 * sum < 2 * n * q + n
  {
    var d := 2 * n;
    var q, r := (2 * sum + n) / d, (2 * sum + n) % d;
    assert 2 * sum + n == d * q + r && 0 <= r < d;
    assert 2 * n * q == d * q;
  }

  /** The rounded mean is the integer nearest the mean, halves rounded up. */
  lemma RoundedMeanIsNearest(xs: seq<int>)
    requires |xs| > 0
    ensures 2 * |xs| * RoundedMean(xs) - |xs| <= 2 * Seqs.Sum(xs) < 2 * |xs| * RoundedMean(xs) + |xs|
  {
    RoundedMeanNearest(Seqs.Sum(xs), |xs|);
  }

  /** The rounded mean lies between the smallest and the largest value. */
  lemma RoundedMeanBetween(xs: seq<int>)
    requires |xs| > 0
    ensures Seqs.Min(xs) <= RoundedMean(xs) <= Seqs.Max(xs)
  {
    Seqs.SumBounds(xs, Seqs.Min(xs), Seqs.Max(xs));
    RoundedMeanBounds(Seqs.Sum(xs), |xs|, Seqs.Min(xs), Seqs.Max(xs));
  }

  /** One histogram range, both ends inclusive. */
  datatype Range = Range(lo: int, hi: int, title: string)

  datatype Bucket = Bucket(title: string, count: nat)

  const Ranges: seq<Range> := [
    Range(800, 999, "800-999"), Range(1000, 1199, "1000-1199"), Range(1200, 1399, "1200-1399"),
    Range(1400, 1599, "1400-1599"), Range(1600, 1799, "1600-1799"), Range(1800, 1999, "1800-1999"),
    Range(2000, 2199, "2000-2199"), Range(2200, 2399, "2200-2399"), Range(2400, 2599, "2400-2599"),
    Range(2600, 3999, "2600+")]

  function Between(lo: int, hi: int): int -> bool {
    (x: int) => lo <= x <= hi
  }

  /** One bucket per range, in range order. */
  function BucketsFor(xs: seq<int>, rs: seq<Range>): (bs: seq<Bucket>)
    ensures |bs| == |rs|
    ensures forall i :: 0 <= i < |rs| ==> bs[i] == Bucket(rs[i].title, Seqs.Count(Between(rs[i].lo, rs[i].hi), xs))
  {
    if |rs| == 0 then []
    else [Bucket(rs[0].title, Seqs.Count(Between(rs[0].lo, rs[0].hi), xs))] + BucketsFor(xs, rs[1..])
  }

  function NonEmpty(): Bucket -> bool {
    (b: Bucket) => b.count > 0
  }

  /** The distribution shown: only buckets with problems. */
  function Distribution(xs: seq<int>): seq<Bucket> {
    Seqs.Filter(NonEmpty(), BucketsFor(xs, Ranges))
  }

  function SumCounts(bs: seq<Bucket>): nat {
    if |bs| == 0 then 0 else bs[0].count + SumCounts(bs[1..])
  }

  /** `rs` tiles `lo..hi` without gaps or overlaps, in ascending order. */
  predicate Tiles(rs: seq<Range>, lo: int, hi: int)
    decreases |rs|
  {
    && |rs| > 0
    && rs[0].lo == lo && lo <= rs[0].hi <= hi
    && (|rs| == 1 ==> rs[0].hi == hi)
    && (|rs| > 1 ==> Tiles(rs[1..], rs[0].hi + 1, hi))
  }

  /** The ten ranges tile 800..3999. */
  lemma RangesTile()
    ensures Tiles(Ranges, 800, 3999)
  {
    var r := Ranges;
    assert Tiles(r[9..], 2600, 3999);
    assert r[8..][1..] == r[9..];
    assert Tiles(r[8..], 2400, 3999);
    assert r[7..][1..] == r[8..];
    assert Tiles(r[7..], 2200, 3999);
    assert r[6..][1..] == r[7..];
    assert Tiles(r[6..], 2000, 3999);
    assert r[5..][1..] == r[6..];
    assert Tiles(r[5..], 1800, 3999);
    assert r[4..][1..] == r[5..];
    assert Tiles(r[4..], 1600, 3999);
    assert r[3..][1..] == r[4..];
    assert Tiles(r[3..], 1400, 3999);
    assert r[2..][1..] == r[3..];
    assert Tiles(r[2..], 1200, 3999);
    assert r[1..][1..] == r[2..];
    assert Tiles(r[1..], 1000, 3999);
    assert r[0..][1..] == r[1..];
  }

  /** The ranges are disjoint and ascending. */
  lemma RangesAscending()
    ensures forall i, j :: 0 <= i < j < |Ranges| ==> Ranges[i].hi < Ranges[j].lo
  {
  }

  /** Over a tiling, the bucket counts add up to the number of values in the tiled span. */
  lemma {:induction false} TilingCounts(xs: seq<int>, rs: seq<Range>, lo: int, hi: int)
    requires Tiles(rs, lo, hi)
    ensures SumCounts(BucketsFor(xs, rs)) == Seqs.Count(Between(lo, hi), xs)
    decreases |rs|
  {
    var bs := BucketsFor(xs, rs);
    if |rs| == 1 {
      assert bs[1..] == [];
    } else {
      var mid := rs[0].hi;
      TilingCounts(xs, rs[1..], mid + 1, hi);
      assert bs[1..] == BucketsFor(xs, rs[1..]);
      Seqs.CountDisjointUnion(Between(lo, mid), Between(mid + 1, hi), Between(lo, hi), xs);
    }
  }

  /** Dropping empty buckets does not change the total. */
  lemma {:induction false} NonEmptyKeepsTotal(bs: seq<Bucket>)
    ensures SumCounts(Seqs.Filter(NonEmpty(), bs)) == SumCounts(bs)
  {
    if |bs| > 0 {
      NonEmptyKeepsTotal(bs[1..]);
      var f := NonEmpty();
      if f(bs[0]) {
        assert Seqs.Filter(f, bs) == [bs[0]] + Seqs.Filter(f, bs[1..]);
      } else {
        assert Seqs.Filter(f, bs) == Seqs.Filter(f, bs[1..]);
        assert bs[0].count == 0;
      }
    }
  }

  /** The distribution counts exactly the values in 800..3999; no value is counted twice. */
  lemma DistributionTotal(xs: seq<int>)
    ensures SumCounts(Distribution(xs)) == Seqs.Count(Between(800, 3999), xs)
  {
    RangesTile();
    TilingCounts(xs, Ranges, 800, 3999);
    NonEmptyKeepsTotal(BucketsFor(xs, Ranges));
  }

  /** A rating outside 800..3999 lies in no range. */
  lemma OutsideNoBucket(x: int)
    requires x < 800 || x > 3999
    ensures forall i :: 0 <= i < |Ranges| ==> !(Ranges[i].lo <= x <= Ranges[i].hi)
  {
  }

  /** Every bucket shown holds at least one problem. */
  lemma DistributionNonEmpty(xs: seq<int>)
    ensures forall i :: 0 <= i < |Distribution(xs)| ==> Distribution(xs)[i].count > 0
  {
    var d := Distribution(xs);
    forall i | 0 <= i < |d| ensures d[i].count > 0 {
      assert d[i] in d;
    }
  }

  /** With no ratings every bucket is empty, so none is shown. */
  lemma NoRatingsNoBuckets(xs: seq<int>, rs: seq<Range>)
    requires |xs| == 0
    ensures Seqs.Filter(NonEmpty(), BucketsFor(xs, rs)) == []
  {
    var bs := BucketsFor(xs, rs);
    forall i | 0 <= i < |bs| ensures !NonEmpty()(bs[i]) {
      assert Seqs.Filter(Between(rs[i].lo, rs[i].hi), xs) == [];
    }
    Seqs.FilterDropsAll(NonEmpty(), bs);
  }

  /** The integer statistics of the profile page. */
  datatype Stats = Stats(mostDifficultRating: int, totalSolved: nat, averageRating: int, distribution: seq<Bucket>)

  /** The solved problems: accepted in-window submissions, one per problem. */
  function Solved(subs: seq<Submission>, cutoff: int): seq<Submission> {
    FirstOccurrences(Seqs.Filter(Accepted, Seqs.Filter(InWindow(cutoff), subs)))
  }

  /** `calculateProblemStats` for a window starting at `cutoff` seconds. The three figures
      are those of the solved problems: the hardest, the rounded mean and the non-empty
      buckets of their positive ratings. The hardest rating is 0 when nothing rated was
      solved, otherwise a solved rating that bounds every rated solved problem. */
  method CalculateProblemStats(subs: seq<Submission>, cutoff: int) returns (st: Stats)
    ensures st.mostDifficultRating >= 0 && st.averageRating >= 0
    ensures st.mostDifficultRating == Hardest(Solved(subs, cutoff))
    ensures st.averageRating == Average(Solved(subs, cutoff))
    ensures st.distribution == Distribution(PositiveRatings(Solved(subs, cutoff)))
    ensures |subs| == 0 ==> st == Stats(0, 0, 0, [])
    ensures st.totalSolved == |Solved(subs, cutoff)|
    ensures st.totalSolved <= |Seqs.Filter(Accepted, Seqs.Filter(InWindow(cutoff), subs))|
    ensures var solved := Solved(subs, cutoff);
      && (st.mostDifficultRating == 0 <==> forall i :: 0 <= i < |solved| ==> !HasPositiveRating(solved[i]))
      && (forall i :: 0 <= i < |solved| && HasPositiveRating(solved[i]) ==>
            solved[i].problem.rating.value <= st.mostDifficultRating)
    ensures var xs := PositiveRatings(Solved(subs, cutoff));
      && (|xs| == 0 ==> st.averageRating == 0)
      && (|xs| > 0 ==> Seqs.Min(xs) <= st.averageRating <= Seqs.Max(xs))
    ensures SumCounts(st.distribution) == Seqs.Count(Between(800, 3999), PositiveRatings(Solved(subs, cutoff)))
    ensures forall i :: 0 <= i < |st.distribution| ==> st.distribution[i].count > 0
  {
    if |subs| == 0 {
      assert Solved(subs, cutoff) == [];
      NoRatingsNoBuckets(PositiveRatings(Solved(subs, cutoff)), Ranges);
      return Stats(0, 0, 0, []);
    }
    var accepted := Seqs.Filter(Accepted, Seqs.Filter(InWindow(cutoff), subs));
    var solved := UniqueProblems(accepted);
    assert solved == Solved(subs, cutoff);
    var xs := PositiveRatings(solved);
    DistributionTotal(xs);
    DistributionNonEmpty(xs);
    st := Stats(Hardest(solved), |solved|, Average(solved), Distribution(xs));
  }
}
