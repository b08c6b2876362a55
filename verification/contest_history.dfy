/** The contest-history view: the transform of stored contests into entries, the date
    filter, the most-recent-first sort, the chart series and the rating summary. */
module ContestHistory {
  import opened Wrappers
  import opened Codeforces
  import opened Js
  import Text
  import Seqs
  import RatingColor

  /** A contest as the view holds it; `time` is the rating-update time in seconds. */
  datatype Entry = Entry(id: string, name: string, time: int, rank: int, ratingChange: int, newRating: int)

  /** The rating before the contest, as the table derives it. */
  function OldRating(e: Entry): int {
    e.newRating - e.ratingChange
  }

  /** The transform of one stored contest. */
  function ToEntry(c: Contest): (e: Entry)
    ensures OldRating(e) == c.oldRating
    ensures e.newRating == c.newRating && e.time == c.ratingUpdateTimeSeconds
    ensures e.name == c.contestName && e.rank == c.rank
    ensures StrTruthy(c.oid) ==> e.id == c.oid.value
    ensures !StrTruthy(c.oid) ==> e.id == Text.IntToString(c.contestId)
  {
    Entry(StrOr(c.oid, Text.IntToString(c.contestId)), c.contestName, c.ratingUpdateTimeSeconds,
          c.rank, c.newRating - c.oldRating, c.newRating)
  }

  function ToEntries(cs: seq<Contest>): (es: seq<Entry>)
    ensures |es| == |cs|
    ensures forall i :: 0 <= i < |cs| ==> es[i] == ToEntry(cs[i])
  {
    seq(|cs|, i requires 0 <= i < |cs| => ToEntry(cs[i]))
  }

  /** Entries dated at or after `cutoffMs` (milliseconds). */
  function Since(cutoffMs: int): Entry -> bool {
    (e: Entry) => e.time * 1000 >= cutoffMs
  }

  /** Entries whose time is exactly `t`. */
  function TimeIs(t: int): Entry -> bool {
    (e: Entry) => e.time == t
  }

  /** Most recent first. */
  predicate SortedDesc(es: seq<Entry>) {
    forall i, j :: 0 <= i < j < |es| ==> es[i].time >= es[j].time
  }

  /** Places `x` before the first entry that is not more recent than it. */
  function Insert(x: Entry, es: seq<Entry>): (r: seq<Entry>)
    ensures |r| == |es| + 1
    ensures multiset(r) == multiset(es) + multiset{x}
  {
    if |es| == 0 || x.time >= es[0].time then [x] + es
    else
      assert es == [es[0]] + es[1..];
      [es[0]] + Insert(x, es[1..])
  }

  /** Inserting below a bound keeps every time below it. */
  lemma {:induction false} InsertBounded(x: Entry, es: seq<Entry>, t: int)
    requires x.time <= t
    requires forall i :: 0 <= i < |es| ==> es[i].time <= t
    ensures forall i :: 0 <= i < |Insert(x, es)| ==> Insert(x, es)[i].time <= t
  {
    if |es| > 0 && x.time < es[0].time {
      InsertBounded(x, es[1..], t);
    }
  }

  /** Inserting into a most-recent-first list keeps it most recent first. */
  lemma {:induction false} InsertSorted(x: Entry, es: seq<Entry>)
    requires SortedDesc(es)
    ensures SortedDesc(Insert(x, es))
  {
    if |es| > 0 && x.time < es[0].time {
      var rest := Insert(x, es[1..]);
      InsertSorted(x, es[1..]);
      InsertBounded(x, es[1..], es[0].time);
      var r := [es[0]] + rest;
      assert r == Insert(x, es);
      forall i, j | 0 <= i < j < |r| ensures r[i].time >= r[j].time {
        if i == 0 {
          assert r[j] == rest[j - 1];
        } else {
          assert r[i] == rest[i - 1] && r[j] == rest[j - 1];
        }
      }
    }
  }

  /** The stable sort with comparator `b.time - a.time` (insertion sort). */
  function SortDesc(es: seq<Entry>): (r: seq<Entry>)
    ensures multiset(r) == multiset(es)
    ensures SortedDesc(r)
  {
    if |es| == 0 then []
    else
      assert es == [es[0]] + es[1..];
      var rest := SortDesc(es[1..]);
      InsertSorted(es[0], rest);
      Insert(es[0], rest)
  }

  /** Inserting `x` adds it at the front of its own time group and leaves every group
      otherwise in order. */
  lemma {:induction false} InsertGroup(x: Entry, es: seq<Entry>, t: int)
    ensures Seqs.Filter(TimeIs(t), Insert(x, es)) ==
      (if x.time == t then [x] else []) + Seqs.Filter(TimeIs(t), es)
  {
    var p := TimeIs(t);
    if |es| == 0 || x.time >= es[0].time {
      assert ([x] + es)[1..] == es;
    } else {
      InsertGroup(x, es[1..], t);
      var rest := Insert(x, es[1..]);
      assert ([es[0]] + rest)[1..] == rest;
    }
  }

  /** The sort is stable: within every time group the entries keep their input order. */
  lemma {:induction false} SortStable(es: seq<Entry>, t: int)
    ensures Seqs.Filter(TimeIs(t), SortDesc(es)) == Seqs.Filter(TimeIs(t), es)
  {
    if |es| > 0 {
      SortStable(es[1..], t);
      InsertGroup(es[0], SortDesc(es[1..]), t);
    }
  }

  /** `fetchContestHistory`: transform, keep the contests since `cutoffMs`, most recent first. */
  function ContestHistory(cs: seq<Contest>, cutoffMs: int): (r: seq<Entry>)
    ensures SortedDesc(r)
    ensures multiset(r) == multiset(Seqs.Filter(Since(cutoffMs), ToEntries(cs)))
    ensures forall e :: e in r <==> e in ToEntries(cs) && e.time * 1000 >= cutoffMs
  {
    var kept := Seqs.Filter(Since(cutoffMs), ToEntries(cs));
    var r := SortDesc(kept);
    assert forall e :: e in r <==> e in kept by {
      forall e ensures e in r <==> e in kept {
        assert e in r <==> e in multiset(r);
      }
    }
    assert forall e :: e in kept <==> e in ToEntries(cs) && e.time * 1000 >= cutoffMs by {
      forall e ensures e in kept <==> e in ToEntries(cs) && e.time * 1000 >= cutoffMs {
        Seqs.FilterMembership(Since(cutoffMs), ToEntries(cs), e);
      }
    }
    r
  }

  /** Contests with the same update time stay in their stored order. */
  lemma ContestHistoryStable(cs: seq<Contest>, cutoffMs: int, t: int)
    ensures Seqs.Filter(TimeIs(t), ContestHistory(cs, cutoffMs)) ==
      Seqs.Filter(TimeIs(t), Seqs.Filter(Since(cutoffMs), ToEntries(cs)))
  {
    SortStable(Seqs.Filter(Since(cutoffMs), ToEntries(cs)), t);
  }

  /** The chart shows names of at most 30 characters, cutting longer ones to 30 plus "...". */
  function ChartName(name: string): (r: string)
    ensures |r| <= 33
    ensures |name| <= 30 ==> r == name
    ensures |name| > 30 ==> |r| == 33 && r[..30] == name[..30] && r[30..] == "..."
  {
    if |name| > 30 then name[..30] + "..." else name
  }

  /** Cutting is idempotent: a cut name is cut to itself. */
  lemma ChartNameIdempotent(name: string)
    ensures ChartName(ChartName(name)) == ChartName(name)
  {
    if |name| > 30 {
      var r := ChartName(name);
      assert r[..30] == name[..30];
    }
  }

  /** One point of the rating chart. */
  datatype Point = Point(time: int, rating: int, change: int, contestName: string, rank: int, color: string)

  function ToPoint(e: Entry): Point {
    Point(e.time, e.newRating, e.ratingChange, ChartName(e.name), e.rank, RatingColor.RatingColor(e.newRating))
  }

  /** The chart series: the entries reversed, oldest first. */
  function ChartData(es: seq<Entry>): (ps: seq<Point>)
    ensures |ps| == |es|
    ensures forall i :: 0 <= i < |es| ==> ps[i] == ToPoint(es[|es| - 1 - i])
  {
    seq(|es|, i requires 0 <= i < |es| => ToPoint(es[|es| - 1 - i]))
  }

  /** The chart of a most-recent-first list runs in chronological order. */
  lemma ChartAscending(es: seq<Entry>)
    requires SortedDesc(es)
    ensures var ps := ChartData(es); forall i, j :: 0 <= i < j < |ps| ==> ps[i].time <= ps[j].time
  {
  }

  /** The summary above the chart. */
  datatype RatingSummary = RatingSummary(current: int, highest: int, lowest: int, totalChange: int)

  function NewRatings(es: seq<Entry>): (rs: seq<int>)
    ensures |rs| == |es|
    ensures forall i :: 0 <= i < |es| ==> rs[i] == es[i].newRating
  {
    seq(|es|, i requires 0 <= i < |es| => es[i].newRating)
  }

  /** `ratingStats` of a most-recent-first list: absent for an empty list; otherwise the
      newest rating, the extreme ratings reached, and the change from the oldest contest's
      old rating to the newest contest's new rating. */
  function RatingStats(es: seq<Entry>): (r: Option<RatingSummary>)
    ensures r.None? <==> |es| == 0
    ensures r.Some? ==> r.value.current == es[0].newRating
    ensures r.Some? ==> forall i :: 0 <= i < |es| ==> r.value.lowest <= es[i].newRating <= r.value.highest
    ensures r.Some? ==> exists i :: 0 <= i < |es| && es[i].newRating == r.value.highest
    ensures r.Some? ==> exists i :: 0 <= i < |es| && es[i].newRating == r.value.lowest
    ensures r.Some? ==> r.value.totalChange == es[0].newRating - OldRating(es[|es| - 1])
  {
    if |es| == 0 then None
    else
      var rs := NewRatings(es);
      var last := es[|es| - 1];
      Some(RatingSummary(
        NumOr(Some(es[0].newRating), 0),
        Seqs.Max(rs),
        Seqs.Min(rs),
        es[0].newRating - (last.newRating - last.ratingChange)))
  }

  /** Consecutive contests chain: each contest starts from the rating the previous one
      (the next in the most-recent-first list) ended at. */
  predicate Chained(es: seq<Entry>) {
    forall i :: 0 <= i < |es| - 1 ==> OldRating(es[i]) == es[i + 1].newRating
  }

  function ChangeSum(es: seq<Entry>): int {
    if |es| == 0 then 0 else es[0].ratingChange + ChangeSum(es[1..])
  }

  /** For a chained history the total change is the sum of the per-contest changes. */
  lemma {:induction false} TotalChangeTelescopes(es: seq<Entry>)
    requires |es| > 0 && Chained(es)
    ensures RatingStats(es).value.totalChange == ChangeSum(es)
  {
    if |es| > 1 {
      TotalChangeTelescopes(es[1..]);
    }
  }
}
