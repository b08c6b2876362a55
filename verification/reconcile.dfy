/** The reconciliation rules shared by the add, edit and sync paths: the rating fallbacks
    and the seven-day activity test. The paths differ in WHEN they apply the activity
    test; that difference lives with each path. */
module Reconcile {
  import opened Wrappers
  import opened Codeforces
  import opened Js
  import Seqs

  /** One day in milliseconds. */
  const DayMillis: int := 24 * 60 * 60 * 1000

  /** The inactivity window, fixed at seven days in the controllers. */
  const WindowMillis: int := 7 * DayMillis

  /** A submission counts as recent when its creation time, in milliseconds, is strictly
      after `now` minus seven days; there is no upper bound. */
  predicate IsRecent(s: Submission, now: int) {
    s.creationTimeSeconds * 1000 > now - WindowMillis
  }

  /** The recent submissions, in order. */
  function RecentSubmissions(subs: seq<Submission>, now: int): seq<Submission> {
    Seqs.Filter((s: Submission) => IsRecent(s, now), subs)
  }

  /** The activity test: some submission is recent. */
  predicate WasActive(subs: seq<Submission>, now: int) {
    |RecentSubmissions(subs, now)| > 0
  }

  /** The activity test holds exactly when some submission lies inside the window. */
  lemma WasActiveIff(subs: seq<Submission>, now: int)
    ensures WasActive(subs, now) <==> exists i :: 0 <= i < |subs| && IsRecent(subs[i], now)
  {
    var f := (s: Submission) => IsRecent(s, now);
    var r := RecentSubmissions(subs, now);
    if WasActive(subs, now) {
      assert r[0] in r;
      Seqs.FilterMembership(f, subs, r[0]);
    }
    if exists i :: 0 <= i < |subs| && IsRecent(subs[i], now) {
      var i :| 0 <= i < |subs| && IsRecent(subs[i], now);
      Seqs.FilterMembership(f, subs, subs[i]);
    }
  }

  /** The window is open at its lower end and unbounded above: a submission exactly seven
      days old is not recent, one stamped in the future is. */
  lemma WindowEdges(s: Submission, now: int)
    ensures s.creationTimeSeconds * 1000 == now - WindowMillis ==> !IsRecent(s, now)
    ensures s.creationTimeSeconds * 1000 > now ==> IsRecent(s, now)
    ensures !WasActive([], now)
  {
  }

  datatype Ratings = Ratings(current: int, max: int)

  /** `rating || 0` and `maxRating || rating || 0`: a rating of 0 counts as absent. */
  function RatingsFrom(u: User): (r: Ratings)
    ensures r.current == 0 <==> !NumTruthy(u.rating)
    ensures r.current != 0 ==> u.rating == Some(r.current)
    ensures NumTruthy(u.maxRating) ==> u.maxRating == Some(r.max)
    ensures !NumTruthy(u.maxRating) ==> r.max == r.current
    ensures r.max != 0 ==> u.maxRating == Some(r.max) || u.rating == Some(r.max)
  {
    Ratings(NumOr(u.rating, 0), NumOr(u.maxRating, NumOr(u.rating, 0)))
  }

  /** The fallbacks on concrete profiles: nothing gives 0/0, a rating of 1500 alone gives
      1500/1500, and a maximum of 0 is skipped in favour of the rating. */
  lemma RatingsExamples()
    ensures RatingsFrom(User(None, None)) == Ratings(0, 0)
    ensures RatingsFrom(User(Some(1500), None)) == Ratings(1500, 1500)
    ensures RatingsFrom(User(Some(1500), Some(0))) == Ratings(1500, 1500)
    ensures RatingsFrom(User(Some(0), Some(1700))) == Ratings(0, 1700)
  {
  }
}
