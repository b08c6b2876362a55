/** The records the judge service returns, reduced to the fields the system reads.
    Times are integer seconds since the epoch, as the judge reports them. */
module Codeforces {
  import opened Wrappers

  /** A problem descriptor; `rating` is absent for unrated problems. */
  datatype Problem = Problem(contestId: int, index: string, name: string, rating: Option<int>)

  /** One submission; `verdict` is "OK" for an accepted one. */
  datatype Submission = Submission(
    id: int,
    contestId: int,
    creationTimeSeconds: int,
    problem: Problem,
    verdict: string)

  /** An accepted submission. */
  predicate Accepted(s: Submission) {
    s.verdict == "OK"
  }

  /** One rated contest; `oid` is the subdocument identifier the store assigns (`_id`). */
  datatype Contest = Contest(
    contestId: int,
    contestName: string,
    handle: string,
    rank: int,
    ratingUpdateTimeSeconds: int,
    oldRating: int,
    newRating: int,
    oid: Option<string>)

  /** The profile fields read from the user lookup; unrated users have no ratings. */
  datatype User = User(rating: Option<int>, maxRating: Option<int>)

  /** What one fetch returns; any part may be undefined. */
  datatype Bundle = Bundle(
    user: Option<User>,
    contests: Option<seq<Contest>>,
    submissions: Option<seq<Submission>>)

  /** The judge lookup for a handle: `None` when the fetch throws. */
  type Fetch = string -> Option<Bundle>
}
