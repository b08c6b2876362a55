/** The sync pass: `updateStudentData` reconciles one student with a fresh fetch, and
    `syncAllStudentData` folds it over every student in store order, surviving failures. */
module SettingsController {
  import opened Wrappers
  import opened Codeforces
  import opened Schema
  import opened Reconcile
  import Seqs

  /** Why one student's update throws: the fetch itself, or a TypeError on an undefined
      `user` or `submissions` in what it returned. */
  datatype SyncError = FetchFailed | UserMissing | SubmissionsMissing

  /** `updateStudentData`: the reconciled record to save, or the error it rethrows. */
  function UpdateStudentData(s: Student, fetch: Fetch, now: int): (r: Result<Student, SyncError>)
    // the update succeeds exactly when the fetch returns a user and a submission list
    ensures r.Success? <==>
      fetch(s.handle).Some? && fetch(s.handle).value.user.Some? && fetch(s.handle).value.submissions.Some?
    ensures fetch(s.handle).None? ==> r == Failure(FetchFailed)
    ensures fetch(s.handle).Some? && fetch(s.handle).value.user.None? ==> r == Failure(UserMissing)
    ensures fetch(s.handle).Some? && fetch(s.handle).value.user.Some? && fetch(s.handle).value.submissions.None? ==>
      r == Failure(SubmissionsMissing)
    ensures r.Success? ==>
      var b := fetch(s.handle).value;
      var t := r.value;
      && b.user.Some? && b.submissions.Some?
      && t.currentRating == RatingsFrom(b.user.value).current
      && t.maxRating == RatingsFrom(b.user.value).max
      // the snapshot is replaced wholesale and stamped
      && t.data == Snapshot(b.contests.GetOr([]), b.submissions.value, now)
      // the activity test is unconditional: an empty list gives false
      && (t.isActive <==> exists i :: 0 <= i < |b.submissions.value| && IsRecent(b.submissions.value[i], now))
      && t.lastUpdated == now
      // nothing else changes
      && t.name == s.name && t.email == s.email && t.phone == s.phone && t.handle == s.handle
      && t.reminderCount == s.reminderCount && t.emailRemindersEnabled == s.emailRemindersEnabled
  {
    match fetch(s.handle)
    case None => Failure(FetchFailed)
    case Some(b) =>
      if b.user.None? then Failure(UserMissing)
      else if b.submissions.None? then Failure(SubmissionsMissing)
      else
        var ratings := RatingsFrom(b.user.value);
        var subs := b.submissions.value;
        WasActiveIff(subs, now);
        Success(s.(
          currentRating := ratings.current,
          maxRating := ratings.max,
          data := Snapshot(b.contests.GetOr([]), subs, now),
          isActive := WasActive(subs, now),
          lastUpdated := now))
  }

  /** `student.save()` after a refresh cannot fail the required or unique checks: the
      refresh keeps name, email and handle, which already passed them. */
  lemma RefreshedSaveSucceeds(store: Store, id: string, fetch: Fetch, now: int)
    requires Valid(store) && id in store
    requires UpdateStudentData(store[id], fetch, now).Success?
    ensures Save(store, id, UpdateStudentData(store[id], fetch, now).value).Success?
  {
  }

  /** What the pass leaves for one student: the reconciled record when the update
      succeeded, the untouched record when it threw. */
  function Synced(s: Student, fetch: Fetch, now: int): Student {
    match UpdateStudentData(s, fetch, now)
    case Success(t) => t
    case Failure(_) => s
  }

  /** The ids whose update throws. Whether it throws depends on the fetch alone, never on
      the time the update reads. */
  function FailsIn(store: Store, fetch: Fetch): string -> bool {
    id => id in store &&
      !(fetch(store[id].handle).Some? && fetch(store[id].handle).value.user.Some? &&
        fetch(store[id].handle).value.submissions.Some?)
  }

  predicate Distinct(order: seq<string>) {
    forall i, j :: 0 <= i < j < |order| ==> order[i] != order[j]
  }

  /** The loop over students: each is updated in turn; a failure is caught and the loop
      goes on. `nows[k]` is the instant the `k`-th visited student's update reads the clock.
      Returns the store and the ids whose update failed, in visiting order. */
  function SyncStudents(store: Store, order: seq<string>, fetch: Fetch, nows: seq<int>): (r: (Store, seq<string>))
    requires forall i :: 0 <= i < |order| ==> order[i] in store
    requires |nows| == |order|
    ensures r.0.Keys == store.Keys
    decreases |order|
  {
    if |order| == 0 then (store, [])
    else
      var id := order[0];
      match UpdateStudentData(store[id], fetch, nows[0])
      case Success(s) => SyncStudents(store[id := s], order[1..], fetch, nows[1..])
      case Failure(_) =>
        var rest := SyncStudents(store, order[1..], fetch, nows[1..]);
        (rest.0, [id] + rest.1)
  }

  /** Every visited student ends up reconciled at its own instant or untouched, according
      to its own fetch alone, whatever happened to the others; unvisited students are
      untouched; the failed ids are exactly the visited ones whose update throws, in order. */
  lemma {:induction false} SyncStudentsOutcome(store: Store, order: seq<string>, fetch: Fetch, nows: seq<int>)
    requires forall i :: 0 <= i < |order| ==> order[i] in store
    requires Distinct(order) && |nows| == |order|
    ensures forall i :: 0 <= i < |order| ==>
      SyncStudents(store, order, fetch, nows).0[order[i]] == Synced(store[order[i]], fetch, nows[i])
    ensures forall id :: id in store && id !in order ==> SyncStudents(store, order, fetch, nows).0[id] == store[id]
    ensures SyncStudents(store, order, fetch, nows).1 == Seqs.Filter(FailsIn(store, fetch), order)
    decreases |order|
  {
    if |order| > 0 {
      var id0, tail, rest := order[0], order[1..], nows[1..];
      assert Distinct(tail);
      assert id0 !in tail;
      var r := SyncStudents(store, order, fetch, nows);
      var store1 := if FailsIn(store, fetch)(id0) then store else store[id0 := Synced(store[id0], fetch, nows[0])];
      SyncStudentsOutcome(store1, tail, fetch, rest);
      assert r.0 == SyncStudents(store1, tail, fetch, rest).0;
      assert r.0[id0] == Synced(store[id0], fetch, nows[0]);
      forall i | 1 <= i < |order| ensures r.0[order[i]] == Synced(store[order[i]], fetch, nows[i]) {
        assert order[i] == tail[i - 1] && nows[i] == rest[i - 1];
      }
      Seqs.FilterCongruent(FailsIn(store1, fetch), FailsIn(store, fetch), tail);
    }
  }

  /** The store lists each of its ids exactly once. */
  predicate IsListing(order: seq<string>, store: Store) {
    && (forall i :: 0 <= i < |order| ==> order[i] in store)
    && (forall id :: id in store ==> id in order)
    && Distinct(order)
  }

  const SyncMessage := "Sync completed successfully"

  /** `syncAllStudentData` behind the `sync` handler. `listing` is what `Student.find()`
      returned, `None` when it threw; the outer catch swallows that, so the handler always
      answers with the success message. `nows` holds one clock reading per listed student. */
  function Sync(store: Store, listing: Option<seq<string>>, fetch: Fetch, nows: seq<int>): (r: (string, Store))
    requires listing.Some? ==> IsListing(listing.value, store) && |nows| == |listing.value|
    ensures r.0 == SyncMessage
    ensures r.1.Keys == store.Keys
    ensures listing.None? ==> r.1 == store
    ensures listing.Some? ==> forall i :: 0 <= i < |listing.value| ==>
      r.1[listing.value[i]] == Synced(store[listing.value[i]], fetch, nows[i])
    // the reminder branch is empty: reminder state never changes during a sync
    ensures forall id :: id in store ==>
      r.1[id].reminderCount == store[id].reminderCount &&
      r.1[id].emailRemindersEnabled == store[id].emailRemindersEnabled
  {
    match listing
    case None => (SyncMessage, store)
    case Some(order) =>
      SyncStudentsOutcome(store, order, fetch, nows);
      SyncKeepsIdentityAndReminders(store, order, fetch, nows);
      (SyncMessage, SyncStudents(store, order, fetch, nows).0)
  }

  /** The loop never touches a student's name, email, handle or reminder settings. */
  lemma SyncKeepsIdentityAndReminders(store: Store, order: seq<string>, fetch: Fetch, nows: seq<int>)
    requires IsListing(order, store) && |nows| == |order|
    ensures forall id :: id in store ==>
      var a := SyncStudents(store, order, fetch, nows).0[id];
      && a.name == store[id].name && a.email == store[id].email && a.handle == store[id].handle
      && a.reminderCount == store[id].reminderCount
      && a.emailRemindersEnabled == store[id].emailRemindersEnabled
  {
    SyncStudentsOutcome(store, order, fetch, nows);
    var after := SyncStudents(store, order, fetch, nows).0;
    forall id | id in store
      ensures after[id].name == store[id].name && after[id].email == store[id].email
      ensures after[id].handle == store[id].handle
      ensures after[id].reminderCount == store[id].reminderCount
      ensures after[id].emailRemindersEnabled == store[id].emailRemindersEnabled
    {
      var k :| 0 <= k < |order| && order[k] == id;
      assert after[id] == Synced(store[id], fetch, nows[k]);
    }
  }

  /** The pause after each successful update, in milliseconds. */
  const DelayMillis := 1000

  /** The clock as the loop reads it: never backwards, and at least `DelayMillis` later
      after a successful update, which is followed by the pause; a failed one skips it. */
  predicate PacedClock(store: Store, order: seq<string>, fetch: Fetch, nows: seq<int>)
    requires |nows| == |order|
  {
    forall i :: 0 <= i < |order| - 1 ==>
      nows[i + 1] >= nows[i] + (if FailsIn(store, fetch)(order[i]) then 0 else DelayMillis)
  }

  /** Under the paced clock, a reading after a successful update is at least a pause later. */
  lemma {:induction false} PacedAfterSuccess(store: Store, order: seq<string>, fetch: Fetch, nows: seq<int>, j: nat, k: nat)
    requires |nows| == |order| && PacedClock(store, order, fetch, nows)
    requires j < k < |order| && !FailsIn(store, fetch)(order[j])
    ensures nows[j] + DelayMillis <= nows[k]
    decreases k
  {
    if k > j + 1 {
      PacedAfterSuccess(store, order, fetch, nows, j, k - 1);
      assert nows[k] >= nows[k - 1];
    }
  }

  /** With the source's paced clock, of two students refreshed in one pass the later one is
      stamped at least a pause after the earlier one. */
  lemma SyncStampsInOrder(store: Store, order: seq<string>, fetch: Fetch, nows: seq<int>, j: nat, k: nat)
    requires IsListing(order, store) && |nows| == |order| && PacedClock(store, order, fetch, nows)
    requires j < k < |order|
    requires !FailsIn(store, fetch)(order[j]) && !FailsIn(store, fetch)(order[k])
    ensures var after := Sync(store, Some(order), fetch, nows).1;
      after[order[j]].lastUpdated + DelayMillis <= after[order[k]].lastUpdated
  {
    PacedAfterSuccess(store, order, fetch, nows, j, k);
  }

  /** One student's failure does not stop the pass: every other student is still
      reconciled according to its own fetch. */
  lemma SyncSurvivesFailure(store: Store, order: seq<string>, fetch: Fetch, nows: seq<int>, k: nat)
    requires IsListing(order, store) && |nows| == |order|
    requires k < |order| && FailsIn(store, fetch)(order[k])
    ensures var after := Sync(store, Some(order), fetch, nows).1;
      && after[order[k]] == store[order[k]]
      && forall j :: 0 <= j < |order| && j != k ==> after[order[j]] == Synced(store[order[j]], fetch, nows[j])
  {
  }

  /** A sync keeps the unique indexes and required fields: it never touches name, email
      or handle. */
  lemma SyncPreservesValid(store: Store, listing: Option<seq<string>>, fetch: Fetch, nows: seq<int>)
    requires listing.Some? ==> IsListing(listing.value, store) && |nows| == |listing.value|
    requires Valid(store)
    ensures Valid(Sync(store, listing, fetch, nows).1)
  {
    if listing.Some? {
      SyncKeepsIdentityAndReminders(store, listing.value, fetch, nows);
    }
  }
}
