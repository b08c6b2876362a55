/** The persisted student document: its fields, the defaults the schema fills in on
    creation, the required fields, and the store as a map from document id to record
    that keeps email and handle unique. */
module Schema {
  import opened Wrappers
  import opened Codeforces

  /** The embedded judge snapshot; `lastSyncTime` is in milliseconds. */
  datatype Snapshot = Snapshot(contests: seq<Contest>, submissions: seq<Submission>, lastSyncTime: int)

  /** A student document. Timestamps are milliseconds since the epoch. */
  datatype Student = Student(
    name: string,
    email: string,
    phone: Option<string>,
    handle: string,
    currentRating: int,
    maxRating: int,
    lastUpdated: int,
    emailRemindersEnabled: bool,
    reminderCount: int,
    isActive: bool,
    data: Snapshot)

  /** The snapshot part of a document being created; undefined parts take defaults. */
  datatype SnapshotDraft = SnapshotDraft(
    contests: Option<seq<Contest>>,
    submissions: Option<seq<Submission>>,
    lastSyncTime: Option<int>)

  /** The fields handed to the document constructor; undefined fields take defaults. */
  datatype Draft = Draft(
    name: string,
    email: string,
    phone: Option<string>,
    handle: string,
    currentRating: Option<int>,
    maxRating: Option<int>,
    lastUpdated: Option<int>,
    emailRemindersEnabled: Option<bool>,
    reminderCount: Option<int>,
    isActive: Option<bool>,
    data: Option<SnapshotDraft>)

  /** The snapshot of a new document: arrays default to empty, the sync time to now. */
  function CreateSnapshot(d: Option<SnapshotDraft>, now: int): (s: Snapshot)
    ensures d.None? ==> s == Snapshot([], [], now)
    ensures d.Some? ==> s.contests == d.value.contests.GetOr([])
    ensures d.Some? ==> s.submissions == d.value.submissions.GetOr([])
    ensures d.Some? ==> s.lastSyncTime == d.value.lastSyncTime.GetOr(now)
  {
    match d
    case None => Snapshot([], [], now)
    case Some(sd) => Snapshot(sd.contests.GetOr([]), sd.submissions.GetOr([]), sd.lastSyncTime.GetOr(now))
  }

  /** A new document at time `now`: given fields are kept, undefined ones take the schema's
      defaults (ratings 0, reminder count 0, reminders on, active, stamped now). */
  function Create(d: Draft, now: int): (s: Student)
    ensures s.name == d.name && s.email == d.email && s.handle == d.handle && s.phone == d.phone
    ensures d.currentRating.None? ==> s.currentRating == 0
    ensures d.maxRating.None? ==> s.maxRating == 0
    ensures d.lastUpdated.None? ==> s.lastUpdated == now
    ensures d.emailRemindersEnabled.None? ==> s.emailRemindersEnabled
    ensures d.reminderCount.None? ==> s.reminderCount == 0
    ensures d.isActive.None? ==> s.isActive
    ensures d.data.None? ==> s.data.lastSyncTime == now && s.data.contests == [] && s.data.submissions == []
    ensures d.data.Some? ==> s.data == CreateSnapshot(d.data, now)
    ensures d.currentRating.Some? ==> s.currentRating == d.currentRating.value
    ensures d.maxRating.Some? ==> s.maxRating == d.maxRating.value
    ensures d.lastUpdated.Some? ==> s.lastUpdated == d.lastUpdated.value
    ensures d.emailRemindersEnabled.Some? ==> s.emailRemindersEnabled == d.emailRemindersEnabled.value
    ensures d.reminderCount.Some? ==> s.reminderCount == d.reminderCount.value
    ensures d.isActive.Some? ==> s.isActive == d.isActive.value
  {
    Student(
      d.name, d.email, d.phone, d.handle,
      d.currentRating.GetOr(0),
      d.maxRating.GetOr(0),
      d.lastUpdated.GetOr(now),
      d.emailRemindersEnabled.GetOr(true),
      d.reminderCount.GetOr(0),
      d.isActive.GetOr(true),
      CreateSnapshot(d.data, now))
  }

  /** The draft that spells out every field of `s`. */
  function FullDraft(s: Student): Draft {
    Draft(s.name, s.email, s.phone, s.handle, Some(s.currentRating), Some(s.maxRating),
          Some(s.lastUpdated), Some(s.emailRemindersEnabled), Some(s.reminderCount), Some(s.isActive),
          Some(SnapshotDraft(Some(s.data.contests), Some(s.data.submissions), Some(s.data.lastSyncTime))))
  }

  /** No default overrides a given value: a fully spelled-out draft is stored as given,
      whatever the creation time. */
  lemma CreateFullDraft(s: Student, now: int)
    ensures Create(FullDraft(s), now) == s
  {
  }

  /** The fields the schema marks required (a required string must not be empty). */
  predicate HasRequired(s: Student) {
    s.name != "" && s.email != "" && s.handle != ""
  }

  /** The store: document id to record. */
  type Store = map<string, Student>

  /** The two unique indexes: no two documents share an email or a handle. */
  ghost predicate Unique(store: Store) {
    forall a, b :: a in store && b in store && a != b ==>
      store[a].email != store[b].email && store[a].handle != store[b].handle
  }

  /** Every stored document satisfies the schema. */
  ghost predicate Valid(store: Store) {
    && Unique(store)
    && forall id :: id in store ==> HasRequired(store[id])
  }

  /** Some document other than `id` already holds the email or the handle of `s`. */
  predicate Clashes(store: Store, id: string, s: Student) {
    exists other :: other in store && other != id &&
      (store[other].email == s.email || store[other].handle == s.handle)
  }

  datatype SaveError = MissingRequired | DuplicateKey

  /** Writing `s` under `id` (an insert or a whole-document update): schema validation first,
      then the unique indexes. */
  function Save(store: Store, id: string, s: Student): (r: Result<Store, SaveError>)
    ensures r.Success? <==> HasRequired(s) && !Clashes(store, id, s)
    ensures r.Failure? && !HasRequired(s) ==> r.error == MissingRequired
    ensures r.Success? ==> r.value.Keys == store.Keys + {id} && r.value[id] == s
    ensures r.Success? ==> forall other :: other in store && other != id ==> r.value[other] == store[other]
    ensures r.Success? && Valid(store) ==> Valid(r.value)
  {
    if !HasRequired(s) then Failure(MissingRequired)
    else if Clashes(store, id, s) then Failure(DuplicateKey)
    else Success(store[id := s])
  }

  /** `findByIdAndDelete`: whether the id was present, and the store without it. */
  function Delete(store: Store, id: string): (r: (bool, Store))
    ensures r.0 <==> id in store
    ensures r.1.Keys == store.Keys - {id}
    ensures forall other :: other in r.1 ==> r.1[other] == store[other]
    ensures Valid(store) ==> Valid(r.1)
  {
    (id in store, map k | k in store && k != id :: store[k])
  }
}
