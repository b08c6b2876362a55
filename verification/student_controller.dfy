/** The student request handlers: edit (re-fetch only on a handle change), add (always
    fetch), and delete. The judge is the oracle `fetch`, the database the store map, and
    each handler yields its reply together with the store after the request. */
module StudentController {
  import opened Wrappers
  import opened Codeforces
  import opened Js
  import opened Schema
  import opened Reconcile

  /** The reply sent to the client, by HTTP status. `NoReply`: the handler's promise rejects
      before any response is written, and, as Express 4 does, no error handler answers it. */
  datatype Reply =
    | Ok(student: Student)          // 200
    | Created(student: Student)     // 201
    | Done(message: string)         // 200 with a message only
    | BadRequest(message: string)   // 400
    | NotFound(message: string)     // 404
    | InternalError(message: string) // 500
    | NoReply

  const EditRequiredMessage := "Name, email, and Codeforces handle are required"
  const AddRequiredMessage := "All fields are required"
  const NotFoundMessage := "Student not found"
  const UnknownHandleMessage := "Invalid Codeforces handle or user not found"
  const FetchFailedMessage := "Failed to fetch Codeforces data. Please check the handle."
  const InternalMessage := "Internal server error"
  const DeletedMessage := "Student deleted successfully"

  /** The body of an edit request; every field may be missing. */
  datatype EditRequest = EditRequest(
    id: string,
    name: Option<string>,
    email: Option<string>,
    phone: Option<string>,
    handle: Option<string>,
    emailRemindersEnabled: Option<bool>,
    isActive: Option<bool>)

  /** Name, email and handle present and non-empty; the phone is optional on edit. */
  predicate EditFieldsPresent(req: EditRequest) {
    StrTruthy(req.name) && StrTruthy(req.email) && StrTruthy(req.handle)
  }

  /** The activity flag an edit with a changed handle stores: recomputed only when the
      fetched submission list is non-empty, otherwise the request's value stands. */
  function EditActivity(requested: bool, subs: Option<seq<Submission>>, now: int): (a: bool)
    ensures subs.None? || subs.value == [] ==> a == requested
    ensures subs.Some? && subs.value != [] ==> (a <==> exists i :: 0 <= i < |subs.value| && IsRecent(subs.value[i], now))
  {
    if subs.Some? && |subs.value| > 0 then
      WasActiveIff(subs.value, now);
      WasActive(subs.value, now)
    else requested
  }

  /** The record an edit writes, or the message of the 400 reply when the handle changed
      and the fetch failed or found no user. */
  function EditedRecord(existing: Student, req: EditRequest, fetch: Fetch, now: int): (r: Result<Student, string>)
    requires EditFieldsPresent(req)
    // a record is produced exactly when the handle is unchanged or the fetch found a user
    ensures r.Success? <==>
      existing.handle == req.handle.value
      || (fetch(req.handle.value).Some? && fetch(req.handle.value).value.user.Some?)
  {
    var handle := req.handle.value;
    var base := existing.(
      name := req.name.value,
      email := req.email.value,
      phone := Some(StrOr(req.phone, "")),
      handle := handle,
      emailRemindersEnabled := req.emailRemindersEnabled.GetOr(true),
      isActive := req.isActive.GetOr(true),
      lastUpdated := now);
    if existing.handle == handle then Success(base)
    else
      match fetch(handle)
      case None => Failure(FetchFailedMessage)
      case Some(b) =>
        if b.user.None? then Failure(UnknownHandleMessage)
        else
          var ratings := RatingsFrom(b.user.value);
          var subs := b.submissions.GetOr([]);
          Success(base.(
            currentRating := ratings.current,
            maxRating := ratings.max,
            data := Snapshot(b.contests.GetOr([]), subs, now),
            isActive := EditActivity(base.isActive, b.submissions, now)))
  }

  /** `editStudent`. */
  function EditStudent(store: Store, req: EditRequest, fetch: Fetch, now: int): (r: (Reply, Store))
    // validation: a missing or empty name, email or handle is a 400 and nothing is written
    ensures !EditFieldsPresent(req) ==> r == (BadRequest(EditRequiredMessage), store)
    // an unknown id is a 404 and nothing is written
    ensures EditFieldsPresent(req) && req.id !in store ==> r == (NotFound(NotFoundMessage), store)
    // a changed handle whose fetch throws or finds no user is a 400 and nothing is written
    ensures EditFieldsPresent(req) && req.id in store && store[req.id].handle != req.handle.value ==>
      (fetch(req.handle.value).None? ==> r == (BadRequest(FetchFailedMessage), store)) &&
      (fetch(req.handle.value).Some? && fetch(req.handle.value).value.user.None? ==>
         r == (BadRequest(UnknownHandleMessage), store))
    // once the record is built, the save decides: success is a 200 with that record, a
    // rejected save (missing field or duplicate key) is a 500 that writes nothing
    ensures EditFieldsPresent(req) && req.id in store && EditedRecord(store[req.id], req, fetch, now).Success? ==>
      var s := EditedRecord(store[req.id], req, fetch, now).value;
      && (Save(store, req.id, s).Success? ==> r == (Ok(s), Save(store, req.id, s).value))
      && (Save(store, req.id, s).Failure? ==> r == (InternalError(InternalMessage), store))
    // only a 200 writes, and it writes exactly the returned record under the id
    ensures !r.0.Ok? ==> r.1 == store
    ensures r.0.Ok? ==> EditFieldsPresent(req) && req.id in store && r.1 == store[req.id := r.0.student]
    // the written record carries the request's identity fields and the edit time
    ensures r.0.Ok? ==>
      var s := r.0.student;
      && s.name == req.name.value && s.email == req.email.value && s.handle == req.handle.value
      && s.phone == Some(StrOr(req.phone, ""))
      && s.emailRemindersEnabled == req.emailRemindersEnabled.GetOr(true)
      && s.lastUpdated == now
      && s.reminderCount == store[req.id].reminderCount
    // same handle: ratings and snapshot copied verbatim, the request's activity flag stands
    ensures r.0.Ok? && store[req.id].handle == req.handle.value ==>
      var s := r.0.student;
      && s.currentRating == store[req.id].currentRating
      && s.maxRating == store[req.id].maxRating
      && s.data == store[req.id].data
      && s.isActive == req.isActive.GetOr(true)
    // changed handle: fallbacks, a wholesale snapshot replacement, and the guarded activity test
    ensures r.0.Ok? && store[req.id].handle != req.handle.value ==>
      var s := r.0.student;
      var b := fetch(req.handle.value);
      && b.Some? && b.value.user.Some?
      && s.currentRating == RatingsFrom(b.value.user.value).current
      && s.maxRating == RatingsFrom(b.value.user.value).max
      && s.data == Snapshot(b.value.contests.GetOr([]), b.value.submissions.GetOr([]), now)
      && s.isActive == EditActivity(req.isActive.GetOr(true), b.value.submissions, now)
    // the unique indexes and required fields survive
    ensures Valid(store) ==> Valid(r.1)
  {
    if !EditFieldsPresent(req) then (BadRequest(EditRequiredMessage), store)
    else if req.id !in store then (NotFound(NotFoundMessage), store)
    else
      match EditedRecord(store[req.id], req, fetch, now)
      case Failure(message) => (BadRequest(message), store)
      case Success(s) =>
        match Save(store, req.id, s)
        case Failure(_) => (InternalError(InternalMessage), store)
        case Success(written) => (Ok(s), written)
  }

  /** An edit that keeps the handle never consults the judge: any two oracles give the same
      reply and the same store. */
  lemma EditSameHandleIgnoresFetch(store: Store, req: EditRequest, f1: Fetch, f2: Fetch, now: int)
    requires EditFieldsPresent(req) && req.id in store && store[req.id].handle == req.handle.value
    ensures EditStudent(store, req, f1, now) == EditStudent(store, req, f2, now)
  {
  }

  /** The body of an add request. */
  datatype AddRequest = AddRequest(
    name: Option<string>,
    email: Option<string>,
    phone: Option<string>,
    handle: Option<string>,
    emailRemindersEnabled: Option<bool>,
    isActive: Option<bool>)

  /** Add demands the phone as well. */
  predicate AddFieldsPresent(req: AddRequest) {
    StrTruthy(req.name) && StrTruthy(req.email) && StrTruthy(req.phone) && StrTruthy(req.handle)
  }

  /** The document an add creates from a fetched bundle with a user and a submission list:
      the request's identity, the rating fallbacks, the fetched snapshot, an unconditional
      activity test, and the schema defaults for the rest. */
  function AddedRecord(req: AddRequest, b: Bundle, now: int): Student
    requires AddFieldsPresent(req) && b.user.Some? && b.submissions.Some?
  {
    var ratings := RatingsFrom(b.user.value);
    var subs := b.submissions.value;
    Create(
      Draft(req.name.value, req.email.value, req.phone, req.handle.value,
            Some(ratings.current), Some(ratings.max), Some(now),
            req.emailRemindersEnabled, None, Some(WasActive(subs, now)),
            Some(SnapshotDraft(b.contests, Some(subs), Some(now)))),
      now)
  }

  /** `addStudent`; `newId` is the fresh identifier the database assigns. */
  function AddStudent(store: Store, req: AddRequest, fetch: Fetch, now: int, newId: string): (r: (Reply, Store))
    requires newId !in store
    ensures !AddFieldsPresent(req) ==> r == (BadRequest(AddRequiredMessage), store)
    // the fetch runs outside any try: a throw, a missing user or a missing submission list
    // rejects the handler before it replies (no reply under Express 4), and nothing is written
    ensures AddFieldsPresent(req) ==>
      var b := fetch(req.handle.value);
      (b.None? || b.value.user.None? || b.value.submissions.None?) ==> r == (NoReply, store)
    // with a complete bundle the save decides: success is a 201 with the new record, a
    // rejected save (duplicate email or handle) is a 500 that writes nothing
    ensures AddFieldsPresent(req) ==>
      var b := fetch(req.handle.value);
      b.Some? && b.value.user.Some? && b.value.submissions.Some? ==>
        var s := AddedRecord(req, b.value, now);
        && (Save(store, newId, s).Success? ==> r == (Created(s), Save(store, newId, s).value))
        && (Save(store, newId, s).Failure? ==> r == (InternalError(InternalMessage), store))
    ensures !r.0.Created? ==> r.1 == store
    ensures r.0.Created? ==> r.1 == store[newId := r.0.student]
    ensures r.0.Created? ==>
      var s := r.0.student;
      var b := fetch(req.handle.value);
      && AddFieldsPresent(req) && b.Some? && b.value.user.Some? && b.value.submissions.Some?
      && s.name == req.name.value && s.email == req.email.value
      && s.phone == req.phone && s.handle == req.handle.value
      && s.currentRating == RatingsFrom(b.value.user.value).current
      && s.maxRating == RatingsFrom(b.value.user.value).max
      && s.data == Snapshot(b.value.contests.GetOr([]), b.value.submissions.value, now)
      // always recomputed: an empty submission list gives false
      && (s.isActive <==> exists i :: 0 <= i < |s.data.submissions| && IsRecent(s.data.submissions[i], now))
      && s.lastUpdated == now
      && s.reminderCount == 0
      && s.emailRemindersEnabled == req.emailRemindersEnabled.GetOr(true)
    ensures Valid(store) ==> Valid(r.1)
  {
    if !AddFieldsPresent(req) then (BadRequest(AddRequiredMessage), store)
    else
      match fetch(req.handle.value)
      case None => (NoReply, store)
      case Some(b) =>
        if b.user.None? || b.submissions.None? then (NoReply, store)
        else
          var s := AddedRecord(req, b, now);
          WasActiveIff(b.submissions.value, now);
          match Save(store, newId, s)
          case Failure(_) => (InternalError(InternalMessage), store)
          case Success(written) => (Created(s), written)
  }

  /** `deleteStudent`: a 404 for an unknown id, otherwise the record is gone. */
  function DeleteStudent(store: Store, id: string): (r: (Reply, Store))
    ensures id !in store ==> r.0 == NotFound(NotFoundMessage) && r.1 == store
    ensures id in store ==> r.0 == Done(DeletedMessage) && r.1.Keys == store.Keys - {id}
    ensures forall other :: other in r.1 ==> other != id && r.1[other] == store[other]
    ensures Valid(store) ==> Valid(r.1)
  {
    var (found, rest) := Delete(store, id);
    if found then (Done(DeletedMessage), rest)
    else
      assert rest == store;
      (NotFound(NotFoundMessage), store)
  }
}
