/** The student record as the client holds it in its list. */
module ClientTypes {
  import opened Wrappers

  /** `oid` is the database id (`_id`), absent on a row the client built itself; `localId`
      is the client-side `id`. `lastUpdated` is carried as the text it prints as. */
  datatype Row = Row(
    oid: Option<string>,
    localId: Option<string>,
    name: string,
    email: string,
    phone: Option<string>,
    handle: string,
    currentRating: int,
    maxRating: int,
    lastUpdated: string,
    emailRemindersEnabled: bool,
    reminderCount: int,
    isActive: bool)
}
