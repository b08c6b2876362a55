/** The students table: the case-insensitive search filter and what the table shows. */
module StudentTable {
  import opened Wrappers
  import opened ClientTypes
  import Seqs
  import Text

  /** A row matches when the lower-cased term occurs in its lower-cased name, email or handle. */
  predicate Matches(r: Row, term: string) {
    var t := Text.Lower(term);
    Text.Includes(Text.Lower(r.name), t)
      || Text.Includes(Text.Lower(r.email), t)
      || Text.Includes(Text.Lower(r.handle), t)
  }

  function MatchesTerm(term: string): Row -> bool {
    (r: Row) => Matches(r, term)
  }

  /** `filteredStudents`. */
  function FilterStudents(rows: seq<Row>, term: string): (r: seq<Row>)
    ensures |r| <= |rows|
    ensures forall x :: x in r ==> x in rows
  {
    Seqs.Filter(MatchesTerm(term), rows)
  }

  /** A row is shown exactly when it is in the list and the term occurs, ignoring ASCII case,
      in one of its name, email or handle. */
  lemma FilterStudentsMembers(rows: seq<Row>, term: string, x: Row)
    ensures x in FilterStudents(rows, term) <==>
      x in rows
      && (Text.Occurs(Text.Lower(x.name), Text.Lower(term))
          || Text.Occurs(Text.Lower(x.email), Text.Lower(term))
          || Text.Occurs(Text.Lower(x.handle), Text.Lower(term)))
  {
    Seqs.FilterMembership(MatchesTerm(term), rows, x);
    Text.IncludesIffOccurs(Text.Lower(x.name), Text.Lower(term));
    Text.IncludesIffOccurs(Text.Lower(x.email), Text.Lower(term));
    Text.IncludesIffOccurs(Text.Lower(x.handle), Text.Lower(term));
  }

  /** The shown rows keep the list's order. */
  lemma FilterStudentsOrdered(rows: seq<Row>, term: string)
    ensures Seqs.IsSubsequence(FilterStudents(rows, term), rows)
  {
    Seqs.FilterIsSubsequence(MatchesTerm(term), rows);
  }

  /** An empty search box shows every row. */
  lemma EmptyTermShowsAll(rows: seq<Row>)
    ensures FilterStudents(rows, "") == rows
  {
    forall i | 0 <= i < |rows| ensures Matches(rows[i], "") {
      Text.IncludesEmpty(Text.Lower(rows[i].name));
    }
    Seqs.FilterKeepsAll(MatchesTerm(""), rows);
  }

  /** Lower-casing twice is lower-casing once. */
  lemma LowerIdempotent(s: string)
    ensures Text.Lower(Text.Lower(s)) == Text.Lower(s)
  {
  }

  /** The search ignores the case of the term. */
  lemma SearchIgnoresTermCase(rows: seq<Row>, term: string)
    ensures FilterStudents(rows, Text.Lower(term)) == FilterStudents(rows, term)
  {
    LowerIdempotent(term);
    Seqs.FilterCongruent(MatchesTerm(Text.Lower(term)), MatchesTerm(term), rows);
  }

  /** Rows differing only outside name, email and handle are shown or hidden together. */
  lemma SearchLooksOnlyAtNameEmailHandle(a: Row, b: Row, term: string)
    requires a.name == b.name && a.email == b.email && a.handle == b.handle
    ensures Matches(a, term) == Matches(b, term)
  {
  }

  /** A term that occurs in `hay` occurs there with any prefix of it. */
  lemma {:induction false} OccursPrefix(hay: string, t1: string, t2: string)
    requires |t1| <= |t2| && t2[..|t1|] == t1
    requires Text.Occurs(hay, t2)
    ensures Text.Occurs(hay, t1)
  {
    var i :| Text.OccursAt(hay, t2, i);
    assert hay[i..i + |t1|] == hay[i..i + |t2|][..|t1|];
    assert Text.OccursAt(hay, t1, i);
  }

  /** Typing more characters only narrows the list: every row shown for a term is shown for
      each of its prefixes. */
  lemma TypingNarrows(rows: seq<Row>, t1: string, t2: string, x: Row)
    requires |t1| <= |t2| && t2[..|t1|] == t1
    requires x in FilterStudents(rows, t2)
    ensures x in FilterStudents(rows, t1)
  {
    var l1, l2 := Text.Lower(t1), Text.Lower(t2);
    assert l2[..|l1|] == l1;
    FilterStudentsMembers(rows, t2, x);
    FilterStudentsMembers(rows, t1, x);
    if Text.Occurs(Text.Lower(x.name), l2) {
      OccursPrefix(Text.Lower(x.name), l1, l2);
    } else if Text.Occurs(Text.Lower(x.email), l2) {
      OccursPrefix(Text.Lower(x.email), l1, l2);
    } else {
      OccursPrefix(Text.Lower(x.handle), l1, l2);
    }
  }

  const NoMatchMessage := "No students found matching your search."
  const NoStudentsMessage := "No students added yet."

  /** What the table renders once loaded. */
  datatype View = View(total: nat, shown: seq<Row>, emptyNote: Option<string>)

  /** The title counts every student, the body lists the matching ones, and an empty body
      explains itself: a non-empty term means nothing matched. */
  function TableView(rows: seq<Row>, term: string): (v: View)
    ensures v.total == |rows| && v.shown == FilterStudents(rows, term)
    ensures v.emptyNote.Some? <==> |v.shown| == 0
    ensures v.emptyNote == Some(NoStudentsMessage) ==> |term| == 0 && |rows| == 0
    ensures |term| == 0 && |rows| == 0 ==> v.emptyNote == Some(NoStudentsMessage)
    ensures |term| > 0 && |v.shown| == 0 ==> v.emptyNote == Some(NoMatchMessage)
  {
    var shown := FilterStudents(rows, term);
    if |shown| == 0 && |term| == 0 then EmptyTermShowsAll(rows); View(|rows|, shown, Some(NoStudentsMessage))
    else if |shown| == 0 then View(|rows|, shown, Some(NoMatchMessage))
    else View(|rows|, shown, None)
  }

  /** The status column and the reminder badge. */
  function StatusLabel(r: Row): (l: string)
    ensures l == "Active" <==> r.isActive
    ensures l == "Active" || l == "Inactive"
  {
    if r.isActive then "Active" else "Inactive"
  }

  function ReminderBadge(r: Row): (b: Option<int>)
    ensures b.Some? <==> r.reminderCount > 0
    ensures b.Some? ==> b.value == r.reminderCount
  {
    if r.reminderCount > 0 then Some(r.reminderCount) else None
  }
}
