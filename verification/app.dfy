/** The page's list operations (`handleAddStudent`, `handleEditStudent`,
    `handleDeleteStudent`) and the CSV export (`downloadCSV`). */
module App {
  import opened Wrappers
  import opened ClientTypes
  import Seqs
  import Text

  /** `handleAddStudent`: the created student goes to the end of the list with a client id
      made from the clock, the current time as last update and no reminders. */
  function AddRow(rows: seq<Row>, created: Row, nowMs: nat, nowText: string): (r: seq<Row>)
    ensures |r| == |rows| + 1 && r[..|rows|] == rows
    ensures var n := r[|rows|];
      && n.localId == Some(Text.NatToString(nowMs))
      && n.lastUpdated == nowText
      && n.reminderCount == 0
      && n.oid == created.oid && n.name == created.name && n.email == created.email
      && n.phone == created.phone && n.handle == created.handle
      && n.currentRating == created.currentRating && n.maxRating == created.maxRating
      && n.emailRemindersEnabled == created.emailRemindersEnabled && n.isActive == created.isActive
  {
    rows + [created.(localId := Some(Text.NatToString(nowMs)), lastUpdated := nowText, reminderCount := 0)]
  }

  /** `handleEditStudent`: every row whose database id equals the updated row's is replaced.
      Two absent ids compare equal, as `undefined == undefined` does. */
  function EditRow(rows: seq<Row>, updated: Row): (r: seq<Row>)
    ensures |r| == |rows|
    ensures forall i :: 0 <= i < |rows| ==>
      r[i] == (if rows[i].oid == updated.oid then updated else rows[i])
  {
    seq(|rows|, i requires 0 <= i < |rows| => if rows[i].oid == updated.oid then updated else rows[i])
  }

  /** Saving the same edit twice changes nothing more. */
  lemma EditRowIdempotent(rows: seq<Row>, updated: Row)
    ensures EditRow(EditRow(rows, updated), updated) == EditRow(rows, updated)
  {
  }

  /** After an edit the updated row is shown wherever its id was, and nowhere else changed. */
  lemma EditRowEffect(rows: seq<Row>, updated: Row)
    ensures forall x :: x in EditRow(rows, updated) ==> x == updated || (x in rows && x.oid != updated.oid)
    ensures (exists i :: 0 <= i < |rows| && rows[i].oid == updated.oid) ==> updated in EditRow(rows, updated)
  {
    var r := EditRow(rows, updated);
    forall x | x in r ensures x == updated || (x in rows && x.oid != updated.oid) {
      var i :| 0 <= i < |r| && r[i] == x;
    }
  }

  /** `s._id !== studentId`. A row the client added this session has no database id, and
      the delete button of such a row passes an absent id, which equals every other absent
      id. */
  function KeepsOtherThan(id: Option<string>): Row -> bool {
    (r: Row) => r.oid != id
  }

  const DeletedToast := "Student deleted successfully"
  const DeleteFailedToast := "Failed to delete student. Please try again."

  /** The page state the delete handler changes. */
  datatype Page = Page(rows: seq<Row>, selected: Option<Row>)

  /** `if (selectedStudent?._id == studentId) setSelectedStudent(null)`. */
  function Unselect(selected: Option<Row>, id: Option<string>): Option<Row> {
    if selected.Some? && selected.value.oid == id then None else selected
  }

  /** `handleDeleteStudent`: when the server call succeeds the rows are filtered and the
      selection cleared inside the `try`; either way the same is then done again after the
      `catch`. The toast tells which happened. */
  function DeleteRow(p: Page, id: Option<string>, serverOk: bool): (r: (Page, string))
    ensures forall x :: x in r.0.rows <==> x in p.rows && x.oid != id
    ensures Seqs.IsSubsequence(r.0.rows, p.rows)
    // every copy of a kept row survives, and none of a removed one
    ensures forall x :: multiset(r.0.rows)[x] == if x.oid != id then multiset(p.rows)[x] else 0
    ensures |r.0.rows| == Seqs.Count(KeepsOtherThan(id), p.rows)
    ensures r.0.selected == None <==> p.selected == None || p.selected.value.oid == id
    ensures r.0.selected.Some? ==> r.0.selected == p.selected
    ensures r.1 == (if serverOk then DeletedToast else DeleteFailedToast)
  {
    var f := KeepsOtherThan(id);
    var afterTry := if serverOk then Page(Seqs.Filter(f, p.rows), Unselect(p.selected, id)) else p;
    var afterAll := Page(Seqs.Filter(f, afterTry.rows), Unselect(afterTry.selected, id));
    Seqs.FilterIdempotent(f, p.rows);
    forall x ensures x in afterAll.rows <==> x in p.rows && x.oid != id {
      Seqs.FilterMembership(f, p.rows, x);
    }
    Seqs.FilterIsSubsequence(f, p.rows);
    forall x ensures multiset(afterAll.rows)[x] == if x.oid != id then multiset(p.rows)[x] else 0 {
      Seqs.FilterMultiplicity(f, p.rows, x);
    }
    (afterAll, if serverOk then DeletedToast else DeleteFailedToast)
  }

  /** The list and selection after a delete do not depend on whether the server call
      succeeded: the row disappears locally even when the server kept it. */
  lemma DeleteIgnoresServer(p: Page, id: Option<string>)
    ensures DeleteRow(p, id, true).0 == DeleteRow(p, id, false).0
  {
    Seqs.FilterIdempotent(KeepsOtherThan(id), p.rows);
  }

  /** Deleting a row that has no database id removes every row without one, and keeps
      exactly the rows that have one. */
  lemma DeleteUnsavedRemovesAllUnsaved(p: Page, serverOk: bool)
    ensures forall x :: x in DeleteRow(p, None, serverOk).0.rows <==> x in p.rows && x.oid.Some?
  {
  }

  /** The intended delete: the clicked row, and only it, leaves the list; the selection is
      cleared when it is that row. */
  function DeleteClicked(p: Page, k: nat): (r: Page)
    requires k < |p.rows|
    ensures |r.rows| == |p.rows| - 1
    ensures forall i :: 0 <= i < k ==> r.rows[i] == p.rows[i]
    ensures forall i :: k <= i < |r.rows| ==> r.rows[i] == p.rows[i + 1]
    ensures multiset(r.rows) + multiset{p.rows[k]} == multiset(p.rows)
    ensures r.selected == None <==> p.selected == None || p.selected == Some(p.rows[k])
  {
    assert p.rows == p.rows[..k] + [p.rows[k]] + p.rows[k + 1..];
    Page(p.rows[..k] + p.rows[k + 1..], if p.selected == Some(p.rows[k]) then None else p.selected)
  }

  /** For a row whose database id no other row shares, the handler removes exactly the
      clicked row. */
  lemma SavedDeleteIsIntended(p: Page, k: nat, serverOk: bool)
    requires k < |p.rows| && p.rows[k].oid.Some?
    requires forall j :: 0 <= j < |p.rows| && j != k ==> p.rows[j].oid != p.rows[k].oid
    ensures DeleteRow(p, p.rows[k].oid, serverOk).0.rows == DeleteClicked(p, k).rows
  {
    var id := p.rows[k].oid;
    var f := KeepsOtherThan(id);
    var a, b := p.rows[..k], p.rows[k + 1..];
    forall i | 0 <= i < |a| ensures f(a[i]) {
      assert a[i] == p.rows[i];
    }
    forall i | 0 <= i < |b| ensures f(b[i]) {
      assert b[i] == p.rows[k + 1 + i];
    }
    assert p.rows == a + ([p.rows[k]] + b);
    Seqs.FilterRemovesOne(f, a, p.rows[k], b);
    Seqs.FilterIdempotent(f, p.rows);
    assert DeleteRow(p, id, serverOk).0.rows == Seqs.Filter(f, p.rows);
  }

  /** A concrete case: two students added this session, neither with a database id;
      deleting the first removes both. */
  lemma UnsavedDeleteExample()
    ensures var a := Row(None, Some("1"), "A", "a@x", None, "ha", 0, 0, "", true, 0, true);
      var b := Row(None, Some("2"), "B", "b@x", None, "hb", 0, 0, "", true, 0, true);
      var p := Page([a, b], None);
      && DeleteRow(p, a.oid, true).0.rows == []
      && DeleteClicked(p, 0).rows == [b]
  {
    var a := Row(None, Some("1"), "A", "a@x", None, "ha", 0, 0, "", true, 0, true);
    var b := Row(None, Some("2"), "B", "b@x", None, "hb", 0, 0, "", true, 0, true);
    var p := Page([a, b], None);
    var r := DeleteRow(p, a.oid, true).0.rows;
    assert forall x :: x !in r;
  }

  const HeaderCells: seq<string> :=
    ["Name", "Email", "Phone", "CF Handle", "Current Rating", "Max Rating", "Last Updated"]

  const Header := Text.Join(HeaderCells, ',')

  /** The header is one line. */
  lemma HeaderIsOneLine()
    ensures '\n' !in Header
  {
    var h := HeaderCells;
    assert '\n' !in h[0] && '\n' !in h[1] && '\n' !in h[2] && '\n' !in h[3];
    assert '\n' !in h[4] && '\n' !in h[5] && '\n' !in h[6];
    JoinAvoids(h, ',', '\n');
  }

  /** The seven cells of a row; an absent phone joins as the empty string. */
  function CsvFields(r: Row): (fs: seq<string>)
    ensures |fs| == 7
  {
    [r.name, r.email, r.phone.GetOr(""), r.handle,
     Text.IntToString(r.currentRating), Text.IntToString(r.maxRating), r.lastUpdated]
  }

  function CsvLine(r: Row): string {
    Text.Join(CsvFields(r), ',')
  }

  function CsvLines(rows: seq<Row>): (ls: seq<string>)
    ensures |ls| == |rows|
    ensures forall i :: 0 <= i < |rows| ==> ls[i] == CsvLine(rows[i])
  {
    seq(|rows|, i requires 0 <= i < |rows| => CsvLine(rows[i]))
  }

  /** `csvContent`: the header, then one line per row, separated by line breaks. */
  function Csv(rows: seq<Row>): (s: string)
    ensures |s| >= |Header| && s[..|Header|] == Header
    ensures |rows| == 0 <==> s == Header
    ensures |rows| > 0 ==> s[|Header|] == '\n'
  {
    var ls := [Header] + CsvLines(rows);
    assert ls[1..] == CsvLines(rows);
    HeaderIsOneLine();
    if |rows| > 0 then
      assert Text.Join(ls, '\n') == Header + ['\n'] + Text.Join(CsvLines(rows), '\n');
      Text.Join(ls, '\n')
    else
      Text.Join(ls, '\n')
  }

  /** The text cells hold neither separator, so the CSV can be read back. */
  predicate Plain(r: Row) {
    && ',' !in r.name && '\n' !in r.name
    && ',' !in r.email && '\n' !in r.email
    && ',' !in r.phone.GetOr("") && '\n' !in r.phone.GetOr("")
    && ',' !in r.handle && '\n' !in r.handle
    && ',' !in r.lastUpdated && '\n' !in r.lastUpdated
  }

  lemma JoinAvoids(parts: seq<string>, sep: char, c: char)
    requires c != sep
    requires forall i :: 0 <= i < |parts| ==> c !in parts[i]
    ensures c !in Text.Join(parts, sep)
  {
    if |parts| > 1 {
      JoinAvoids(parts[1..], sep, c);
    }
  }

  /** No cell of a plain row holds either separator. */
  lemma PlainCells(r: Row)
    requires Plain(r)
    ensures forall i :: 0 <= i < 7 ==> ',' !in CsvFields(r)[i] && '\n' !in CsvFields(r)[i]
  {
    Text.IntToStringPlain(r.currentRating);
    Text.IntToStringPlain(r.maxRating);
    var fs := CsvFields(r);
    assert fs[4] == Text.IntToString(r.currentRating) && fs[5] == Text.IntToString(r.maxRating);
  }

  /** A plain row's line splits back into its seven cells. */
  lemma CsvLineRoundTrip(r: Row)
    requires Plain(r)
    ensures Text.Split(CsvLine(r), ',') == CsvFields(r)
    ensures '\n' !in CsvLine(r)
  {
    PlainCells(r);
    Text.SplitJoin(CsvFields(r), ',');
    JoinAvoids(CsvFields(r), ',', '\n');
  }

  /** Reading the export of plain rows back: one header line, then line `i` is row `i`'s
      seven cells. */
  lemma CsvRoundTrip(rows: seq<Row>)
    requires forall i :: 0 <= i < |rows| ==> Plain(rows[i])
    ensures var lines := Text.Split(Csv(rows), '\n');
      && |lines| == |rows| + 1
      && lines[0] == Header
      && forall i :: 0 <= i < |rows| ==> Text.Split(lines[i + 1], ',') == CsvFields(rows[i])
  {
    var ls := [Header] + CsvLines(rows);
    forall i | 0 <= i < |ls| ensures '\n' !in ls[i] {
      if i > 0 {
        CsvLineRoundTrip(rows[i - 1]);
      } else {
        HeaderIsOneLine();
      }
    }
    Text.SplitJoin(ls, '\n');
    forall i | 0 <= i < |rows| ensures Text.Split(ls[i + 1], ',') == CsvFields(rows[i]) {
      CsvLineRoundTrip(rows[i]);
    }
  }

  /** Joining with a part that already holds the separator is joining its two halves. */
  lemma JoinSplitsPart(a: string, b: string, rest: seq<string>, sep: char)
    requires |rest| >= 1
    ensures Text.Join([a + [sep] + b] + rest, sep) == Text.Join([a, b] + rest, sep)
  {
    assert ([a + [sep] + b] + rest)[1..] == rest;
    assert ([a, b] + rest)[1..] == [b] + rest;
    assert ([b] + rest)[1..] == rest;
  }

  /** Cells are not quoted: a name holding a comma reads back as two cells, shifting the
      other six one place to the right. */
  lemma CommaInNameShiftsCells(r: Row, a: string, b: string)
    requires r.name == a + [','] + b && ',' !in a && ',' !in b
    requires Plain(r.(name := a))
    ensures Text.Split(CsvLine(r), ',') == [a, b] + CsvFields(r)[1..]
    ensures |Text.Split(CsvLine(r), ',')| == 8
  {
    var rest := CsvFields(r)[1..];
    assert CsvFields(r) == [a + [','] + b] + rest;
    JoinSplitsPart(a, b, rest, ',');
    Text.IntToStringPlain(r.currentRating);
    Text.IntToStringPlain(r.maxRating);
    Text.SplitJoin([a, b] + rest, ',');
  }
}
