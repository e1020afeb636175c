/**
 * utils/utils.js: what generatePDF puts on the weekly report, as an ordered
 * list of content items; fonts, sizes, widths and spacing are not modelled.
 */
module Report {
  import opened Wrappers
  import opened Js
  import Logbooks

  /** String.prototype.toUpperCase on one character, restricted to ASCII. */
  function UpperAscii(c: char): char {
    if 'a' <= c <= 'z' then (c as int - 32) as char else c
  }

  /** `string.charAt(0).toUpperCase() + string.slice(1)` */
  function CapitalizeFirstLetter(s: string): (r: string)
    ensures |r| == |s|
    ensures s == "" ==> r == ""
    ensures s != "" ==> r[0] == UpperAscii(s[0]) && r[1..] == s[1..]
    ensures s != "" && 'a' <= s[0] <= 'z' ==> 'A' <= r[0] <= 'Z'
    ensures s != "" && !('a' <= s[0] <= 'z') ==> r == s
  {
    if s == [] then [] else [UpperAscii(s[0])] + s[1..]
  }

  /** Capitalizing an already capitalized string changes nothing. */
  lemma CapitalizeIdempotent(s: string)
    ensures CapitalizeFirstLetter(CapitalizeFirstLetter(s)) == CapitalizeFirstLetter(s)
  {
    if s != [] {
      var r := CapitalizeFirstLetter(s);
      assert r[0] == UpperAscii(s[0]);
      assert UpperAscii(r[0]) == r[0];
      assert CapitalizeFirstLetter(r) == [r[0]] + r[1..];
    }
  }

  /** A table cell: a value printed as is, or a date to be formatted (formatting is not modelled). */
  datatype Cell = Text(value: Val) | Date(value: Val)

  datatype Item =
    | Title(text: string)
    | Field(caption: string, cell: Cell)
    | Heading(text: string)
    | Paragraph(value: Val)
    | Table(headers: seq<string>, rows: seq<seq<Cell>>)

  /** The four column labels of the daily-logs table, in order. */
  const HEADERS: seq<string> := ["Day", "Date", "Skills Learnt", "Description of Work"]

  /** The table row of one daily log: day, date, skills_learnt, description_of_work. */
  function Row(log: Val): (row: seq<Cell>)
    requires !Nullish(log)
  {
    [Text(Prop(log, "day").value), Date(Prop(log, "date").value),
     Text(Prop(log, "skills_learnt").value), Text(Prop(log, "description_of_work").value)]
  }

  /** `daily_logs.map(...)`: None when a log is null or undefined, since reading its fields throws. */
  function Rows(logs: seq<Val>): (rows: Option<seq<seq<Cell>>>)
    ensures rows.Some? <==> forall i :: 0 <= i < |logs| ==> !Nullish(logs[i])
    ensures rows.Some? ==> |rows.value| == |logs|
    ensures rows.Some? ==> forall i :: 0 <= i < |logs| ==> |rows.value[i]| == |HEADERS|
    ensures rows.Some? ==> forall i :: 0 <= i < |logs| && logs[i].Obj? ==>
              rows.value[i] == [Text(Get(logs[i].fields, "day")), Date(Get(logs[i].fields, "date")),
                                Text(Get(logs[i].fields, "skills_learnt")),
                                Text(Get(logs[i].fields, "description_of_work"))]
    ensures rows.Some? ==> forall i :: 0 <= i < |logs| && !logs[i].Obj? ==>
              rows.value[i] == [Text(Undefined), Date(Undefined), Text(Undefined), Text(Undefined)]
  {
    if logs == [] then Some([])
    else if Nullish(logs[0]) then None
    else
      var rest := Rows(logs[1..]);
      assert forall i :: 1 <= i < |logs| ==> logs[i] == logs[1..][i - 1];
      if rest.None? then None else Some([Row(logs[0])] + rest.value)
  }

  /** The text shown under "Supervisor Comments:". */
  function CommentsShown(data: Logbooks.Logbook): (v: Val)
    ensures !Falsy(v)
    ensures Falsy(data.supervisorComments) ==> v == Str("No comments yet.")
    ensures !Falsy(data.supervisorComments) ==> v == data.supervisorComments
  {
    Or(data.supervisorComments, Str("No comments yet."))
  }

  /** The text shown under "Signed By:". */
  function SignatureShown(data: Logbooks.Logbook): (v: Val)
    ensures !Falsy(v)
    ensures Falsy(data.signedBy) ==> v == Str("Not signed yet.")
    ensures !Falsy(data.signedBy) ==> v == data.signedBy
  {
    Or(data.signedBy, Str("Not signed yet."))
  }

  /**
   * The report of one logbook row, item by item. None when generatePDF throws:
   * the department is not a string, daily_logs is not an array, or a log is null.
   */
  function Items(data: Logbooks.Logbook): (r: Option<seq<Item>>)
    ensures r.Some? <==> data.department.Str? && data.dailyLogs.Arr? && Rows(data.dailyLogs.items).Some?
  {
    if !data.department.Str? || !data.dailyLogs.Arr? then None
    else
      var rows := Rows(data.dailyLogs.items);
      if rows.None? then None
      else Some([
        Title("Weekly Report"),
        Field("Student ID: ", Text(data.studentId)),
        Field("Name: ", Text(data.studentName)),
        Field("Week Number: ", Text(data.weekNumber)),
        Field("Department: ", Text(Str(CapitalizeFirstLetter(data.department.s)))),
        Field("Submission Date: ", Date(data.date)),
        Heading("Weekly Summary:"),
        Paragraph(data.weeklySummary),
        Heading("Daily Logs:"),
        Table(HEADERS, rows.value),
        Heading("Supervisor Comments:"),
        Paragraph(CommentsShown(data)),
        Heading("Signed By:"),
        Paragraph(SignatureShown(data))
      ])
  }

  /** `it` is the item printed right after the heading `h`. */
  predicate Under(items: seq<Item>, h: string, it: Item) {
    exists i :: 0 <= i < |items| - 1 && items[i] == Heading(h) && items[i + 1] == it
  }

  /** Under "Daily Logs:" comes the table with the four headers and one row per log, in the logs' order. */
  lemma TableFollowsLogs(data: Logbooks.Logbook)
    requires Items(data).Some?
    ensures Under(Items(data).value, "Daily Logs:", Table(HEADERS, Rows(data.dailyLogs.items).value))
    ensures |Rows(data.dailyLogs.items).value| == |data.dailyLogs.items|
  {
    var items := Items(data).value;
    assert items[8] == Heading("Daily Logs:");
    assert items[9] == Table(HEADERS, Rows(data.dailyLogs.items).value);
  }

  /** The report opens with its title and carries the student's fields from the row. */
  lemma HeaderShowsLogbook(data: Logbooks.Logbook)
    requires Items(data).Some?
    ensures Items(data).value[0] == Title("Weekly Report")
    ensures Field("Student ID: ", Text(data.studentId)) in Items(data).value
    ensures Field("Name: ", Text(data.studentName)) in Items(data).value
    ensures Field("Week Number: ", Text(data.weekNumber)) in Items(data).value
    ensures Field("Submission Date: ", Date(data.date)) in Items(data).value
  {
    var items := Items(data).value;
    assert items[1] == Field("Student ID: ", Text(data.studentId));
    assert items[2] == Field("Name: ", Text(data.studentName));
    assert items[3] == Field("Week Number: ", Text(data.weekNumber));
    assert items[5] == Field("Submission Date: ", Date(data.date));
  }

  /** Under "Weekly Summary:" comes the row's weekly summary. */
  lemma SummaryFollowsHeading(data: Logbooks.Logbook)
    requires Items(data).Some?
    ensures Under(Items(data).value, "Weekly Summary:", Paragraph(data.weeklySummary))
  {
    var items := Items(data).value;
    assert items[6] == Heading("Weekly Summary:") && items[7] == Paragraph(data.weeklySummary);
  }

  /** The report carries a department line showing the department with its first letter capitalized. */
  lemma DepartmentCapitalized(data: Logbooks.Logbook)
    requires Items(data).Some?
    ensures Field("Department: ", Text(Str(CapitalizeFirstLetter(data.department.s)))) in Items(data).value
  {
    var items := Items(data).value;
    assert items[4] == Field("Department: ", Text(Str(CapitalizeFirstLetter(data.department.s))));
  }

  /** Under "Supervisor Comments:" and "Signed By:" come the comments and the signature, or their fallbacks. */
  lemma FooterShowsFallbacks(data: Logbooks.Logbook)
    requires Items(data).Some?
    ensures Under(Items(data).value, "Supervisor Comments:", Paragraph(CommentsShown(data)))
    ensures Under(Items(data).value, "Signed By:", Paragraph(SignatureShown(data)))
  {
    var items := Items(data).value;
    assert items[10] == Heading("Supervisor Comments:") && items[11] == Paragraph(CommentsShown(data));
    assert items[12] == Heading("Signed By:") && items[13] == Paragraph(SignatureShown(data));
  }

  /** A logbook as create leaves it shows both placeholders instead of a blank. */
  lemma NewLogbookShowsPlaceholders(id: string, studentId: Val, weekNumber: Val, weekSummary: Val, logs: seq<Val>,
                                    department: string, studentName: Val, school: Val, date: Val, approvedDefault: bool)
    requires forall i :: 0 <= i < |logs| ==> !Nullish(logs[i])
    ensures var data := Logbooks.NewLogbook(id, studentId, weekNumber, weekSummary, Arr(logs), Str(department),
                                            studentName, school, date, approvedDefault);
            Items(data).Some? &&
            Under(Items(data).value, "Supervisor Comments:", Paragraph(Str("No comments yet."))) &&
            Under(Items(data).value, "Signed By:", Paragraph(Str("Not signed yet.")))
  {
    var data := Logbooks.NewLogbook(id, studentId, weekNumber, weekSummary, Arr(logs), Str(department),
                                    studentName, school, date, approvedDefault);
    FooterShowsFallbacks(data);
  }

  /** Once a supervisor stores a non-empty comment and signature on a row, its report shows them. */
  lemma ReportShowsSupervisorInput(rows: seq<Logbooks.Logbook>, id: string, comments: Val, signedBy: Val, i: nat)
    requires i < |rows| && rows[i].id == id && !Falsy(comments) && !Falsy(signedBy)
    requires Items(rows[i]).Some?
    ensures var after := Logbooks.WithSignedBy(Logbooks.WithComments(rows, id, comments), id, signedBy);
            Items(after[i]).Some? &&
            Under(Items(after[i]).value, "Supervisor Comments:", Paragraph(comments)) &&
            Under(Items(after[i]).value, "Signed By:", Paragraph(signedBy))
  {
    var mid := Logbooks.WithComments(rows, id, comments);
    assert mid[i] == rows[i].(supervisorComments := comments);
    var after := Logbooks.WithSignedBy(mid, id, signedBy);
    assert after[i] == rows[i].(supervisorComments := comments).(signedBy := signedBy);
    FooterShowsFallbacks(after[i]);
  }
}
