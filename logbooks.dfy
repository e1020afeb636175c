/**
 * routes/logBookRoutes/logbookRoutes.js over the `logbooks` table: create,
 * the supervisor's single-column updates and approval, delete, the reads and
 * the six counts. Each admin route takes the claims that authenticateUser put
 * on `req.user` and applies the isSupervisor gate first.
 */
module Logbooks {
  import opened Wrappers
  import opened Js
  import opened Http
  import Sql
  import Auth

  /** A row of `logbooks`. The id and the submission date are filled by the database. */
  datatype Logbook = Logbook(
    id: string,
    studentId: Val,
    weekNumber: Val,
    weeklySummary: Val,
    dailyLogs: Val,
    department: Val,
    studentName: Val,
    school: Val,
    date: Val,
    supervisorComments: Val,
    supervisorPhone: Val,
    signedBy: Val,
    isApproved: Val)

  /** is_approved is a boolean on every row: no handler ever writes NULL into it. */
  predicate ApprovalNeverNull(rows: seq<Logbook>) {
    forall i :: 0 <= i < |rows| ==> rows[i].isApproved.Bool?
  }

  /** The row create inserts: the seven body fields, NULL supervisor columns and the schema's is_approved default. */
  function NewLogbook(id: string, studentId: Val, weekNumber: Val, weekSummary: Val, dailyLogs: Val,
                      department: Val, studentName: Val, school: Val, date: Val, approvedDefault: bool): Logbook
  {
    Logbook(id, studentId, weekNumber, weekSummary, dailyLogs, department, studentName, school, date,
            Null, Null, Null, Bool(approvedDefault))
  }

  function HasId(id: string): Logbook -> bool {
    (r: Logbook) => r.id == id
  }

  /**
   * The WHERE clause of the counts: `student_id = $1` when a student is given,
   * `is_approved = true/false` when an approval state is given.
   */
  function Scope(student: Option<string>, approved: Option<bool>): Logbook -> bool {
    (r: Logbook) =>
      (student.None? || Sql.Eq(r.studentId, Str(student.value))) &&
      (approved.None? || Sql.Eq(r.isApproved, Bool(approved.value)))
  }

  // ---------------------------------------------------------------------------
  // The new table after each UPDATE and DELETE

  /** `UPDATE logbooks SET supervisor_comments = $1 WHERE id = $2` */
  function WithComments(rows: seq<Logbook>, id: string, comments: Val): (r: seq<Logbook>)
    ensures |r| == |rows|
    ensures forall i :: 0 <= i < |rows| ==>
              r[i] == if rows[i].id == id then rows[i].(supervisorComments := comments) else rows[i]
  {
    Sql.Update(rows, HasId(id), (x: Logbook) => x.(supervisorComments := comments))
  }

  /** `UPDATE logbooks SET supervisor_phone = $1 WHERE id = $2` */
  function WithPhone(rows: seq<Logbook>, id: string, phone: Val): (r: seq<Logbook>)
    ensures |r| == |rows|
    ensures forall i :: 0 <= i < |rows| ==>
              r[i] == if rows[i].id == id then rows[i].(supervisorPhone := phone) else rows[i]
  {
    Sql.Update(rows, HasId(id), (x: Logbook) => x.(supervisorPhone := phone))
  }

  /** `UPDATE logbooks SET signed_by = $1 WHERE id = $2` */
  function WithSignedBy(rows: seq<Logbook>, id: string, signedBy: Val): (r: seq<Logbook>)
    ensures |r| == |rows|
    ensures forall i :: 0 <= i < |rows| ==>
              r[i] == if rows[i].id == id then rows[i].(signedBy := signedBy) else rows[i]
  {
    Sql.Update(rows, HasId(id), (x: Logbook) => x.(signedBy := signedBy))
  }

  /** `UPDATE logbooks SET is_approved = true WHERE id = $2`: nothing else about the row is required or changed. */
  function WithApproval(rows: seq<Logbook>, id: string): (r: seq<Logbook>)
    ensures |r| == |rows|
    ensures forall i :: 0 <= i < |rows| ==>
              r[i] == if rows[i].id == id then rows[i].(isApproved := Bool(true)) else rows[i]
  {
    Sql.Update(rows, HasId(id), (x: Logbook) => x.(isApproved := Bool(true)))
  }

  /** `DELETE FROM logbooks WHERE id = $1`: exactly the rows with that id go, possibly none. */
  function WithoutId(rows: seq<Logbook>, id: string): (r: seq<Logbook>)
    ensures |r| == |rows| - Sql.Count(rows, HasId(id))
    ensures forall x :: x in r <==> x in rows && x.id != id
    ensures forall x :: multiset(r)[x] == if x.id == id then 0 else multiset(rows)[x]
  {
    Sql.WithoutMultiset(rows, HasId(id));
    Sql.Without(rows, HasId(id))
  }

  // ---------------------------------------------------------------------------
  // Properties of the updates

  /** Approving twice leaves the same table as approving once. */
  lemma ApproveIdempotent(rows: seq<Logbook>, id: string)
    ensures WithApproval(WithApproval(rows, id), id) == WithApproval(rows, id)
  {
    var once := WithApproval(rows, id);
    var twice := WithApproval(once, id);
    forall i | 0 <= i < |rows| ensures twice[i] == once[i] {
      assert once[i].id == rows[i].id;
    }
  }

  /** The comments and signed-by updates touch different columns, so their order does not matter. */
  lemma CommentsAndSignatureCommute(rows: seq<Logbook>, id: string, comments: Val, signedBy: Val)
    ensures WithComments(WithSignedBy(rows, id, signedBy), id, comments) ==
            WithSignedBy(WithComments(rows, id, comments), id, signedBy)
  {
    var a := WithComments(WithSignedBy(rows, id, signedBy), id, comments);
    var b := WithSignedBy(WithComments(rows, id, comments), id, signedBy);
    forall i | 0 <= i < |rows| ensures a[i] == b[i] {
      assert WithSignedBy(rows, id, signedBy)[i].id == rows[i].id;
      assert WithComments(rows, id, comments)[i].id == rows[i].id;
    }
  }

  /** Approval and the phone update commute as well. */
  lemma ApprovalAndPhoneCommute(rows: seq<Logbook>, id: string, phone: Val)
    ensures WithApproval(WithPhone(rows, id, phone), id) == WithPhone(WithApproval(rows, id), id, phone)
  {
    var a := WithApproval(WithPhone(rows, id, phone), id);
    var b := WithPhone(WithApproval(rows, id), id, phone);
    forall i | 0 <= i < |rows| ensures a[i] == b[i] {
      assert WithPhone(rows, id, phone)[i].id == rows[i].id;
      assert WithApproval(rows, id)[i].id == rows[i].id;
    }
  }

  // ---------------------------------------------------------------------------
  // The reads

  /** GET /:studentId — that student's logbooks. */
  function ListByStudent(rows: seq<Logbook>, studentId: string): (r: seq<Logbook>)
    ensures forall x :: x in r <==> x in rows && x.studentId == Str(studentId)
    ensures forall x :: multiset(r)[x] == if x.studentId == Str(studentId) then multiset(rows)[x] else 0
  {
    Sql.WhereMultiset(rows, Scope(Some(studentId), None));
    Sql.Where(rows, Scope(Some(studentId), None))
  }

  /** GET /admin/logbooks — every logbook, for supervisors only. */
  function ListAll(rows: seq<Logbook>, user: Auth.Claims): (r: Reply<seq<Logbook>>)
    ensures !Auth.IsSupervisorRole(user) ==> r == Error(FORBIDDEN, "Access Denied")
    ensures Auth.IsSupervisorRole(user) ==> r == Ok(rows)
  {
    if Auth.IsSupervisor(user).Deny? then Error(FORBIDDEN, "Access Denied") else Ok(rows)
  }

  /** GET /logbook/:logbookId — the rows with that id; a malformed id is refused before any query. */
  function GetById(rows: seq<Logbook>, id: string, isValidUuid: string -> bool): (r: Reply<seq<Logbook>>)
    ensures !isValidUuid(id) ==> r == Error(BAD_REQUEST, "Invalid ID")
    ensures isValidUuid(id) ==> r.Ok?
    ensures r.Ok? ==> forall x :: x in r.data <==> x in rows && x.id == id
    ensures r.Ok? ==> |r.data| == Sql.Count(rows, HasId(id))
    ensures r.Ok? ==> forall x :: multiset(r.data)[x] == if x.id == id then multiset(rows)[x] else 0
  {
    if !isValidUuid(id) then Error(BAD_REQUEST, "Invalid ID")
    else
      Sql.WhereMultiset(rows, HasId(id));
      Ok(Sql.Where(rows, HasId(id)))
  }

  /** GET /total/:studentId */
  function Total(rows: seq<Logbook>, studentId: string): (n: nat)
    ensures n == |ListByStudent(rows, studentId)|
  {
    Sql.Count(rows, Scope(Some(studentId), None))
  }

  /** `is_approved = $b` */
  function ApprovedIs(b: bool): Logbook -> bool {
    (x: Logbook) => Sql.Eq(x.isApproved, Bool(b))
  }

  /** The student's count in one approval state is the number of that student's logbooks in that state. */
  lemma {:induction false} ScopedCount(rows: seq<Logbook>, studentId: string, b: bool)
    ensures Sql.Count(rows, Scope(Some(studentId), Some(b))) ==
            |Sql.Where(ListByStudent(rows, studentId), ApprovedIs(b))|
  {
    Sql.CountOfWhere(rows, Scope(Some(studentId), None), ApprovedIs(b), Scope(Some(studentId), Some(b)));
  }

  /** Over the whole table, the count in one approval state is the number of logbooks in that state. */
  lemma {:induction false} UnscopedCount(rows: seq<Logbook>, b: bool)
    ensures Sql.Count(rows, Scope(None, Some(b))) == |Sql.Where(rows, ApprovedIs(b))|
  {
    Sql.CountOfWhere(rows, Scope(None, None), ApprovedIs(b), Scope(None, Some(b)));
    Sql.WhereAll(rows, Scope(None, None));
  }

  /** GET /approved/:studentId */
  function Approved(rows: seq<Logbook>, studentId: string): (n: nat)
    ensures n == |Sql.Where(ListByStudent(rows, studentId), ApprovedIs(true))|
    ensures n <= Total(rows, studentId)
  {
    ScopedCount(rows, studentId, true);
    Sql.CountMonotone(rows, Scope(Some(studentId), Some(true)), Scope(Some(studentId), None));
    Sql.Count(rows, Scope(Some(studentId), Some(true)))
  }

  /** GET /unapproved/:studentId */
  function Unapproved(rows: seq<Logbook>, studentId: string): (n: nat)
    ensures n == |Sql.Where(ListByStudent(rows, studentId), ApprovedIs(false))|
    ensures n <= Total(rows, studentId)
  {
    ScopedCount(rows, studentId, false);
    Sql.CountMonotone(rows, Scope(Some(studentId), Some(false)), Scope(Some(studentId), None));
    Sql.Count(rows, Scope(Some(studentId), Some(false)))
  }

  /** GET /admin/logbooks/total */
  function AdminTotal(rows: seq<Logbook>, user: Auth.Claims): (r: Reply<nat>)
    ensures !Auth.IsSupervisorRole(user) ==> r == Error(FORBIDDEN, "Access Denied")
    ensures Auth.IsSupervisorRole(user) ==> r == Ok(|rows|)
  {
    if Auth.IsSupervisor(user).Deny? then Error(FORBIDDEN, "Access Denied")
    else Ok(Sql.Count(rows, Scope(None, None)))
  }

  /** GET /admin/logbooks/approved */
  function AdminApproved(rows: seq<Logbook>, user: Auth.Claims): (r: Reply<nat>)
    ensures !Auth.IsSupervisorRole(user) ==> r == Error(FORBIDDEN, "Access Denied")
    ensures Auth.IsSupervisorRole(user) ==> r == Ok(|Sql.Where(rows, ApprovedIs(true))|)
    ensures Auth.IsSupervisorRole(user) ==> r.Ok? && r.data <= |rows|
  {
    if Auth.IsSupervisor(user).Deny? then Error(FORBIDDEN, "Access Denied")
    else
      UnscopedCount(rows, true);
      Ok(Sql.Count(rows, Scope(None, Some(true))))
  }

  /** GET /admin/logbooks/unapproved */
  function AdminUnapproved(rows: seq<Logbook>, user: Auth.Claims): (r: Reply<nat>)
    ensures !Auth.IsSupervisorRole(user) ==> r == Error(FORBIDDEN, "Access Denied")
    ensures Auth.IsSupervisorRole(user) ==> r == Ok(|Sql.Where(rows, ApprovedIs(false))|)
    ensures Auth.IsSupervisorRole(user) ==> r.Ok? && r.data <= |rows|
  {
    if Auth.IsSupervisor(user).Deny? then Error(FORBIDDEN, "Access Denied")
    else
      UnscopedCount(rows, false);
      Ok(Sql.Count(rows, Scope(None, Some(false))))
  }

  // ---------------------------------------------------------------------------
  // Properties of the reads

  /** While is_approved is never NULL, the approved and unapproved counts of any scope add up to its total. */
  lemma CountsPartition(rows: seq<Logbook>, student: Option<string>)
    requires ApprovalNeverNull(rows)
    ensures Sql.Count(rows, Scope(student, Some(true))) + Sql.Count(rows, Scope(student, Some(false))) ==
            Sql.Count(rows, Scope(student, None))
  {
    forall i | 0 <= i < |rows|
      ensures Scope(student, None)(rows[i]) <==>
                Scope(student, Some(true))(rows[i]) || Scope(student, Some(false))(rows[i])
      ensures !(Scope(student, Some(true))(rows[i]) && Scope(student, Some(false))(rows[i]))
    {
      assert rows[i].isApproved == Bool(true) || rows[i].isApproved == Bool(false);
    }
    Sql.CountSplit(rows, Scope(student, None), Scope(student, Some(true)), Scope(student, Some(false)));
  }

  /** The student dashboard: approved + unapproved == total. */
  lemma StudentCountsPartition(rows: seq<Logbook>, studentId: string)
    requires ApprovalNeverNull(rows)
    ensures Approved(rows, studentId) + Unapproved(rows, studentId) == Total(rows, studentId)
  {
    CountsPartition(rows, Some(studentId));
  }

  /** The supervisor dashboard: approved + unapproved == total. */
  lemma AdminCountsPartition(rows: seq<Logbook>, user: Auth.Claims)
    requires ApprovalNeverNull(rows) && Auth.IsSupervisorRole(user)
    ensures AdminApproved(rows, user).data + AdminUnapproved(rows, user).data == AdminTotal(rows, user).data
  {
    CountsPartition(rows, None);
  }

  /** Approving keeps every student's total and never lowers the approved count; the approved rows leave the unapproved count. */
  lemma ApproveMovesToApproved(rows: seq<Logbook>, id: string, studentId: string)
    ensures Total(WithApproval(rows, id), studentId) == Total(rows, studentId)
    ensures Approved(rows, studentId) <= Approved(WithApproval(rows, id), studentId)
    ensures Unapproved(WithApproval(rows, id), studentId) <= Unapproved(rows, studentId)
    ensures forall x :: x in WithApproval(rows, id) && x.id == id ==> !Scope(Some(studentId), Some(false))(x)
  {
    var f := (x: Logbook) => x.(isApproved := Bool(true));
    assert WithApproval(rows, id) == Sql.Update(rows, HasId(id), f);
    Sql.CountUpdate(rows, HasId(id), f, Scope(Some(studentId), None));
    Sql.CountUpdateGrows(rows, HasId(id), f, Scope(Some(studentId), Some(true)));
    Sql.CountUpdateShrinks(rows, HasId(id), f, Scope(Some(studentId), Some(false)));
    var after := WithApproval(rows, id);
    forall x | x in after && x.id == id ensures x.isApproved == Bool(true) {
      var i :| 0 <= i < |after| && after[i] == x;
      assert rows[i].id == id;
    }
  }

  /** After a delete, reading that id returns no rows. */
  lemma DeleteThenGetById(rows: seq<Logbook>, id: string, isValidUuid: string -> bool)
    requires isValidUuid(id)
    ensures GetById(WithoutId(rows, id), id, isValidUuid) == Ok([])
  {
    var left := WithoutId(rows, id);
    forall i | 0 <= i < |left| ensures !HasId(id)(left[i]) {
      assert left[i] in left;
    }
    assert Sql.Count(left, HasId(id)) == 0;
  }

  // ---------------------------------------------------------------------------
  // The table and its mutating handlers

  class LogbookStore {
    var rows: seq<Logbook>
    /** The value the schema gives is_approved on insert; the handlers never set it on create. */
    const approvedDefault: bool

    ghost predicate Valid()
      reads this
    {
      ApprovalNeverNull(rows)
    }

    constructor (approvedDefault: bool)
      ensures rows == [] && this.approvedDefault == approvedDefault && Valid()
    {
      rows := [];
      this.approvedDefault := approvedDefault;
    }

    /** POST /add — all seven fields are required; weekNumber 0 counts as missing. */
    method Create(studentId: Val, weekNumber: Val, weekSummary: Val, dailyLogs: Val, department: Val,
                  studentName: Val, school: Val, id: string, date: Val) returns (reply: Reply<string>)
      requires Valid()
      modifies this
      ensures Valid()
      ensures MissingAny([studentId, weekNumber, weekSummary, dailyLogs, department, studentName, school]) ==>
                reply == Error(BAD_REQUEST, "Please fill in all fields, ensure daily logs and week summary are recorded") &&
                rows == old(rows)
      ensures !MissingAny([studentId, weekNumber, weekSummary, dailyLogs, department, studentName, school]) ==>
                reply == Ok("Logbook created successfully") &&
                rows == old(rows) + [NewLogbook(id, studentId, weekNumber, weekSummary, dailyLogs, department,
                                                studentName, school, date, approvedDefault)]
    {
      if MissingAny([studentId, weekNumber, weekSummary, dailyLogs, department, studentName, school]) {
        return Error(BAD_REQUEST, "Please fill in all fields, ensure daily logs and week summary are recorded");
      }
      rows := rows + [NewLogbook(id, studentId, weekNumber, weekSummary, dailyLogs, department,
                                 studentName, school, date, approvedDefault)];
      reply := Ok("Logbook created successfully");
    }

    /** PUT /admin/logbook/comments/:id — stores the body's value even when it is null or empty. */
    method SetComments(user: Auth.Claims, id: string, comments: Val) returns (reply: Reply<string>)
      requires Valid()
      modifies this
      ensures Valid()
      ensures !Auth.IsSupervisorRole(user) ==> reply == Error(FORBIDDEN, "Access Denied") && rows == old(rows)
      ensures Auth.IsSupervisorRole(user) ==>
                reply == Ok("Logbook updated successfully") && rows == WithComments(old(rows), id, comments)
    {
      if Auth.IsSupervisor(user).Deny? {
        return Error(FORBIDDEN, "Access Denied");
      }
      rows := WithComments(rows, id, comments);
      reply := Ok("Logbook updated successfully");
    }

    /** PUT /admin/logbook/supervisor-phone/:id */
    method SetSupervisorPhone(user: Auth.Claims, id: string, phone: Val) returns (reply: Reply<string>)
      requires Valid()
      modifies this
      ensures Valid()
      ensures !Auth.IsSupervisorRole(user) ==> reply == Error(FORBIDDEN, "Access Denied") && rows == old(rows)
      ensures Auth.IsSupervisorRole(user) ==>
                reply == Ok("Logbook updated successfully") && rows == WithPhone(old(rows), id, phone)
    {
      if Auth.IsSupervisor(user).Deny? {
        return Error(FORBIDDEN, "Access Denied");
      }
      rows := WithPhone(rows, id, phone);
      reply := Ok("Logbook updated successfully");
    }

    /** PUT /admin/logbook/signedby/:id */
    method SetSignedBy(user: Auth.Claims, id: string, signedBy: Val) returns (reply: Reply<string>)
      requires Valid()
      modifies this
      ensures Valid()
      ensures !Auth.IsSupervisorRole(user) ==> reply == Error(FORBIDDEN, "Access Denied") && rows == old(rows)
      ensures Auth.IsSupervisorRole(user) ==>
                reply == Ok("Logbook updated successfully") && rows == WithSignedBy(old(rows), id, signedBy)
    {
      if Auth.IsSupervisor(user).Deny? {
        return Error(FORBIDDEN, "Access Denied");
      }
      rows := WithSignedBy(rows, id, signedBy);
      reply := Ok("Logbook updated successfully");
    }

    /** PUT /admin/logbook/approve/:id — no requirement on signed_by or comments. */
    method Approve(user: Auth.Claims, id: string) returns (reply: Reply<string>)
      requires Valid()
      modifies this
      ensures Valid()
      ensures !Auth.IsSupervisorRole(user) ==> reply == Error(FORBIDDEN, "Access Denied") && rows == old(rows)
      ensures Auth.IsSupervisorRole(user) ==>
                reply == Ok("Logbook updated successfully") && rows == WithApproval(old(rows), id)
    {
      if Auth.IsSupervisor(user).Deny? {
        return Error(FORBIDDEN, "Access Denied");
      }
      rows := WithApproval(rows, id);
      reply := Ok("Logbook updated successfully");
    }

    /** DELETE /logbook/:id — any authenticated caller, 200 even when no row has the id. */
    method Delete(id: string) returns (reply: Reply<string>)
      requires Valid()
      modifies this
      ensures Valid()
      ensures reply == Ok("Logbook deleted successfully") && rows == WithoutId(old(rows), id)
    {
      rows := WithoutId(rows, id);
      reply := Ok("Logbook deleted successfully");
    }
  }
}
