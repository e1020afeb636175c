/**
 * routes/dailyLogRoutes/dailyLogRoutes.js over the `daily_logs` table: add
 * with its duplicate check, the two reads, update and delete. isValidUUID is
 * the parameter `isValidUuid`.
 */
module DailyLogs {
  import opened Js
  import opened Http
  import Sql

  /** A row of `daily_logs`; the id is filled by the database. */
  datatype DailyLog = DailyLog(id: string, studentId: Val, day: Val, date: Val, weekNumber: Val,
                               descriptionOfWork: Val, skillsLearnt: Val)

  /** The columns add's duplicate check compares. */
  datatype Key = Key(weekNumber: Val, day: Val, date: Val, studentId: Val)

  function KeyOf(r: DailyLog): Key {
    Key(r.weekNumber, r.day, r.date, r.studentId)
  }

  /** `week_number = $1 AND day = $2 AND date = $3 AND student_id = $4` */
  predicate HasKey(r: DailyLog, k: Key) {
    Sql.Eq(r.weekNumber, k.weekNumber) && Sql.Eq(r.day, k.day) && Sql.Eq(r.date, k.date) &&
    Sql.Eq(r.studentId, k.studentId)
  }

  function KeyFilter(k: Key): DailyLog -> bool {
    r => HasKey(r, k)
  }

  predicate KeyTaken(rows: seq<DailyLog>, k: Key) {
    exists i :: 0 <= i < |rows| && HasKey(rows[i], k)
  }

  /** No two rows share (week_number, day, date, student_id): no row's key is matched by any other row. */
  predicate KeysUnique(rows: seq<DailyLog>) {
    forall i :: 0 <= i < |rows| ==> Sql.Count(rows, KeyFilter(KeyOf(rows[i]))) <= 1
  }

  /** `WHERE id = $1` */
  function HasId(id: string): DailyLog -> bool {
    (x: DailyLog) => x.id == id
  }

  /** `WHERE student_id = $1` */
  function ByStudent(id: string): DailyLog -> bool {
    (x: DailyLog) => Sql.Eq(x.studentId, Str(id))
  }

  /** The row a successful add inserts. */
  function NewLog(id: string, studentId: Val, day: Val, date: Val, weekNumber: Val, description: Val,
                  skillsLearnt: Val): DailyLog
  {
    DailyLog(id, studentId, day, date, weekNumber, description, skillsLearnt)
  }

  /** The duplicate check is symmetric once the probing row's key columns are all present. */
  lemma HasKeySymmetric(a: DailyLog, b: DailyLog)
    requires !Nullish(a.weekNumber) && !Nullish(a.day) && !Nullish(a.date) && !Nullish(a.studentId)
    ensures HasKey(a, KeyOf(b)) ==> HasKey(b, KeyOf(a))
  {
  }

  /** After the insert, an old row's key still matches at most one row. */
  lemma OldKeyStaysUnique(rows: seq<DailyLog>, r: DailyLog, i: int)
    requires KeysUnique(rows) && 0 <= i < |rows|
    requires !HasKey(rows[i], KeyOf(r))
    requires !Nullish(r.weekNumber) && !Nullish(r.day) && !Nullish(r.date) && !Nullish(r.studentId)
    ensures Sql.Count(rows + [r], KeyFilter(KeyOf(rows[i]))) <= 1
  {
    HasKeySymmetric(r, rows[i]);
    assert !KeyFilter(KeyOf(rows[i]))(r);
    Sql.CountAppend(rows, r, KeyFilter(KeyOf(rows[i])));
  }

  /**
   * Inserting a row whose key is not taken keeps keys unique, and afterwards
   * exactly one row has that key.
   */
  lemma {:induction false} AddKeepsKeysUnique(rows: seq<DailyLog>, r: DailyLog)
    requires KeysUnique(rows)
    requires !KeyTaken(rows, KeyOf(r))
    requires !Falsy(r.weekNumber) && !Falsy(r.day) && !Falsy(r.date) && !Falsy(r.studentId)
    ensures KeysUnique(rows + [r])
    ensures Sql.Count(rows + [r], KeyFilter(KeyOf(r))) == 1
  {
    NewKeyOnce(rows, r);
    var after := rows + [r];
    forall i | 0 <= i < |after| ensures Sql.Count(after, KeyFilter(KeyOf(after[i]))) <= 1 {
      if i < |rows| {
        assert after[i] == rows[i] && !HasKey(rows[i], KeyOf(r));
        OldKeyStaysUnique(rows, r, i);
      } else {
        assert after[i] == r;
      }
    }
  }

  /** The new key, untaken before the insert, is on exactly the new row afterwards. */
  lemma NewKeyOnce(rows: seq<DailyLog>, r: DailyLog)
    requires !KeyTaken(rows, KeyOf(r))
    requires !Nullish(r.weekNumber) && !Nullish(r.day) && !Nullish(r.date) && !Nullish(r.studentId)
    ensures Sql.Count(rows + [r], KeyFilter(KeyOf(r))) == 1
  {
    var p := KeyFilter(KeyOf(r));
    forall i | 0 <= i < |rows| ensures !p(rows[i]) {
      assert !HasKey(rows[i], KeyOf(r));
    }
    Sql.CountAppend(rows, r, p);
  }

  /** The new value of every row after update's SET list for row `id`; student_id and id stay. */
  function Updated(rows: seq<DailyLog>, id: string, day: Val, date: Val, weekNumber: Val, description: Val,
                   skillsLearnt: Val): (r: seq<DailyLog>)
    ensures |r| == |rows|
    ensures forall i :: 0 <= i < |rows| ==>
              r[i] == if rows[i].id == id
                      then DailyLog(id, rows[i].studentId, day, date, weekNumber, description, skillsLearnt)
                      else rows[i]
  {
    Sql.Update(rows, HasId(id),
               (x: DailyLog) => x.(day := day, date := date, weekNumber := weekNumber,
                                   descriptionOfWork := description, skillsLearnt := skillsLearnt))
  }

  /** Update does not check for duplicates: it can give a row the key another row already has. */
  lemma UpdateCanBreakUniqueness()
    ensures var a := DailyLog("a", Str("s1"), Str("Monday"), Str("2024-01-01"), Num(3), Str("w"), Str("k"));
            var b := DailyLog("b", Str("s1"), Str("Tuesday"), Str("2024-01-02"), Num(3), Str("w"), Str("k"));
            KeysUnique([a, b]) &&
            !KeysUnique(Updated([a, b], "b", Str("Monday"), Str("2024-01-01"), Num(3), Str("w2"), Str("k2")))
  {
    var a := DailyLog("a", Str("s1"), Str("Monday"), Str("2024-01-01"), Num(3), Str("w"), Str("k"));
    var b := DailyLog("b", Str("s1"), Str("Tuesday"), Str("2024-01-02"), Num(3), Str("w"), Str("k"));
    var after := Updated([a, b], "b", Str("Monday"), Str("2024-01-01"), Num(3), Str("w2"), Str("k2"));
    assert [a, b][1..] == [b] && [b][1..] == [];
    assert Sql.Count([a, b], KeyFilter(KeyOf(a))) == 1;
    assert Sql.Count([a, b], KeyFilter(KeyOf(b))) == 1;
    assert after[0] == a && HasKey(after[1], KeyOf(a));
    assert after[1..] == [after[1]] && [after[1]][1..] == [];
    assert Sql.Count(after, KeyFilter(KeyOf(after[0]))) == 2;
  }

  /** GET /:id — the logs of one student. */
  function ListForStudent(rows: seq<DailyLog>, id: string, isValidUuid: string -> bool): (r: Reply<seq<DailyLog>>)
    ensures !isValidUuid(id) ==> r == Error(BAD_REQUEST, "Invalid ID")
    ensures isValidUuid(id) ==> r.Ok?
    ensures r.Ok? ==> |r.data| == Sql.Count(rows, ByStudent(id))
    ensures r.Ok? ==> forall i :: 0 <= i < |r.data| ==> r.data[i] in rows && r.data[i].studentId == Str(id)
    ensures r.Ok? ==> forall i :: 0 <= i < |rows| && rows[i].studentId == Str(id) ==> rows[i] in r.data
    ensures r.Ok? ==> forall x :: multiset(r.data)[x] == if x.studentId == Str(id) then multiset(rows)[x] else 0
  {
    if !isValidUuid(id) then Error(BAD_REQUEST, "Invalid ID")
    else
      Sql.WhereMultiset(rows, ByStudent(id));
      Ok(Sql.Where(rows, ByStudent(id)))
  }

  /** GET /daily-log/:id — the rows with that id (zero or one when ids are unique). */
  function GetById(rows: seq<DailyLog>, id: string, isValidUuid: string -> bool): (r: Reply<seq<DailyLog>>)
    ensures !isValidUuid(id) ==> r == Error(BAD_REQUEST, "Invalid ID")
    ensures isValidUuid(id) ==> r.Ok?
    ensures r.Ok? ==> forall i :: 0 <= i < |r.data| ==> r.data[i] in rows && r.data[i].id == id
    ensures r.Ok? ==> forall i :: 0 <= i < |rows| && rows[i].id == id ==> rows[i] in r.data
    ensures r.Ok? ==> |r.data| == Sql.Count(rows, HasId(id))
    ensures r.Ok? ==> forall x :: multiset(r.data)[x] == if x.id == id then multiset(rows)[x] else 0
  {
    if !isValidUuid(id) then Error(BAD_REQUEST, "Invalid ID")
    else
      Sql.WhereMultiset(rows, HasId(id));
      Ok(Sql.Where(rows, HasId(id)))
  }

  /** The rows left by `DELETE FROM daily_logs WHERE id = $1`. */
  function Deleted(rows: seq<DailyLog>, id: string): (r: seq<DailyLog>)
    ensures forall i :: 0 <= i < |r| ==> r[i] in rows && r[i].id != id
    ensures forall i :: 0 <= i < |rows| && rows[i].id != id ==> rows[i] in r
    ensures |r| == |rows| - Sql.Count(rows, HasId(id))
    ensures forall x :: multiset(r)[x] == if x.id == id then 0 else multiset(rows)[x]
  {
    Sql.WithoutMultiset(rows, HasId(id));
    Sql.Without(rows, HasId(id))
  }

  /** Deleting rows never creates a duplicate key. */
  lemma DeleteKeepsKeysUnique(rows: seq<DailyLog>, id: string)
    requires KeysUnique(rows)
    ensures KeysUnique(Deleted(rows, id))
  {
    var left := Deleted(rows, id);
    forall i | 0 <= i < |left| ensures Sql.Count(left, KeyFilter(KeyOf(left[i]))) <= 1 {
      assert left[i] in rows;
      var k :| 0 <= k < |rows| && rows[k] == left[i];
      Sql.CountWithout(rows, HasId(id), KeyFilter(KeyOf(rows[k])));
    }
  }

  /** The daily_logs table, as add, update and delete change it. */
  class DailyLogStore {
    var rows: seq<DailyLog>

    constructor ()
      ensures rows == []
    {
      rows := [];
    }

    /** POST /add */
    method Add(studentId: Val, day: Val, date: Val, weekNumber: Val, description: Val, skillsLearnt: Val,
               id: string) returns (reply: Reply<string>)
      modifies this
      ensures MissingAny([studentId, day, date, weekNumber, description, skillsLearnt]) ==>
                reply == Error(BAD_REQUEST, "Please fill in all fields") && rows == old(rows)
      ensures !MissingAny([studentId, day, date, weekNumber, description, skillsLearnt]) &&
              KeyTaken(old(rows), Key(weekNumber, day, date, studentId)) ==>
                reply == Error(BAD_REQUEST, "Log already exists") && rows == old(rows)
      ensures !MissingAny([studentId, day, date, weekNumber, description, skillsLearnt]) &&
              !KeyTaken(old(rows), Key(weekNumber, day, date, studentId)) ==>
                reply == Ok("Logbook created successfully") &&
                rows == old(rows) + [NewLog(id, studentId, day, date, weekNumber, description, skillsLearnt)]
      ensures KeysUnique(old(rows)) ==> KeysUnique(rows)
    {
      if MissingAny([studentId, day, date, weekNumber, description, skillsLearnt]) {
        return Error(BAD_REQUEST, "Please fill in all fields");
      }
      var key := Key(weekNumber, day, date, studentId);
      var log := Sql.Where(rows, KeyFilter(key));
      if |log| > 0 {
        assert log[0] in rows && HasKey(log[0], key);
        return Error(BAD_REQUEST, "Log already exists");
      }
      assert !KeyTaken(rows, key) by {
        assert Sql.Count(rows, KeyFilter(key)) == 0;
        forall i | 0 <= i < |rows| ensures !HasKey(rows[i], key) {
          assert !KeyFilter(key)(rows[i]);
        }
      }
      var row := NewLog(id, studentId, day, date, weekNumber, description, skillsLearnt);
      if KeysUnique(rows) {
        var fields := [studentId, day, date, weekNumber, description, skillsLearnt];
        assert fields[0] == studentId && fields[1] == day && fields[2] == date && fields[3] == weekNumber;
        AddKeepsKeysUnique(rows, row);
      }
      rows := rows + [row];
      reply := Ok("Logbook created successfully");
    }

    /** PUT /:id — no existence check and no duplicate check. */
    method Update(id: string, day: Val, date: Val, weekNumber: Val, description: Val, skillsLearnt: Val)
      returns (reply: Reply<string>)
      modifies this
      ensures MissingAny([day, date, weekNumber, description, skillsLearnt]) ==>
                reply == Error(BAD_REQUEST, "Please fill in all fields") && rows == old(rows)
      ensures !MissingAny([day, date, weekNumber, description, skillsLearnt]) ==>
                reply == Ok("Daily log updated successfully") &&
                rows == Updated(old(rows), id, day, date, weekNumber, description, skillsLearnt)
    {
      if MissingAny([day, date, weekNumber, description, skillsLearnt]) {
        return Error(BAD_REQUEST, "Please fill in all fields");
      }
      rows := Updated(rows, id, day, date, weekNumber, description, skillsLearnt);
      reply := Ok("Daily log updated successfully");
    }

    /** DELETE /:id — succeeds whether or not the id exists. */
    method Delete(id: string) returns (reply: Reply<string>)
      modifies this
      ensures reply == Ok("Daily log deleted successfully")
      ensures rows == Deleted(old(rows), id)
      ensures KeysUnique(old(rows)) ==> KeysUnique(rows)
    {
      if KeysUnique(rows) {
        DeleteKeepsKeysUnique(rows, id);
      }
      rows := Deleted(rows, id);
      reply := Ok("Daily log deleted successfully");
    }
  }
}
