/**
 * routes/userRoutes/userRoutes.js over the `members` table: registration
 * with a unique-email check and login. bcrypt's hash and compare are the
 * parameters `hash` and `compare`; jsonwebtoken's sign is `sign`.
 */
module Users {
  import opened Js
  import opened Http
  import Sql
  import Auth

  /** A row of `members`. The id and the role are filled by the database, never by these handlers. */
  datatype Member = Member(id: string, name: Val, email: Val, password: Val, department: Val, role: Val)

  /** The row as node-postgres hands it to the handler. */
  function Record(m: Member): map<string, Val> {
    map["id" := Str(m.id), "name" := m.name, "email" := m.email, "password" := m.password,
        "department" := m.department, "role" := m.role]
  }

  /** `const { password: pass, ...rest } = row`: every column of the row but the password. */
  function WithoutPassword(m: Member): (rest: map<string, Val>)
    ensures "password" !in rest
    ensures rest.Keys == Record(m).Keys - {"password"}
    ensures forall k :: k in rest ==> rest[k] == Record(m)[k]
  {
    Record(m) - {"password"}
  }

  function ByEmail(email: Val): Member -> bool {
    (m: Member) => Sql.Eq(m.email, email)
  }

  function ByEmailAndDepartment(email: Val, department: Val): Member -> bool {
    (m: Member) => Sql.Eq(m.email, email) && Sql.Eq(m.department, department)
  }

  predicate EmailTaken(members: seq<Member>, email: Val) {
    exists i :: 0 <= i < |members| && Sql.Eq(members[i].email, email)
  }

  /** No two members share an email. */
  predicate UniqueEmails(members: seq<Member>) {
    forall i, j :: 0 <= i < j < |members| ==> !Sql.Eq(members[i].email, members[j].email)
  }

  /** The row a successful registration inserts: the password column holds the hash, not the password. */
  function NewMember(id: string, name: Val, email: Val, password: Val, department: Val, role: Val,
                     hash: Val -> string): Member
  {
    Member(id, name, email, Str(hash(password)), department, role)
  }

  /** Adding a member whose email is new keeps emails unique, and the new email is then taken exactly once. */
  lemma RegisterKeepsEmailsUnique(members: seq<Member>, m: Member)
    requires UniqueEmails(members)
    requires !Falsy(m.email) && !EmailTaken(members, m.email)
    ensures UniqueEmails(members + [m])
    ensures Sql.Count(members + [m], ByEmail(m.email)) == 1
  {
    var after := members + [m];
    forall i, j | 0 <= i < j < |after| ensures !Sql.Eq(after[i].email, after[j].email) {
      if j == |members| {
        assert after[i] == members[i];
        assert !Sql.Eq(members[i].email, m.email);
      }
    }
    Sql.CountAppend(members, m, ByEmail(m.email));
    assert forall i :: 0 <= i < |members| ==> !ByEmail(m.email)(members[i]);
  }

  /** The members table, as the register handler changes it. */
  class MemberStore {
    var members: seq<Member>
    /** The value the schema gives `role` on insert; the handlers never set it. */
    const defaultRole: Val

    ghost predicate Valid()
      reads this
    {
      UniqueEmails(members)
    }

    constructor (defaultRole: Val)
      ensures members == [] && this.defaultRole == defaultRole && Valid()
    {
      members := [];
      this.defaultRole := defaultRole;
    }

    /** POST /register */
    method Register(name: Val, email: Val, password: Val, department: Val, id: string, hash: Val -> string)
      returns (reply: Reply<string>)
      requires Valid()
      modifies this
      ensures Valid()
      ensures MissingAny([name, email, password, department]) ==>
                reply == Error(BAD_REQUEST, "Please fill in all fields") && members == old(members)
      ensures !MissingAny([name, email, password, department]) && EmailTaken(old(members), email) ==>
                reply == Error(BAD_REQUEST, "User already exists") && members == old(members)
      ensures !MissingAny([name, email, password, department]) && !EmailTaken(old(members), email) ==>
                reply == Ok("User created successfully") &&
                members == old(members) + [NewMember(id, name, email, password, department, defaultRole, hash)]
    {
      if MissingAny([name, email, password, department]) {
        return Error(BAD_REQUEST, "Please fill in all fields");
      }
      var hashedPass := hash(password);
      var existing := Sql.Where(members, ByEmail(email));
      if |existing| > 0 {
        assert ByEmail(email)(existing[0]) && existing[0] in members;
        return Error(BAD_REQUEST, "User already exists");
      }
      assert !EmailTaken(members, email) by {
        assert Sql.Count(members, ByEmail(email)) == 0;
        forall i | 0 <= i < |members| ensures !Sql.Eq(members[i].email, email) {
          assert !ByEmail(email)(members[i]);
        }
      }
      assert !Falsy(email) by { assert email in [name, email, password, department]; }
      var row := Member(id, name, email, Str(hashedPass), department, defaultRole);
      RegisterKeepsEmailsUnique(members, row);
      members := members + [row];
      reply := Ok("User created successfully");
    }
  }

  /** What a successful login returns beside its message. */
  datatype Session = Session(token: string, user: map<string, Val>)

  /** Some member matches email and department exactly when the department check lets the login through. */
  lemma DepartmentMatchHasEmailMatch(members: seq<Member>, email: Val, department: Val)
    ensures Sql.Where(members, ByEmailAndDepartment(email, department)) != [] <==>
              exists i :: 0 <= i < |members| && ByEmailAndDepartment(email, department)(members[i])
    ensures Sql.Where(members, ByEmailAndDepartment(email, department)) != [] ==>
              Sql.Where(members, ByEmail(email)) != []
  {
    var p, q := ByEmailAndDepartment(email, department), ByEmail(email);
    var matches := Sql.Where(members, p);
    if matches != [] {
      assert matches[0] in members && p(matches[0]);
    }
    forall i | 0 <= i < |members| ensures p(members[i]) ==> matches != [] {
      assert p(members[i]) ==> members[i] in matches;
    }
    Sql.CountMonotone(members, p, q);
  }

  /**
   * POST /login. The department check looks for a member with both the
   * email and the department; the password is then compared against the
   * FIRST member with that email, whose record (without its password) is
   * returned together with a token made from it.
   */
  function Login(members: seq<Member>, email: Val, password: Val, department: Val,
                 compare: (Val, Val) -> bool, sign: Auth.Claims -> string): (r: Reply<Session>)
    ensures r.Error? ==> r.status == BAD_REQUEST
    ensures MissingAny([email, password, department]) ==> r == Error(BAD_REQUEST, "Please fill in all fields")
  {
    if MissingAny([email, password, department]) then Error(BAD_REQUEST, "Please fill in all fields")
    else if Sql.Where(members, ByEmailAndDepartment(email, department)) == [] then
      Error(BAD_REQUEST, "Invalid credentials. User does not belong to this department")
    else
      DepartmentMatchHasEmailMatch(members, email, department);
      var user := Sql.Where(members, ByEmail(email))[0];
      if !compare(password, user.password) then Error(BAD_REQUEST, "Invalid credentials")
      else Ok(Session(Auth.CreateToken(Record(user), sign), WithoutPassword(user)))
  }

  /** Member k is the first row of the table having this email: the row `SELECT ... WHERE email = $1` puts first. */
  predicate FirstWithEmail(members: seq<Member>, email: Val, k: int) {
    0 <= k < |members| && Sql.Eq(members[k].email, email) &&
    forall j :: 0 <= j < k ==> !Sql.Eq(members[j].email, email)
  }

  /** With all fields present, no member with both this email and this department is a 400, whatever the password. */
  lemma LoginRejectsOutsider(members: seq<Member>, email: Val, password: Val, department: Val,
                             compare: (Val, Val) -> bool, sign: Auth.Claims -> string)
    requires !MissingAny([email, password, department])
    requires forall i :: 0 <= i < |members| ==> !ByEmailAndDepartment(email, department)(members[i])
    ensures Login(members, email, password, department, compare, sign) ==
              Error(BAD_REQUEST, "Invalid credentials. User does not belong to this department")
  {
    assert Sql.Count(members, ByEmailAndDepartment(email, department)) == 0;
    assert Sql.Where(members, ByEmailAndDepartment(email, department)) == [];
  }

  /**
   * Once some member matches email and department, the outcome is decided by
   * comparing the password with the stored hash of the first member having
   * the email; success returns that member without its password and a token
   * made from it, failure is 400 "Invalid credentials".
   */
  lemma LoginComparesFirstWithEmail(members: seq<Member>, email: Val, password: Val, department: Val,
                                    compare: (Val, Val) -> bool, sign: Auth.Claims -> string, i: nat)
    requires !MissingAny([email, password, department])
    requires i < |members| && ByEmailAndDepartment(email, department)(members[i])
    ensures exists k :: FirstWithEmail(members, email, k) &&
                        Login(members, email, password, department, compare, sign) ==
                          if compare(password, members[k].password)
                          then Ok(Session(Auth.CreateToken(Record(members[k]), sign), WithoutPassword(members[k])))
                          else Error(BAD_REQUEST, "Invalid credentials")
  {
    assert members[i] in Sql.Where(members, ByEmailAndDepartment(email, department));
    DepartmentMatchHasEmailMatch(members, email, department);
    var user := Sql.Where(members, ByEmail(email))[0];
    Sql.WhereHead(members, ByEmail(email));
    var k :| 0 <= k < |members| && ByEmail(email)(members[k]) && members[k] == user &&
             forall j :: 0 <= j < k ==> !ByEmail(email)(members[j]);
    assert FirstWithEmail(members, email, k) by {
      forall j | 0 <= j < k ensures !Sql.Eq(members[j].email, email) {
        assert !ByEmail(email)(members[j]);
      }
    }
    assert Login(members, email, password, department, compare, sign) ==
             if compare(password, user.password)
             then Ok(Session(Auth.CreateToken(Record(user), sign), WithoutPassword(user)))
             else Error(BAD_REQUEST, "Invalid credentials");
  }

  /** With unique emails, the member whose password is checked is the one matching email and department. */
  lemma LoginReturnsMatchedMember(members: seq<Member>, email: Val, password: Val, department: Val,
                                  compare: (Val, Val) -> bool, sign: Auth.Claims -> string, i: nat)
    requires UniqueEmails(members)
    requires i < |members| && ByEmailAndDepartment(email, department)(members[i])
    requires !MissingAny([email, password, department])
    ensures Login(members, email, password, department, compare, sign) ==
              if compare(password, members[i].password)
              then Ok(Session(Auth.CreateToken(Record(members[i]), sign), WithoutPassword(members[i])))
              else Error(BAD_REQUEST, "Invalid credentials")
  {
    LoginComparesFirstWithEmail(members, email, password, department, compare, sign, i);
    var k :| FirstWithEmail(members, email, k) &&
             Login(members, email, password, department, compare, sign) ==
               if compare(password, members[k].password)
               then Ok(Session(Auth.CreateToken(Record(members[k]), sign), WithoutPassword(members[k])))
               else Error(BAD_REQUEST, "Invalid credentials");
    assert k == i;
  }

  /**
   * Logging in right after a successful registration succeeds, with the
   * new member's record and a token made from it, as long as bcrypt's
   * compare accepts the password against its own hash.
   */
  lemma RegisterThenLogin(members: seq<Member>, id: string, name: Val, email: Val, password: Val,
                          department: Val, role: Val, hash: Val -> string,
                          compare: (Val, Val) -> bool, sign: Auth.Claims -> string)
    requires UniqueEmails(members)
    requires !MissingAny([name, email, password, department]) && !EmailTaken(members, email)
    requires compare(password, Str(hash(password)))
    ensures var m := NewMember(id, name, email, password, department, role, hash);
            Login(members + [m], email, password, department, compare, sign) ==
              Ok(Session(Auth.CreateToken(Record(m), sign), WithoutPassword(m)))
  {
    var m := NewMember(id, name, email, password, department, role, hash);
    assert !Falsy(email) by { assert email in [name, email, password, department]; }
    assert !Falsy(department) by { assert department in [name, email, password, department]; }
    assert !MissingAny([email, password, department]) by {
      forall v | v in [email, password, department] ensures !Falsy(v) {
        assert v in [name, email, password, department];
      }
    }
    RegisterKeepsEmailsUnique(members, m);
    var after := members + [m];
    assert after[|members|] == m;
    LoginReturnsMatchedMember(after, email, password, department, compare, sign, |members|);
  }

  /**
   * Without unique emails, a login for one department can check the password
   * of, and return, a member of another department with the same email: here
   * the biology login returns the physics member `a`.
   */
  lemma LoginNeedsUniqueEmails(compare: (Val, Val) -> bool, sign: Auth.Claims -> string)
    requires compare(Str("pw"), Str("h1"))
    ensures var a := Member("a", Str("A"), Str("x@y"), Str("h1"), Str("physics"), Str("student"));
            var b := Member("b", Str("B"), Str("x@y"), Str("h2"), Str("biology"), Str("student"));
            Login([a, b], Str("x@y"), Str("pw"), Str("biology"), compare, sign) ==
              Ok(Session(Auth.CreateToken(Record(a), sign), WithoutPassword(a)))
  {
    var a := Member("a", Str("A"), Str("x@y"), Str("h1"), Str("physics"), Str("student"));
    var b := Member("b", Str("B"), Str("x@y"), Str("h2"), Str("biology"), Str("student"));
    var members := [a, b];
    var email, password, department := Str("x@y"), Str("pw"), Str("biology");
    assert !MissingAny([email, password, department]);
    assert ByEmailAndDepartment(email, department)(members[1]);
    LoginComparesFirstWithEmail(members, email, password, department, compare, sign, 1);
    var k :| FirstWithEmail(members, email, k) &&
             Login(members, email, password, department, compare, sign) ==
               if compare(password, members[k].password)
               then Ok(Session(Auth.CreateToken(Record(members[k]), sign), WithoutPassword(members[k])))
               else Error(BAD_REQUEST, "Invalid credentials");
    assert k == 0;
  }
}
