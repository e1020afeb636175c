/**
 * Request gates of utils/auth.js: the token payload built by createToken, the
 * bearer-token extraction and verification of authenticateUser, and the role
 * check of isSupervisor. Signing and verifying a token (jsonwebtoken) are
 * parameters of the model: `sign` and `verify`.
 */
module Auth {
  import opened Wrappers
  import opened Js
  import opened Http

  /** The decoded token payload that becomes `req.user`. */
  datatype Claims = Claims(id: Val, email: Val, role: Val)

  /** The payload createToken signs: the id, email and role keys of the user record, nothing else. */
  function TokenClaims(user: map<string, Val>): (c: Claims)
    ensures "id" in user ==> c.id == user["id"]
    ensures "email" in user ==> c.email == user["email"]
    ensures "role" in user ==> c.role == user["role"]
    ensures "id" !in user ==> c.id == Undefined
    ensures "email" !in user ==> c.email == Undefined
    ensures "role" !in user ==> c.role == Undefined
  {
    Claims(Get(user, "id"), Get(user, "email"), Get(user, "role"))
  }

  /** createToken: the signature of the user's id, email and role; the other columns do not reach the token. */
  function CreateToken(user: map<string, Val>, sign: Claims -> string): (t: string)
    ensures {"id", "email", "role"} <= user.Keys ==> t == sign(Claims(user["id"], user["email"], user["role"]))
  {
    sign(TokenClaims(user))
  }

  /** Adding or changing a column other than id, email and role leaves the token as it was. */
  lemma OtherColumnsIgnored(user: map<string, Val>, k: string, v: Val, sign: Claims -> string)
    requires k !in {"id", "email", "role"}
    ensures CreateToken(user[k := v], sign) == CreateToken(user, sign)
  {
    SameClaimsSameToken(user[k := v], user, sign);
  }

  /** Two records that agree on id, email and role yield the same token. */
  lemma SameClaimsSameToken(u: map<string, Val>, w: map<string, Val>, sign: Claims -> string)
    requires forall k :: k in {"id", "email", "role"} ==> Get(u, k) == Get(w, k)
    ensures CreateToken(u, sign) == CreateToken(w, sign)
  {
    assert Get(u, "id") == Get(w, "id");
    assert Get(u, "email") == Get(w, "email");
    assert Get(u, "role") == Get(w, "role");
  }

  /** `s.split(' ')`: the maximal space-free segments of s, empty ones included. */
  function Split(s: string): (parts: seq<string>)
    ensures |parts| >= 1
    ensures forall i :: 0 <= i < |parts| ==> ' ' !in parts[i]
    ensures |parts| > 1 <==> ' ' in s
  {
    if s == [] then [""]
    else
      var rest := Split(s[1..]);
      assert s == [s[0]] + s[1..];
      if s[0] == ' ' then [""] + rest
      else [[s[0]] + rest[0]] + rest[1..]
  }

  /** `parts.join(' ')` */
  function Join(parts: seq<string>): string
    requires |parts| >= 1
  {
    if |parts| == 1 then parts[0] else parts[0] + " " + Join(parts[1..])
  }

  /** Joining the segments back with single spaces gives the header again: split loses nothing. */
  lemma {:induction false} SplitJoin(s: string)
    ensures Join(Split(s)) == s
  {
    if s != [] {
      var rest := Split(s[1..]);
      SplitJoin(s[1..]);
      if s[0] == ' ' {
        assert ([""] + rest)[1..] == rest;
      } else {
        var parts := [[s[0]] + rest[0]] + rest[1..];
        if |rest| > 1 {
          assert parts[1..] == rest[1..];
          assert Join(rest) == rest[0] + " " + Join(rest[1..]);
        }
        assert Join(parts) == [s[0]] + Join(rest);
        assert s == [s[0]] + s[1..];
      }
    }
  }

  lemma {:induction false} SplitPrefix(a: string, b: string)
    requires ' ' !in a
    ensures Split(a + b) == [a + Split(b)[0]] + Split(b)[1..]
  {
    if a == [] {
      assert a + b == b;
      assert a + Split(b)[0] == Split(b)[0];
      assert Split(b) == [Split(b)[0]] + Split(b)[1..];
    } else {
      assert (a + b)[0] == a[0] && (a + b)[1..] == a[1..] + b;
      SplitPrefix(a[1..], b);
      assert [a[0]] + (a[1..] + Split(b)[0]) == a + Split(b)[0];
    }
  }

  /** The token: the second space-separated segment of the Authorization header, when there is one. */
  function BearerToken(authorization: string): (t: Option<string>)
    ensures t.Some? <==> ' ' in authorization
    ensures t.Some? ==> ' ' !in t.value
  {
    var parts := Split(authorization);
    if |parts| > 1 then Some(parts[1]) else None
  }

  /** "Bearer <token>", optionally followed by more space-separated text, yields exactly <token>. */
  lemma BearerTokenOf(scheme: string, token: string, rest: string)
    requires ' ' !in scheme && ' ' !in token
    requires rest == [] || rest[0] == ' '
    ensures BearerToken(scheme + " " + token + rest) == Some(token)
  {
    var tail := token + rest;
    var spaced := " " + tail;
    assert scheme + " " + token + rest == scheme + spaced;
    SplitPrefix(scheme, spaced);
    assert spaced != [] && spaced[0] == ' ' && spaced[1..] == tail;
    assert Split(spaced) == [""] + Split(tail);
    SplitPrefix(token, rest);
    if rest != [] {
      assert rest[0] == ' ';
      assert Split(rest) == [""] + Split(rest[1..]);
    }
    assert Split(rest)[0] == "";
    assert Split(tail)[0] == token;
    var parts := Split(scheme + spaced);
    assert parts == [scheme + Split(spaced)[0]] + Split(spaced)[1..];
    assert parts[1] == Split(spaced)[1] == Split(tail)[0];
  }

  /** The three ways authenticateUser ends: next() with the decoded claims, a JSON error, or an exception. */
  datatype Verdict = Pass(user: Claims) | Deny(status: int, message: string) | Throws

  /**
   * authenticateUser's decision. A request without an Authorization header
   * makes `.split` throw; an absent or empty token is 401 "Access Denied"; a
   * token `verify` rejects is 401 "Authentication failed".
   */
  function Authenticate(authorization: Option<string>, verify: string -> Option<Claims>): (v: Verdict)
    ensures v.Throws? <==> authorization.None?
    ensures v == Deny(UNAUTHORIZED, "Access Denied") <==>
              authorization.Some? && BearerToken(authorization.value) in {None, Some("")}
    ensures v == Deny(UNAUTHORIZED, "Authentication failed") <==>
              authorization.Some? && (var t := BearerToken(authorization.value);
                                      t.Some? && t.value != "" && verify(t.value).None?)
    ensures v.Pass? ==>
              authorization.Some? && (var t := BearerToken(authorization.value);
                                      t.Some? && t.value != "" && verify(t.value) == Some(v.user))
    ensures (authorization.Some? && (var t := BearerToken(authorization.value);
                                     t.Some? && t.value != "" && verify(t.value).Some?)) ==> v.Pass?
    ensures v.Deny? ==> v.status == UNAUTHORIZED
  {
    if authorization.None? then Throws
    else
      var token := BearerToken(authorization.value);
      if token.None? || token.value == "" then Deny(UNAUTHORIZED, "Access Denied")
      else
        match verify(token.value)
        case None => Deny(UNAUTHORIZED, "Authentication failed")
        case Some(decoded) => Pass(decoded)
  }

  predicate IsSupervisorRole(user: Claims) {
    user.role == Str("supervisor")
  }

  /** isSupervisor's decision: 403 exactly when the role is not the string "supervisor". */
  function IsSupervisor(user: Claims): (v: Verdict)
    ensures v.Deny? <==> user.role != Str("supervisor")
    ensures v.Deny? ==> v == Deny(FORBIDDEN, "Access Denied")
    ensures !v.Deny? ==> v == Pass(user)
  {
    if user.role != Str("supervisor") then Deny(FORBIDDEN, "Access Denied") else Pass(user)
  }

  /** What a middleware wrote to `res`: a JSON reply, or an exception that Express answers with its error page (500). */
  datatype Sent = Json(status: int, message: string) | Uncaught

  /** One request passing through the middleware chain: `req.headers.authorization`, `req.user` and `res`. */
  class Exchange {
    const authorization: Option<string>
    var user: Option<Claims>
    var sent: Option<Sent>

    constructor (authorization: Option<string>)
      ensures this.authorization == authorization && user == None && sent == None
    {
      this.authorization := authorization;
      user := None;
      sent := None;
    }

    /** authenticateUser: sets `req.user` and calls next, or answers and stops. */
    method AuthenticateUser(verify: string -> Option<Claims>) returns (next: bool)
      requires sent == None
      modifies this
      ensures next <==> Authenticate(authorization, verify).Pass?
      ensures match Authenticate(authorization, verify)
              case Pass(c) => user == Some(c) && sent == None
              case Deny(s, m) => user == old(user) && sent == Some(Json(s, m))
              case Throws => user == old(user) && sent == Some(Uncaught)
    {
      if authorization.None? {
        sent := Some(Uncaught);
        return false;
      }
      var token := BearerToken(authorization.value);
      if token.None? || token.value == "" {
        sent := Some(Json(UNAUTHORIZED, "Access Denied"));
        return false;
      }
      var decoded := verify(token.value);
      if decoded.None? {
        sent := Some(Json(UNAUTHORIZED, "Authentication failed"));
        return false;
      }
      user := decoded;
      next := true;
    }

    /** isSupervisor: runs after authenticateUser, so `req.user` is set. */
    method IsSupervisorGate() returns (next: bool)
      requires user.Some? && sent == None
      modifies this`sent
      ensures next <==> IsSupervisorRole(user.value)
      ensures next ==> sent == None
      ensures !next ==> sent == Some(Json(FORBIDDEN, "Access Denied"))
    {
      if user.value.role != Str("supervisor") {
        sent := Some(Json(FORBIDDEN, "Access Denied"));
        return false;
      }
      next := true;
    }
  }
}
