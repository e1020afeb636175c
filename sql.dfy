/**
 * The meaning given to the handlers' SQL statements over an in-memory table:
 * a table is a sequence of rows, a WHERE clause is a predicate on rows, and
 * SELECT, COUNT(*), UPDATE and DELETE are the functions below. SQL fixes no
 * order for a result without ORDER BY; the sequence order is one permitted
 * choice.
 */
module Sql {
  import opened Js

  /** `a = b` in a WHERE clause: NULL never compares equal (undefined is sent as NULL). */
  predicate Eq(a: Val, b: Val) {
    a == b && !Nullish(a)
  }

  /** SELECT COUNT(*) ... WHERE p */
  function Count<T>(rows: seq<T>, p: T -> bool): (n: nat)
    ensures n <= |rows|
    ensures n == 0 <==> forall i :: 0 <= i < |rows| ==> !p(rows[i])
    ensures n == |rows| <==> forall i :: 0 <= i < |rows| ==> p(rows[i])
  {
    if rows == [] then 0
    else
      var rest := Count(rows[1..], p);
      assert forall i :: 1 <= i < |rows| ==> rows[i] == rows[1..][i - 1];
      (if p(rows[0]) then 1 else 0) + rest
  }

  /** SELECT * ... WHERE p: the matching rows, in sequence order. */
  function Where<T(!new)>(rows: seq<T>, p: T -> bool): (r: seq<T>)
    ensures |r| == Count(rows, p)
    ensures forall x :: x in r <==> x in rows && p(x)
  {
    if rows == [] then []
    else
      assert rows == [rows[0]] + rows[1..];
      (if p(rows[0]) then [rows[0]] else []) + Where(rows[1..], p)
  }

  /** DELETE ... WHERE p: the rows that do not match, in sequence order. */
  function Without<T(!new)>(rows: seq<T>, p: T -> bool): (r: seq<T>)
    ensures |r| == |rows| - Count(rows, p)
    ensures forall x :: x in r <==> x in rows && !p(x)
  {
    if rows == [] then []
    else
      assert rows == [rows[0]] + rows[1..];
      (if p(rows[0]) then [] else [rows[0]]) + Without(rows[1..], p)
  }

  /** UPDATE ... SET ... WHERE p, where f is the SET list applied to one row. */
  function Update<T>(rows: seq<T>, p: T -> bool, f: T -> T): (r: seq<T>)
    ensures |r| == |rows|
    ensures forall i :: 0 <= i < |rows| ==> r[i] == if p(rows[i]) then f(rows[i]) else rows[i]
  {
    if rows == [] then []
    else [if p(rows[0]) then f(rows[0]) else rows[0]] + Update(rows[1..], p, f)
  }

  /** `Where` keeps every matching row as often as the table holds it, and no other row. */
  lemma {:induction false} WhereMultiset<T(!new)>(rows: seq<T>, p: T -> bool)
    ensures forall x :: multiset(Where(rows, p))[x] == if p(x) then multiset(rows)[x] else 0
  {
    if rows != [] {
      WhereMultiset(rows[1..], p);
      assert rows == [rows[0]] + rows[1..];
      assert multiset(rows) == multiset([rows[0]]) + multiset(rows[1..]);
      var head := if p(rows[0]) then [rows[0]] else [];
      assert Where(rows, p) == head + Where(rows[1..], p);
      assert multiset(Where(rows, p)) == multiset(head) + multiset(Where(rows[1..], p));
    }
  }

  /** `Without` keeps every non-matching row as often as the table holds it, and no other row. */
  lemma {:induction false} WithoutMultiset<T(!new)>(rows: seq<T>, p: T -> bool)
    ensures forall x :: multiset(Without(rows, p))[x] == if p(x) then 0 else multiset(rows)[x]
  {
    if rows != [] {
      WithoutMultiset(rows[1..], p);
      assert rows == [rows[0]] + rows[1..];
      assert multiset(rows) == multiset([rows[0]]) + multiset(rows[1..]);
      var head := if p(rows[0]) then [] else [rows[0]];
      assert Without(rows, p) == head + Without(rows[1..], p);
      assert multiset(Without(rows, p)) == multiset(head) + multiset(Without(rows[1..], p));
    }
  }

  /** The first row `Where` returns is the first matching row of the table. */
  lemma {:induction false} WhereHead<T(!new)>(rows: seq<T>, p: T -> bool)
    requires Where(rows, p) != []
    ensures exists i :: 0 <= i < |rows| && p(rows[i]) && rows[i] == Where(rows, p)[0] &&
                        forall j :: 0 <= j < i ==> !p(rows[j])
  {
    if !p(rows[0]) {
      WhereHead(rows[1..], p);
      var i :| 0 <= i < |rows[1..]| && p(rows[1..][i]) && rows[1..][i] == Where(rows[1..], p)[0] &&
               forall j :: 0 <= j < i ==> !p(rows[1..][j]);
      assert rows[i + 1] == rows[1..][i];
      forall j | 0 <= j < i + 1 ensures !p(rows[j]) {
        if j > 0 { assert rows[j] == rows[1..][j - 1]; }
      }
    } else {
      assert p(rows[0]) && rows[0] == Where(rows, p)[0];
    }
  }

  /** Appending one row adds one to every count it matches. */
  lemma {:induction false} CountAppend<T>(rows: seq<T>, x: T, p: T -> bool)
    ensures Count(rows + [x], p) == Count(rows, p) + if p(x) then 1 else 0
  {
    if rows != [] {
      assert (rows + [x])[1..] == rows[1..] + [x];
      CountAppend(rows[1..], x, p);
    }
  }

  /**
   * When, on every row, p holds exactly if one of a and b does and never both,
   * the counts of a and b add up to the count of p.
   */
  lemma {:induction false} CountSplit<T>(rows: seq<T>, p: T -> bool, a: T -> bool, b: T -> bool)
    requires forall i :: 0 <= i < |rows| ==> (p(rows[i]) <==> a(rows[i]) || b(rows[i]))
    requires forall i :: 0 <= i < |rows| ==> !(a(rows[i]) && b(rows[i]))
    ensures Count(rows, a) + Count(rows, b) == Count(rows, p)
  {
    if rows != [] {
      assert forall i :: 1 <= i < |rows| ==> rows[i] == rows[1..][i - 1];
      CountSplit(rows[1..], p, a, b);
    }
  }

  /** A narrower filter never counts more rows. */
  lemma {:induction false} CountMonotone<T>(rows: seq<T>, p: T -> bool, q: T -> bool)
    requires forall i :: 0 <= i < |rows| ==> p(rows[i]) ==> q(rows[i])
    ensures Count(rows, p) <= Count(rows, q)
  {
    if rows != [] {
      assert forall i :: 1 <= i < |rows| ==> rows[i] == rows[1..][i - 1];
      CountMonotone(rows[1..], p, q);
    }
  }

  /** Deleting rows never raises a count. */
  lemma {:induction false} CountWithout<T(!new)>(rows: seq<T>, p: T -> bool, q: T -> bool)
    ensures Count(Without(rows, p), q) <= Count(rows, q)
  {
    if rows != [] {
      var rt := Without(rows[1..], p);
      CountWithout(rows[1..], p, q);
      assert Count(rows, q) == (if q(rows[0]) then 1 else 0) + Count(rows[1..], q);
      if p(rows[0]) {
        assert Without(rows, p) == rt;
      } else {
        assert Without(rows, p) == [rows[0]] + rt;
        assert ([rows[0]] + rt)[1..] == rt;
        assert Count([rows[0]] + rt, q) == (if q(rows[0]) then 1 else 0) + Count(rt, q);
      }
    }
  }

  /** An UPDATE whose SET list never changes whether q holds leaves q's count as it was. */
  lemma {:induction false} CountUpdate<T>(rows: seq<T>, p: T -> bool, f: T -> T, q: T -> bool)
    requires forall i :: 0 <= i < |rows| && p(rows[i]) ==> (q(f(rows[i])) <==> q(rows[i]))
    ensures Count(Update(rows, p, f), q) == Count(rows, q)
  {
    if rows != [] {
      assert forall i :: 1 <= i < |rows| ==> rows[i] == rows[1..][i - 1];
      CountUpdate(rows[1..], p, f, q);
      var r := Update(rows, p, f);
      assert r[1..] == Update(rows[1..], p, f);
    }
  }

  /** An UPDATE whose SET list keeps q true where it held never lowers q's count. */
  lemma {:induction false} CountUpdateGrows<T>(rows: seq<T>, p: T -> bool, f: T -> T, q: T -> bool)
    requires forall i :: 0 <= i < |rows| && p(rows[i]) && q(rows[i]) ==> q(f(rows[i]))
    ensures Count(rows, q) <= Count(Update(rows, p, f), q)
  {
    if rows != [] {
      assert forall i :: 1 <= i < |rows| ==> rows[i] == rows[1..][i - 1];
      CountUpdateGrows(rows[1..], p, f, q);
      var r := Update(rows, p, f);
      assert r[1..] == Update(rows[1..], p, f);
    }
  }

  /** An UPDATE whose SET list never makes q true where it was false never raises q's count. */
  lemma {:induction false} CountUpdateShrinks<T>(rows: seq<T>, p: T -> bool, f: T -> T, q: T -> bool)
    requires forall i :: 0 <= i < |rows| && p(rows[i]) && !q(rows[i]) ==> !q(f(rows[i]))
    ensures Count(Update(rows, p, f), q) <= Count(rows, q)
  {
    if rows != [] {
      assert forall i :: 1 <= i < |rows| ==> rows[i] == rows[1..][i - 1];
      CountUpdateShrinks(rows[1..], p, f, q);
      var r := Update(rows, p, f);
      assert r[1..] == Update(rows[1..], p, f);
    }
  }

  /** Counting q among the rows a WHERE p returns is counting `p AND q` over the table. */
  lemma {:induction false} CountOfWhere<T(!new)>(rows: seq<T>, p: T -> bool, q: T -> bool, pq: T -> bool)
    requires forall x :: pq(x) == (p(x) && q(x))
    ensures Count(Where(rows, p), q) == Count(rows, pq)
  {
    if rows != [] {
      CountOfWhere(rows[1..], p, q, pq);
      var rest := Where(rows[1..], p);
      if p(rows[0]) {
        assert Where(rows, p) == [rows[0]] + rest;
        assert ([rows[0]] + rest)[1..] == rest;
      } else {
        assert Where(rows, p) == rest;
      }
    }
  }

  /** A WHERE that every row meets returns the whole table. */
  lemma {:induction false} WhereAll<T(!new)>(rows: seq<T>, p: T -> bool)
    requires forall i :: 0 <= i < |rows| ==> p(rows[i])
    ensures Where(rows, p) == rows
  {
    if rows != [] {
      assert forall i :: 1 <= i < |rows| ==> rows[i] == rows[1..][i - 1];
      WhereAll(rows[1..], p);
      assert rows == [rows[0]] + rows[1..];
    }
  }
}
