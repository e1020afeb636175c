/**
 * JavaScript values as they arrive in request bodies and come back in
 * database rows, and the truthiness rule that the handlers' `!x` checks use.
 */
module Js {
  import opened Wrappers

  datatype Val =
    | Undefined
    | Null
    | Bool(b: bool)
    | Num(n: int)
    | Str(s: string)
    | Arr(items: seq<Val>)
    | Obj(fields: map<string, Val>)

  /** `!v` holds exactly for undefined, null, false, 0 and "" (numbers are integers here, so NaN and -0 do not arise). */
  predicate Falsy(v: Val) {
    v == Undefined || v == Null || v == Bool(false) || v == Num(0) || v == Str("")
  }

  predicate Nullish(v: Val) {
    v == Undefined || v == Null
  }

  /** `!a || !b || ...` over the listed body fields. */
  predicate MissingAny(vs: seq<Val>) {
    exists v :: v in vs && Falsy(v)
  }

  /** `a || b` */
  function Or(a: Val, b: Val): Val {
    if Falsy(a) then b else a
  }

  /** A property read on a plain object record: a missing key reads as undefined. */
  function Get(o: map<string, Val>, k: string): Val {
    if k in o then o[k] else Undefined
  }

  /** `v.k`: None when it throws (v is null or undefined); primitives and arrays have none of the record keys. */
  function Prop(v: Val, k: string): (r: Option<Val>)
    ensures r.None? <==> Nullish(v)
    ensures v.Obj? ==> r == Some(Get(v.fields, k))
  {
    match v
    case Undefined => None
    case Null => None
    case Obj(fields) => Some(Get(fields, k))
    case _ => Some(Undefined)
  }
}
