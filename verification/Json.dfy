/** Decoded JSON values as the Python code sees them. */
module Json {
  import opened Text

  /** A number is kept as its text and whether it is zero. Object keys are in insertion order. */
  datatype Json =
    | JNull
    | JBool(b: bool)
    | JNum(text: string, zero: bool)
    | JStr(s: string)
    | JList(items: seq<Json>)
    | JObj(fields: seq<(string, Json)>)

  function Lookup(fields: seq<(string, Json)>, key: string): (v: Option<Json>)
    ensures v.Some? ==> (key, v.value) in fields
  {
    if fields == [] then None
    else if fields[0].0 == key then Some(fields[0].1)
    else Lookup(fields[1..], key)
  }

  /** `dict.get(key)` */
  function Get(fields: seq<(string, Json)>, key: string): Json {
    match Lookup(fields, key) case None => JNull case Some(v) => v
  }

  /** Python truth of a value. */
  predicate IsTruthy(v: Json) {
    match v
    case JNull => false
    case JBool(b) => b
    case JNum(_, zero) => !zero
    case JStr(s) => s != ""
    case JList(items) => items != []
    case JObj(fields) => fields != []
  }

  /** `str(v)`: a string is itself; how other values are written is left to `repr`. */
  function ToStr(v: Json, repr: Json -> string): string {
    if v.JStr? then v.s else repr(v)
  }

  /** Only null, false, zero and what is empty count as false. */
  lemma {:induction false} FalsyAre(v: Json)
    ensures !IsTruthy(v) <==> v in {JNull, JBool(false), JStr(""), JList([]), JObj([])} || (v.JNum? && v.zero)
  {
  }
}
