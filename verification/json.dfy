/**
 * JSON values as `json.load` returns them, with the two Python behaviours the extraction code
 * depends on: truthiness (`if not page_text`) and `len`.
 */
module JsonValue {
  import opened Basics

  /** A decoded JSON value; numbers are integers. */
  datatype Json =
    | JNull
    | JBool(b: bool)
    | JInt(i: int)
    | JStr(s: string)
    | JArr(elems: seq<Json>)
    | JObj(fields: map<string, Json>)

  /** Python truthiness: `None`, `False`, `0`, and empty strings, lists and dicts are false. */
  predicate Truthy(j: Json) {
    match j
    case JNull => false
    case JBool(b) => b
    case JInt(i) => i != 0
    case JStr(s) => s != ""
    case JArr(es) => es != []
    case JObj(fs) => fs != map[]
  }

  /** Python's `len`: defined for strings, lists and dicts; `None` where `len` raises `TypeError`. */
  function Len(j: Json): (n: Option<nat>)
    ensures n.Some? <==> (j.JStr? || j.JArr? || j.JObj?)
    ensures n.Some? ==> (n.value == 0 <==> !Truthy(j))
  {
    match j
    case JStr(s) => Some(|s|)
    case JArr(es) => Some(|es|)
    case JObj(fs) => Some(|fs|)
    case _ => None
  }
}
