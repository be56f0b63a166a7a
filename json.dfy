/** JSON-like values as the recognition service returns them, with Python's
    truthiness and `dict.get`, which the defensive parsers rely on. */
module PyJson {
  import opened Optional

  datatype Json =
    | JNull
    | JBool(b: bool)
    | JNum(n: real)
    | JStr(s: string)
    | JArr(items: seq<Json>)
    | JObj(fields: map<string, Json>)

  /** Python truthiness: None, False, 0, "", [] and {} are falsy. */
  predicate IsTruthy(j: Json) {
    match j
    case JNull => false
    case JBool(b) => b
    case JNum(n) => n != 0.0
    case JStr(s) => s != ""
    case JArr(xs) => xs != []
    case JObj(m) => m != map[]
  }

  /** `d.get(k)`: the value under `k`, or None. */
  function Get(j: Json, k: string): (r: Json)
    requires j.JObj?
    ensures k !in j.fields ==> r == JNull
  {
    if k in j.fields then j.fields[k] else JNull
  }

  /** Python's `a or b`: the first operand when truthy, else the second. */
  function Or(a: Json, b: Json): (r: Json)
    ensures IsTruthy(r) <==> IsTruthy(a) || IsTruthy(b)
    ensures IsTruthy(a) ==> r == a
  {
    if IsTruthy(a) then a else b
  }

  /** `for x in (j or [])`: the elements a loop sees, or None when iterating
      raises (a number or `True`). A string or a dict yields strings, which
      every loop over these values skips, so they are given as no elements. */
  function LoopItems(j: Json): (r: Option<seq<Json>>)
    ensures !IsTruthy(j) ==> r == Some([])
    ensures r.None? <==> (j.JNum? && j.n != 0.0) || j == JBool(true)
  {
    if !IsTruthy(j) then Some([])
    else match j
      case JArr(xs) => Some(xs)
      case JStr(_) => Some([])
      case JObj(_) => Some([])
      case _ => None
  }
}
