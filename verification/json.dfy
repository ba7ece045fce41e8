/** JSON values as both the Flask app and the browser scripts see them. Numbers are integers:
    fractional numbers, which a client could send, are outside the model. */
module Json {
  import opened Text

  datatype Json =
    | JNull
    | JBool(b: bool)
    | JNum(n: int)
    | JStr(s: string)
    | JArr(items: seq<Json>)
    | JObj(fields: map<string, Json>)

  /** Python truthiness of a decoded JSON value (`None`, `False`, `0`, `""`, `[]`, `{}` are false). */
  predicate PyTruthy(v: Json)
  {
    match v
    case JNull => false
    case JBool(b) => b
    case JNum(n) => n != 0
    case JStr(s) => s != ""
    case JArr(items) => |items| > 0
    case JObj(fields) => |fields| > 0
  }

  /** Python `a or b`. */
  function PyOr(a: Json, b: Json): (r: Json)
    ensures PyTruthy(a) ==> r == a
    ensures !PyTruthy(a) ==> r == b
  {
    if PyTruthy(a) then a else b
  }

  /** Python `d.get(k)` on a dict: `None` (JSON null) when the key is absent. */
  function PyGet(d: map<string, Json>, k: string): Json
  {
    if k in d then d[k] else JNull
  }

  /** Python `int(v)` on a decoded JSON value: `None` stands for the exception `int()` raises. */
  function PyInt(v: Json): (r: Option<int>)
    ensures v.JNum? ==> r == Some(v.n)
    ensures v.JNull? || v.JArr? || v.JObj? ==> r.None?
  {
    match v
    case JNum(n) => Some(n)
    case JBool(b) => Some(if b then 1 else 0)
    case JStr(s) => PyParseInt(s)
    case _ => None
  }

  /** Python `(v or "").strip()`: `None` when `v` is a truthy non-string,
      on which `.strip()` raises. */
  function PyStrippedOrEmpty(v: Json): (r: Option<string>)
    ensures !PyTruthy(v) ==> r == Some("")
    ensures v.JStr? ==> r == Some(Trim(PySpaces, v.s))
    ensures PyTruthy(v) && !v.JStr? ==> r.None?
  {
    if !PyTruthy(v) then Some("")
    else match v
      case JStr(s) => Some(Trim(PySpaces, s))
      case _ => None
  }

  /** JavaScript truthiness: arrays and objects are truthy even when empty. */
  predicate JsTruthy(v: Json)
  {
    match v
    case JNull => false
    case JBool(b) => b
    case JNum(n) => n != 0
    case JStr(s) => s != ""
    case JArr(_) => true
    case JObj(_) => true
  }

  /** The value of the property `k` of a value that is not `null`: `None` stands for `undefined`.
      Reading a property of `null` throws in JavaScript; the readers that can meet `null` say so
      themselves (`ApiClient.ErrorFlag`, `CommunityView.StringProp`). */
  function JsField(v: Json, k: string): (r: Option<Json>)
    ensures r.Some? ==> v.JObj? && k in v.fields
  {
    match v
    case JObj(fields) => if k in fields then Some(fields[k]) else None
    case _ => None
  }

  /** JavaScript truthiness extended to `undefined`. */
  predicate JsTruthyOpt(v: Option<Json>)
  {
    v.Some? && JsTruthy(v.value)
  }
}
