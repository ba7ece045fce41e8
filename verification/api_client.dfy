/** `api(path, opts)` of the community page: one request, whose reply is turned into a value the
    callers test with `j.error`. The request itself is not modelled: what `fetch` produced (a
    response or a network failure) is the input, together with the outcome of `JSON.parse` on
    the body. */
module ApiClient {
  import opened Text
  import opened Json

  /** What the request produced. `parsed` is `JSON.parse(body)`, `None` when it throws; `message`
      is `String(err)` for the exception a failed request raised. */
  datatype Fetched =
    | NetworkError(message: string)
    | Response(status: int, statusText: string, body: string, parsed: Option<Json>)

  /** `r.ok`: a status in the range 200-299. */
  predicate Ok(f: Fetched)
    requires f.Response?
  {
    200 <= f.status <= 299
  }

  /** `text ? JSON.parse(text) : null`, with a parse failure leaving `null`. */
  function Data(f: Fetched): (d: Json)
    requires f.Response?
    ensures f.body == "" ==> d == JNull
    ensures f.body != "" && f.parsed.Some? ==> d == f.parsed.value
    ensures f.body != "" && f.parsed.None? ==> d == JNull
  {
    if f.body == "" then JNull else f.parsed.GetOr(JNull)
  }

  /** The object literal `{ error: e, details: d }`. */
  function ErrorObject(e: Json, d: Json): (r: Json)
    ensures JsField(r, "error") == Some(e) && JsField(r, "details") == Some(d)
  {
    JObj(map["error" := e, "details" := d])
  }

  /** The message of an error reply without a usable error object. */
  function HttpMessage(status: int, statusText: string): (r: string)
    ensures StartsWith(r, "HTTP ")
  {
    "HTTP " + IntToString(status) + " " + statusText
  }

  /** The value `api` resolves to. */
  function Api(f: Fetched): (r: Json)
    ensures f.NetworkError? ==> r == ErrorObject(JStr("network-error"), JStr(f.message))
    ensures f.Response? && Ok(f) ==> r == Data(f)
    ensures f.Response? && !Ok(f) ==> r.JObj? && JsField(r, "error").Some? && JsField(r, "details").Some?
  {
    match f
    case NetworkError(m) => ErrorObject(JStr("network-error"), JStr(m))
    case Response(status, statusText, body, _) =>
      var data := Data(f);
      if !Ok(f) then
        if JsTruthy(data) && JsTruthyOpt(JsField(data, "error")) then
          var details := JsField(data, "details");
          ErrorObject(JsField(data, "error").value, if JsTruthyOpt(details) then details.value else JStr(body))
        else ErrorObject(JStr(HttpMessage(status, statusText)), JStr(body))
      else data
  }

  /** A caller's `if (j.error)` on the value `api` resolved to: `None` when reading the property
      throws, as it does on `null`; otherwise whether the branch is taken. */
  function ErrorFlag(j: Json): (r: Option<bool>)
    ensures r.None? <==> j.JNull?
    ensures r == Some(true) <==> JsTruthyOpt(JsField(j, "error"))
  {
    if j.JNull? then None else Some(JsTruthyOpt(JsField(j, "error")))
  }

  /** A caller's `if (j.error)` throws exactly for a successful reply whose data is `null`, and
      fires exactly for a network failure, an error status, or a successful reply whose own body
      carries a truthy `error`. */
  lemma ErrorFlagIff(f: Fetched)
    ensures ErrorFlag(Api(f)).None? <==> f.Response? && Ok(f) && Data(f) == JNull
    ensures ErrorFlag(Api(f)) == Some(true) <==>
      f.NetworkError? || !Ok(f) || JsTruthyOpt(JsField(Data(f), "error"))
  {
    if f.Response? && !Ok(f) {
      var s := HttpMessage(f.status, f.statusText);
      assert s[0] == 'H';
    }
  }

  /** On an error status the server's own `error` wins, and its `details` fall back to the raw
      body; without an error object the body becomes the details. */
  lemma ErrorDetails(f: Fetched)
    requires f.Response? && !Ok(f)
    ensures JsTruthyOpt(JsField(Data(f), "error")) ==>
      JsField(Api(f), "error") == JsField(Data(f), "error")
      && (JsTruthyOpt(JsField(Data(f), "details")) ==> JsField(Api(f), "details") == JsField(Data(f), "details"))
      && (!JsTruthyOpt(JsField(Data(f), "details")) ==> JsField(Api(f), "details") == Some(JStr(f.body)))
    ensures !JsTruthyOpt(JsField(Data(f), "error")) ==>
      Api(f) == ErrorObject(JStr(HttpMessage(f.status, f.statusText)), JStr(f.body))
  {
  }

  /** A successful reply with an empty, unparsable or `null` body resolves to `null`, on which a
      caller's `j.error` throws. */
  lemma EmptyOkIsNull(f: Fetched)
    requires f.Response? && Ok(f) && (f.body == "" || f.parsed.None? || f.parsed == Some(JNull))
    ensures Api(f) == JNull && ErrorFlag(Api(f)).None?
  {
  }

  /** The status code read back from an `HTTP <status> <text>` message. */
  function StatusOf(msg: string): (r: Option<int>)
  {
    var parts := Split(msg, ' ');
    if |parts| >= 2 && parts[0] == "HTTP" then ParseIntLiteral(parts[1]) else None
  }

  /** The status code survives in the message, whatever the status text. */
  lemma HttpMessageStatus(status: int, statusText: string)
    ensures StatusOf(HttpMessage(status, statusText)) == Some(status)
  {
    var n := IntToString(status);
    IntToStringNoSpace(status);
    assert ' ' !in "HTTP" by {
      assert forall i :: 0 <= i < 4 ==> "HTTP"[i] != ' ';
    }
    assert HttpMessage(status, statusText) == "HTTP" + " " + (n + " " + statusText);
    SplitTwoWords("HTTP", n, statusText);
    LiteralRoundTrip(status);
  }

  lemma IntToStringNoSpace(n: int)
    ensures ' ' !in IntToString(n)
  {
    var s := IntToString(n);
    assert forall i :: 0 <= i < |s| ==> s[i] == '-' || IsDigit(s[i]);
  }
}
