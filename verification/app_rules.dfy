/** The Flask app's request rules that run before and around its database and model calls:
    input normalisation, rejection of empty input, the emergency-keyword short cut, the prompt
    built from the symptom log, and the extraction of the model's reply. The database and the
    model endpoint are not modelled: rows arrive as a sequence, the model's answer as JSON. */
module AppRules {
  import opened Text
  import opened Json

  /** How a handler ends. `Crash` is an uncaught exception, which Flask answers with status 500. */
  datatype Outcome<T> =
    | Crash
    | Reject(error: string, status: int)
    | Emergency(reply: string)
    | Accept(value: T)

  /** `request.get_json() or {}`. */
  function BodyOrEmpty(body: Json): (r: Json)
    ensures !PyTruthy(body) ==> r == JObj(map[])
    ensures PyTruthy(body) ==> r == body
  {
    PyOr(body, JObj(map[]))
  }

  /** `d.get(k)`: `None` when `d` is not a dict and `.get` raises. */
  function DictGet(d: Json, k: string): (r: Option<Json>)
    ensures d.JObj? <==> r.Some?
    ensures d.JObj? && k !in d.fields ==> r == Some(JNull)
    ensures d.JObj? && k in d.fields ==> r == Some(d.fields[k])
  {
    if d.JObj? then Some(PyGet(d.fields, k)) else None
  }

  /** `(data.get(k) or "").strip()`; `None` when that raises. */
  function StrippedField(data: Json, k: string): (r: Option<string>)
    ensures r.Some? ==> Trim(PySpaces, r.value) == r.value
  {
    match DictGet(data, k)
    case None => None
    case Some(v) =>
      var r := PyStrippedOrEmpty(v);
      if v.JStr? then TrimIdempotent(PySpaces, v.s); r
      else if r.Some? then TrimTrimmed(PySpaces, ""); r
      else r
  }

  /** `int(data.get(k) or 0)` inside a bare `try` whose handler sets 0. */
  function IntOrZero(data: Json, k: string): (r: int)
    requires data.JObj?
  {
    PyInt(PyOr(DictGet(data, k).value, JNum(0))).GetOr(0)
  }

  /** A number reads as that number, and so does its decimal text unless it has more digits
      than `int()` accepts, in which case the handler's 0 applies. */
  lemma IntOrZeroOf(f: map<string, Json>, k: string, n: int)
    requires PyGet(f, k) == JNum(n) || PyGet(f, k) == JStr(IntToString(n))
    ensures PyGet(f, k) == JNum(n) || WithinStrDigits(n) ==> IntOrZero(JObj(f), k) == n
    ensures PyGet(f, k) == JStr(IntToString(n)) && !WithinStrDigits(n) ==> IntOrZero(JObj(f), k) == 0
  {
    var v := PyGet(f, k);
    if v.JStr? {
      assert PyOr(v, JNum(0)) == v by {
        assert PyTruthy(v);
      }
      IntRoundTrip(n);
    }
  }

  /** sqlite3 binds a Python `int` as a signed 64-bit integer and raises `OverflowError` for
      any other. */
  predicate FitsSqlite(n: int)
  {
    -0x8000_0000_0000_0000 <= n <= 0x7FFF_FFFF_FFFF_FFFF
  }

  /** A value sqlite3 can bind has few enough digits for `int()`. */
  lemma FitsWithinDigits(n: int)
    requires FitsSqlite(n)
    ensures WithinStrDigits(n)
  {
    WithinStrDigitsSmall(n);
  }

  /** A missing, null, empty or unparsable value reads as 0. */
  lemma IntOrZeroDefault(f: map<string, Json>, k: string)
    requires var v := PyGet(f, k); v == JNull || v == JStr("") || (v.JStr? && PyParseInt(v.s).None?)
    ensures IntOrZero(JObj(f), k) == 0
  {
  }

  /** A string field of a dict body reads as its stripped form. */
  lemma StrippedString(f: map<string, Json>, k: string, s: string)
    requires PyGet(f, k) == JStr(s)
    ensures StrippedField(BodyOrEmpty(JObj(f)), k) == Some(Trim(PySpaces, s))
  {
    DictBody(f);
  }

  /** A dict body is used as it is: an empty dict is replaced by an equal one. */
  lemma DictBody(f: map<string, Json>)
    ensures BodyOrEmpty(JObj(f)) == JObj(f)
  {
    if |f| == 0 {
      assert f.Keys == {};
      assert f == map[];
    }
  }

  // ---------------------------------------------------------------------------------------------
  // Emergency keywords

  /** `EMERGENCY_KEYWORDS`. */
  const EmergencyKeywords: set<string> := {"severe bleeding", "unconscious", "suicide", "self-harm", "chest pain"}

  /** `any(k in s for k in EMERGENCY_KEYWORDS)`: a keyword occurs anywhere, as a substring. */
  predicate SoundsUrgent(s: string)
  {
    exists k :: k in EmergencyKeywords && Contains(s, k)
  }

  /** No keyword can occur in text that lacks each keyword's first letter. */
  lemma NotUrgentWithout(s: string)
    requires 's' !in s && 'u' !in s && 'c' !in s
    ensures !SoundsUrgent(s)
  {
    forall k | k in EmergencyKeywords ensures !Contains(s, k) {
      ContainsIff(s, k);
      assert k[0] == 's' || k[0] == 'u' || k[0] == 'c';
      forall i ensures !OccursAt(s, k, i) {
        if 0 <= i && i + |k| <= |s| {
          assert s[i..i + |k|][0] == s[i];
          assert s[i] != k[0];
        }
      }
    }
  }

  lemma UrgentAt(s: string, k: string, i: int)
    requires k in EmergencyKeywords && OccursAt(s, k, i)
    ensures SoundsUrgent(s)
  {
    ContainsIff(s, k);
  }

  // ---------------------------------------------------------------------------------------------
  // POST /api/query

  const QueryEmergency := "\U{26A0}\U{FE0F} This may be an emergency. Please call your local emergency number immediately."

  /** `query_model` up to the model request: the stripped text is forwarded unless it is empty
      or lower-cased it contains a keyword. */
  function TriageQuery(body: Json): (r: Outcome<string>)
    ensures r.Reject? ==> r == Reject("empty query", 400)
    ensures r.Emergency? ==> r.reply == QueryEmergency
    ensures r.Accept? ==> r.value != "" && Trim(PySpaces, r.value) == r.value && !SoundsUrgent(Lower(r.value))
  {
    match StrippedField(BodyOrEmpty(body), "text")
    case None => Crash
    case Some(t) =>
      if t == "" then Reject("empty query", 400)
      else if SoundsUrgent(Lower(t)) then Emergency(QueryEmergency)
      else Accept(t)
  }

  /** For a text field the outcome is decided by its stripped form alone: rejected when that is
      empty, the emergency reply when it holds a keyword in any letter case, otherwise forwarded. */
  lemma QueryText(f: map<string, Json>, s: string)
    requires PyGet(f, "text") == JStr(s)
    ensures var t := Trim(PySpaces, s);
      TriageQuery(JObj(f)) ==
        if t == "" then Reject("empty query", 400)
        else if SoundsUrgent(Lower(t)) then Emergency(QueryEmergency)
        else Accept(t)
  {
    StrippedString(f, "text", s);
  }

  /** No body at all, or a text that is missing, null or empty, is an empty query. */
  lemma QueryMissingText(f: map<string, Json>)
    requires !PyTruthy(PyGet(f, "text"))
    ensures TriageQuery(JNull) == Reject("empty query", 400)
    ensures TriageQuery(JObj(f)) == Reject("empty query", 400)
  {
    DictBody(f);
  }

  /** Spaces around the text change nothing. */
  lemma QueryPadding(f: map<string, Json>, g: map<string, Json>, lead: string, s: string, trail: string)
    requires AllSpace(PySpaces, lead) && AllSpace(PySpaces, trail)
    requires PyGet(f, "text") == JStr(lead + s + trail) && PyGet(g, "text") == JStr(s)
    ensures TriageQuery(JObj(f)) == TriageQuery(JObj(g))
  {
    TrimPadded(PySpaces, lead, s, trail);
    QueryText(f, lead + s + trail);
    QueryText(g, s);
  }

  /** Texts that agree up to letter case are rejected alike and flagged alike. */
  lemma QueryIgnoresCase(f: map<string, Json>, g: map<string, Json>, a: string, b: string)
    requires PyGet(f, "text") == JStr(a) && PyGet(g, "text") == JStr(b)
    requires Lower(a) == Lower(b)
    ensures TriageQuery(JObj(f)).Reject? <==> TriageQuery(JObj(g)).Reject?
    ensures TriageQuery(JObj(f)).Emergency? <==> TriageQuery(JObj(g)).Emergency?
  {
    QueryText(f, a);
    QueryText(g, b);
    TrimLower(PySpaces, a);
    TrimLower(PySpaces, b);
    var ta, tb := Trim(PySpaces, a), Trim(PySpaces, b);
    assert Lower(ta) == Lower(tb);
    assert ta == "" <==> Lower(ta) == "";
    assert tb == "" <==> Lower(tb) == "";
  }

  /** A keyword typed anywhere in the text, even inside a longer word, triggers the emergency
      reply: the test is a substring test. */
  lemma QueryKeywordAnywhere(f: map<string, Json>, t: string, k: string, i: int)
    requires PyGet(f, "text") == JStr(t)
    requires |t| > 0 && !IsPySpace(t[0]) && !IsPySpace(t[|t| - 1])
    requires k in EmergencyKeywords && OccursAt(t, k, i)
    ensures TriageQuery(JObj(f)) == Emergency(QueryEmergency)
  {
    TrimTrimmed(PySpaces, t);
    QueryText(f, t);
    KeywordLowerCase(k);
    LowerKeeps(t, k, i);
    UrgentAt(Lower(t), k, i);
  }

  lemma KeywordLowerCase(k: string)
    requires k in EmergencyKeywords
    ensures forall j :: 0 <= j < |k| ==> LowerChar(k[j]) == k[j]
  {
  }

  /** Lower-casing keeps an occurrence of text that is already lower case. */
  lemma LowerKeeps(t: string, k: string, i: int)
    requires OccursAt(t, k, i)
    requires forall j :: 0 <= j < |k| ==> LowerChar(k[j]) == k[j]
    ensures OccursAt(Lower(t), k, i)
  {
    var u := Lower(t);
    forall j | 0 <= j < |k| ensures u[i..i + |k|][j] == k[j] {
      assert t[i..i + |k|][j] == t[i + j];
    }
  }

  // ---------------------------------------------------------------------------------------------
  // The model's reply

  /** `(out.get("choices") or [{}])[0]`; `None` when that raises. Only a list survives the
      indexing: a truthy dict has no key 0, and a string's first character has no `.get`. */
  function FirstChoice(out: Json): (r: Option<Json>)
    ensures out.JObj? && !PyTruthy(PyGet(out.fields, "choices")) ==> r == Some(JObj(map[]))
  {
    match DictGet(out, "choices")
    case None => None
    case Some(cs) =>
      if !PyTruthy(cs) then Some(JObj(map[]))
      else if cs.JArr? then Some(cs.items[0])
      else None
  }

  /** `(choice.get("message") or {}).get("content") or choice.get("text") [or out.get("message")]
      or ""`; the bracketed fallback is only in `query_model`. `None` when any step raises. */
  function ExtractReply(out: Json, topLevel: bool): (r: Option<Json>)
    ensures r.Some? ==> out.JObj?
  {
    match FirstChoice(out)
    case None => None
    case Some(choice) =>
      match DictGet(choice, "message")
      case None => None
      case Some(m) =>
        match DictGet(PyOr(m, JObj(map[])), "content")
        case None => None
        case Some(content) =>
          var fallback := if topLevel then PyOr(DictGet(out, "message").value, JStr("")) else JStr("");
          Some(PyOr(content, PyOr(DictGet(choice, "text").value, fallback)))
  }

  /** The first truthy value of a list of candidates, `""` when there is none. */
  function FirstTruthy(vs: seq<Json>): (r: Json)
    ensures PyTruthy(r) ==> exists i :: 0 <= i < |vs| && r == vs[i] && forall j :: 0 <= j < i ==> !PyTruthy(vs[j])
    ensures !PyTruthy(r) ==> r == JStr("") && forall j :: 0 <= j < |vs| ==> !PyTruthy(vs[j])
    decreases |vs|
  {
    if |vs| == 0 then JStr("")
    else if PyTruthy(vs[0]) then vs[0]
    else
      var r := FirstTruthy(vs[1..]);
      assert forall j :: 1 <= j < |vs| ==> vs[j] == vs[1..][j - 1];
      r
  }

  /** For a well-shaped answer the reply is the first truthy candidate, in the order
      `choices[0].message.content`, `choices[0].text`, then (for a query only) `message`. */
  lemma ReplyPrecedence(out: map<string, Json>, choice: map<string, Json>, topLevel: bool)
    requires PyGet(out, "choices").JArr? && |PyGet(out, "choices").items| > 0
    requires PyGet(out, "choices").items[0] == JObj(choice)
    requires PyGet(choice, "message").JObj? || !PyTruthy(PyGet(choice, "message"))
    ensures ExtractReply(JObj(out), topLevel) == Some(FirstTruthy(
      [PyGet(PyOr(PyGet(choice, "message"), JObj(map[])).fields, "content"), PyGet(choice, "text")]
      + (if topLevel then [PyGet(out, "message")] else [])))
  {
    var c := PyGet(PyOr(PyGet(choice, "message"), JObj(map[])).fields, "content");
    var t := PyGet(choice, "text");
    var m := PyGet(out, "message");
    ExtractShape(out, choice, topLevel);
    if topLevel {
      assert [c, t] + [m] == [c, t, m];
      FirstThree(c, t, m);
    } else {
      assert [c, t] + [] == [c, t];
      FirstTwo(c, t);
    }
  }

  /** The reply of a well-shaped answer as the chain of `or`s the handler writes. */
  lemma ExtractShape(out: map<string, Json>, choice: map<string, Json>, topLevel: bool)
    requires PyGet(out, "choices").JArr? && |PyGet(out, "choices").items| > 0
    requires PyGet(out, "choices").items[0] == JObj(choice)
    requires PyGet(choice, "message").JObj? || !PyTruthy(PyGet(choice, "message"))
    ensures ExtractReply(JObj(out), topLevel) == Some(PyOr(
      PyGet(PyOr(PyGet(choice, "message"), JObj(map[])).fields, "content"),
      PyOr(PyGet(choice, "text"), if topLevel then PyOr(PyGet(out, "message"), JStr("")) else JStr(""))))
  {
  }

  lemma FirstTwo(a: Json, b: Json)
    ensures FirstTruthy([a, b]) == PyOr(a, PyOr(b, JStr("")))
  {
    FirstTruthyStep([a, b]);
    assert [a, b][1..] == [b];
    FirstTruthyStep([b]);
    assert [b][1..] == [];
  }

  lemma FirstThree(a: Json, b: Json, c: Json)
    ensures FirstTruthy([a, b, c]) == PyOr(a, PyOr(b, PyOr(c, JStr(""))))
  {
    FirstTruthyStep([a, b, c]);
    assert [a, b, c][1..] == [b, c];
    FirstTwo(b, c);
    assert PyOr(c, JStr("")) == PyOr(c, PyOr(JStr(""), JStr("")));
  }

  lemma FirstTruthyStep(vs: seq<Json>)
    requires |vs| > 0
    ensures FirstTruthy(vs) == PyOr(vs[0], FirstTruthy(vs[1..]))
  {
  }

  /** Without usable choices the query falls back to the top-level `message`, the analysis to
      the empty string. */
  lemma NoChoices(out: map<string, Json>)
    requires !PyTruthy(PyGet(out, "choices"))
    ensures ExtractReply(JObj(out), true) == Some(PyOr(PyGet(out, "message"), JStr("")))
    ensures ExtractReply(JObj(out), false) == Some(JStr(""))
  {
  }

  /** A reply that is not a dict, or whose choices are a non-empty string, fails the request. */
  lemma MalformedReply(out: Json, s: string)
    requires !out.JObj? && s != ""
    ensures ExtractReply(out, true).None? && ExtractReply(out, false).None?
    ensures ExtractReply(JObj(map["choices" := JStr(s)]), true).None?
  {
  }

  // ---------------------------------------------------------------------------------------------
  // POST /api/symptoms/analyze

  /** A stored symptom as the analysis reads it; `notes` is `None` for a NULL column. */
  datatype Row = Row(dateAdded: string, name: string, severity: int, notes: Option<string>)

  /** `int(data.get("limit", 12))`: the default applies only when the key is absent; a null or
      non-numeric limit raises outside any `try`. */
  function AnalysisLimit(body: Json): (r: Option<int>)
    ensures !PyTruthy(body) ==> r == Some(12)
    ensures BodyOrEmpty(body).JObj? && "limit" !in BodyOrEmpty(body).fields ==> r == Some(12)
    ensures !BodyOrEmpty(body).JObj? ==> r.None?
    ensures body.JObj? && "limit" in body.fields && body.fields["limit"].JNum? ==>
      r == Some(body.fields["limit"].n)
  {
    var data := BodyOrEmpty(body);
    if !data.JObj? then None
    else if "limit" !in data.fields then Some(12)
    else PyInt(data.fields["limit"])
  }

  /** `LIMIT ?` bound to `limit`, on rows already in query order: `None` when binding the limit
      raises; SQLite reads a negative limit as no limit. */
  function Fetch(stored: seq<Row>, limit: int): (r: Option<seq<Row>>)
    ensures r.None? <==> !FitsSqlite(limit)
    ensures r.Some? && limit < 0 ==> r.value == stored
    ensures r.Some? && limit >= 0 ==> |r.value| == if limit < |stored| then limit else |stored|
    ensures r.Some? ==> r.value == stored[..|r.value|]
  {
    if !FitsSqlite(limit) then None
    else if limit < 0 then Some(stored)
    else Some(Take(stored, limit))
  }

  /** The separator before notes: a space, an em dash, a space. */
  const NotesSep := " \U{2014} "

  predicate HasNotes(r: Row)
  {
    r.notes.Some? && r.notes.value != ""
  }

  /** `- {date}: {name} (severity {n}/10)`, followed by the separator and the notes when there
      are any. */
  function Entry(r: Row): (e: string)
  {
    "- " + r.dateAdded + ": " + r.name + " (severity " + IntToString(r.severity) + "/10)"
      + (if HasNotes(r) then NotesSep + r.notes.value else "")
  }

  /** The entries of `rows[::-1]`: oldest first. */
  function Entries(rows: seq<Row>): (es: seq<string>)
    ensures |es| == |rows|
    ensures forall i :: 0 <= i < |rows| ==> es[i] == Entry(rows[|rows| - 1 - i])
  {
    var n := |rows|;
    seq(n, i requires 0 <= i < n => EntryAt(rows, n - 1 - i))
  }

  function EntryAt(rows: seq<Row>, k: int): string
    requires 0 <= k < |rows|
  {
    Entry(rows[k])
  }

  const PromptHeader :=
    "Here is a user's recent symptom log. Provide a short structured summary:\n"
    + "1) Brief overall impression (2-3 lines)\n"
    + "2) Top possible causes (bullet list)\n"
    + "3) Red flags / warning signs that require urgent care (bullet list)\n"
    + "4) Practical next steps and self-care suggestions (bullet list)\n\n"
    + "Symptom log:\n"

  /** `"\n".join(entries)`. */
  function SymptomLog(rows: seq<Row>): string
    requires |rows| > 0
  {
    Join(Entries(rows), '\n')
  }

  /** `" ".join([str(r["name"]).lower() + " " + (r["notes"] or "") for r in rows])`, in fetched
      order: names are lower-cased, notes are not. */
  function ScanText(rows: seq<Row>): string
    requires |rows| > 0
  {
    Join(ScanPieces(rows), ' ')
  }

  /** What one row contributes to the scanned text. */
  function ScanPiece(r: Row): string
  {
    Lower(r.name) + " " + r.notes.GetOr("")
  }

  function ScanPieces(rows: seq<Row>): (ps: seq<string>)
    ensures |ps| == |rows|
    ensures forall i :: 0 <= i < |rows| ==> ps[i] == ScanPiece(rows[i])
  {
    seq(|rows|, i requires 0 <= i < |rows| => ScanPiece(rows[i]))
  }

  const AnalysisEmergency := "\U{26A0}\U{FE0F} Emergency-sounding entries found. Advise immediate medical attention."

  /** `analyze_symptoms` up to the model request, for the stored rows in `ORDER BY date_added
      DESC` order. */
  function AnalyzeSymptoms(body: Json, stored: seq<Row>): (r: Outcome<string>)
    ensures r.Crash? <==> AnalysisLimit(body).None? || !FitsSqlite(AnalysisLimit(body).value)
    ensures r.Reject? ==> r == Reject("no symptoms logged", 400)
    ensures r.Emergency? ==> r.reply == AnalysisEmergency
    ensures AnalysisLimit(body).Some? && Fetch(stored, AnalysisLimit(body).value).Some? ==>
      var rows := Fetch(stored, AnalysisLimit(body).value).value;
      && (r.Reject? <==> |rows| == 0)
      && (r.Emergency? <==> |rows| > 0 && SoundsUrgent(ScanText(rows)))
      && (r.Accept? ==> r.value == PromptHeader + SymptomLog(rows))
  {
    match AnalysisLimit(body)
    case None => Crash
    case Some(limit) =>
      match Fetch(stored, limit)
      case None => Crash
      case Some(rows) =>
        if |rows| == 0 then Reject("no symptoms logged", 400)
        else if SoundsUrgent(ScanText(rows)) then Emergency(AnalysisEmergency)
        else Accept(PromptHeader + SymptomLog(rows))
  }

  /** With no limit given (no body, an empty body, or a dict without `limit`), the twelve newest
      rows are analysed; without rows nothing is. */
  lemma AnalysisDefaults(body: Json, stored: seq<Row>)
    requires !PyTruthy(body) || (body.JObj? && "limit" !in body.fields)
    ensures |stored| == 0 ==> AnalyzeSymptoms(body, stored) == Reject("no symptoms logged", 400)
    ensures |stored| > 0 && SoundsUrgent(ScanText(Take(stored, 12))) ==>
      AnalyzeSymptoms(body, stored) == Emergency(AnalysisEmergency)
    ensures |stored| > 0 && !SoundsUrgent(ScanText(Take(stored, 12))) ==>
      AnalyzeSymptoms(body, stored) == Accept(PromptHeader + SymptomLog(Take(stored, 12)))
  {
    assert AnalysisLimit(body) == Some(12);
    assert Fetch(stored, 12) == Some(Take(stored, 12));
  }

  /** The symptoms page always posts `{limit: 12}`, which the handler treats exactly as the
      default. */
  lemma AnalysisPageRequest(stored: seq<Row>)
    ensures AnalyzeSymptoms(JObj(map["limit" := JNum(12)]), stored) == AnalyzeSymptoms(JNull, stored)
    ensures |stored| > 0 && !SoundsUrgent(ScanText(Take(stored, 12))) ==>
      AnalyzeSymptoms(JObj(map["limit" := JNum(12)]), stored) == Accept(PromptHeader + SymptomLog(Take(stored, 12)))
  {
    var page := JObj(map["limit" := JNum(12)]);
    DictBody(map["limit" := JNum(12)]);
    assert AnalysisLimit(page) == Some(12);
    AnalysisDefaults(JNull, stored);
  }

  /** An explicit null limit is not the default: `int(None)` raises, as it does for a list or
      a dict. */
  lemma NullLimitCrashes(f: map<string, Json>, stored: seq<Row>)
    requires "limit" in f && !f["limit"].JNum? && !f["limit"].JBool? && !f["limit"].JStr?
    ensures AnalyzeSymptoms(JObj(f), stored) == Crash
  {
    DictBody(f);
  }

  predicate OneLineRow(r: Row)
  {
    '\n' !in r.dateAdded && '\n' !in r.name && (r.notes.Some? ==> '\n' !in r.notes.value)
  }

  lemma EntryOneLine(r: Row)
    requires OneLineRow(r)
    ensures '\n' !in Entry(r)
  {
    var n := IntToString(r.severity);
    assert forall i :: 0 <= i < |n| ==> n[i] == '-' || IsDigit(n[i]);
  }

  /** When no field holds a line break, the log's lines are the entries, one per row, oldest
      first. */
  lemma LogLines(rows: seq<Row>)
    requires |rows| > 0
    requires forall i :: 0 <= i < |rows| ==> OneLineRow(rows[i])
    ensures Split(SymptomLog(rows), '\n') == Entries(rows)
    ensures |Split(SymptomLog(rows), '\n')| == |rows|
    ensures Split(SymptomLog(rows), '\n')[0] == Entry(rows[|rows| - 1])
  {
    var es := Entries(rows);
    forall i | 0 <= i < |es| ensures '\n' !in es[i] {
      EntryOneLine(rows[|rows| - 1 - i]);
    }
    SplitJoin(es, '\n');
  }

  /** The notes separator appears after the severity exactly when the row has notes. */
  lemma EntryNotes(r: Row)
    ensures HasNotes(r) ==> EndsWith(Entry(r), NotesSep + r.notes.value)
    ensures !HasNotes(r) ==> EndsWith(Entry(r), "/10)")
  {
  }

  lemma ScanOne(r: Row)
    ensures ScanText([r]) == Lower(r.name) + " " + r.notes.GetOr("")
  {
    var ps := seq(1, i requires 0 <= i < 1 => Lower([r][i].name) + " " + [r][i].notes.GetOr(""));
    assert ps == [Lower(r.name) + " " + r.notes.GetOr("")];
  }

  /** A name and its notes are scanned as one text: `Chest` with notes `pain` is an emergency. */
  lemma ScanStraddles(date: string, severity: int)
    ensures AnalyzeSymptoms(JNull, [Row(date, "Chest", severity, Some("pain"))]) == Emergency(AnalysisEmergency)
  {
    var r := Row(date, "Chest", severity, Some("pain"));
    ScanOne(r);
    assert Lower("Chest") == "chest";
    assert ScanText([r]) == "chest pain";
    UrgentAt("chest pain", "chest pain", 0);
  }

  /** Names are lower-cased before the scan and notes are not: an upper-case keyword in a name
      is an emergency, the same keyword in the notes is not. */
  lemma ScanCase(date: string, severity: int)
    ensures AnalyzeSymptoms(JNull, [Row(date, "CHEST PAIN", severity, None)]) == Emergency(AnalysisEmergency)
    ensures AnalyzeSymptoms(JNull, [Row(date, "x", severity, Some("CHEST PAIN"))]).Accept?
  {
    ScanUpperName(date, severity);
    ScanUpperNotes(date, severity);
  }

  lemma ScanUpperName(date: string, severity: int)
    ensures AnalyzeSymptoms(JNull, [Row(date, "CHEST PAIN", severity, None)]) == Emergency(AnalysisEmergency)
  {
    var a := Row(date, "CHEST PAIN", severity, None);
    ScanOne(a);
    assert Lower("CHEST PAIN") == "chest pain";
    assert ScanText([a]) == "chest pain ";
    UrgentAt("chest pain ", "chest pain", 0);
  }

  lemma ScanUpperNotes(date: string, severity: int)
    ensures AnalyzeSymptoms(JNull, [Row(date, "x", severity, Some("CHEST PAIN"))]).Accept?
  {
    var b := Row(date, "x", severity, Some("CHEST PAIN"));
    assert !SoundsUrgent(ScanText([b])) by {
      ScanOne(b);
      UpperNotesText();
      NotUrgentWithout("x CHEST PAIN");
    }
    OneRowAnalysis(b);
  }

  lemma UpperNotesText()
    ensures Lower("x") + " " + "CHEST PAIN" == "x CHEST PAIN"
  {
    assert Lower("x") == "x";
  }

  /** A single stored row is analysed under the default limit. */
  lemma OneRowAnalysis(r: Row)
    ensures !SoundsUrgent(ScanText([r])) ==> AnalyzeSymptoms(JNull, [r]).Accept?
    ensures SoundsUrgent(ScanText([r])) ==> AnalyzeSymptoms(JNull, [r]) == Emergency(AnalysisEmergency)
  {
    assert Fetch([r], 12) == Some([r]);
  }

  /** The scanned text of two runs of rows is theirs joined by a space. */
  lemma ScanAppend(a: seq<Row>, b: seq<Row>)
    requires |a| > 0 && |b| > 0
    ensures ScanText(a + b) == ScanText(a) + " " + ScanText(b)
  {
    assert ScanPieces(a + b) == ScanPieces(a) + ScanPieces(b);
    JoinAppend(ScanPieces(a), ScanPieces(b), ' ');
  }

  /** Every row contributes its piece, in fetched order: the scan of the rows before it and a
      space, the piece, then a space and the scan of the rows after it. */
  lemma ScanRowInside(rows: seq<Row>, i: int)
    requires 0 <= i < |rows|
    ensures var before := if i == 0 then "" else ScanText(rows[..i]) + " ";
      var after := if i == |rows| - 1 then "" else " " + ScanText(rows[i + 1..]);
      ScanText(rows) == before + ScanPiece(rows[i]) + after
  {
    ScanFrom(rows, i);
    var after := if i == |rows| - 1 then "" else " " + ScanText(rows[i + 1..]);
    if i > 0 {
      ScanSplitAt(rows, i);
      Assoc(ScanText(rows[..i]) + " ", ScanPiece(rows[i]), after);
    } else {
      ScanFromStart(rows);
      EmptyPrefix(ScanPiece(rows[0]) + after);
      Assoc("", ScanPiece(rows[0]), after);
    }
  }

  /** Cutting the rows anywhere inside splits the scan at a space. */
  lemma ScanSplitAt(rows: seq<Row>, i: int)
    requires 0 < i < |rows|
    ensures ScanText(rows) == ScanText(rows[..i]) + " " + ScanText(rows[i..])
  {
    SliceJoin(rows, i);
    ScanAppend(rows[..i], rows[i..]);
  }

  lemma ScanFromStart(rows: seq<Row>)
    requires |rows| > 0
    ensures ScanText(rows[0..]) == ScanText(rows)
  {
    assert rows[0..] == rows;
  }

  /** The scan from row `i` on is that row's piece, then a space and the scan of the rest. */
  lemma ScanFrom(rows: seq<Row>, i: int)
    requires 0 <= i < |rows|
    ensures ScanText(rows[i..]) == ScanPiece(rows[i]) + (if i == |rows| - 1 then "" else " " + ScanText(rows[i + 1..]))
  {
    ScanSingle(rows[i]);
    if i + 1 < |rows| {
      SliceCons(rows, i);
      ScanAppend([rows[i]], rows[i + 1..]);
      Assoc(ScanPiece(rows[i]), " ", ScanText(rows[i + 1..]));
    } else {
      assert rows[i..] == [rows[i]];
    }
  }

  lemma ScanSingle(r: Row)
    ensures ScanText([r]) == ScanPiece(r)
  {
    assert ScanPieces([r]) == [ScanPiece(r)];
  }

  /** An emergency keyword within any one fetched row makes the analysis an emergency. */
  lemma UrgentRow(body: Json, stored: seq<Row>, i: int)
    requires AnalysisLimit(body).Some? && Fetch(stored, AnalysisLimit(body).value).Some?
    requires var rows := Fetch(stored, AnalysisLimit(body).value).value;
      0 <= i < |rows| && SoundsUrgent(ScanPiece(rows[i]))
    ensures AnalyzeSymptoms(body, stored) == Emergency(AnalysisEmergency)
  {
    var rows := Fetch(stored, AnalysisLimit(body).value).value;
    ScanRowInside(rows, i);
    var before := if i == 0 then "" else ScanText(rows[..i]) + " ";
    var after := if i == |rows| - 1 then "" else " " + ScanText(rows[i + 1..]);
    var k :| k in EmergencyKeywords && Contains(ScanPiece(rows[i]), k);
    ContainsInfix(before, ScanPiece(rows[i]), after, k);
    assert SoundsUrgent(ScanText(rows));
  }

  // ---------------------------------------------------------------------------------------------
  // POST /api/symptoms/add

  datatype Symptom = Symptom(name: string, severity: int, notes: string)

  /** `add_symptom` up to and including the binding of the insert: name and notes stripped, the
      severity defaulted to 0 and not range-checked, the name required, and a severity sqlite3
      cannot bind raising outside any `try`. Notes are read before the name is checked. */
  function AddSymptom(body: Json): (r: Outcome<Symptom>)
    ensures r.Reject? ==> r == Reject("name required", 400)
    ensures r.Accept? ==> r.value.name != "" && Trim(PySpaces, r.value.name) == r.value.name
    ensures r.Accept? ==> Trim(PySpaces, r.value.notes) == r.value.notes
    ensures r.Accept? ==> FitsSqlite(r.value.severity)
    ensures !r.Emergency?
  {
    var data := BodyOrEmpty(body);
    match (StrippedField(data, "name"), StrippedField(data, "notes"))
    case (Some(name), Some(notes)) =>
      if name == "" then Reject("name required", 400)
      else
        var severity := IntOrZero(data, "severity");
        if FitsSqlite(severity) then Accept(Symptom(name, severity, notes)) else Crash
    case _ => Crash
  }

  /** A name that strips to nothing is rejected, any other is stored stripped when the severity
      can be bound. */
  lemma SymptomNameRequired(f: map<string, Json>, s: string)
    requires PyGet(f, "name") == JStr(s) && PyStrippedOrEmpty(PyGet(f, "notes")).Some?
    ensures AddSymptom(JObj(f)).Reject? <==> Trim(PySpaces, s) == ""
    ensures Trim(PySpaces, s) != "" && FitsSqlite(IntOrZero(JObj(f), "severity")) ==>
      AddSymptom(JObj(f)).Accept? && AddSymptom(JObj(f)).value.name == Trim(PySpaces, s)
    ensures Trim(PySpaces, s) != "" && !FitsSqlite(IntOrZero(JObj(f), "severity")) ==>
      AddSymptom(JObj(f)) == Crash
  {
    if Trim(PySpaces, s) == "" {
      SymptomRejected(f, s);
    } else {
      SymptomAccepted(f, s);
    }
  }

  lemma SymptomRejected(f: map<string, Json>, name: string)
    requires PyGet(f, "name") == JStr(name) && Trim(PySpaces, name) == ""
    requires PyStrippedOrEmpty(PyGet(f, "notes")).Some?
    ensures AddSymptom(JObj(f)) == Reject("name required", 400)
  {
    StrippedString(f, "name", name);
    NotesField(f);
  }

  lemma NotesField(f: map<string, Json>)
    ensures StrippedField(BodyOrEmpty(JObj(f)), "notes") == PyStrippedOrEmpty(PyGet(f, "notes"))
  {
    DictBody(f);
  }

  /** There is no range check: any 64-bit severity is stored as sent, as a number or as its
      decimal text. A wider one crashes the insert, unless it is text too long for `int()`,
      which reads as 0. */
  lemma SeverityStored(f: map<string, Json>, name: string, n: int)
    requires PyGet(f, "name") == JStr(name) && Trim(PySpaces, name) != ""
    requires PyStrippedOrEmpty(PyGet(f, "notes")).Some?
    requires PyGet(f, "severity") == JNum(n) || PyGet(f, "severity") == JStr(IntToString(n))
    ensures FitsSqlite(n) ==> AddSymptom(JObj(f)).Accept? && AddSymptom(JObj(f)).value.severity == n
    ensures !FitsSqlite(n) && (PyGet(f, "severity") == JNum(n) || WithinStrDigits(n)) ==> AddSymptom(JObj(f)) == Crash
    ensures PyGet(f, "severity") == JStr(IntToString(n)) && !WithinStrDigits(n) ==>
      AddSymptom(JObj(f)).Accept? && AddSymptom(JObj(f)).value.severity == 0
  {
    if FitsSqlite(n) {
      FitsWithinDigits(n);
    }
    IntOrZeroOf(f, "severity", n);
    SymptomAccepted(f, name);
  }

  /** A missing, null, empty or unparsable severity is stored as 0. */
  lemma SeverityDefault(f: map<string, Json>, name: string)
    requires PyGet(f, "name") == JStr(name) && Trim(PySpaces, name) != ""
    requires PyStrippedOrEmpty(PyGet(f, "notes")).Some?
    requires var v := PyGet(f, "severity"); v == JNull || v == JStr("") || (v.JStr? && PyParseInt(v.s).None?)
    ensures AddSymptom(JObj(f)).Accept? && AddSymptom(JObj(f)).value.severity == 0
  {
    IntOrZeroDefault(f, "severity");
    SymptomAccepted(f, name);
  }

  lemma SymptomAccepted(f: map<string, Json>, name: string)
    requires PyGet(f, "name") == JStr(name) && Trim(PySpaces, name) != ""
    requires PyStrippedOrEmpty(PyGet(f, "notes")).Some?
    ensures var severity := IntOrZero(JObj(f), "severity");
      AddSymptom(JObj(f)) ==
        if FitsSqlite(severity) then Accept(Symptom(Trim(PySpaces, name), severity, PyStrippedOrEmpty(PyGet(f, "notes")).value))
        else Crash
  {
    DictBody(f);
    StrippedString(f, "name", name);
    NotesField(f);
  }

  // ---------------------------------------------------------------------------------------------
  // POST /api/community/posts and /api/community/posts/<pid>/comments

  /** A new post or comment: its author, `None` for anonymous, and its stripped text. */
  datatype Contribution = Contribution(userId: Option<int>, content: string)

  /** `user_id if user_id > 0 else None`. */
  function StoredUser(id: int): (r: Option<int>)
    ensures r.Some? <==> id > 0
    ensures r.Some? ==> r.value == id
  {
    if id > 0 then Some(id) else None
  }

  /** The shared rule of both handlers: content stripped and required, the author id parsed
      with 0 for any failure, and kept only when positive. */
  function NewContribution(body: Json): (r: Outcome<Contribution>)
    ensures r.Reject? ==> r == Reject("content required", 400)
    ensures r.Accept? ==> r.value.content != "" && Trim(PySpaces, r.value.content) == r.value.content
    ensures !r.Emergency?
  {
    var data := BodyOrEmpty(body);
    match StrippedField(data, "content")
    case None => Crash
    case Some(content) =>
      if content == "" then Reject("content required", 400)
      else Accept(Contribution(StoredUser(IntOrZero(data, "user_id")), content))
  }

  /** The author id can be bound: absent, or within sqlite3's 64-bit range. */
  predicate Bindable(c: Contribution)
  {
    c.userId.None? || FitsSqlite(c.userId.value)
  }

  const PostFailed := "server error creating post"

  /** `community_posts` for POST, up to the insert, whose failure to bind the author id is
      caught and answered with status 500. */
  function NewPost(body: Json): (r: Outcome<Contribution>)
    ensures NewContribution(body).Accept? && !Bindable(NewContribution(body).value) ==> r == Reject(PostFailed, 500)
    ensures !(NewContribution(body).Accept? && !Bindable(NewContribution(body).value)) ==> r == NewContribution(body)
  {
    match NewContribution(body)
    case Accept(c) => if Bindable(c) then Accept(c) else Reject(PostFailed, 500)
    case r => r
  }

  /** A comment row: the post id from the URL and the contribution. */
  datatype StoredComment = StoredComment(postId: int, entry: Contribution)

  /** `community_comments` for POST, up to the insert, whose failure to bind the post id or the
      author id is not caught. */
  function NewComment(pid: int, body: Json): (r: Outcome<StoredComment>)
    ensures NewContribution(body).Crash? ==> r.Crash?
    ensures NewContribution(body).Reject? ==> r == Reject("content required", 400)
    ensures var c := NewContribution(body);
      c.Accept? ==> (r.Accept? <==> FitsSqlite(pid) && Bindable(c.value)) && (r.Accept? ==> r.value == StoredComment(pid, c.value))
    ensures !r.Emergency?
  {
    match NewContribution(body)
    case Crash => Crash
    case Reject(e, s) => Reject(e, s)
    case Emergency(m) => Emergency(m)
    case Accept(c) => if FitsSqlite(pid) && Bindable(c) then Accept(StoredComment(pid, c)) else Crash
  }

  /** A positive author id, as a number or as its decimal text, is kept; zero, negatives,
      absence and unparsable text all make the contribution anonymous. An id above the 64-bit
      range fails the insert. */
  lemma AuthorRule(pid: int, f: map<string, Json>, content: string)
    requires PyGet(f, "content") == JStr(content) && Trim(PySpaces, content) != ""
    ensures var id := PyInt(PyOr(PyGet(f, "user_id"), JNum(0)));
      var tooWide := id.Some? && id.value > 0 && !FitsSqlite(id.value);
      var r := NewPost(JObj(f));
      (tooWide ==> r == Reject(PostFailed, 500) && NewComment(pid, JObj(f)) == Crash)
      && (!tooWide ==> r.Accept? && (r.value.userId.Some? <==> id.Some? && id.value > 0))
  {
    ContributionOf(f, content);
    IntOrZeroRead(f, "user_id");
    RoutesOf(pid, JObj(f), NewContribution(JObj(f)).value);
  }

  /** `IntOrZero` on a dict body reads the field with Python's `or 0` default. */
  lemma IntOrZeroRead(f: map<string, Json>, k: string)
    ensures IntOrZero(JObj(f), k) == PyInt(PyOr(PyGet(f, k), JNum(0))).GetOr(0)
  {
  }

  /** Once the contribution is read, both routes differ only in how a failed insert ends. */
  lemma RoutesOf(pid: int, body: Json, c: Contribution)
    requires NewContribution(body) == Accept(c)
    ensures NewPost(body) == if Bindable(c) then Accept(c) else Reject(PostFailed, 500)
    ensures NewComment(pid, body) == if FitsSqlite(pid) && Bindable(c) then Accept(StoredComment(pid, c)) else Crash
  {
  }

  /** A body whose content survives stripping yields a contribution. */
  lemma ContributionOf(f: map<string, Json>, content: string)
    requires PyGet(f, "content") == JStr(content) && Trim(PySpaces, content) != ""
    ensures NewContribution(JObj(f)) ==
      Accept(Contribution(StoredUser(IntOrZero(JObj(f), "user_id")), Trim(PySpaces, content)))
  {
    StrippedString(f, "content", content);
    DictBody(f);
  }

  /** An id sent as a number or as its decimal text is kept when sqlite3 can bind it. */
  lemma AuthorKept(pid: int, f: map<string, Json>, content: string, n: int)
    requires PyGet(f, "content") == JStr(content) && Trim(PySpaces, content) != ""
    requires n > 0 && (PyGet(f, "user_id") == JNum(n) || PyGet(f, "user_id") == JStr(IntToString(n)))
    ensures FitsSqlite(n) ==> NewPost(JObj(f)).Accept? && NewPost(JObj(f)).value.userId == Some(n)
    ensures !FitsSqlite(n) && (PyGet(f, "user_id") == JNum(n) || WithinStrDigits(n)) ==>
      NewPost(JObj(f)) == Reject(PostFailed, 500) && NewComment(pid, JObj(f)) == Crash
    ensures PyGet(f, "user_id") == JStr(IntToString(n)) && !WithinStrDigits(n) ==>
      NewPost(JObj(f)).Accept? && NewPost(JObj(f)).value.userId.None?
  {
    if FitsSqlite(n) {
      FitsWithinDigits(n);
    }
    IntOrZeroOf(f, "user_id", n);
    ContributionOf(f, content);
    RoutesOf(pid, JObj(f), NewContribution(JObj(f)).value);
  }

  /** Content that strips to nothing is rejected on both routes; other content is stored
      stripped. */
  lemma ContentRequired(pid: int, f: map<string, Json>, s: string)
    requires PyGet(f, "content") == JStr(s)
    ensures Trim(PySpaces, s) == "" ==>
      NewPost(JObj(f)) == Reject("content required", 400) && NewComment(pid, JObj(f)) == Reject("content required", 400)
    ensures Trim(PySpaces, s) != "" ==>
      NewContribution(JObj(f)).Accept? && NewContribution(JObj(f)).value.content == Trim(PySpaces, s)
  {
    DictBody(f);
  }
}
