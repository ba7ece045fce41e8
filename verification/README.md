# Symptom tracker and community page: formatting and request rules

A Dafny model of the pure logic inside a small Flask health app and its three browser scripts.
The database, the model endpoint and the DOM are left out. What remains is:

- **`escapeHtml`** (`HtmlEscape`). The same five-character entity map is copied into all three
  scripts. It is modelled once as a per-character map and proved equal to the chain of
  `replaceAll` calls the scripts write.
- **`formatReply`** of the chat page (`BoldSpans`, `ReplyFormat`). It escapes, rewrites `**x**`
  to `<strong>x</strong>`, collapses line-break runs, and emits each line either as a one-item
  list or as text followed by `<br>`.
- **`formatText`** of the symptom page (`BoldSpans`, `TextFormat`). It escapes, bolds, replaces
  list markers after a line break with a fixed bullet glyph, and cuts the text into paragraphs
  at blank lines.
- **The severity chart** (`SymptomChart`): the window of the twelve newest entries, in
  chronological order, with date-and-minute labels.
- **The community page** (`CommunityView`, `ApiClient`). This covers the post card and comment
  row templates with their fallbacks, and the value `api()` resolves to for every kind of reply.
- **The Flask handlers up to their I/O** (`AppRules`):
  - the query triage with its emergency-keyword short cut;
  - the reply-field fallback chain;
  - the analysis prompt and its emergency scan;
  - the input normalisation of new symptoms, posts and comments.

Safety of the two formatters is stated with the `Markup` predicate (`SafeMarkup`). A string is
markup when it splits into the formatters' own tags (`<p>`, `</p>`, `<ul>`, `</ul>`, `<li>`,
`</li>`, `<strong>`, `</strong>`, `<br>`) and characters other than `<`, `>`, `"`, `'`. Both
formatters are proved to produce markup for every string. So every `<` of the output opens
one of those tags, and no quote character survives. The community templates are proved to
have exactly the template's own special characters, whatever the data. They are also proved to
lose nothing that is shown: two posts give the same card exactly when they show the same values.

Python's `request.get_json()` result and the browser's `JSON.parse` result are values of one
`Json` datatype, with Python and JavaScript truthiness defined separately. An uncaught Python
exception, which Flask answers with status 500, is the explicit outcome `Crash`. A browser
script that throws is an explicit `None`:

- `ReplyView` shows the `reply` field, which can be any JSON value. A string goes through the
  page's formatter; any other truthy value makes `escapeHtml` throw.
- `ApiClient.ErrorFlag` covers a caller's `j.error`, which throws when `api()` resolved to
  `null`.

Integers follow the two bounds the handlers meet. sqlite3 binds only signed 64-bit integers, so a
wider severity, limit, post id or author id makes the statement raise. CPython's `int()` refuses
decimal text of more than 4300 digits. The bare `try` of `add_symptom` and of the two community
handlers turns such text into 0; the analysis limit (app.py:130) has no `try`, so such text
crashes the analysis.

`formatReply` closes the paragraph, opens a list and closes it again for every bullet line
(script.js:36), so two consecutive bullets give two one-item lists with an empty paragraph
between them; `ReplyFormat.BulletsNotMerged` states this.

Strings are sequences of Unicode scalar values. The bullet glyph of `formatText` is modelled
exactly as the source has it: the characters `â`, `€`, `¢` and a space, which are the UTF-8
bytes of a bullet read back as Windows-1252.

## Model

| member | source | states |
|---|---|---|
| HtmlEscape.EscapeChar | static/script.js:46-47 | Each of the five characters becomes an entity starting with `&`; every other character is kept; the result holds no `<`, `>`, `"`, `'` |
| HtmlEscape.Escape | static/symptoms.js:123-124 | The escaped text holds no `<`, `>`, `"`, `'` and is never shorter than the input |
| HtmlEscape.EscapeHtml | static/script.js:44-48 | A falsy argument gives the empty string; a string gives its escaped form (the copies in the symptom and community scripts are identical) |
| HtmlEscape.EscapeIsReplaceChain | static/community.js:196 | The five chained `replaceAll` calls, `&` first, equal the per-character map: no entity is escaped twice |
| HtmlEscape.ReplaceAllAppend | static/script.js:46 | `replaceAll` of a one-character string distributes over concatenation |
| HtmlEscape.EscapeAppend | static/script.js:44-48 | escape(a + b) = escape(a) + escape(b) |
| HtmlEscape.EscapeIdentityIff | static/script.js:44-48 | A string is unchanged exactly when it holds none of the five characters |
| HtmlEscape.EscapeGrows | static/script.js:44-48 | Any escapable character makes the output strictly longer |
| HtmlEscape.EscapeIntroducesAmp | static/script.js:44-48 | Escaping text that holds an escapable character leaves an `&` in the output |
| HtmlEscape.EscapeTwiceIff | static/script.js:44-48 | Escaping is not idempotent: a second pass changes the text exactly when the input held one of the five characters |
| HtmlEscape.EscapeAmpTwice | static/script.js:46 | `&` escapes to `&amp;`, and escaping again gives `&amp;amp;` |
| HtmlEscape.UnescapeEscape | static/script.js:44-48 | Decoding the five entities gives back the original text: escaping loses nothing |
| SafeMarkup.TagLength | static/script.js:33-41 | A positive tag length means the string starts with one of the formatter tags |
| SafeMarkup.InertIsMarkup | static/script.js:29 | Escaped text is markup before any tag is added |
| SafeMarkup.MarkupAppend | static/script.js:33-41 | Concatenating markup gives markup |
| SafeMarkup.MarkupTrim | static/script.js:36 | Trimming white space keeps markup |
| SafeMarkup.MarkupLtOpensTag | static/script.js:33-41 | In markup every `<` starts one of the formatter tags |
| SafeMarkup.MarkupHasNoQuotes | static/script.js:33-41 | Markup holds no `"` or `'` |
| BoldSpans.FindClose | static/script.js:30 | The lazy `(.*?)\*\*` stops at the first `**` on the same line; when it fails, every later `**` lies beyond a line terminator |
| BoldSpans.BoldSpan | static/script.js:30 | `**x**` on one line, with no `*` inside, becomes `<strong>x</strong>` and the search resumes after it |
| BoldSpans.BoldIdentity | static/script.js:30 | Text without `**` is unchanged |
| BoldSpans.BoldLines | static/script.js:30 | A span never crosses a line terminator: the text on either side is rewritten on its own |
| BoldSpans.BoldTerminatorFirst | static/script.js:30 | A leading line terminator is copied |
| BoldSpans.BoldMarkup | static/script.js:29-30 | Bolding escaped text gives markup |
| ReplyFormat.Collapse | static/script.js:31 | The result holds no `\r` and no two adjacent `\n`; it is empty exactly when the input is; it starts with `\n` exactly when the input starts with a line break |
| ReplyFormat.CollapseKeepsText | static/script.js:31 | Every character other than `\n`/`\r` is kept, in order |
| ReplyFormat.CollapseFixedIff | static/script.js:31 | Text is unchanged exactly when it has no `\r` and no two adjacent `\n` |
| ReplyFormat.CollapseBreakFree | static/script.js:31 | A prefix free of line breaks is copied |
| ReplyFormat.MarkupCollapse | static/script.js:31 | Collapsing keeps markup |
| ReplyFormat.ReplyLines | static/script.js:29-32 | There is at least one line, and no line holds `\n` or `\r` |
| ReplyFormat.ReplyLinesInteriorNonEmpty | static/script.js:31-32 | No empty line sits between two others |
| ReplyFormat.ReplyLinesMarkup | static/script.js:29-32 | Every line is markup before anything is added to it |
| ReplyFormat.MarkupSplit | static/script.js:32 | Splitting markup at `\n` gives markup pieces |
| ReplyFormat.FormatReply | static/script.js:27-42 | A falsy or empty string gives `""`; any other string gives text that starts with `<p>` and ends with `</p>` |
| ReplyFormat.EmitLinesAppend | static/script.js:34-40 | The output is each line's output in input order |
| ReplyFormat.BulletLine | static/script.js:35-36 | A line of white space, `*` and `rest` is a bullet and becomes one list item holding `rest` trimmed; later `*` stay |
| ReplyFormat.BlankLineKept | static/script.js:35-38 | A blank or white-space-only line is copied and followed by `<br>` |
| ReplyFormat.PlainEmit | static/script.js:34-40 | Lines none of which is a bullet are emitted as the concatenation of each line followed by `<br>`, in input order |
| ReplyFormat.PlainLinesCopied | static/script.js:27-42 | A non-empty reply without bullet lines becomes `<p>`, then every line of the escaped, bolded, collapsed text followed by `<br>` in order, then `</p>` |
| ReplyFormat.BoldLineNotBullet | static/script.js:30-35 | A line starting with a closed `**x**` is not a bullet, because bolding runs first |
| ReplyFormat.BulletsNotMerged | static/script.js:34-36 | Two bullets in a row give two separate one-item lists, the first list closed and an empty paragraph opened and closed before the second list opens |
| ReplyFormat.ItemMarkup | static/script.js:36 | A list item around markup is markup |
| ReplyFormat.MarkupRemoveFirstStar | static/script.js:36 | Removing the first `*` keeps markup |
| ReplyFormat.EmitLinesMarkup | static/script.js:34-40 | Emitting markup lines gives markup |
| ReplyFormat.FormatReplySafe | static/script.js:27-42 | The reply is markup: no quote character, and every `<` opens a formatter tag, whatever string the model answered |
| TextFormat.SpaceRun | static/symptoms.js:131 | The end of the greedy run of `\s` from a position |
| TextFormat.BulletMatch | static/symptoms.js:131 | A match of `\n\s*[-*]\s+` at a position ends after the greedy `\s+` that follows its marker, at least three characters on |
| TextFormat.BulletAtMarker | static/symptoms.js:131 | The marker of a match is where the white space after the line break stops |
| TextFormat.BulletMatchComplete | static/symptoms.js:131 | Every place where the pattern matches is found |
| TextFormat.GlyphLineKept | static/symptoms.js:131 | Text before the first line break is copied, so a marker on the first line stays |
| TextFormat.GlyphBullet | static/symptoms.js:131 | A line break, any white space (blank lines included), a marker and white space become one line break and the glyph |
| TextFormat.GlyphNeedsSpace | static/symptoms.js:131 | A marker not followed by white space is kept as text |
| TextFormat.MarkerWithoutSpace | static/symptoms.js:131 | The pattern does not match a marker without white space after it |
| TextFormat.MarkupGlyph | static/symptoms.js:131 | The glyph rewrite keeps markup |
| TextFormat.FirstDouble | static/symptoms.js:132 | The first place with two line breaks in a row, at or after a position |
| TextFormat.NewlineRun | static/symptoms.js:132 | The end of the run of `\n` from a position |
| TextFormat.ParasHaveNoBlankLine | static/symptoms.js:132 | No paragraph holds two adjacent line breaks |
| TextFormat.ParagraphCount | static/symptoms.js:132 | There is one paragraph more than there are runs of two or more line breaks |
| TextFormat.ParasKeepText | static/symptoms.js:132 | Splitting drops only line breaks: the paragraphs hold the rest of the text, in order |
| TextFormat.MarkupParas | static/symptoms.js:132 | Splitting markup into paragraphs gives markup pieces |
| TextFormat.MarkupBreaksToBr | static/symptoms.js:132 | Turning `\n` into `<br>` keeps markup |
| TextFormat.MarkupParasHtml | static/symptoms.js:132-133 | Wrapping markup paragraphs in `<p>` and joining them gives markup |
| TextFormat.FormatText | static/symptoms.js:127-134 | A falsy or empty string gives `""`; any other string gives a non-empty result |
| TextFormat.FormatTextNoNewline | static/symptoms.js:132-133 | No `\n` reaches the output |
| TextFormat.FormatTextSafe | static/symptoms.js:127-134 | The analysis is markup: no quote character, and every `<` opens a formatter tag |
| ReplyView.ShowReply | static/script.js:18-24 | A falsy reply shows `""`, a string shows its `formatReply` markup, and formatting throws exactly for a truthy non-string |
| ReplyView.ShowAnalysis | static/symptoms.js:106-114 | A falsy reply shows `""`, a string shows its `formatText` markup, and formatting throws exactly for a truthy non-string |
| SymptomChart.ChartWindow | static/symptoms.js:62 | The window has min(n, 12) entries, the newest ones, oldest first |
| SymptomChart.WindowReversed | static/symptoms.js:62 | Reversing the window gives back the newest entries in their original order |
| SymptomChart.WindowIgnoresOlder | static/symptoms.js:62 | Entries beyond the twelfth never reach the window |
| SymptomChart.Label | static/symptoms.js:63 | A label fails (the `.slice` on `undefined` throws) exactly when the date has no space |
| SymptomChart.LabelOfStamp | static/symptoms.js:63 | `date time` is labelled with the date, a space and the first five characters of the time |
| SymptomChart.Labels | static/symptoms.js:63 | All labels exist exactly when every date has a space, and they are the entries' labels in order |
| SymptomChart.Severities | static/symptoms.js:64 | The data series holds each entry's severity in order |
| SymptomChart.ChartOf | static/symptoms.js:62-64 | The chart exists exactly when each windowed date has a space; point i is the severity and label of entry min(n,12)-1-i |
| SymptomChart.ChartIgnoresOlder | static/symptoms.js:62-64 | Entries beyond the twelfth do not change the chart |
| CommunityView.Interleave | static/community.js:102-114 | A template literal's output starts with its first chunk |
| CommunityView.InterleaveSpecials | static/community.js:102-114 | Inert values leave the template's special characters as the only ones in the output |
| CommunityView.InterleaveCancel | static/community.js:102-114 | A delimited template's output, even with text after it, determines the values in its holes |
| CommunityView.InterleaveInjective | static/community.js:102-114 | Equal outputs of a delimited template come from equal values |
| CommunityView.OrDefault | static/community.js:98-101 | JavaScript's logical-or fallback: a non-empty string is kept, a missing or empty one falls back |
| CommunityView.ViewOf | static/community.js:98-101 | The shown name is never empty; a present count is shown as it is, a missing one as 0 |
| CommunityView.IntToStringInert | static/community.js:103-112 | The unescaped `p.id` and count hold no special character, no `"` and no `)` |
| CommunityView.EscapeInjective | static/community.js:98-100 | Different texts escape differently |
| CommunityView.PostHtml | static/community.js:97-115 | The card starts with the template's opening chunk |
| CommunityView.PostSkeleton | static/community.js:97-115 | Whatever a post holds, its card has exactly the template's tags and attribute quotes |
| CommunityView.PostFieldsDelimited | static/community.js:102-114 | Each value ends where the next template chunk's first character, which the value lacks, begins |
| CommunityView.PostFieldsInjective | static/community.js:98-114 | Equal substituted values come from equal shown values |
| CommunityView.PostHtmlIff | static/community.js:97-115 | Two posts give the same card exactly when they show the same values |
| CommunityView.PostShowsValues | static/community.js:98-100 | The decoded name, date and content of a card are the post's values after the fallbacks |
| CommunityView.PostFallbacks | static/community.js:98-101 | A missing, empty or `Anonymous` name renders alike; a missing count renders as 0 |
| CommunityView.CommentViewOf | static/community.js:188 | The shown name is never empty, and the date and content are escaped like `escapeHtml` does |
| CommunityView.CommentFields | static/community.js:188 | A row has three inert values |
| CommunityView.CommentRow | static/community.js:188 | A row starts with the row template's opening chunk |
| CommunityView.CommentRows | static/community.js:188 | The joined rows are empty exactly when there are no comments |
| CommunityView.CommentRowsSkeleton | static/community.js:188 | The list's tags and quotes are those of one row template per comment |
| CommunityView.CommentRowsDetermine | static/community.js:188 | The joined rows determine the number of comments and what each shows |
| CommunityView.FallbackNames | static/community.js:188 | A missing name shows as `Anon` in a comment row but as `Anonymous` on a post card |
| CommunityView.StringProp | static/community.js:188 | Reading a property of `null` throws; a string property is read; a falsy or absent one is missing |
| CommunityView.CommentsOf | static/community.js:188 | The rows exist exactly when every item can be read, one row per item |
| CommunityView.CommentsArea | static/community.js:184-191 | A non-list or empty reply shows the empty message; a reply whose rows throw shows the failure message; otherwise the rows |
| CommunityView.CommentsAreaDistinct | static/community.js:184-191 | A list of comments never shows as either message |
| ApiClient.Data | static/community.js:16-18 | An empty body gives `null`; otherwise the parsed value, or `null` when parsing fails |
| ApiClient.ErrorObject | static/community.js:22-28 | The object carries the given `error` and `details` |
| ApiClient.HttpMessage | static/community.js:23 | The message starts with `HTTP ` |
| ApiClient.HttpMessageStatus | static/community.js:23 | The status code can be read back from the message, whatever the status text |
| ApiClient.Api | static/community.js:12-30 | A network failure gives `network-error`; an OK reply gives its data; an error status gives an object with `error` and `details` |
| ApiClient.ErrorFlagIff | static/community.js:12-30 | A caller's `j.error` throws exactly for an OK reply whose data is `null`, and fires exactly for a network failure, an error status, or an OK body that carries a truthy `error` |
| ApiClient.ErrorDetails | static/community.js:20-23 | On an error status the server's `error` wins and its `details` fall back to the raw body; without an error object the message is `HTTP <status> <text>` |
| ApiClient.ErrorFlag | static/community.js:39 | Reading `j.error` throws exactly on `null`; otherwise the branch is taken exactly when `error` is truthy |
| ApiClient.EmptyOkIsNull | static/community.js:16-25 | An OK reply with an empty, unparsable or `null` body resolves to `null`, on which reading `j.error` throws |
| Json.PyOr | app.py:54 | Python `a or b` |
| Json.PyInt | app.py:95 | `int()` of a number is that number; of `None`, a list or a dict it raises |
| Json.PyStrippedOrEmpty | app.py:55 | A falsy value reads as `""`; a string reads stripped; any other truthy value raises |
| AppRules.BodyOrEmpty | app.py:54 | A falsy body is replaced by `{}` |
| AppRules.DictGet | app.py:55 | `.get` succeeds exactly on a dict, with `None` for an absent key |
| AppRules.StrippedField | app.py:55 | A field that reads at all reads as a stripped string |
| AppRules.IntOrZeroOf | app.py:94-97 | A number reads as that number; so does its decimal text of at most 4300 digits, and longer text reads as 0 |
| AppRules.IntOrZeroDefault | app.py:94-97 | A missing, null, empty or unparsable value reads as 0 |
| AppRules.NotUrgentWithout | app.py:35 | No keyword occurs in text lacking `s`, `u` and `c` |
| AppRules.UrgentAt | app.py:60 | An occurrence of a keyword at any position makes the text urgent |
| AppRules.TriageQuery | app.py:54-61 | A rejection is `empty query`/400; an emergency carries the fixed reply; forwarded text is non-empty, stripped and holds no keyword once lower-cased |
| AppRules.QueryText | app.py:54-61 | For a string field the outcome depends on its stripped form alone: empty is rejected, a keyword in any case is an emergency, anything else is forwarded |
| AppRules.QueryMissingText | app.py:54-57 | No body, or a missing, null or empty text, is an empty query |
| AppRules.QueryPadding | app.py:55 | Spaces around the text change nothing |
| AppRules.QueryIgnoresCase | app.py:59-60 | Texts equal up to letter case are rejected alike and flagged alike |
| AppRules.QueryKeywordAnywhere | app.py:59-61 | A keyword anywhere in the text, even inside a word, triggers the emergency reply |
| AppRules.FirstChoice | app.py:80 | Missing or empty `choices` is treated as `[{}]` |
| AppRules.ExtractReply | app.py:80-82 | A reply is only extracted from a dict |
| AppRules.FirstTruthy | app.py:82 | The first truthy candidate, every one before it falsy; `""` when all are falsy |
| AppRules.ReplyPrecedence | app.py:80-82 | The reply is the first truthy of `message.content`, `text` and, for a query only, the top-level `message` |
| AppRules.NoChoices | app.py:80-82 | Without usable choices a query falls back to `message`, an analysis to `""` |
| AppRules.MalformedReply | app.py:80 | A reply that is not a dict, or whose choices are a string, fails |
| AppRules.AnalysisLimit | app.py:129-130 | The limit is 12 for a falsy body and for a dict without `limit`; a numeric `limit` is taken as given; a truthy non-dict body fails |
| AppRules.Fetch | app.py:132 | A limit outside the 64-bit range raises; otherwise `LIMIT n` keeps the first n rows, or all of them when there are fewer or n is negative |
| AppRules.Entries | app.py:137-139 | One entry per row, in reverse of the fetched order |
| AppRules.EntryNotes | app.py:139 | The ` — notes` suffix appears exactly when the notes are non-empty |
| AppRules.EntryOneLine | app.py:139 | An entry of single-line fields is one line |
| AppRules.LogLines | app.py:137-146 | The log's lines are the entries, one per row, oldest first |
| AppRules.AnalyzeSymptoms | app.py:130-151 | The handler crashes exactly when the limit does not parse or does not fit 64 bits; otherwise, for the fetched rows, it rejects with `no symptoms logged`/400 exactly when there are none, answers the fixed emergency reply exactly when their scan holds a keyword, and otherwise sends the prompt header and log of exactly those rows |
| AppRules.AnalysisDefaults | app.py:129-151 | For any body without a limit (falsy, or a dict without `limit`) the twelve newest rows are analysed: rejected without rows, an emergency when their scan holds a keyword, otherwise their prompt |
| AppRules.AnalysisPageRequest | static/symptoms.js:104 | The page's `{limit: 12}` request is answered exactly as a request with no body, and with the prompt for the twelve newest rows when they are not urgent |
| AppRules.NullLimitCrashes | app.py:130 | A null, list or dict limit raises |
| AppRules.ScanOne | app.py:149 | A row is scanned as its lower-cased name, a space and its notes |
| AppRules.ScanStraddles | app.py:149-150 | A keyword split between a name and its notes is found |
| AppRules.ScanCase | app.py:149-150 | Names are lower-cased before the scan and notes are not |
| AppRules.ScanAppend | app.py:149 | Scanning two runs of rows gives their scans joined by one space |
| AppRules.ScanRowInside | app.py:149 | Every row contributes its lower-cased name, a space and its notes, between the rows before it and the rows after it, in fetched order |
| AppRules.UrgentRow | app.py:149-151 | A keyword within any one fetched row makes the analysis an emergency |
| AppRules.AddSymptom | app.py:92-104 | A rejection is `name required`/400; a stored name is non-empty and stripped, and so are its notes; a stored severity fits 64 bits |
| AppRules.SymptomNameRequired | app.py:93-104 | A name is rejected exactly when it strips to nothing; otherwise it is stored stripped, or the insert crashes on a severity that does not fit 64 bits |
| AppRules.SymptomAccepted | app.py:92-104 | A valid symptom stores the stripped name, the read severity and the stripped notes when the severity fits 64 bits, and crashes the insert otherwise |
| AppRules.SeverityStored | app.py:94-104 | There is no range check: a 64-bit severity is stored as sent, as a number or as decimal text; a wider one crashes the insert, except decimal text over 4300 digits, which is stored as 0 |
| AppRules.SeverityDefault | app.py:94-97 | A missing, null, empty or unparsable severity is stored as 0 |
| AppRules.StoredUser | app.py:260 | An author id is kept exactly when it is positive |
| AppRules.NewContribution | app.py:248-255 | A rejection is `content required`/400; stored content is non-empty and stripped |
| AppRules.NewPost | app.py:248-268 | An author id above the 64-bit range fails the caught insert with `server error creating post`/500; otherwise the contribution rules decide |
| AppRules.NewComment | app.py:280-290 | A comment follows the contribution rules; the insert crashes exactly when the post id or a kept author id does not fit 64 bits; otherwise the post id is recorded |
| AppRules.AuthorRule | app.py:248-290 | The author is kept exactly when the id parses to a positive integer; a positive id above the 64-bit range fails the post with status 500 and crashes the comment |
| AppRules.AuthorKept | app.py:249-290 | A positive 64-bit id, as a number or as decimal text, is kept; a wider one fails the insert, except decimal text over 4300 digits, which leaves the contribution anonymous |
| AppRules.RoutesOf | app.py:257-290 | Once the contribution is read, the post and comment routes differ only in how a failed insert ends |
| AppRules.ContentRequired | app.py:248-255 | Content that strips to nothing is rejected on both routes; other content is read stripped |
| Text.Trim | static/script.js:35-36 | The result is an infix between two runs of white space, with no white space at either end |
| Text.TrimIdempotent | app.py:55 | Stripping twice is stripping once |
| Text.TrimPadded | app.py:55 | White space around a string is what stripping removes |
| Text.TrimLower | app.py:55-59 | Lower-casing and stripping commute |
| Text.LowerForgetsCase | app.py:59 | Lower-casing forgets the letter case of its input |
| Text.ContainsIff | app.py:60 | The `in` test holds exactly when the keyword occurs at some index |
| Text.RemoveFirst | static/script.js:36 | `replace("*", "")` removes only the first `*` |
| Text.RemoveFirstAt | static/script.js:36 | What follows the first `*` is kept |
| Text.Split | static/symptoms.js:63 | No piece holds the separator; there is one piece exactly when the separator is absent |
| Text.JoinSplit | static/script.js:32 | Joining the pieces of a split gives the text back |
| Text.SplitJoin | static/script.js:32 | Splitting a join of separator-free pieces gives the pieces back |
| Text.SplitInteriorNonEmpty | static/script.js:31-32 | Without two adjacent separators only the first and the last piece can be empty |
| Text.Take | static/symptoms.js:62 | `slice(0, n)` keeps the first n elements, or all when there are fewer |
| Text.Reverse | static/symptoms.js:62 | Element i of the result is element n-1-i of the input |
| Text.IntToString | app.py:139 | A decimal rendering: a sign exactly for negatives, then digits |
| Text.IntRoundTrip | app.py:95 | `int()` of an integer's decimal text gives the integer back exactly when it has at most 4300 digits |
| Text.PyParseInt | app.py:95 | Text with more than 4300 digits never parses |

## Left out

- The database: rows reach the model as a sequence in the query's order. SQL ordering, `JOIN`, `COUNT` and `COALESCE` are not modelled. `models.py` is not part of this model.
- The request to the model endpoint, the payload, `raise_for_status` and the 502 replies are not modelled. The endpoint's answer is an input `Json` value.
- Flask routing, `jsonify` and status plumbing: a handler's result is an `Outcome`.
- The timestamp from `datetime.now()`: the clock is outside the model.
- Registration, login, password hashing, the symptom list, delete and CSV export routes, and the post detail route: not part of the modelled core.
- The DOM, event listeners, `alert`/`confirm`, `localStorage` and the Chart.js object: only the strings and series the scripts compute are modelled.
- `fetch`, and whether a reply is JSON: the outcome of the request and of `JSON.parse` are inputs (`ApiClient.Fetched`). `String(err)` is an input string too.
- Json: numbers are integers. Request bodies are client JSON and can hold fractions, which `int()` truncates toward zero (`{"severity": 7.9}` is stored as 7). Fractional numbers, `int()` of a float and `Number()` of a fraction are not modelled.
- Request decoding: bodies reach the handlers as decoded `Json` values. A body Flask cannot decode is not modelled.
- Text.Lower: ASCII letters only. This approximates Python's Unicode `str.lower()`.
- Text.PyParseInt: ASCII digits with an optional sign and surrounding white space. Underscores and non-ASCII digits, which Python's `int()` also accepts, are not modelled. The 4300-digit limit is CPython's default from version 3.11; earlier versions have no limit.
- SymptomChart.Severities: `Number(i.severity)` is the identity, because severities are stored as integers.
- CommunityView.PostHtml: `p.id` is an integer. That is what the server's primary key gives.
- TextFormat.FormatText: that a `\r` passes through unchanged is not stated as a lemma.
- AppRules.NewPost: the `details` of the 500 answer, sqlite3's exception text, are not modelled.
