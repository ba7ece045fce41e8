/** The community page's rendering of posts and comments: each user-supplied value goes through
    `escapeHtml` and is spliced into a fixed HTML template. Two facts carry the page's safety and
    fidelity: the template's tags and attribute quotes are the only ones in the output, whatever
    the data, and the output determines every value the card shows. */
module CommunityView {
  import opened Text
  import opened HtmlEscape
  import opened Json

  // ---------------------------------------------------------------------------------------------
  // Templates with holes

  /** `chunks[0] + fields[0] + chunks[1] + ... + fields[n-1] + chunks[n]`: a template literal with
      `n` substitutions. */
  function Interleave(chunks: seq<string>, fields: seq<string>): (r: string)
    requires |chunks| == |fields| + 1
    ensures StartsWith(r, chunks[0])
    decreases |fields|
  {
    if |fields| == 0 then chunks[0]
    else
      var rest := Interleave(chunks[1..], fields[1..]);
      assert (chunks[0] + fields[0] + rest)[..|chunks[0]|] == chunks[0];
      chunks[0] + fields[0] + rest
  }

  /** Every hole is followed by a non-empty chunk whose first character the hole's value lacks,
      so the value's end can be found again. */
  predicate Delimited(chunks: seq<string>, fields: seq<string>)
    requires |chunks| == |fields| + 1
  {
    forall i :: 0 <= i < |fields| ==> HoleEnds(chunks, fields, i)
  }

  /** The chunk after hole `i` starts with a character the value in the hole lacks. */
  predicate HoleEnds(chunks: seq<string>, fields: seq<string>, i: int)
    requires |chunks| == |fields| + 1 && 0 <= i < |fields|
  {
    |chunks[i + 1]| > 0 && chunks[i + 1][0] !in fields[i]
  }

  /** The characters of `s` that can open or close a tag or an attribute value, in order. */
  function Specials(s: string): (r: string)
    ensures forall i :: 0 <= i < |r| ==> IsHtmlSpecial(r[i])
    ensures |r| <= |s|
    decreases |s|
  {
    if |s| == 0 then "" else (if IsHtmlSpecial(s[0]) then [s[0]] else "") + Specials(s[1..])
  }

  lemma {:induction false} SpecialsAppend(a: string, b: string)
    ensures Specials(a + b) == Specials(a) + Specials(b)
    decreases |a|
  {
    if |a| == 0 {
      assert a + b == b;
    } else {
      var x := if IsHtmlSpecial(a[0]) then [a[0]] else "";
      assert Specials(a + b) == x + Specials(a[1..] + b) by {
        assert (a + b)[0] == a[0];
        assert (a + b)[1..] == a[1..] + b;
      }
      SpecialsAppend(a[1..], b);
      Assoc(x, Specials(a[1..]), Specials(b));
    }
  }

  /** Text is inert exactly when it contributes no special character. */
  lemma {:induction false} SpecialsInert(s: string)
    ensures Specials(s) == "" <==> Inert(s)
    decreases |s|
  {
    if |s| > 0 {
      SpecialsInert(s[1..]);
      assert Inert(s) <==> !IsHtmlSpecial(s[0]) && Inert(s[1..]) by {
        assert forall i :: 1 <= i < |s| ==> s[i] == s[1..][i - 1];
      }
    }
  }

  /** Inert values leave the template's special characters as the only ones in the output. */
  lemma {:induction false} InterleaveSpecials(chunks: seq<string>, fields: seq<string>)
    requires |chunks| == |fields| + 1
    requires forall i :: 0 <= i < |fields| ==> Inert(fields[i])
    ensures Specials(Interleave(chunks, fields)) == Specials(Concat(chunks))
    decreases |fields|
  {
    if |fields| == 0 {
      assert chunks[1..] == [];
      assert Concat(chunks) == chunks[0] + "";
      assert chunks[0] + "" == chunks[0];
    } else {
      var rest := Interleave(chunks[1..], fields[1..]);
      InterleaveSpecials(chunks[1..], fields[1..]);
      SpecialsAppend(chunks[0] + fields[0], rest);
      SpecialsAppend(chunks[0], fields[0]);
      SpecialsInert(fields[0]);
      SpecialsAppend(chunks[0], Concat(chunks[1..]));
    }
  }

  /** A value that lacks `c`, followed by text starting with `c`, is recovered from the whole. */
  lemma FieldCancel(a: string, b: string, x: string, y: string, c: char)
    requires c !in a && c !in b
    requires |x| > 0 && |y| > 0 && x[0] == c && y[0] == c
    requires a + x == b + y
    ensures a == b && x == y
  {
    assert a + x == a + [c] + x[1..];
    assert b + y == b + [c] + y[1..];
    FirstIndexAt(a, c, x[1..]);
    FirstIndexAt(b, c, y[1..]);
    assert a == (a + x)[..|a|];
    assert b == (b + y)[..|b|];
    assert x == (a + x)[|a|..];
    assert y == (b + y)[|b|..];
  }

  /** A delimited template's output, even with text after it, determines the values in its holes
      and the text that follows. */
  lemma {:induction false} InterleaveCancel(chunks: seq<string>, f: seq<string>, g: seq<string>, x: string, y: string)
    requires |chunks| == |f| + 1 && |chunks| == |g| + 1
    requires Delimited(chunks, f) && Delimited(chunks, g)
    requires Interleave(chunks, f) + x == Interleave(chunks, g) + y
    ensures f == g && x == y
    decreases |f|
  {
    var c0 := chunks[0];
    if |f| == 0 {
      assert x == (Interleave(chunks, f) + x)[|c0|..];
      assert y == (Interleave(chunks, g) + y)[|c0|..];
    } else {
      var tf := Interleave(chunks[1..], f[1..]);
      var tg := Interleave(chunks[1..], g[1..]);
      var rf, rg := tf + x, tg + y;
      assert Interleave(chunks, f) + x == c0 + (f[0] + rf);
      assert Interleave(chunks, g) + y == c0 + (g[0] + rg);
      assert f[0] + rf == (c0 + (f[0] + rf))[|c0|..];
      assert g[0] + rg == (c0 + (g[0] + rg))[|c0|..];
      assert HoleEnds(chunks, f, 0) && HoleEnds(chunks, g, 0);
      var c := chunks[1][0];
      assert rf[0] == tf[0] == c;
      assert rg[0] == tg[0] == c;
      FieldCancel(f[0], g[0], rf, rg, c);
      DelimitedTail(chunks, f);
      DelimitedTail(chunks, g);
      InterleaveCancel(chunks[1..], f[1..], g[1..], x, y);
      assert f == [f[0]] + f[1..] && g == [g[0]] + g[1..];
    }
  }

  lemma DelimitedTail(chunks: seq<string>, fields: seq<string>)
    requires |chunks| == |fields| + 1 && |fields| > 0
    requires Delimited(chunks, fields)
    ensures Delimited(chunks[1..], fields[1..])
  {
    var cs, fs := chunks[1..], fields[1..];
    forall i | 0 <= i < |fs|
      ensures HoleEnds(cs, fs, i)
    {
      assert HoleEnds(chunks, fields, i + 1);
      assert cs[i + 1] == chunks[i + 2] && fs[i] == fields[i + 1];
    }
  }

  lemma InterleaveInjective(chunks: seq<string>, f: seq<string>, g: seq<string>)
    requires |chunks| == |f| + 1 && |chunks| == |g| + 1
    requires Delimited(chunks, f) && Delimited(chunks, g)
    requires Interleave(chunks, f) == Interleave(chunks, g)
    ensures f == g
  {
    assert Interleave(chunks, f) + "" == Interleave(chunks, g) + "";
    InterleaveCancel(chunks, f, g, "", "");
  }

  // ---------------------------------------------------------------------------------------------
  // Values

  /** JavaScript `v || d` for a string property: `undefined`, `null` and `""` fall back to `d`. */
  function OrDefault(v: Option<string>, d: string): (r: string)
    ensures v.Some? && v.value != "" ==> r == v.value
    ensures v.None? || v.value == "" ==> r == d
  {
    if v.Some? && v.value != "" then v.value else d
  }

  /** `${n}` for an integer and `escapeHtml(s)` for a string: neither holds a special character. */
  lemma IntToStringInert(n: int)
    ensures Inert(IntToString(n))
    ensures '"' !in IntToString(n) && ')' !in IntToString(n)
  {
    var s := IntToString(n);
    assert forall i :: 0 <= i < |s| ==> s[i] == '-' || IsDigit(s[i]);
  }

  lemma IntToStringInjective(a: int, b: int)
    requires IntToString(a) == IntToString(b)
    ensures a == b
  {
    LiteralRoundTrip(a);
    LiteralRoundTrip(b);
  }

  lemma EscapeInjective(a: string, b: string)
    requires Escape(a) == Escape(b)
    ensures a == b
  {
    UnescapeEscape(a);
    UnescapeEscape(b);
  }

  lemma InertLacks(s: string)
    requires Inert(s)
    ensures '<' !in s && '"' !in s
  {
  }

  // ---------------------------------------------------------------------------------------------
  // Post cards

  /** A post as the server's JSON gives it; a missing or null property is `None`. */
  datatype Post = Post(id: int, username: Option<string>, createdAt: Option<string>,
                       content: Option<string>, commentCount: Option<int>)

  /** What a card shows once the fallbacks are applied. */
  datatype PostView = PostView(id: int, username: string, createdAt: string, content: string, commentCount: int)

  /** `p.username || 'Anonymous'`, `p.created_at || ''`, `p.content || ''`, `p.comment_count || 0`. */
  function ViewOf(p: Post): (v: PostView)
    ensures v.username != ""
    ensures p.commentCount.Some? ==> v.commentCount == p.commentCount.value
    ensures p.commentCount.None? ==> v.commentCount == 0
  {
    PostView(p.id, OrDefault(p.username, "Anonymous"), OrDefault(p.createdAt, ""), OrDefault(p.content, ""),
             match p.commentCount case Some(n) => n case None => 0)
  }

  /** The template literal of `postHtml` cut at its seven substitutions. Each chunk after a
      substitution is written as its first character, the one that ends the value before it,
      followed by the rest. */
  const PostChunks: seq<string> := [
    "\n    <div class=\"post-card\" id=\"post_",
    "\"" + ">\n      <div class=\"post-header\">\n        <div><strong>",
    "<" + "/strong></div>\n        <div class=\"post-meta\">",
    "<" + "/div>\n      </div>\n      <div class=\"post-content\">",
    "<" + "/div>\n      <div class=\"row\" style=\"margin-top:10px;\">\n        <button class=\"commentBtn\" data-id=\"",
    "\"" + ">Comments (",
    ")" + "</button>\n      </div>\n      <div class=\"comments\" id=\"comments_",
    "\"" + "></div>\n    </div>\n  "
  ]

  /** The substituted values: the id three times, the escaped texts and the count. */
  function PostFields(v: PostView): (r: seq<string>)
    ensures |r| == 7
    ensures forall i :: 0 <= i < |r| ==> Inert(r[i])
  {
    IntToStringInert(v.id);
    IntToStringInert(v.commentCount);
    [IntToString(v.id), EscapeHtml(Some(v.username)), EscapeHtml(Some(v.createdAt)),
     EscapeHtml(Some(v.content)), IntToString(v.id), IntToString(v.commentCount), IntToString(v.id)]
  }

  /** `postHtml(p)`. */
  function PostHtml(p: Post): (r: string)
    ensures StartsWith(r, PostChunks[0])
  {
    Interleave(PostChunks, PostFields(ViewOf(p)))
  }

  /** Whatever a post holds, its card has exactly the template's tags and attribute quotes: no
      user text can open a tag, close one, or leave an attribute value. */
  lemma PostSkeleton(p: Post)
    ensures Specials(PostHtml(p)) == Specials(Concat(PostChunks))
  {
    InterleaveSpecials(PostChunks, PostFields(ViewOf(p)));
  }

  lemma PostFieldsDelimited(v: PostView)
    ensures Delimited(PostChunks, PostFields(v))
  {
    var f := PostFields(v);
    IntToStringInert(v.id);
    IntToStringInert(v.commentCount);
    InertLacks(f[1]);
    InertLacks(f[2]);
    InertLacks(f[3]);
    assert PostChunks[1][0] == '"' && PostChunks[2][0] == '<' && PostChunks[3][0] == '<';
    assert PostChunks[4][0] == '<' && PostChunks[5][0] == '"' && PostChunks[6][0] == ')';
    assert PostChunks[7][0] == '"';
  }

  lemma PostFieldsInjective(v: PostView, w: PostView)
    requires PostFields(v) == PostFields(w)
    ensures v == w
  {
    IntToStringInjective(v.id, w.id);
    EscapeInjective(v.username, w.username);
    EscapeInjective(v.createdAt, w.createdAt);
    EscapeInjective(v.content, w.content);
    IntToStringInjective(v.commentCount, w.commentCount);
  }

  /** Two posts render to the same card exactly when they show the same values: the card
      loses nothing that is shown, and the fallbacks are the only values it merges. */
  lemma PostHtmlIff(p: Post, q: Post)
    ensures PostHtml(p) == PostHtml(q) <==> ViewOf(p) == ViewOf(q)
  {
    if PostHtml(p) == PostHtml(q) {
      PostFieldsDelimited(ViewOf(p));
      PostFieldsDelimited(ViewOf(q));
      InterleaveInjective(PostChunks, PostFields(ViewOf(p)), PostFields(ViewOf(q)));
      PostFieldsInjective(ViewOf(p), ViewOf(q));
    }
  }

  /** The shown text of each escaped field, as the browser decodes it, is the value itself. */
  lemma PostShowsValues(p: Post)
    ensures Unescape(PostFields(ViewOf(p))[1]) == OrDefault(p.username, "Anonymous")
    ensures Unescape(PostFields(ViewOf(p))[2]) == OrDefault(p.createdAt, "")
    ensures Unescape(PostFields(ViewOf(p))[3]) == OrDefault(p.content, "")
  {
    var v := ViewOf(p);
    UnescapeEscape(v.username);
    UnescapeEscape(v.createdAt);
    UnescapeEscape(v.content);
  }

  /** A missing name, a null one and an empty one all show as `Anonymous`; a missing count
      and a zero count both show as 0. */
  lemma PostFallbacks(id: int, c: Option<string>, t: Option<string>)
    ensures PostHtml(Post(id, None, c, t, None)) == PostHtml(Post(id, Some(""), c, t, Some(0)))
    ensures PostHtml(Post(id, None, c, t, None)) == PostHtml(Post(id, Some("Anonymous"), c, t, None))
  {
  }

  // ---------------------------------------------------------------------------------------------
  // Comment lists

  /** A comment as the server's JSON gives it. */
  datatype Comment = Comment(username: Option<string>, createdAt: Option<string>, content: Option<string>)

  /** What a comment row shows. */
  datatype CommentView = CommentView(username: string, createdAt: string, content: string)

  /** `c.username || 'Anon'`; `escapeHtml` itself turns a missing date or text into `''`. */
  function CommentViewOf(c: Comment): (v: CommentView)
    ensures v.username != ""
    ensures EscapeHtml(c.createdAt) == Escape(v.createdAt) && EscapeHtml(c.content) == Escape(v.content)
  {
    CommentView(OrDefault(c.username, "Anon"), OrDefault(c.createdAt, ""), OrDefault(c.content, ""))
  }

  /** The opening of a classed `div`, shared by the row template and the list's two messages. */
  const DivClass := "<div class=\""

  const CommentChunks: seq<string> := [
    DivClass + "comment-block" + "\"><strong>",
    "</strong> <div class=\"post-meta\">",
    "</div><div style=\"margin-top:6px;\">",
    "</div></div>"
  ]

  function CommentFields(c: Comment): (r: seq<string>)
    ensures |r| == 3
    ensures forall i :: 0 <= i < |r| ==> Inert(r[i])
  {
    [EscapeHtml(Some(OrDefault(c.username, "Anon"))), EscapeHtml(c.createdAt), EscapeHtml(c.content)]
  }

  /** One row of the comment list. */
  function CommentRow(c: Comment): (r: string)
    ensures StartsWith(r, CommentChunks[0])
  {
    Interleave(CommentChunks, CommentFields(c))
  }

  /** `j.map(row).join('')`. */
  function CommentRows(cs: seq<Comment>): (r: string)
    ensures |cs| == 0 <==> r == ""
    decreases |cs|
  {
    if |cs| == 0 then "" else CommentRow(cs[0]) + CommentRows(cs[1..])
  }

  function Repeat(s: string, n: nat): string
    decreases n
  {
    if n == 0 then "" else s + Repeat(s, n - 1)
  }

  /** The list's tags and attribute quotes are those of one row template per comment, whatever
      the comments say. */
  lemma {:induction false} CommentRowsSkeleton(cs: seq<Comment>)
    ensures Specials(CommentRows(cs)) == Repeat(Specials(Concat(CommentChunks)), |cs|)
    decreases |cs|
  {
    if |cs| > 0 {
      CommentRowsSkeleton(cs[1..]);
      CommentRowsStep(cs);
    }
  }

  lemma CommentRowsStep(cs: seq<Comment>)
    requires |cs| > 0
    ensures Specials(CommentRows(cs)) == Specials(Concat(CommentChunks)) + Specials(CommentRows(cs[1..]))
  {
    InterleaveSpecials(CommentChunks, CommentFields(cs[0]));
    SpecialsAppend(CommentRow(cs[0]), CommentRows(cs[1..]));
  }

  lemma CommentFieldsDelimited(c: Comment)
    ensures Delimited(CommentChunks, CommentFields(c))
  {
    var f := CommentFields(c);
    InertLacks(f[0]);
    InertLacks(f[1]);
    InertLacks(f[2]);
    assert CommentChunks[1][0] == '<' && CommentChunks[2][0] == '<' && CommentChunks[3][0] == '<';
  }

  lemma CommentFieldsInjective(c: Comment, d: Comment)
    requires CommentFields(c) == CommentFields(d)
    ensures CommentViewOf(c) == CommentViewOf(d)
  {
    var v, w := CommentViewOf(c), CommentViewOf(d);
    EscapeInjective(v.username, w.username);
    EscapeInjective(v.createdAt, w.createdAt);
    EscapeInjective(v.content, w.content);
  }

  /** The joined rows determine how many comments there are and what each one shows. */
  lemma {:induction false} CommentRowsDetermine(cs: seq<Comment>, ds: seq<Comment>)
    requires CommentRows(cs) == CommentRows(ds)
    ensures |cs| == |ds|
    ensures forall i :: 0 <= i < |cs| ==> CommentViewOf(cs[i]) == CommentViewOf(ds[i])
    decreases |cs|
  {
    if |cs| > 0 {
      CommentFieldsDelimited(cs[0]);
      CommentFieldsDelimited(ds[0]);
      InterleaveCancel(CommentChunks, CommentFields(cs[0]), CommentFields(ds[0]),
                       CommentRows(cs[1..]), CommentRows(ds[1..]));
      CommentFieldsInjective(cs[0], ds[0]);
      CommentRowsDetermine(cs[1..], ds[1..]);
      forall i | 1 <= i < |cs| ensures CommentViewOf(cs[i]) == CommentViewOf(ds[i]) {
        assert cs[1..][i - 1] == cs[i] && ds[1..][i - 1] == ds[i];
      }
    }
  }

  /** The missing-name fallbacks differ between the two templates. */
  lemma FallbackNames(id: int)
    ensures ViewOf(Post(id, None, None, None, None)).username == "Anonymous"
    ensures CommentViewOf(Comment(None, None, None)).username == "Anon"
  {
  }

  // ---------------------------------------------------------------------------------------------
  // The comment list as loaded from the server

  const NoComments := DivClass + "muted" + "\">No comments yet.</div>"
  const CommentsFailed := DivClass + "muted" + "\">Failed to load comments.</div>"

  /** A string property read by the row template: falsy values and absence read as missing;
      `None` when reading throws — a property of `null`, or `escapeHtml` on a truthy value that
      has no `replaceAll`. */
  function StringProp(item: Json, k: string): (r: Option<Option<string>>)
    ensures item.JNull? ==> r.None?
    ensures JsField(item, k).Some? && JsField(item, k).value.JStr? ==> r.Some?
    ensures !item.JNull? && !JsTruthyOpt(JsField(item, k)) ==> r == Some(None)
  {
    if item.JNull? then None
    else match JsField(item, k)
      case None => Some(None)
      case Some(v) =>
        if !JsTruthy(v) then Some(None)
        else if v.JStr? then Some(Some(v.s))
        else None
  }

  function CommentOf(item: Json): (r: Option<Comment>)
  {
    match (StringProp(item, "username"), StringProp(item, "created_at"), StringProp(item, "content"))
    case (Some(u), Some(d), Some(t)) => Some(Comment(u, d, t))
    case _ => None
  }

  function CommentsOf(items: seq<Json>): (r: Option<seq<Comment>>)
    ensures r.Some? ==> |r.value| == |items|
    ensures r.Some? <==> forall i :: 0 <= i < |items| ==> CommentOf(items[i]).Some?
    ensures r.Some? ==> forall i :: 0 <= i < |items| ==> CommentOf(items[i]) == Some(r.value[i])
    decreases |items|
  {
    if |items| == 0 then Some([])
    else match (CommentOf(items[0]), CommentsOf(items[1..]))
      case (Some(c), Some(cs)) => Some([c] + cs)
      case _ => None
  }

  /** What the comment list shows for the reply `j` of the comments request. */
  function CommentsArea(j: Json): (r: string)
    ensures !j.JArr? || |j.items| == 0 ==> r == NoComments
    ensures j.JArr? && |j.items| > 0 && CommentsOf(j.items).None? ==> r == CommentsFailed
    ensures j.JArr? && |j.items| > 0 && CommentsOf(j.items).Some? ==> r == CommentRows(CommentsOf(j.items).value)
  {
    if !j.JArr? || |j.items| == 0 then NoComments
    else match CommentsOf(j.items)
      case None => CommentsFailed
      case Some(cs) => CommentRows(cs)
  }

  /** A list of comments is never shown as the empty-list message or the failure message. */
  lemma CommentsAreaDistinct(j: Json)
    requires j.JArr? && |j.items| > 0 && CommentsOf(j.items).Some?
    ensures CommentsArea(j) != NoComments && CommentsArea(j) != CommentsFailed
  {
    var cs := CommentsOf(j.items).value;
    var n := |DivClass|;
    RowsStart(cs);
    ClassLetter(DivClass, "comment-block", "\"><strong>");
    ClassLetter(DivClass, "muted", "\">No comments yet.</div>");
    ClassLetter(DivClass, "muted", "\">Failed to load comments.</div>");
    assert CommentsArea(j)[n] == 'c';
  }

  /** Joined rows start with the row template's first chunk. */
  lemma RowsStart(cs: seq<Comment>)
    requires |cs| > 0
    ensures StartsWith(CommentRows(cs), CommentChunks[0])
  {
    StartsWithAppend(CommentRow(cs[0]), CommentRows(cs[1..]), CommentChunks[0]);
  }

  /** The first letter of the class name sits right after the shared opening. */
  lemma ClassLetter(a: string, b: string, rest: string)
    requires |b| > 0
    ensures |a| < |a + b + rest| && (a + b + rest)[|a|] == b[0]
  {
  }
}
