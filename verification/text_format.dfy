/** `formatText` of the symptom page: escape, bold, turn list markers that follow a line break
    into a fixed bullet glyph, then cut the text into paragraphs at blank lines and turn the
    remaining single line breaks into `<br>`. */
module TextFormat {
  import opened Text
  import opened HtmlEscape
  import opened SafeMarkup
  import opened BoldSpans
  import opened ReplyFormat

  /** What follows the `\n` in the glyph replacement: the UTF-8 bytes of a bullet read back as
      Windows-1252 (`â`, `€`, `¢`), then a space. */
  const Glyph: string := "\U{00E2}\U{20AC}\U{00A2} "

  predicate IsMarker(c: char)
  {
    c == '-' || c == '*'
  }

  /** The end of the run of `\s` characters that starts at `i`. */
  function SpaceRun(s: string, i: nat): (e: nat)
    requires i <= |s|
    ensures i <= e <= |s|
    ensures forall k :: i <= k < e ==> IsJsSpace(s[k])
    ensures e == |s| || !IsJsSpace(s[e])
    decreases |s| - i
  {
    if i < |s| && IsJsSpace(s[i]) then SpaceRun(s, i + 1) else i
  }

  /** `\n\s*[-*]\s` matches at `p` with its marker at `m`. */
  predicate BulletAt(s: string, p: int, m: int)
  {
    0 <= p < m && m + 1 < |s| && s[p] == '\n' && IsMarker(s[m]) && IsJsSpace(s[m + 1])
    && forall k :: p < k < m ==> IsJsSpace(s[k])
  }

  /** Where the match of `/\n\s*[-*]\s+/` that starts at `p` ends, if there is one. `\s*` can
      only give way to a marker where its greedy run stops, and `\s+` is greedy. */
  function BulletMatch(s: string, p: nat): (r: Option<nat>)
    requires p <= |s|
    ensures r.Some? ==> exists m :: BulletAt(s, p, m) && r.value == SpaceRun(s, m + 1)
    ensures r.Some? ==> p + 3 <= r.value <= |s|
  {
    if p < |s| && s[p] == '\n' then
      var m := SpaceRun(s, p + 1);
      if m + 1 < |s| && IsMarker(s[m]) && IsJsSpace(s[m + 1]) then
        assert BulletAt(s, p, m);
        Some(SpaceRun(s, m + 1))
      else None
    else None
  }

  /** The marker of a match is where the white space after the line break stops. */
  lemma BulletAtMarker(s: string, p: nat, m: int)
    requires BulletAt(s, p, m)
    ensures m == SpaceRun(s, p + 1)
  {
    SpaceRunIs(s, p + 1, m);
  }

  /** Every place where the pattern matches is found. */
  lemma BulletMatchComplete(s: string, p: nat, m: int)
    requires BulletAt(s, p, m)
    ensures BulletMatch(s, p) == Some(SpaceRun(s, m + 1))
  {
    BulletAtMarker(s, p, m);
  }

  /** `s.replace(/\n\s*[-*]\s+/g, "\n" + Glyph)`: matches are tried left to right and the
      search resumes after each one. */
  function GlyphRewrite(s: string): string
    decreases |s|
  {
    if |s| == 0 then ""
    else match BulletMatch(s, 0)
      case Some(e) => "\n" + Glyph + GlyphRewrite(s[e..])
      case None => [s[0]] + GlyphRewrite(s[1..])
  }

  /** Text before the first line break is copied; in particular a marker on the first line
      stays as it is. */
  lemma {:induction false} GlyphLineKept(a: string, b: string)
    requires '\n' !in a
    ensures GlyphRewrite(a + b) == a + GlyphRewrite(b)
    decreases |a|
  {
    if |a| == 0 {
      EmptyPrefix(b);
    } else {
      AppendTail(a, b);
      GlyphCopied(a + b);
      assert '\n' !in a[1..];
      GlyphLineKept(a[1..], b);
      HeadCons(a);
      Assoc([a[0]], a[1..], GlyphRewrite(b));
    }
  }

  /** A character other than a line break cannot start a match and is copied. */
  lemma GlyphCopied(s: string)
    requires |s| > 0 && s[0] != '\n'
    ensures GlyphRewrite(s) == [s[0]] + GlyphRewrite(s[1..])
  {
  }

  lemma MatchOfPattern(w: string, c: char, sp: string, rest: string)
    requires AllSpace(JsSpaces, w) && IsMarker(c) && AllSpace(JsSpaces, sp) && |sp| > 0
    requires |rest| == 0 || !IsJsSpace(rest[0])
    ensures BulletMatch("\n" + w + [c] + sp + rest, 0) == Some(|w| + 2 + |sp|)
  {
    var s := "\n" + w + [c] + sp + rest;
    var m := |w| + 1;
    var e := m + 1 + |sp|;
    assert s[m] == c && s[m + 1] == sp[0];
    assert forall k :: 0 < k < m ==> s[k] == w[k - 1];
    assert forall k :: m < k < e ==> s[k] == sp[k - m - 1];
    assert e == |s| || s[e] == rest[0];
    assert BulletAt(s, 0, m);
    BulletMatchComplete(s, 0, m);
    assert SpaceRun(s, m + 1) == e by {
      SpaceRunIs(s, m + 1, e);
    }
  }

  lemma {:induction false} SpaceRunIs(s: string, i: nat, e: nat)
    requires i <= e <= |s|
    requires forall k :: i <= k < e ==> IsJsSpace(s[k])
    requires e == |s| || !IsJsSpace(s[e])
    ensures SpaceRun(s, i) == e
    decreases e - i
  {
    if i < e {
      SpaceRunIs(s, i + 1, e);
    }
  }

  /** A line break, any white space (blank lines included), a marker and white space become one
      line break and the glyph: blank lines right before a bullet disappear. */
  lemma GlyphBullet(w: string, c: char, sp: string, rest: string)
    requires AllSpace(JsSpaces, w) && IsMarker(c) && AllSpace(JsSpaces, sp) && |sp| > 0
    requires |rest| == 0 || !IsJsSpace(rest[0])
    ensures GlyphRewrite("\n" + w + [c] + sp + rest) == "\n" + Glyph + GlyphRewrite(rest)
  {
    var s := "\n" + w + [c] + sp + rest;
    MatchOfPattern(w, c, sp, rest);
    assert s[|w| + 2 + |sp|..] == rest;
  }

  /** A marker with no white space after it is text, not a bullet. */
  lemma GlyphNeedsSpace(c: char, rest: string)
    requires IsMarker(c) && (|rest| == 0 || !IsJsSpace(rest[0]))
    ensures GlyphRewrite(['\n'] + ([c] + rest)) == ['\n'] + ([c] + GlyphRewrite(rest))
  {
    MarkerWithoutSpace(c, rest);
    GlyphCopy('\n', [c] + rest);
    GlyphLineKept([c], rest);
  }

  lemma MarkerWithoutSpace(c: char, rest: string)
    requires IsMarker(c) && (|rest| == 0 || !IsJsSpace(rest[0]))
    ensures BulletMatch(['\n'] + ([c] + rest), 0) == None
  {
    var s := ['\n'] + ([c] + rest);
    assert s[1] == c;
    SpaceRunIs(s, 1, 1);
    assert |s| > 2 ==> s[2] == rest[0];
  }

  lemma GlyphCopy(x: char, t: string)
    requires BulletMatch([x] + t, 0) == None
    ensures GlyphRewrite([x] + t) == [x] + GlyphRewrite(t)
  {
    assert ([x] + t)[0] == x && ([x] + t)[1..] == t;
  }

  lemma GlyphInert()
    ensures Inert("\n" + Glyph)
  {
  }

  lemma MatchHasNoTag(s: string, e: nat)
    requires BulletMatch(s, 0) == Some(e)
    ensures '<' !in s[..e]
  {
    var m :| BulletAt(s, 0, m) && e == SpaceRun(s, m + 1);
    forall k | 0 <= k < e ensures s[..e][k] != '<' {
      assert s[..e][k] == s[k];
      if 0 < k < m {
        assert IsJsSpace(s[k]);
      } else if m + 1 <= k {
        assert IsJsSpace(s[k]);
      }
    }
  }

  /** The glyph rewrite keeps markup: a match holds no tag character and the glyph is inert. */
  lemma {:induction false} MarkupGlyph(s: string)
    requires Markup(s)
    ensures Markup(GlyphRewrite(s))
    decreases |s|
  {
    if |s| > 0 {
      match BulletMatch(s, 0)
      case Some(e) =>
        MatchHasNoTag(s, e);
        MarkupDrop(s, e);
        MarkupGlyph(s[e..]);
        GlyphInert();
        InertIsMarkup("\n" + Glyph);
        MarkupAppend("\n" + Glyph, GlyphRewrite(s[e..]));
      case None =>
        if !IsHtmlSpecial(s[0]) {
          assert s == [s[0]] + s[1..];
          MarkupCons(s[0], s[1..]);
          MarkupGlyph(s[1..]);
          MarkupCons(s[0], GlyphRewrite(s[1..]));
        } else {
          MarkupGlyphTag(s);
        }
    }
  }

  lemma {:induction false} MarkupGlyphTag(s: string)
    requires Markup(s) && |s| > 0 && IsHtmlSpecial(s[0])
    ensures Markup(GlyphRewrite(s))
    decreases |s|, 0
  {
    var n := TagLength(s);
    var t := s[..n];
    TagShape(t);
    assert '\n' !in t;
    assert s == t + s[n..];
    GlyphLineKept(t, s[n..]);
    MarkupGlyph(s[n..]);
    TagThenMarkup(t, GlyphRewrite(s[n..]));
  }

  /** Two line breaks in a row at `j`. */
  predicate DoubleAt(s: string, j: int)
  {
    0 <= j && j + 1 < |s| && s[j] == '\n' && s[j + 1] == '\n'
  }

  /** The first blank-line separator at or after `from`. */
  function FirstDouble(s: string, from: nat): (r: Option<nat>)
    requires from <= |s|
    ensures r.Some? ==> from <= r.value && DoubleAt(s, r.value)
    ensures r.Some? ==> forall j :: from <= j < r.value ==> !DoubleAt(s, j)
    ensures r.None? ==> forall j :: from <= j ==> !DoubleAt(s, j)
    decreases |s| - from
  {
    if from + 1 >= |s| then None
    else if s[from] == '\n' && s[from + 1] == '\n' then Some(from)
    else FirstDouble(s, from + 1)
  }

  /** The end of the run of `\n` that starts at `i`. */
  function NewlineRun(s: string, i: nat): (e: nat)
    requires i <= |s|
    ensures i <= e <= |s|
    ensures forall k :: i <= k < e ==> s[k] == '\n'
    ensures e == |s| || s[e] != '\n'
    decreases |s| - i
  {
    if i < |s| && s[i] == '\n' then NewlineRun(s, i + 1) else i
  }

  /** `s.split(/\n{2,}/)`: the pieces between maximal runs of two or more line breaks. */
  function SplitParas(s: string): (r: seq<string>)
    ensures |r| >= 1
    decreases |s|
  {
    match FirstDouble(s, 0)
    case None => [s]
    case Some(p) => [s[..p]] + SplitParas(s[NewlineRun(s, p)..])
  }

  lemma NoDoubleNoDoubled(s: string, n: nat)
    requires n <= |s|
    requires forall j :: 0 <= j < n - 1 ==> !DoubleAt(s, j)
    ensures NoDoubled(s[..n], '\n')
  {
    forall i | 0 <= i < n - 1 ensures !(s[..n][i] == '\n' && s[..n][i + 1] == '\n') {
      assert !DoubleAt(s, i);
    }
  }

  /** No piece holds a blank line. */
  lemma {:induction false} ParasHaveNoBlankLine(s: string)
    ensures forall i :: 0 <= i < |SplitParas(s)| ==> NoDoubled(SplitParas(s)[i], '\n')
    decreases |s|
  {
    match FirstDouble(s, 0)
    case None =>
      NoDoubleNoDoubled(s, |s|);
      assert s[..|s|] == s;
    case Some(p) =>
      var e := NewlineRun(s, p);
      NoDoubleNoDoubled(s, p);
      ParasHaveNoBlankLine(s[e..]);
  }

  /** A blank-line run starts at `i`: two line breaks with no line break before them. */
  predicate RunStart(s: string, i: int)
  {
    DoubleAt(s, i) && (i == 0 || s[i - 1] != '\n')
  }

  /** The number of runs of two or more line breaks that start at or after `i`. */
  function RunsFrom(s: string, i: nat): nat
    decreases |s| - i
  {
    if i >= |s| then 0 else (if RunStart(s, i) then 1 else 0) + RunsFrom(s, i + 1)
  }

  lemma {:induction false} RunsSkip(s: string, i: nat, j: nat)
    requires i <= j
    requires forall k :: i <= k < j ==> !RunStart(s, k)
    ensures RunsFrom(s, i) == RunsFrom(s, j)
    decreases j - i
  {
    if i < j {
      RunsSkip(s, i + 1, j);
    }
  }

  lemma {:induction false} RunsShift(s: string, e: nat, j: nat)
    requires e <= |s| && (e == |s| || s[e] != '\n')
    ensures RunsFrom(s, e + j) == RunsFrom(s[e..], j)
    decreases |s| - e - j
  {
    var t := s[e..];
    if e + j < |s| {
      assert t[j] == s[e + j];
      if j > 0 {
        assert t[j - 1] == s[e + j - 1];
      }
      if j + 1 < |t| {
        assert t[j + 1] == s[e + j + 1];
      }
      assert RunStart(s, e + j) <==> RunStart(t, j);
      RunsShift(s, e, j + 1);
    }
  }

  /** There is one paragraph more than there are blank-line runs. */
  lemma {:induction false} ParagraphCount(s: string)
    ensures |SplitParas(s)| == RunsFrom(s, 0) + 1
    decreases |s|
  {
    match FirstDouble(s, 0)
    case None =>
      RunsSkip(s, 0, |s|);
    case Some(p) =>
      var e := NewlineRun(s, p);
      RunsSkip(s, 0, p);
      if p > 0 {
        assert !DoubleAt(s, p - 1);
      }
      assert RunStart(s, p);
      forall k | p + 1 <= k < e ensures !RunStart(s, k) {
        assert s[k - 1] == '\n';
      }
      RunsSkip(s, p + 1, e);
      RunsShift(s, e, 0);
      ParagraphCount(s[e..]);
  }

  lemma {:induction false} ReplaceAllBreaks(x: string)
    requires forall k :: 0 <= k < |x| ==> x[k] == '\n'
    ensures ReplaceAllChar(x, '\n', "") == ""
    decreases |x|
  {
    if |x| > 0 {
      ReplaceAllBreaks(x[1..]);
    }
  }

  /** Splitting drops only line breaks: the pieces hold the rest of the text, in order. */
  lemma {:induction false} ParasKeepText(s: string)
    ensures ReplaceAllChar(Concat(SplitParas(s)), '\n', "") == ReplaceAllChar(s, '\n', "")
    decreases |s|
  {
    match FirstDouble(s, 0)
    case None =>
      assert [s][1..] == [];
      assert Concat([s]) == s + Concat([]);
      assert s + "" == s;
    case Some(p) =>
      var e := NewlineRun(s, p);
      ParasKeepText(s[e..]);
      ParasKeepTextStep(s, p, e);
  }

  lemma ParasKeepTextStep(s: string, p: nat, e: nat)
    requires p <= e <= |s| && forall k :: p <= k < e ==> s[k] == '\n'
    requires ReplaceAllChar(Concat(SplitParas(s[e..])), '\n', "") == ReplaceAllChar(s[e..], '\n', "")
    ensures ReplaceAllChar(Concat([s[..p]] + SplitParas(s[e..])), '\n', "") == ReplaceAllChar(s, '\n', "")
  {
    var rest := SplitParas(s[e..]);
    assert Concat([s[..p]] + rest) == s[..p] + Concat(rest) by {
      assert ([s[..p]] + rest)[1..] == rest;
    }
    ReplaceAllAppend(s[..p], Concat(rest), '\n', "");
    DropRunText(s, p, e);
  }

  lemma DropRunText(s: string, p: nat, e: nat)
    requires p <= e <= |s| && forall k :: p <= k < e ==> s[k] == '\n'
    ensures ReplaceAllChar(s, '\n', "") == ReplaceAllChar(s[..p], '\n', "") + ReplaceAllChar(s[e..], '\n', "")
  {
    CutThree(s, p, e);
    var run := s[p..e];
    assert forall k :: 0 <= k < |run| ==> run[k] == s[p + k];
    DropRun(s[..p], run, s[e..]);
  }

  lemma DropRun(a: string, run: string, b: string)
    requires forall k :: 0 <= k < |run| ==> run[k] == '\n'
    ensures ReplaceAllChar(a + run + b, '\n', "") == ReplaceAllChar(a, '\n', "") + ReplaceAllChar(b, '\n', "")
  {
    ReplaceAllAppend(a + run, b, '\n', "");
    ReplaceAllAppend(a, run, '\n', "");
    ReplaceAllBreaks(run);
    assert ReplaceAllChar(a, '\n', "") + "" == ReplaceAllChar(a, '\n', "");
  }

  /** Splitting markup at line breaks, which no tag holds, gives markup pieces. */
  lemma {:induction false} MarkupParas(s: string)
    requires Markup(s)
    ensures forall i :: 0 <= i < |SplitParas(s)| ==> Markup(SplitParas(s)[i])
    decreases |s|
  {
    match FirstDouble(s, 0)
    case None =>
    case Some(p) =>
      var e := NewlineRun(s, p);
      assert s == s[..p] + ['\n'] + s[p + 1..];
      MarkupCut(s[..p], '\n', s[p + 1..]);
      var t := s[p + 1..];
      var n := e - p - 1;
      var u := t[..n];
      forall k | 0 <= k < n ensures u[k] != '<' {
        assert u[k] == s[p + 1 + k];
      }
      assert '<' !in u;
      MarkupDrop(t, n);
      assert t[n..] == s[e..];
      MarkupParas(s[e..]);
  }

  /** `<p>` + the piece with every `\n` turned into `<br>` + `</p>`. */
  function ParaHtml(p: string): string
  {
    "<p>" + ReplaceAllChar(p, '\n', "<br>") + "</p>"
  }

  function ParasHtml(ps: seq<string>): string
    decreases |ps|
  {
    if |ps| == 0 then "" else ParaHtml(ps[0]) + ParasHtml(ps[1..])
  }

  /** `formatText(raw)`; `None` is any falsy value. */
  function FormatText(raw: Option<string>): (r: string)
    ensures raw.None? || raw == Some("") ==> r == ""
    ensures raw.Some? && raw.value != "" ==> |r| > 0
  {
    match raw
    case None => ""
    case Some(t) =>
      if t == "" then ""
      else
        var ps := SplitParas(GlyphRewrite(Bold(Escape(t))));
        assert ParasHtml(ps) == ParaHtml(ps[0]) + ParasHtml(ps[1..]);
        ParasHtml(ps)
  }

  lemma {:induction false} ReplaceAllCharGone(s: string, c: char, rep: string)
    requires c !in rep
    ensures c !in ReplaceAllChar(s, c, rep)
    decreases |s|
  {
    if |s| > 0 {
      ReplaceAllCharGone(s[1..], c, rep);
    }
  }

  lemma {:induction false} ParasHtmlNoNewline(ps: seq<string>)
    ensures '\n' !in ParasHtml(ps)
    decreases |ps|
  {
    if |ps| > 0 {
      ReplaceAllCharGone(ps[0], '\n', "<br>");
      ParasHtmlNoNewline(ps[1..]);
    }
  }

  /** No line break reaches the output: blank lines become paragraph ends, single ones `<br>`. */
  lemma FormatTextNoNewline(raw: Option<string>)
    ensures '\n' !in FormatText(raw)
  {
    if raw.Some? && raw.value != "" {
      ParasHtmlNoNewline(SplitParas(GlyphRewrite(Bold(Escape(raw.value)))));
    }
  }

  lemma {:induction false} MarkupBreaksToBr(s: string)
    requires Markup(s)
    ensures Markup(ReplaceAllChar(s, '\n', "<br>"))
    decreases |s|
  {
    if |s| > 0 {
      assert s == [s[0]] + s[1..];
      ReplaceAllAppend([s[0]], s[1..], '\n', "<br>");
      if !IsHtmlSpecial(s[0]) {
        MarkupCons(s[0], s[1..]);
        MarkupBreaksToBr(s[1..]);
        if s[0] == '\n' {
          TagThenMarkup("<br>", ReplaceAllChar(s[1..], '\n', "<br>"));
        } else {
          MarkupCons(s[0], ReplaceAllChar(s[1..], '\n', "<br>"));
        }
      } else {
        MarkupBreaksToBrTag(s);
      }
    }
  }

  lemma {:induction false} MarkupBreaksToBrTag(s: string)
    requires Markup(s) && |s| > 0 && IsHtmlSpecial(s[0])
    ensures Markup(ReplaceAllChar(s, '\n', "<br>"))
    decreases |s|, 0
  {
    var n := TagLength(s);
    var t := s[..n];
    TagShape(t);
    assert '\n' !in t;
    assert s == t + s[n..];
    ReplaceAllAppend(t, s[n..], '\n', "<br>");
    MarkupBreaksToBr(s[n..]);
    TagThenMarkup(t, ReplaceAllChar(s[n..], '\n', "<br>"));
  }

  lemma {:induction false} MarkupParasHtml(ps: seq<string>)
    requires forall i :: 0 <= i < |ps| ==> Markup(ps[i])
    ensures Markup(ParasHtml(ps))
    decreases |ps|
  {
    if |ps| > 0 {
      MarkupBreaksToBr(ps[0]);
      ParagraphMarkup(ReplaceAllChar(ps[0], '\n', "<br>"));
      MarkupParasHtml(ps[1..]);
      MarkupAppend(ParaHtml(ps[0]), ParasHtml(ps[1..]));
    }
  }

  /** The analysis text is markup: every `<`, `>` of the output belongs to a tag the formatter
      emits, and no quote character survives. */
  lemma FormatTextSafe(raw: Option<string>)
    ensures Markup(FormatText(raw))
    ensures forall i :: 0 <= i < |FormatText(raw)| ==> FormatText(raw)[i] != '"' && FormatText(raw)[i] != '\''
    ensures forall i :: 0 <= i < |FormatText(raw)| && FormatText(raw)[i] == '<' ==> TagLength(FormatText(raw)[i..]) > 0
  {
    var r := FormatText(raw);
    if raw.Some? && raw.value != "" {
      var e := Escape(raw.value);
      BoldMarkup(e);
      MarkupGlyph(Bold(e));
      MarkupParas(GlyphRewrite(Bold(e)));
      MarkupParasHtml(SplitParas(GlyphRewrite(Bold(e))));
    }
    MarkupHasNoQuotes(r);
    forall i | 0 <= i < |r| && r[i] == '<' ensures TagLength(r[i..]) > 0 {
      MarkupLtOpensTag(r, i);
    }
  }
}
