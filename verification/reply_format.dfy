/** `formatReply` of the chat page: escape, bold, collapse line breaks, then emit each line
    either as a one-item list (when its trimmed form starts with `*`) or as text plus `<br>`,
    all inside one `<p>`. */
module ReplyFormat {
  import opened Text
  import opened HtmlEscape
  import opened SafeMarkup
  import opened BoldSpans

  predicate IsBreak(c: char)
  {
    c == '\n' || c == '\r'
  }

  /** Drops the leading run of `\n`/`\r`. */
  function DropBreaks(s: string): (r: string)
    ensures |r| <= |s| && r == s[|s| - |r|..]
    ensures forall i :: 0 <= i < |s| - |r| ==> IsBreak(s[i])
    ensures |r| > 0 ==> !IsBreak(r[0])
    decreases |s|
  {
    if |s| > 0 && IsBreak(s[0]) then DropBreaks(s[1..]) else s
  }

  /** `s.replace(/[\n\r]+/g, "\n")`: every maximal run of `\n`/`\r` becomes one `\n`. */
  function Collapse(s: string): (r: string)
    ensures '\r' !in r
    ensures NoDoubled(r, '\n')
    ensures |r| == 0 <==> |s| == 0
    ensures |r| > 0 ==> (r[0] == '\n' <==> IsBreak(s[0]))
    decreases |s|
  {
    if |s| == 0 then ""
    else if IsBreak(s[0]) then "\n" + Collapse(DropBreaks(s[1..]))
    else [s[0]] + Collapse(s[1..])
  }

  /** The text with every `\n` and `\r` removed. */
  function Unbreak(s: string): (r: string)
    ensures forall i :: 0 <= i < |r| ==> !IsBreak(r[i])
    decreases |s|
  {
    if |s| == 0 then "" else if IsBreak(s[0]) then Unbreak(s[1..]) else [s[0]] + Unbreak(s[1..])
  }

  lemma {:induction false} UnbreakDropBreaks(s: string)
    ensures Unbreak(DropBreaks(s)) == Unbreak(s)
    decreases |s|
  {
    if |s| > 0 && IsBreak(s[0]) {
      UnbreakDropBreaks(s[1..]);
    }
  }

  /** Collapsing only touches line breaks: everything else is kept, in order. */
  lemma {:induction false} CollapseKeepsText(s: string)
    ensures Unbreak(Collapse(s)) == Unbreak(s)
    decreases |s|
  {
    if |s| > 0 {
      if IsBreak(s[0]) {
        var d := DropBreaks(s[1..]);
        CollapseKeepsText(d);
        UnbreakDropBreaks(s[1..]);
        assert ("\n" + Collapse(d))[1..] == Collapse(d);
      } else {
        CollapseKeepsText(s[1..]);
        assert ([s[0]] + Collapse(s[1..]))[1..] == Collapse(s[1..]);
      }
    }
  }

  /** Text is left unchanged exactly when it has no `\r` and no two adjacent `\n`. */
  lemma {:induction false} CollapseFixedIff(s: string)
    ensures Collapse(s) == s <==> '\r' !in s && NoDoubled(s, '\n')
    decreases |s|
  {
    if |s| > 0 && '\r' !in s && NoDoubled(s, '\n') {
      NoDoubledSuffix(s, '\n', 1);
      assert '\r' !in s[1..] by {
        forall i | 0 <= i < |s| - 1 ensures s[1..][i] != '\r' {
          assert s[1..][i] == s[i + 1];
        }
      }
      CollapseFixedIff(s[1..]);
      if IsBreak(s[0]) {
        assert s[0] == '\n';
        assert |s| > 1 ==> s[1] != '\n' && s[1] != '\r';
        assert DropBreaks(s[1..]) == s[1..];
      }
      HeadCons(s);
    }
  }

  /** A prefix free of line breaks is copied. */
  lemma {:induction false} CollapseBreakFree(a: string, b: string)
    requires forall i :: 0 <= i < |a| ==> !IsBreak(a[i])
    ensures Collapse(a + b) == a + Collapse(b)
    decreases |a|
  {
    if |a| == 0 {
      assert a + b == b;
    } else {
      DropAppend(a, b, 1);
      CollapseOrdinaryStep(a + b);
      CollapseBreakFree(a[1..], b);
      assert a == [a[0]] + a[1..];
    }
  }

  lemma BreakIsOrdinary(c: char)
    requires IsBreak(c)
    ensures !IsTagChar(c) && !IsHtmlSpecial(c)
  {
  }

  lemma {:induction false} MarkupDropBreaks(s: string)
    requires Markup(s)
    ensures Markup(DropBreaks(s))
    decreases |s|
  {
    if |s| > 0 && IsBreak(s[0]) {
      MarkupCons(s[0], s[1..]);
      assert s == [s[0]] + s[1..];
      MarkupDropBreaks(s[1..]);
    }
  }

  lemma CollapseBreakStep(s: string)
    requires |s| > 0 && IsBreak(s[0])
    ensures Collapse(s) == "\n" + Collapse(DropBreaks(s[1..]))
  {
  }

  lemma CollapseOrdinaryStep(s: string)
    requires |s| > 0 && !IsBreak(s[0])
    ensures Collapse(s) == [s[0]] + Collapse(s[1..])
  {
  }

  /** Collapsing line breaks keeps markup: tags hold no line break. */
  lemma {:induction false} MarkupCollapse(s: string)
    requires Markup(s)
    ensures Markup(Collapse(s))
    decreases |s|
  {
    if |s| > 0 {
      if IsBreak(s[0]) {
        var d := DropBreaks(s[1..]);
        MarkupCons(s[0], s[1..]);
        assert s == [s[0]] + s[1..];
        MarkupDropBreaks(s[1..]);
        MarkupCollapse(d);
        MarkupCons('\n', Collapse(d));
        CollapseBreakStep(s);
      } else if !IsHtmlSpecial(s[0]) {
        MarkupCons(s[0], s[1..]);
        assert s == [s[0]] + s[1..];
        MarkupCollapse(s[1..]);
        MarkupCons(s[0], Collapse(s[1..]));
        CollapseOrdinaryStep(s);
      } else {
        MarkupCollapseTag(s);
      }
    }
  }

  lemma {:induction false} MarkupCollapseTag(s: string)
    requires Markup(s) && |s| > 0 && IsHtmlSpecial(s[0])
    ensures Markup(Collapse(s))
    decreases |s|, 0
  {
    var n := TagLength(s);
    var t := s[..n];
    TagShape(t);
    assert s == t + s[n..];
    CollapseBreakFree(t, s[n..]);
    MarkupCollapse(s[n..]);
    TagThenMarkup(t, Collapse(s[n..]));
  }

  /** Splitting markup at `\n`, a character no tag holds, gives markup pieces. */
  lemma {:induction false} MarkupSplit(s: string)
    requires Markup(s)
    ensures forall i :: 0 <= i < |Split(s, '\n')| ==> Markup(Split(s, '\n')[i])
    decreases |s|
  {
    match FirstIndex(s, '\n')
    case None =>
    case Some(k) =>
      CutAt(s, k);
      MarkupCut(s[..k], s[k], s[k + 1..]);
      MarkupSplit(s[k + 1..]);
      SplitStep(s, '\n', k);
      MarkupPiecesCons(s[..k], Split(s[k + 1..], '\n'));
  }

  /** A markup piece in front of markup pieces gives markup pieces. */
  lemma MarkupPiecesCons(p: string, rest: seq<string>)
    requires Markup(p) && forall i :: 0 <= i < |rest| ==> Markup(rest[i])
    ensures forall i :: 0 <= i < |[p] + rest| ==> Markup(([p] + rest)[i])
  {
    forall i | 0 <= i < |[p] + rest| ensures Markup(([p] + rest)[i]) {
      if i > 0 {
        assert ([p] + rest)[i] == rest[i - 1];
      }
    }
  }

  /** The lines `formatReply` walks over. */
  function ReplyLines(text: string): (r: seq<string>)
    ensures |r| >= 1
    ensures forall i :: 0 <= i < |r| ==> '\n' !in r[i] && '\r' !in r[i]
  {
    var c := Collapse(Bold(Escape(text)));
    var r := Split(c, '\n');
    assert forall i :: 0 <= i < |r| ==> '\r' !in r[i] by {
      JoinSplit(c, '\n');
      forall i | 0 <= i < |r| ensures '\r' !in r[i] {
        JoinHasPieces(r, '\n', i);
      }
    }
    r
  }

  lemma {:induction false} JoinHasPieces(ps: seq<string>, c: char, i: nat)
    requires |ps| >= 1 && i < |ps|
    ensures forall k :: 0 <= k < |ps[i]| ==> ps[i][k] in Join(ps, c)
    decreases |ps|
  {
    if i == 0 {
      if |ps| > 1 {
        assert Join(ps, c) == ps[0] + ([c] + Join(ps[1..], c));
      }
    } else {
      JoinHasPieces(ps[1..], c, i - 1);
      assert Join(ps, c) == (ps[0] + [c]) + Join(ps[1..], c);
    }
  }

  /** Collapsing first means no empty line sits between two others. */
  lemma ReplyLinesInteriorNonEmpty(text: string)
    ensures forall i :: 0 < i < |ReplyLines(text)| - 1 ==> |ReplyLines(text)[i]| > 0
  {
    SplitInteriorNonEmpty(Collapse(Bold(Escape(text))), '\n');
  }

  /** Every line is markup, before anything is added to it. */
  lemma ReplyLinesMarkup(text: string)
    ensures forall i :: 0 <= i < |ReplyLines(text)| ==> Markup(ReplyLines(text)[i])
  {
    BoldMarkup(Escape(text));
    MarkupCollapse(Bold(Escape(text)));
    MarkupSplit(Collapse(Bold(Escape(text))));
  }

  /** `line.trim().startsWith("*")`. */
  predicate IsBullet(line: string)
  {
    StartsWith(Trim(JsSpaces, line), "*")
  }

  /** `line.replace("*", "").trim()`: only the first `*` goes. */
  function BulletItem(line: string): string
  {
    Trim(JsSpaces, RemoveFirst(line, '*'))
  }

  /** A bullet closes the paragraph, opens a one-item list, and reopens a paragraph after it:
      `</p><ul><li>` and `</li></ul><p>`. */
  const ItemOpen := "</p>" + ("<ul>" + "<li>")
  const ItemClose := "</li>" + ("</ul>" + "<p>")

  function EmitLine(line: string): string
  {
    if IsBullet(line) then ItemOpen + BulletItem(line) + ItemClose else line + "<br>"
  }

  function EmitLines(lines: seq<string>): string
    decreases |lines|
  {
    if |lines| == 0 then "" else EmitLine(lines[0]) + EmitLines(lines[1..])
  }

  /** `formatReply(text)`; `None` is any falsy reply (`undefined`, `null`). */
  function FormatReply(text: Option<string>): (r: string)
    ensures text.None? || text == Some("") ==> r == ""
    ensures text.Some? && text.value != "" ==> StartsWith(r, "<p>") && EndsWith(r, "</p>")
  {
    match text
    case None => ""
    case Some(t) => if t == "" then "" else "<p>" + EmitLines(ReplyLines(t)) + "</p>"
  }

  /** The output is the lines' outputs in input order. */
  lemma {:induction false} EmitLinesAppend(a: seq<string>, b: seq<string>)
    ensures EmitLines(a + b) == EmitLines(a) + EmitLines(b)
    decreases |a|
  {
    if |a| == 0 {
      assert a + b == b;
    } else {
      assert (a + b)[0] == a[0];
      assert (a + b)[1..] == a[1..] + b;
      EmitLinesAppend(a[1..], b);
    }
  }

  /** Every line followed by `<br>`, in order. */
  function WithBreaks(lines: seq<string>): (r: seq<string>)
    ensures |r| == |lines|
    ensures forall i :: 0 <= i < |lines| ==> r[i] == lines[i] + "<br>"
    decreases |lines|
  {
    if |lines| == 0 then [] else [lines[0] + "<br>"] + WithBreaks(lines[1..])
  }

  /** Lines that are not bullets are emitted as they are, each followed by `<br>`. */
  lemma {:induction false} PlainEmit(lines: seq<string>)
    requires forall i :: 0 <= i < |lines| ==> !IsBullet(lines[i])
    ensures EmitLines(lines) == Concat(WithBreaks(lines))
    decreases |lines|
  {
    if |lines| > 0 {
      PlainEmit(lines[1..]);
      assert WithBreaks(lines)[1..] == WithBreaks(lines[1..]);
    }
  }

  /** A reply without bullets is one paragraph: each line copied and followed by `<br>`, in
      input order. */
  lemma PlainLinesCopied(text: string)
    requires text != ""
    requires forall i :: 0 <= i < |ReplyLines(text)| ==> !IsBullet(ReplyLines(text)[i])
    ensures FormatReply(Some(text)) == "<p>" + Concat(WithBreaks(ReplyLines(text))) + "</p>"
  {
    PlainEmit(ReplyLines(text));
  }

  lemma BulletTrimmed(ws: string, rest: string)
    requires AllSpace(JsSpaces, ws)
    ensures StartsWith(Trim(JsSpaces, ws + "*" + rest), "*")
  {
    PaddedStar(ws, rest);
    StarTrimmed(rest);
  }

  lemma PaddedStar(ws: string, rest: string)
    requires AllSpace(JsSpaces, ws)
    ensures Trim(JsSpaces, ws + "*" + rest) == Trim(JsSpaces, "*" + rest)
  {
    TrimLeadPaddedChar(JsSpaces, ws, '*', rest);
  }

  lemma StarTrimmed(rest: string)
    ensures StartsWith(Trim(JsSpaces, "*" + rest), "*")
  {
    var s := "*" + rest;
    assert s[0] == '*' && !IsSpace(JsSpaces, '*');
    var t := Trim(JsSpaces, s);
    assert t[..1] == "*";
  }

  /** A line `ws * rest` becomes one list item holding `rest` trimmed; later `*` stay. */
  lemma BulletLine(ws: string, rest: string)
    requires AllSpace(JsSpaces, ws)
    ensures IsBullet(ws + "*" + rest)
    ensures EmitLine(ws + "*" + rest) == ItemOpen + Trim(JsSpaces, rest) + ItemClose
  {
    BulletTrimmed(ws, rest);
    assert '*' !in ws by {
      forall i | 0 <= i < |ws| ensures ws[i] != '*' {
        assert IsSpace(JsSpaces, ws[i]);
      }
    }
    RemoveFirstAt(ws, '*', rest);
    assert ws + ['*'] + rest == ws + "*" + rest;
    TrimPadded(JsSpaces, ws, rest, "");
    assert ws + rest + "" == ws + rest;
  }

  /** A blank or white-space-only line is copied and followed by `<br>`. */
  lemma BlankLineKept(line: string)
    requires AllSpace(JsSpaces, line)
    ensures EmitLine(line) == line + "<br>"
  {
    TrimPadded(JsSpaces, line, "", "");
    assert line + "" + "" == line;
    assert Trim(JsSpaces, "") == "";
  }

  /** A line that starts with a closed `**x**` is not a bullet: bold runs first. */
  lemma BoldLineNotBullet(x: string, rest: string)
    requires '*' !in x
    requires forall i :: 0 <= i < |x| ==> !IsLineTerminator(x[i])
    ensures !IsBullet(Bold("**" + x + "**" + rest))
  {
    BoldSpan(x, rest);
    var b := Bold("**" + x + "**" + rest);
    assert b[0] == '<';
  }

  lemma EmitTwo(a: string, b: string)
    ensures EmitLines([a, b]) == EmitLine(a) + EmitLine(b)
  {
    assert [a, b][1..] == [b];
    assert [b][1..] == [];
    assert EmitLines([b]) == EmitLine(b) + "";
  }

  lemma Regroup(p: string, x: string, q: string, y: string)
    ensures (p + x + q) + (p + y + q) == p + x + (q + p) + y + q
  {
  }


  /** Two bullets in a row give two separate lists, with an empty paragraph between them. */
  lemma BulletsNotMerged(a: string, b: string)
    requires IsBullet(a) && IsBullet(b)
    ensures EmitLines([a, b]) == ItemOpen + BulletItem(a) + (ItemClose + ItemOpen) + BulletItem(b) + ItemClose
    ensures EmitLines([a, b]) == ItemOpen + BulletItem(a) + "</li></ul><p></p><ul><li>" + BulletItem(b) + ItemClose
  {
    EmitTwo(a, b);
    var x, y := BulletItem(a), BulletItem(b);
    assert EmitLine(a) == ItemOpen + x + ItemClose;
    assert EmitLine(b) == ItemOpen + y + ItemClose;
    Regroup(ItemOpen, x, ItemClose, y);
    CloseThenOpen();
  }

  lemma CloseThenOpen()
    ensures ItemClose + ItemOpen == "</li></ul><p></p><ul><li>"
  {
  }

  lemma ListOpenThen(m: string)
    requires Markup(m)
    ensures Markup("<ul>" + ("<li>" + m))
  {
    TagThenMarkup("<li>", m);
    TagThenMarkup("<ul>", "<li>" + m);
  }

  lemma ItemOpenNested(m: string)
    requires Markup(m)
    ensures Markup("</p>" + ("<ul>" + ("<li>" + m)))
  {
    ListOpenThen(m);
    TagThenMarkup("</p>", "<ul>" + ("<li>" + m));
  }

  lemma ItemOpenThen(m: string)
    requires Markup(m)
    ensures Markup(ItemOpen + m)
  {
    ItemOpenNested(m);
    Regroup3("</p>", "<ul>", "<li>", m);
  }

  lemma Regroup3(a: string, b: string, c: string, m: string)
    ensures a + (b + c) + m == a + (b + (c + m))
  {
  }

  lemma ItemCloseMarkup()
    ensures Markup(ItemClose)
  {
    TagIsMarkup("<p>");
    TagThenMarkup("</ul>", "<p>");
    TagThenMarkup("</li>", "</ul>" + "<p>");
  }

  lemma ItemOpenMarkup()
    ensures Markup(ItemOpen)
  {
    ItemOpenThen("");
    assert ItemOpen + "" == ItemOpen;
  }

  /** A list item around markup is markup. */
  lemma ItemMarkup(item: string)
    requires Markup(item)
    ensures Markup(ItemOpen + item + ItemClose)
  {
    ItemOpenMarkup();
    ItemCloseMarkup();
    MarkupAppend3(ItemOpen, item, ItemClose);
  }

  lemma MarkupRemoveFirstStar(line: string)
    requires Markup(line)
    ensures Markup(RemoveFirst(line, '*'))
  {
    match FirstIndex(line, '*')
    case None =>
    case Some(i) =>
      assert line == line[..i] + ['*'] + line[i + 1..];
      MarkupRemove(line[..i], '*', line[i + 1..]);
  }

  lemma EmitLineMarkup(line: string)
    requires Markup(line)
    ensures Markup(EmitLine(line))
  {
    if IsBullet(line) {
      MarkupRemoveFirstStar(line);
      MarkupTrim(JsSpaces, RemoveFirst(line, '*'));
      ItemMarkup(BulletItem(line));
    } else {
      TagIsMarkup("<br>");
      MarkupAppend(line, "<br>");
    }
  }

  lemma {:induction false} EmitLinesMarkup(lines: seq<string>)
    requires forall i :: 0 <= i < |lines| ==> Markup(lines[i])
    ensures Markup(EmitLines(lines))
    decreases |lines|
  {
    if |lines| > 0 {
      EmitLineMarkup(lines[0]);
      EmitLinesMarkup(lines[1..]);
      MarkupAppend(EmitLine(lines[0]), EmitLines(lines[1..]));
    }
  }

  lemma ParagraphMarkup(x: string)
    requires Markup(x)
    ensures Markup("<p>" + x + "</p>")
  {
    TagIsMarkup("</p>");
    MarkupAppend(x, "</p>");
    TagThenMarkup("<p>", x + "</p>");
    assert "<p>" + x + "</p>" == "<p>" + (x + "</p>");
  }

  /** The reply is markup: every `<`, `>` of the output belongs to a tag the formatter emits,
      and no quote character survives, whatever the model replied. */
  lemma FormatReplySafe(text: Option<string>)
    ensures Markup(FormatReply(text))
    ensures forall i :: 0 <= i < |FormatReply(text)| ==> FormatReply(text)[i] != '"' && FormatReply(text)[i] != '\''
    ensures forall i :: 0 <= i < |FormatReply(text)| && FormatReply(text)[i] == '<' ==> TagLength(FormatReply(text)[i..]) > 0
  {
    var r := FormatReply(text);
    if text.Some? && text.value != "" {
      var t := text.value;
      ReplyLinesMarkup(t);
      EmitLinesMarkup(ReplyLines(t));
      ParagraphMarkup(EmitLines(ReplyLines(t)));
    }
    MarkupHasNoQuotes(r);
    forall i | 0 <= i < |r| && r[i] == '<' ensures TagLength(r[i..]) > 0 {
      MarkupLtOpensTag(r, i);
    }
  }
}
