/** `escapeHtml`, copied identically into the three browser scripts: the five HTML-significant
    characters become entities, `&` first so that no entity is escaped twice. */
module HtmlEscape {
  import opened Text

  /** The characters `escapeHtml` rewrites. */
  predicate IsEscapable(c: char)
  {
    c == '&' || c == '<' || c == '>' || c == '"' || c == '\''
  }

  /** The characters that can open or close a tag or an attribute value. */
  predicate IsHtmlSpecial(c: char)
  {
    c == '<' || c == '>' || c == '"' || c == '\''
  }

  /** No character of `s` can open or close a tag or an attribute value. */
  predicate Inert(s: string)
  {
    forall i :: 0 <= i < |s| ==> !IsHtmlSpecial(s[i])
  }

  /** `s` contains none of the five escapable characters. */
  predicate Plain(s: string)
  {
    forall i :: 0 <= i < |s| ==> !IsEscapable(s[i])
  }

  function EscapeChar(c: char): (r: string)
    ensures |r| >= 1 && Inert(r)
    ensures IsEscapable(c) <==> r[0] == '&' && |r| > 1
    ensures !IsEscapable(c) ==> r == [c]
  {
    match c
    case '&' => "&amp;"
    case '<' => "&lt;"
    case '>' => "&gt;"
    case '"' => "&quot;"
    case '\'' => "&#039;"
    case _ => [c]
  }

  /** The character map, one character at a time. */
  function Escape(s: string): (r: string)
    ensures Inert(r)
    ensures |r| >= |s|
    decreases |s|
  {
    if |s| == 0 then "" else EscapeChar(s[0]) + Escape(s[1..])
  }

  /** `escapeHtml(s)`: absent and empty input both give the empty string. */
  function EscapeHtml(s: Option<string>): (r: string)
    ensures s.None? ==> r == ""
    ensures s.Some? ==> r == Escape(s.value)
  {
    match s
    case None => ""
    case Some(v) => if v == "" then "" else Escape(v)
  }

  /** Escaping distributes over concatenation: it is a per-character map. */
  lemma {:induction false} EscapeAppend(a: string, b: string)
    ensures Escape(a + b) == Escape(a) + Escape(b)
    decreases |a|
  {
    if |a| > 0 {
      assert (a + b)[0] == a[0];
      assert (a + b)[1..] == a[1..] + b;
      EscapeAppend(a[1..], b);
    } else {
      assert a + b == b;
    }
  }

  /** Strings without escapable characters are left alone, and only those. */
  lemma {:induction false} EscapeIdentityIff(s: string)
    ensures Escape(s) == s <==> Plain(s)
    decreases |s|
  {
    if |s| > 0 {
      EscapeIdentityIff(s[1..]);
      if IsEscapable(s[0]) {
        EscapeGrows(s);
      }
    }
  }

  /** Any escapable character makes the output strictly longer. */
  lemma {:induction false} EscapeGrows(s: string)
    requires !Plain(s)
    ensures |Escape(s)| > |s|
    decreases |s|
  {
    if !IsEscapable(s[0]) {
      EscapeGrows(s[1..]);
    }
  }

  /** Escaping an escapable character always introduces an `&`. */
  lemma {:induction false} EscapeIntroducesAmp(s: string)
    requires !Plain(s)
    ensures !Plain(Escape(s))
    decreases |s|
  {
    if IsEscapable(s[0]) {
      assert Escape(s)[0] == '&';
    } else {
      EscapeIntroducesAmp(s[1..]);
      var r := Escape(s[1..]);
      var i :| 0 <= i < |r| && IsEscapable(r[i]);
      assert Escape(s)[i + 1] == r[i];
    }
  }

  /** Escaping is not idempotent: a second pass changes the output exactly when the input held
      one of the five characters. */
  lemma EscapeTwiceIff(s: string)
    ensures Escape(Escape(s)) == Escape(s) <==> Plain(s)
  {
    EscapeIdentityIff(s);
    EscapeIdentityIff(Escape(s));
    if !Plain(s) {
      EscapeIntroducesAmp(s);
    }
  }

  lemma EscapeAmpTwice()
    ensures Escape("&") == "&amp;"
    ensures Escape(Escape("&")) == "&amp;amp;"
  {
    EscapeSingle('&');
    assert "&amp;" == "&" + "amp;";
    EscapeAppend("&", "amp;");
    EscapeIdentityIff("amp;");
  }

  lemma EscapeSingle(c: char)
    ensures Escape([c]) == EscapeChar(c)
  {
    assert [c][1..] == "";
  }

  lemma EscapeHead(s: string)
    requires |s| > 0
    ensures Escape(s) == EscapeChar(s[0]) + Escape(s[1..])
  {
  }

  /** JavaScript `s.replaceAll(c, rep)` for a one-character search string. */
  function ReplaceAllChar(s: string, c: char, rep: string): (r: string)
    ensures c !in s ==> r == s
    decreases |s|
  {
    if |s| == 0 then ""
    else (if s[0] == c then rep else [s[0]]) + ReplaceAllChar(s[1..], c, rep)
  }

  lemma {:induction false} ReplaceAllAppend(a: string, b: string, c: char, rep: string)
    ensures ReplaceAllChar(a + b, c, rep) == ReplaceAllChar(a, c, rep) + ReplaceAllChar(b, c, rep)
    decreases |a|
  {
    if |a| > 0 {
      assert (a + b)[1..] == a[1..] + b;
      ReplaceAllAppend(a[1..], b, c, rep);
    } else {
      assert a + b == b;
    }
  }

  /** The five `replaceAll` calls in the order the scripts chain them. */
  function ReplaceChain(s: string): string
  {
    var s1 := ReplaceAllChar(s, '&', "&amp;");
    var s2 := ReplaceAllChar(s1, '<', "&lt;");
    var s3 := ReplaceAllChar(s2, '>', "&gt;");
    var s4 := ReplaceAllChar(s3, '"', "&quot;");
    ReplaceAllChar(s4, '\'', "&#039;")
  }

  lemma ReplaceChainAppend(a: string, b: string)
    ensures ReplaceChain(a + b) == ReplaceChain(a) + ReplaceChain(b)
  {
    ReplaceAllAppend(a, b, '&', "&amp;");
    var a1, b1 := ReplaceAllChar(a, '&', "&amp;"), ReplaceAllChar(b, '&', "&amp;");
    ReplaceAllAppend(a1, b1, '<', "&lt;");
    var a2, b2 := ReplaceAllChar(a1, '<', "&lt;"), ReplaceAllChar(b1, '<', "&lt;");
    ReplaceAllAppend(a2, b2, '>', "&gt;");
    var a3, b3 := ReplaceAllChar(a2, '>', "&gt;"), ReplaceAllChar(b2, '>', "&gt;");
    ReplaceAllAppend(a3, b3, '"', "&quot;");
    var a4, b4 := ReplaceAllChar(a3, '"', "&quot;"), ReplaceAllChar(b3, '"', "&quot;");
    ReplaceAllAppend(a4, b4, '\'', "&#039;");
  }

  lemma ReplaceChainChar(c: char)
    ensures ReplaceChain([c]) == EscapeChar(c)
  {
    assert ReplaceAllChar([c], c, EscapeChar(c)) == EscapeChar(c) + ReplaceAllChar([], c, EscapeChar(c));
  }

  /** The chain of `replaceAll` calls in the source is the per-character map: because `&` goes
      first, no entity introduced later is escaped again. */
  lemma {:induction false} EscapeIsReplaceChain(s: string)
    ensures ReplaceChain(s) == Escape(s)
    decreases |s|
  {
    if |s| > 0 {
      HeadCons(s);
      ReplaceChainAppend([s[0]], s[1..]);
      ReplaceChainChar(s[0]);
      EscapeIsReplaceChain(s[1..]);
      EscapeHead(s);
    }
  }

  /** Decodes the five entities, as a browser does when it renders the text. */
  function Unescape(s: string): string
    decreases |s|
  {
    if |s| == 0 then ""
    else if StartsWith(s, "&amp;") then "&" + Unescape(s[5..])
    else if StartsWith(s, "&lt;") then "<" + Unescape(s[4..])
    else if StartsWith(s, "&gt;") then ">" + Unescape(s[4..])
    else if StartsWith(s, "&quot;") then "\"" + Unescape(s[6..])
    else if StartsWith(s, "&#039;") then "'" + Unescape(s[6..])
    else [s[0]] + Unescape(s[1..])
  }

  lemma UnescapeEntity(e: string, c: char, rest: string)
    requires IsEscapable(c) && e == EscapeChar(c)
    ensures Unescape(e + rest) == [c] + Unescape(rest)
  {
    var s := e + rest;
    assert s[..|e|] == e;
    assert s[|e|..] == rest;
    assert s[1] == e[1];
    if c != '&' {
      assert !StartsWith(s, "&amp;") by { assert "&amp;"[1] == 'a' != s[1]; }
    }
    if c == '>' || c == '"' || c == '\'' {
      assert !StartsWith(s, "&lt;") by { assert "&lt;"[1] == 'l' != s[1]; }
    }
    if c == '"' || c == '\'' {
      assert !StartsWith(s, "&gt;") by { assert "&gt;"[1] == 'g' != s[1]; }
    }
    if c == '\'' {
      assert !StartsWith(s, "&quot;") by { assert "&quot;"[1] == 'q' != s[1]; }
    }
  }

  lemma UnescapeOther(c: char, rest: string)
    requires c != '&'
    ensures Unescape([c] + rest) == [c] + Unescape(rest)
  {
    var s := [c] + rest;
    assert s[0] == c && s[1..] == rest;
    assert !StartsWith(s, "&amp;") by { assert "&amp;"[0] == '&'; }
    assert !StartsWith(s, "&lt;") by { assert "&lt;"[0] == '&'; }
    assert !StartsWith(s, "&gt;") by { assert "&gt;"[0] == '&'; }
    assert !StartsWith(s, "&quot;") by { assert "&quot;"[0] == '&'; }
    assert !StartsWith(s, "&#039;") by { assert "&#039;"[0] == '&'; }
  }

  /** Escaped text renders as the original text: nothing is lost. */
  lemma {:induction false} UnescapeEscape(s: string)
    ensures Unescape(Escape(s)) == s
    decreases |s|
  {
    if |s| > 0 {
      UnescapeEscape(s[1..]);
      EscapeHead(s);
      UnescapeChar(s[0], Escape(s[1..]));
      HeadCons(s);
    }
  }

  /** One escaped character renders as itself. */
  lemma UnescapeChar(c: char, rest: string)
    ensures Unescape(EscapeChar(c) + rest) == [c] + Unescape(rest)
  {
    if IsEscapable(c) {
      UnescapeEntity(EscapeChar(c), c, rest);
    } else {
      UnescapeOther(c, rest);
    }
  }
}
