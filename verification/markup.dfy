/** What it means for formatter output to be safe: the string splits into the formatters' own
    fixed tags and characters that can neither open nor close a tag or an attribute value. Every
    `<`, `>`, `"` and `'` of such a string therefore belongs to one of those tags. */
module SafeMarkup {
  import opened Text
  import opened HtmlEscape

  /** The tags the two reply formatters emit. */
  const Tags: set<string> := {"<p>", "</p>", "<ul>", "</ul>", "<li>", "</li>", "<strong>", "</strong>", "<br>"}

  /** Every character of every tag in Tags is one of these. */
  predicate IsTagChar(c: char)
  {
    c == '<' || c == '>' || c == '/' || ('a' <= c <= 'z')
  }

  lemma TagShape(t: string)
    requires t in Tags
    ensures |t| >= 3 && t[0] == '<' && t[|t| - 1] == '>' && '>' !in t[..|t| - 1]
    ensures forall i :: 0 <= i < |t| ==> IsTagChar(t[i])
    ensures forall i :: 0 < i < |t| ==> t[i] != '<'
  {
  }

  /** The length of the tag of Tags that `s` starts with, 0 when there is none. A tag ends at
      the first `>`, so at most one tag can start a string. */
  function TagLength(s: string): (n: nat)
    ensures n <= |s|
    ensures n > 0 ==> s[..n] in Tags && s[0] == '<'
  {
    if |s| > 0 && s[0] == '<' then
      match FirstIndex(s, '>')
      case None => 0
      case Some(k) => if s[..k + 1] in Tags then k + 1 else 0
    else 0
  }

  /** `s` is a sequence of tags from Tags and characters other than `<`, `>`, `"`, `'`. */
  predicate Markup(s: string)
    decreases |s|
  {
    if |s| == 0 then true
    else if !IsHtmlSpecial(s[0]) then Markup(s[1..])
    else TagLength(s) > 0 && Markup(s[TagLength(s)..])
  }

  lemma FirstIndexPrefix(s: string, a: string, c: char)
    requires StartsWith(s, a)
    requires FirstIndex(s, c).Some? && FirstIndex(s, c).value < |a|
    ensures FirstIndex(a, c) == FirstIndex(s, c)
  {
    var k := FirstIndex(s, c).value;
    assert a[k] == s[k];
    FirstIndexExtend(a, s[|a|..], c);
    assert a + s[|a|..] == s;
  }

  lemma TagLengthExtend(a: string, b: string)
    requires TagLength(a) > 0
    ensures TagLength(a + b) == TagLength(a)
  {
    FirstIndexExtend(a, b, '>');
    var n := TagLength(a);
    assert (a + b)[..n] == a[..n];
  }

  lemma TagLengthPrefix(s: string, a: string)
    requires StartsWith(s, a)
    requires 0 < TagLength(s) <= |a|
    ensures TagLength(a) == TagLength(s)
  {
    var n := TagLength(s);
    FirstIndexPrefix(s, a, '>');
    assert a[..n] == s[..n];
  }

  lemma TagLengthOfTag(t: string, x: string)
    requires t in Tags
    ensures TagLength(t + x) == |t|
  {
    TagShape(t);
    assert FirstIndex(t, '>') == Some(|t| - 1);
    FirstIndexExtend(t, x, '>');
    assert (t + x)[..|t|] == t;
  }

  /** A tag followed by markup is markup. */
  lemma TagThenMarkup(t: string, x: string)
    requires t in Tags && Markup(x)
    ensures Markup(t + x)
  {
    TagLengthOfTag(t, x);
    TagShape(t);
    assert (t + x)[|t|..] == x;
  }

  lemma TagIsMarkup(t: string)
    requires t in Tags
    ensures Markup(t)
  {
    TagThenMarkup(t, "");
    assert t + "" == t;
  }

  /** An ordinary character in front of a string does not change whether it is markup. */
  lemma MarkupCons(c: char, x: string)
    requires !IsHtmlSpecial(c)
    ensures Markup([c] + x) <==> Markup(x)
  {
    assert ([c] + x)[1..] == x;
  }

  /** Text without `<`, `>`, `"`, `'` is markup. */
  lemma {:induction false} InertIsMarkup(s: string)
    requires Inert(s)
    ensures Markup(s)
    decreases |s|
  {
    if |s| > 0 {
      InertIsMarkup(s[1..]);
    }
  }

  lemma {:induction false} MarkupAppend(a: string, b: string)
    requires Markup(a) && Markup(b)
    ensures Markup(a + b)
    decreases |a|
  {
    if |a| == 0 {
      assert a + b == b;
    } else if !IsHtmlSpecial(a[0]) {
      DropAppend(a, b, 1);
      MarkupAppend(a[1..], b);
    } else {
      var n := TagLength(a);
      TagLengthExtend(a, b);
      DropAppend(a, b, n);
      MarkupAppend(a[n..], b);
    }
  }

  lemma DropAppend(a: string, b: string, n: nat)
    requires 0 < n <= |a|
    ensures (a + b)[0] == a[0] && (a + b)[n..] == a[n..] + b
  {
  }

  lemma DropAppend3(a: string, c: char, b: string, n: nat)
    requires 0 < n <= |a|
    ensures (a + [c] + b)[0] == a[0] && (a + [c] + b)[n..] == a[n..] + [c] + b
  {
  }

  lemma MarkupAppend3(a: string, b: string, c: string)
    requires Markup(a) && Markup(b) && Markup(c)
    ensures Markup(a + b + c)
  {
    MarkupAppend(a, b);
    MarkupAppend(a + b, c);
  }

  /** A markup string stays markup when a prefix free of `<` is dropped. */
  lemma {:induction false} MarkupDrop(s: string, k: nat)
    requires Markup(s) && k <= |s|
    requires '<' !in s[..k]
    ensures Markup(s[k..])
    decreases k
  {
    if k > 0 {
      assert s[0] == s[..k][0];
      assert s[1..][..k - 1] == s[1..k];
      assert '<' !in s[1..][..k - 1];
      MarkupDrop(s[1..], k - 1);
      assert s[1..][k - 1..] == s[k..];
    }
  }

  /** Cutting a markup string at a character that no tag contains leaves markup on both sides. */
  lemma {:induction false} MarkupCut(a: string, c: char, b: string)
    requires !IsTagChar(c) && !IsHtmlSpecial(c)
    requires Markup(a + [c] + b)
    ensures Markup(a) && Markup(b)
    decreases |a|
  {
    var s := a + [c] + b;
    if |a| == 0 {
      assert s == [c] + b;
      MarkupCons(c, b);
    } else if !IsHtmlSpecial(a[0]) {
      DropAppend3(a, c, b, 1);
      MarkupCut(a[1..], c, b);
      MarkupCons(a[0], a[1..]);
      assert [a[0]] + a[1..] == a;
    } else {
      assert s[0] == a[0];
      var n := TagLength(s);
      assert StartsWith(s, a);
      TagShape(s[..n]);
      assert s[|a|] == c;
      assert forall i :: 0 <= i < n ==> IsTagChar(s[i]) by {
        forall i | 0 <= i < n ensures IsTagChar(s[i]) {
          assert s[..n][i] == s[i];
        }
      }
      assert n <= |a|;
      TagLengthPrefix(s, a);
      DropAppend3(a, c, b, n);
      MarkupCut(a[n..], c, b);
    }
  }

  /** Removing one ordinary character that no tag contains keeps markup. */
  lemma MarkupRemove(a: string, c: char, b: string)
    requires !IsTagChar(c) && !IsHtmlSpecial(c)
    requires Markup(a + [c] + b)
    ensures Markup(a + b)
  {
    MarkupCut(a, c, b);
    MarkupAppend(a, b);
  }

  lemma SpaceIsOrdinary(k: Spaces, c: char)
    requires IsSpace(k, c)
    ensures !IsTagChar(c) && !IsHtmlSpecial(c)
  {
  }

  lemma {:induction false} MarkupTrimStart(k: Spaces, s: string)
    requires Markup(s)
    ensures Markup(TrimStart(k, s))
    decreases |s|
  {
    if |s| > 0 && IsSpace(k, s[0]) {
      SpaceIsOrdinary(k, s[0]);
      MarkupTrimStart(k, s[1..]);
    }
  }

  lemma {:induction false} MarkupTrimEnd(k: Spaces, s: string)
    requires Markup(s)
    ensures Markup(TrimEnd(k, s))
    decreases |s|
  {
    if |s| > 0 && IsSpace(k, s[|s| - 1]) {
      var c := s[|s| - 1];
      SpaceIsOrdinary(k, c);
      assert s == s[..|s| - 1] + [c] + "";
      MarkupCut(s[..|s| - 1], c, "");
      MarkupTrimEnd(k, s[..|s| - 1]);
    }
  }

  /** Trimming white space keeps markup. */
  lemma MarkupTrim(k: Spaces, s: string)
    requires Markup(s)
    ensures Markup(Trim(k, s))
  {
    MarkupTrimStart(k, s);
    MarkupTrimEnd(k, TrimStart(k, s));
  }

  /** In markup every `<` opens one of the fixed tags. */
  lemma {:induction false} MarkupLtOpensTag(s: string, i: nat)
    requires Markup(s) && i < |s| && s[i] == '<'
    ensures TagLength(s[i..]) > 0
    decreases |s|
  {
    if !IsHtmlSpecial(s[0]) {
      MarkupLtOpensTag(s[1..], i - 1);
      assert s[1..][i - 1..] == s[i..];
    } else {
      var n := TagLength(s);
      TagShape(s[..n]);
      assert forall j :: 0 < j < n ==> s[j] != '<' by {
        forall j | 0 < j < n ensures s[j] != '<' {
          assert s[..n][j] == s[j];
        }
      }
      if i < n {
        assert i == 0 && s[i..] == s;
      } else {
        MarkupLtOpensTag(s[n..], i - n);
        assert s[n..][i - n..] == s[i..];
      }
    }
  }

  /** Markup contains no quote character at all: no attribute value can be closed. */
  lemma {:induction false} MarkupHasNoQuotes(s: string)
    requires Markup(s)
    ensures forall i :: 0 <= i < |s| ==> s[i] != '"' && s[i] != '\''
    decreases |s|
  {
    if |s| > 0 {
      if !IsHtmlSpecial(s[0]) {
        MarkupHasNoQuotes(s[1..]);
        assert forall i :: 1 <= i < |s| ==> s[i] == s[1..][i - 1];
      } else {
        var n := TagLength(s);
        TagShape(s[..n]);
        MarkupHasNoQuotes(s[n..]);
        assert forall i :: 0 <= i < n ==> s[i] == s[..n][i];
        assert forall i :: n <= i < |s| ==> s[i] == s[n..][i - n];
      }
    }
  }
}
