// The bold rewrite both formatters apply after escaping:
//   s.replace(/\*\*(.*?)\*\*/g, "<strong>$1</strong>")
// The regular expression is searched left to right; `.*?` is lazy and `.` matches anything but a
// line terminator, so a span closes at the first `**` on the same line, and an opening `**` with
// no such partner is left as text.
module BoldSpans {
  import opened Text
  import opened HtmlEscape
  import opened SafeMarkup

  /** The characters a regular-expression `.` does not match. */
  predicate IsLineTerminator(c: char)
  {
    c == '\n' || c == '\r' || c == '\U{2028}' || c == '\U{2029}'
  }

  predicate DoubleStarAt(s: string, j: int)
  {
    0 <= j && j + 1 < |s| && s[j] == '*' && s[j + 1] == '*'
  }

  /** `s[from..to]` holds no line terminator. */
  predicate OneLine(s: string, from: int, to: int)
    requires 0 <= from <= to <= |s|
  {
    forall k :: from <= k < to ==> !IsLineTerminator(s[k])
  }

  /** Where the lazy `(.*?)\*\*` that starts at `from` stops: the first `**` at or after `from`,
      provided no line terminator lies before it. */
  function FindClose(s: string, from: nat): (r: Option<nat>)
    requires from <= |s|
    ensures r.Some? ==> from <= r.value && DoubleStarAt(s, r.value) && OneLine(s, from, r.value)
    ensures r.Some? ==> forall j :: from <= j < r.value ==> !DoubleStarAt(s, j)
    ensures r.None? ==> forall j :: from <= j && DoubleStarAt(s, j) ==> !OneLine(s, from, j)
    decreases |s| - from
  {
    if from + 1 >= |s| then None
    else if s[from] == '*' && s[from + 1] == '*' then Some(from)
    else if IsLineTerminator(s[from]) then None
    else FindClose(s, from + 1)
  }

  /** The replacement text `<strong>$1</strong>`. */
  function Strong(x: string): string
  {
    "<strong>" + x + "</strong>"
  }

  /** The global replacement, one match attempt per position: a match at position 0 turns
      `**x**` into `<strong>x</strong>` and the search resumes after it; otherwise the first
      character is kept and the search moves on by one. */
  function Bold(s: string): string
    decreases |s|
  {
    if |s| == 0 then ""
    else if DoubleStarAt(s, 0) && FindClose(s, 2).Some? then
      var j := FindClose(s, 2).value;
      Strong(s[2..j]) + Bold(s[j + 2..])
    else [s[0]] + Bold(s[1..])
  }

  lemma InertSlice(s: string, i: nat, j: nat)
    requires Inert(s) && i <= j <= |s|
    ensures Inert(s[i..j])
  {
    forall k | 0 <= k < j - i ensures !IsHtmlSpecial(s[i..j][k]) {
      assert s[i..j][k] == s[i + k];
    }
  }

  lemma StrongMarkup(x: string, rest: string)
    requires Inert(x) && Markup(rest)
    ensures Markup(Strong(x) + rest)
  {
    InertIsMarkup(x);
    TagIsMarkup("<strong>");
    TagThenMarkup("</strong>", rest);
    MarkupAppend3("<strong>", x, "</strong>" + rest);
    Regroup("<strong>", x, "</strong>", rest);
  }

  lemma Regroup(p: string, x: string, q: string, rest: string)
    ensures p + x + q + rest == p + x + (q + rest)
  {
  }

  lemma Regroup4(p: string, x: string, t: char, y: string)
    ensures p + (x + [t] + y) == (p + x) + [t] + y
  {
  }

  /** A span at position 0 is rewritten and the search resumes after its closing `**`. */
  lemma BoldOpen(s: string, j: nat)
    requires DoubleStarAt(s, 0) && FindClose(s, 2) == Some(j)
    ensures j + 2 <= |s| && Bold(s) == Strong(s[2..j]) + Bold(s[j + 2..])
  {
  }

  /** No span at position 0: the first character is copied. */
  lemma BoldCopy(s: string)
    requires |s| > 0 && !(DoubleStarAt(s, 0) && FindClose(s, 2).Some?)
    ensures Bold(s) == [s[0]] + Bold(s[1..])
  {
  }

  /** Slices of `a + [t] + b` that end within `a`, and the part after them. */
  lemma SliceBefore(a: string, t: char, b: string, i: nat, j: nat)
    requires i <= j <= |a|
    ensures (a + [t] + b)[i..j] == a[i..j] && (a + [t] + b)[j..] == a[j..] + [t] + b
  {
  }

  /** On escaped text the rewrite yields markup: the only tags it adds are `<strong>` and
      `</strong>`, and every other character is copied. */
  lemma {:induction false} BoldMarkup(s: string)
    requires Inert(s)
    ensures Markup(Bold(s))
    decreases |s|
  {
    if |s| == 0 {
    } else if DoubleStarAt(s, 0) && FindClose(s, 2).Some? {
      var j := FindClose(s, 2).value;
      var x, rest := s[2..j], s[j + 2..];
      InertSlice(s, 2, j);
      InertSlice(s, j + 2, |s|);
      assert s[j + 2..|s|] == rest;
      BoldMarkup(rest);
      StrongMarkup(x, Bold(rest));
    } else {
      InertSlice(s, 1, |s|);
      assert s[1..|s|] == s[1..];
      BoldMarkup(s[1..]);
      MarkupCons(s[0], Bold(s[1..]));
    }
  }

  /** Text without a `**` is left unchanged. */
  lemma {:induction false} BoldIdentity(s: string)
    requires forall j :: !DoubleStarAt(s, j)
    ensures Bold(s) == s
    decreases |s|
  {
    if |s| > 0 {
      assert !DoubleStarAt(s, 0);
      assert forall j :: !DoubleStarAt(s[1..], j) by {
        forall j ensures !DoubleStarAt(s[1..], j) {
          assert !DoubleStarAt(s, j + 1);
        }
      }
      BoldIdentity(s[1..]);
      assert s == [s[0]] + s[1..];
    }
  }

  /** `**x**` on one line, with no `*` inside, becomes `<strong>x</strong>`. */
  lemma BoldSpan(x: string, rest: string)
    requires '*' !in x
    requires forall i :: 0 <= i < |x| ==> !IsLineTerminator(x[i])
    ensures Bold("**" + x + "**" + rest) == "<strong>" + x + "</strong>" + Bold(rest)
  {
    var s := "**" + x + "**" + rest;
    var e := 2 + |x|;
    assert DoubleStarAt(s, 0);
    assert DoubleStarAt(s, e);
    assert s[2..e] == x;
    assert forall k :: 2 <= k < e ==> s[k] == x[k - 2];
    assert OneLine(s, 2, e);
    assert FindClose(s, 2) == Some(e);
    assert s[e + 2..] == rest;
  }

  lemma {:induction false} FindCloseCut(a: string, t: char, b: string, i: nat)
    requires IsLineTerminator(t) && i <= |a|
    ensures FindClose(a + [t] + b, i) == FindClose(a, i)
    decreases |a| - i
  {
    var s := a + [t] + b;
    if i + 1 < |a| {
      assert s[i] == a[i] && s[i + 1] == a[i + 1];
      FindCloseCut(a, t, b, i + 1);
    } else if i + 1 == |a| {
      assert s[i] == a[i] && s[i + 1] == t;
      if !IsLineTerminator(s[i]) {
        FindCloseCut(a, t, b, i + 1);
      }
    } else {
      assert s[i] == t;
    }
  }

  /** A line terminator at position 0 is copied: no span can start there. */
  lemma BoldTerminatorFirst(t: char, b: string)
    requires IsLineTerminator(t)
    ensures Bold([t] + b) == [t] + Bold(b)
  {
    var s := [t] + b;
    assert !DoubleStarAt(s, 0);
    assert s[1..] == b;
  }

  lemma BoldLinesSpan(a: string, t: char, b: string, j: nat)
    requires IsLineTerminator(t)
    requires DoubleStarAt(a, 0) && FindClose(a, 2) == Some(j)
    requires Bold(a[j + 2..] + [t] + b) == Bold(a[j + 2..]) + [t] + Bold(b)
    ensures Bold(a + [t] + b) == Bold(a) + [t] + Bold(b)
  {
    BoldOpen(a, j);
    BoldOpenCut(a, t, b, j);
    Regroup4(Strong(a[2..j]), Bold(a[j + 2..]), t, Bold(b));
  }

  /** The span that opens `a` opens `a + [t] + b` too, and ends at the same place. */
  lemma BoldOpenCut(a: string, t: char, b: string, j: nat)
    requires IsLineTerminator(t)
    requires DoubleStarAt(a, 0) && FindClose(a, 2) == Some(j)
    ensures j + 2 <= |a|
    ensures Bold(a + [t] + b) == Strong(a[2..j]) + Bold(a[j + 2..] + [t] + b)
  {
    var s := a + [t] + b;
    FindCloseCut(a, t, b, 2);
    SliceBefore(a, t, b, 2, j);
    SliceBefore(a, t, b, 0, j + 2);
    assert DoubleStarAt(s, 0) by {
      assert s[0] == a[0] && s[1] == a[1];
    }
    BoldOpen(s, j);
  }

  lemma BoldLinesPlain(a: string, t: char, b: string)
    requires IsLineTerminator(t) && |a| > 0
    requires !(DoubleStarAt(a, 0) && FindClose(a, 2).Some?)
    requires Bold(a[1..] + [t] + b) == Bold(a[1..]) + [t] + Bold(b)
    ensures Bold(a + [t] + b) == Bold(a) + [t] + Bold(b)
  {
    var s := a + [t] + b;
    assert s[0] == a[0];
    if |a| >= 2 {
      FindCloseCut(a, t, b, 2);
      assert s[1] == a[1];
    } else {
      assert s[1] == t;
    }
    SliceBefore(a, t, b, 0, 1);
    BoldCopy(a);
    BoldCopy(s);
    Regroup4([a[0]], Bold(a[1..]), t, Bold(b));
  }

  /** A span never crosses a line terminator: the text on either side is rewritten on its own. */
  lemma {:induction false} BoldLines(a: string, t: char, b: string)
    requires IsLineTerminator(t)
    ensures Bold(a + [t] + b) == Bold(a) + [t] + Bold(b)
    decreases |a|
  {
    if |a| == 0 {
      assert a + [t] + b == [t] + b;
      BoldTerminatorFirst(t, b);
    } else if DoubleStarAt(a, 0) && FindClose(a, 2).Some? {
      var j := FindClose(a, 2).value;
      BoldLines(a[j + 2..], t, b);
      BoldLinesSpan(a, t, b, j);
    } else {
      BoldLines(a[1..], t, b);
      BoldLinesPlain(a, t, b);
    }
  }
}
