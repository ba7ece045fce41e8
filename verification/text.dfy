/** Character classes and string helpers shared by the browser scripts and the Flask app.
    Strings are sequences of Unicode scalar values. */
module Text {

  datatype Option<+T> = None | Some(value: T)
  {
    function GetOr(default: T): T
    {
      match this
      case Some(v) => v
      case None => default
    }
  }

  /** Which language's notion of white space a trim uses. */
  datatype Spaces = JsSpaces | PySpaces

  /** ECMAScript WhiteSpace and LineTerminator, the class behind `\s` and `String.prototype.trim`
      (the space separators of category Zs are listed by code point). */
  predicate IsJsSpace(c: char)
  {
    || c == '\t' || c == '\n' || c == '\U{000B}' || c == '\U{000C}' || c == '\r' || c == ' '
    || c == '\U{00A0}' || c == '\U{1680}' || ('\U{2000}' <= c <= '\U{200A}')
    || c == '\U{2028}' || c == '\U{2029}' || c == '\U{202F}' || c == '\U{205F}' || c == '\U{3000}'
    || c == '\U{FEFF}'
  }

  /** The characters Python's argument-less `str.strip()` removes. */
  predicate IsPySpace(c: char)
  {
    || c == '\t' || c == '\n' || c == '\U{000B}' || c == '\U{000C}' || c == '\r'
    || ('\U{001C}' <= c <= '\U{001F}') || c == ' ' || c == '\U{0085}' || c == '\U{00A0}'
    || c == '\U{1680}' || ('\U{2000}' <= c <= '\U{200A}')
    || c == '\U{2028}' || c == '\U{2029}' || c == '\U{202F}' || c == '\U{205F}' || c == '\U{3000}'
  }

  predicate IsSpace(k: Spaces, c: char)
  {
    match k
    case JsSpaces => IsJsSpace(c)
    case PySpaces => IsPySpace(c)
  }

  predicate AllSpace(k: Spaces, s: string)
  {
    forall i :: 0 <= i < |s| ==> IsSpace(k, s[i])
  }

  /** `p` is a prefix of `s`. */
  predicate StartsWith(s: string, p: string)
  {
    |p| <= |s| && s[..|p|] == p
  }

  lemma StartsWithAppend(a: string, b: string, p: string)
    requires StartsWith(a, p)
    ensures StartsWith(a + b, p)
  {
    assert (a + b)[..|p|] == a[..|p|];
  }

  /** `p` is a suffix of `s`. */
  predicate EndsWith(s: string, p: string)
  {
    |p| <= |s| && s[|s| - |p|..] == p
  }

  /** `p` occurs in `s` starting at index `i`. */
  predicate OccursAt(s: string, p: string, i: int)
  {
    0 <= i && i + |p| <= |s| && s[i..i + |p|] == p
  }

  /** The first index at or after `from` where `p` occurs in `s`. */
  function FindFrom(s: string, p: string, from: nat): (r: Option<nat>)
    requires from <= |s|
    ensures r.Some? ==> from <= r.value && OccursAt(s, p, r.value)
    ensures r.Some? ==> forall j :: from <= j < r.value ==> !OccursAt(s, p, j)
    ensures r.None? ==> forall j :: from <= j ==> !OccursAt(s, p, j)
    decreases |s| - from
  {
    if from + |p| > |s| then None
    else if s[from..from + |p|] == p then Some(from)
    else FindFrom(s, p, from + 1)
  }

  /** Substring test: Python's `k in s`. */
  predicate Contains(s: string, p: string)
  {
    FindFrom(s, p, 0).Some?
  }

  lemma ContainsIff(s: string, p: string)
    ensures Contains(s, p) <==> exists i :: OccursAt(s, p, i)
  {
  }

  /** The first index of character `c` in `s`. */
  function FirstIndex(s: string, c: char): (r: Option<nat>)
    ensures r.None? <==> c !in s
    ensures r.Some? ==> r.value < |s| && s[r.value] == c && c !in s[..r.value]
    decreases |s|
  {
    if |s| == 0 then None
    else if s[0] == c then Some(0)
    else match FirstIndex(s[1..], c)
      case None => None
      case Some(i) => assert s[..i + 1] == [s[0]] + s[1..][..i]; Some(i + 1)
  }

  /** Where the first `c` of `a` lies, so lies the first `c` of any extension of `a`. */
  lemma FirstIndexExtend(a: string, b: string, c: char)
    requires FirstIndex(a, c).Some?
    ensures FirstIndex(a + b, c) == FirstIndex(a, c)
  {
    var k := FirstIndex(a, c).value;
    assert (a + b)[k] == c;
    assert (a + b)[..k] == a[..k];
  }

  /** A `c` preceded by text free of `c` is the first one, whatever follows it. */
  lemma FirstIndexAt(a: string, c: char, b: string)
    requires c !in a
    ensures FirstIndex(a + [c] + b, c) == Some(|a|)
  {
    assert FirstIndex(a + [c], c) == Some(|a|) by {
      assert (a + [c])[..|a|] == a;
    }
    FirstIndexExtend(a + [c], b, c);
  }

  /** Removes the first occurrence of `c`: JavaScript's `s.replace(c, "")` for a one-character string. */
  function RemoveFirst(s: string, c: char): (r: string)
    ensures c !in s ==> r == s
    ensures c in s ==> exists i :: 0 <= i < |s| && s[i] == c && c !in s[..i] && r == s[..i] + s[i + 1..]
  {
    match FirstIndex(s, c)
    case None => s
    case Some(i) => s[..i] + s[i + 1..]
  }

  /** Only the first occurrence goes: whatever follows it is kept. */
  lemma RemoveFirstAt(a: string, c: char, b: string)
    requires c !in a
    ensures RemoveFirst(a + [c] + b, c) == a + b
  {
    var s := a + [c] + b;
    assert FirstIndex(a + [c], c) == Some(|a|) by {
      assert (a + [c])[..|a|] == a;
    }
    FirstIndexExtend(a + [c], b, c);
    assert s[..|a|] == a && s[|a| + 1..] == b;
  }

  /** Drops leading white space. */
  function TrimStart(k: Spaces, s: string): (r: string)
    ensures |r| <= |s| && r == s[|s| - |r|..]
    ensures AllSpace(k, s[..|s| - |r|])
    ensures |r| > 0 ==> !IsSpace(k, r[0])
    decreases |s|
  {
    if |s| > 0 && IsSpace(k, s[0]) then
      var r := TrimStart(k, s[1..]);
      SpaceBefore(k, s, r);
      r
    else s
  }

  /** A space in front of a space run ending where the suffix `r` of `s[1..]` starts. */
  lemma SpaceBefore(k: Spaces, s: string, r: string)
    requires |s| > 0 && IsSpace(k, s[0])
    requires |r| <= |s| - 1 && r == s[1..][|s| - 1 - |r|..] && AllSpace(k, s[1..][..|s| - 1 - |r|])
    ensures r == s[|s| - |r|..] && AllSpace(k, s[..|s| - |r|])
  {
    assert s[..|s| - |r|] == [s[0]] + s[1..][..|s| - 1 - |r|];
  }

  /** A space after a space run starting where the prefix `r` of `s` without its last character ends. */
  lemma SpaceAfter(k: Spaces, s: string, r: string)
    requires |s| > 0 && IsSpace(k, s[|s| - 1])
    requires |r| <= |s| - 1 && r == s[..|s| - 1][..|r|] && AllSpace(k, s[..|s| - 1][|r|..])
    ensures r == s[..|r|] && AllSpace(k, s[|r|..])
  {
    assert s[|r|..] == s[..|s| - 1][|r|..] + [s[|s| - 1]];
  }

  /** Drops trailing white space. */
  function TrimEnd(k: Spaces, s: string): (r: string)
    ensures |r| <= |s| && r == s[..|r|]
    ensures AllSpace(k, s[|r|..])
    ensures |r| > 0 ==> !IsSpace(k, r[|r| - 1])
    ensures |s| > 0 && !IsSpace(k, s[0]) ==> |r| > 0
    decreases |s|
  {
    if |s| > 0 && IsSpace(k, s[|s| - 1]) then
      var r := TrimEnd(k, s[..|s| - 1]);
      SpaceAfter(k, s, r);
      r
    else s
  }

  /** JavaScript `trim()` (JsSpaces) and Python `strip()` (PySpaces): the longest infix with
      neither a leading nor a trailing space; everything removed is space. */
  function Trim(k: Spaces, s: string): (r: string)
    ensures |r| <= |s|
    ensures exists a :: SpacedInfixAt(k, s, r, a)
    ensures |r| > 0 ==> !IsSpace(k, r[0]) && !IsSpace(k, r[|r| - 1])
    ensures |s| > 0 && !IsSpace(k, s[0]) ==> |r| > 0 && r[0] == s[0]
  {
    var t := TrimStart(k, s);
    SpaceInfix(k, s, t, TrimEnd(k, t));
    TrimOuterChars(k, s, t, TrimEnd(k, t));
    TrimEnd(k, t)
  }

  /** The first character survives both trims when it is not a space, and neither end of the
      result is a space. */
  lemma TrimOuterChars(k: Spaces, s: string, t: string, r: string)
    requires t == TrimStart(k, s) && r == TrimEnd(k, t)
    ensures |r| > 0 ==> !IsSpace(k, r[0]) && !IsSpace(k, r[|r| - 1])
    ensures |s| > 0 && !IsSpace(k, s[0]) ==> |r| > 0 && r[0] == s[0]
  {
    if |r| > 0 {
      assert r[0] == t[0];
    }
    if |s| > 0 && !IsSpace(k, s[0]) {
      assert t == s;
    }
  }

  /** `r` sits in `s` at index `a`, with nothing but space before and after it. */
  predicate SpacedInfixAt(k: Spaces, s: string, r: string, a: int)
  {
    0 <= a && a + |r| <= |s| && r == s[a..a + |r|] && AllSpace(k, s[..a]) && AllSpace(k, s[a + |r|..])
  }

  /** A suffix `t` of `s` after a space run, and a prefix `r` of `t` before one, form an infix of
      `s` between two space runs. */
  lemma SpaceInfix(k: Spaces, s: string, t: string, r: string)
    requires |t| <= |s| && t == s[|s| - |t|..] && AllSpace(k, s[..|s| - |t|])
    requires |r| <= |t| && r == t[..|r|] && AllSpace(k, t[|r|..])
    ensures SpacedInfixAt(k, s, r, |s| - |t|)
  {
    var a := |s| - |t|;
    assert s[a..a + |r|] == t[..|r|];
    assert s[a + |r|..] == t[|r|..];
  }

  /** Trimming a string that already has no outer spaces changes nothing. */
  lemma TrimTrimmed(k: Spaces, s: string)
    requires |s| > 0 ==> !IsSpace(k, s[0]) && !IsSpace(k, s[|s| - 1])
    ensures Trim(k, s) == s
  {
  }

  /** Trimming twice is trimming once. */
  lemma TrimIdempotent(k: Spaces, s: string)
    ensures Trim(k, Trim(k, s)) == Trim(k, s)
  {
    TrimTrimmed(k, Trim(k, s));
  }

  /** Spaces around a string are what Trim removes. */
  lemma {:induction false} TrimPadded(k: Spaces, lead: string, s: string, trail: string)
    requires AllSpace(k, lead) && AllSpace(k, trail)
    ensures Trim(k, lead + s + trail) == Trim(k, s)
  {
    TrimStartPaddedBoth(k, lead, s, trail);
    TrimEndStartSuffix(k, s, trail);
    TrimIs(k, lead + s + trail);
    TrimIs(k, s);
  }

  lemma TrimStartPaddedBoth(k: Spaces, lead: string, s: string, trail: string)
    requires AllSpace(k, lead)
    ensures TrimStart(k, lead + s + trail) == TrimStart(k, s + trail)
  {
    Assoc(lead, s, trail);
    TrimStartPadded(k, lead, s + trail);
  }

  lemma Assoc(a: string, b: string, c: string)
    ensures a + b + c == a + (b + c)
  {
  }

  lemma EmptyPrefix<T>(s: seq<T>)
    ensures [] + s == s
  {
  }

  lemma SliceJoin<T>(s: seq<T>, i: int)
    requires 0 <= i <= |s|
    ensures s == s[..i] + s[i..]
  {
  }

  lemma HeadCons<T>(s: seq<T>)
    requires |s| > 0
    ensures s == [s[0]] + s[1..]
  {
  }

  lemma AppendTail<T>(a: seq<T>, b: seq<T>)
    requires |a| > 0
    ensures (a + b)[0] == a[0] && (a + b)[1..] == a[1..] + b
  {
  }

  lemma SliceCons<T>(s: seq<T>, i: int)
    requires 0 <= i < |s|
    ensures s[i..] == [s[i]] + s[i + 1..]
  {
  }

  /** Trim is the end trim of the start trim. */
  lemma TrimIs(k: Spaces, s: string)
    ensures Trim(k, s) == TrimEnd(k, TrimStart(k, s))
  {
  }

  lemma TrimEndStartSuffix(k: Spaces, s: string, t: string)
    requires AllSpace(k, t)
    ensures TrimEnd(k, TrimStart(k, s + t)) == TrimEnd(k, TrimStart(k, s))
  {
    TrimStartSuffix(k, s, t);
  }

  /** Leading spaces are what Trim removes first. */
  lemma TrimLeadPadded(k: Spaces, lead: string, s: string)
    requires AllSpace(k, lead)
    ensures Trim(k, lead + s) == Trim(k, s)
  {
    TrimStartPadded(k, lead, s);
  }

  lemma TrimLeadPaddedChar(k: Spaces, lead: string, c: char, s: string)
    requires AllSpace(k, lead)
    ensures Trim(k, lead + [c] + s) == Trim(k, [c] + s)
  {
    Assoc(lead, [c], s);
    TrimLeadPadded(k, lead, [c] + s);
  }

  lemma {:induction false} TrimStartPadded(k: Spaces, lead: string, s: string)
    requires AllSpace(k, lead)
    ensures TrimStart(k, lead + s) == TrimStart(k, s)
    decreases |lead|
  {
    if |lead| > 0 {
      assert (lead + s)[1..] == lead[1..] + s;
      TrimStartPadded(k, lead[1..], s);
    } else {
      assert lead + s == s;
    }
  }

  /** Trimming the front of `s + t` trims the front of `s` first, unless `s` is all space. */
  lemma {:induction false} TrimStartSuffix(k: Spaces, s: string, t: string)
    requires AllSpace(k, t)
    ensures TrimStart(k, s + t) == TrimStart(k, s) + t || (AllSpace(k, s) && AllSpace(k, s + t))
    ensures TrimEnd(k, TrimStart(k, s + t)) == TrimEnd(k, TrimStart(k, s))
    decreases |s|
  {
    if |s| > 0 && IsSpace(k, s[0]) {
      assert (s + t)[0] == s[0];
      assert (s + t)[1..] == s[1..] + t;
      TrimStartSuffix(k, s[1..], t);
      if AllSpace(k, s[1..]) && AllSpace(k, s[1..] + t) {
        AllSpaceCons(k, s);
        AllSpaceCons(k, s + t);
      }
    } else if |s| > 0 {
      assert (s + t)[0] == s[0];
      TrimEndPadded(k, s, t);
    } else {
      assert s + t == t;
      AllSpaceTrims(k, t);
    }
  }

  lemma AllSpaceCons(k: Spaces, s: string)
    requires |s| > 0 && IsSpace(k, s[0]) && AllSpace(k, s[1..])
    ensures AllSpace(k, s)
  {
    assert forall i :: 1 <= i < |s| ==> s[i] == s[1..][i - 1];
  }

  lemma {:induction false} AllSpaceTrims(k: Spaces, t: string)
    requires AllSpace(k, t)
    ensures TrimStart(k, t) == ""
    decreases |t|
  {
    if |t| > 0 {
      AllSpaceTrims(k, t[1..]);
    }
  }

  lemma {:induction false} TrimEndPadded(k: Spaces, s: string, t: string)
    requires AllSpace(k, t)
    ensures TrimEnd(k, s + t) == TrimEnd(k, s)
    decreases |t|
  {
    if |t| > 0 {
      var t' := t[..|t| - 1];
      assert (s + t)[..|s + t| - 1] == s + t';
      TrimEndPadded(k, s, t');
    } else {
      assert s + t == s;
    }
  }

  /** Splits at every occurrence of `c`, like JavaScript's `s.split(c)` for a one-character string. */
  function Split(s: string, c: char): (r: seq<string>)
    ensures |r| >= 1
    ensures forall i :: 0 <= i < |r| ==> c !in r[i]
    ensures |s| > 0 && s[0] != c ==> |r[0]| > 0 && r[0][0] == s[0]
    ensures |r| == 1 <==> c !in s
    decreases |s|
  {
    match FirstIndex(s, c)
    case None => [s]
    case Some(i) => [s[..i]] + Split(s[i + 1..], c)
  }

  /** One step of Split: the piece before the first `c`, then the pieces after it. */
  lemma SplitStep(s: string, c: char, k: nat)
    requires FirstIndex(s, c) == Some(k)
    ensures Split(s, c) == [s[..k]] + Split(s[k + 1..], c)
  {
  }

  /** A word without `c` followed by `c` splits off as the first piece. */
  lemma SplitFirstWord(a: string, c: char, u: string)
    requires c !in a
    ensures Split(a + [c] + u, c) == [a] + Split(u, c)
  {
    FirstIndexAt(a, c, u);
    CutParts(a, c, u);
    SplitStep(a + [c] + u, c, |a|);
  }

  /** Two words without spaces, each followed by a space, split off as the first two pieces. */
  lemma SplitTwoWords(a: string, b: string, t: string)
    requires ' ' !in a && ' ' !in b
    ensures Split(a + " " + (b + " " + t), ' ') == [a, b] + Split(t, ' ')
  {
    SplitFirstWord(a, ' ', b + " " + t);
    SplitFirstWord(b, ' ', t);
    ConsTwo(a, b, Split(t, ' '));
  }

  lemma ConsTwo<T>(a: T, b: T, r: seq<T>)
    ensures [a] + ([b] + r) == [a, b] + r
  {
  }

  /** Joins with separator `c`, the inverse of Split. */
  function Join(ps: seq<string>, c: char): (r: string)
    requires |ps| >= 1
    decreases |ps|
  {
    if |ps| == 1 then ps[0] else ps[0] + [c] + Join(ps[1..], c)
  }

  lemma {:induction false} JoinSplit(s: string, c: char)
    ensures Join(Split(s, c), c) == s
    decreases |s|
  {
    match FirstIndex(s, c)
    case None =>
    case Some(i) =>
      var rest := Split(s[i + 1..], c);
      JoinCons(s[..i], rest, c);
      JoinSplit(s[i + 1..], c);
      CutAt(s, i);
  }

  /** Joining a piece in front of at least one more puts a separator after it. */
  lemma JoinCons(p: string, rest: seq<string>, c: char)
    requires |rest| >= 1
    ensures Join([p] + rest, c) == p + [c] + Join(rest, c)
  {
    assert ([p] + rest)[1..] == rest;
  }

  /** Joining two non-empty runs of pieces puts one separator between them. */
  lemma {:induction false} JoinAppend(a: seq<string>, b: seq<string>, c: char)
    requires |a| >= 1 && |b| >= 1
    ensures Join(a + b, c) == Join(a, c) + [c] + Join(b, c)
    decreases |a|
  {
    if |a| == 1 {
      assert a + b == [a[0]] + b;
      JoinCons(a[0], b, c);
    } else {
      assert (a + b)[1..] == a[1..] + b;
      JoinAppend(a[1..], b, c);
    }
  }

  /** An occurrence survives being surrounded by more text. */
  lemma ContainsInfix(a: string, m: string, b: string, p: string)
    requires Contains(m, p)
    ensures Contains(a + m + b, p)
  {
    ContainsIff(m, p);
    var i :| OccursAt(m, p, i);
    assert (a + m + b)[|a| + i..|a| + i + |p|] == m[i..i + |p|];
    assert OccursAt(a + m + b, p, |a| + i);
    ContainsIff(a + m + b, p);
  }

  /** The pieces of `a + [c] + b` around index `|a|`. */
  lemma CutParts(a: string, c: char, b: string)
    ensures (a + [c] + b)[..|a|] == a && (a + [c] + b)[|a| + 1..] == b
  {
  }

  /** A string is its three slices at `p` and `e`. */
  lemma CutThree(s: string, p: nat, e: nat)
    requires p <= e <= |s|
    ensures s == s[..p] + s[p..e] + s[e..]
  {
  }

  /** A string is the part before index `i`, the character there, and the part after. */
  lemma CutAt(s: string, i: nat)
    requires i < |s|
    ensures s == s[..i] + [s[i]] + s[i + 1..]
  {
  }

  lemma {:induction false} SplitJoin(ps: seq<string>, c: char)
    requires |ps| >= 1
    requires forall i :: 0 <= i < |ps| ==> c !in ps[i]
    ensures Split(Join(ps, c), c) == ps
    decreases |ps|
  {
    if |ps| > 1 {
      SplitJoin(ps[1..], c);
      SplitJoinStep(ps, c);
    } else {
      assert FirstIndex(ps[0], c).None?;
    }
  }

  lemma SplitJoinStep(ps: seq<string>, c: char)
    requires |ps| > 1 && c !in ps[0]
    requires Split(Join(ps[1..], c), c) == ps[1..]
    ensures Split(Join(ps, c), c) == ps
  {
    SplitFirstWord(ps[0], c, Join(ps[1..], c));
    assert [ps[0]] + ps[1..] == ps;
  }

  /** No two adjacent occurrences of `c`. */
  predicate NoDoubled(s: string, c: char)
  {
    forall i :: 0 <= i < |s| - 1 ==> !(s[i] == c && s[i + 1] == c)
  }

  lemma NoDoubledSuffix(s: string, c: char, k: nat)
    requires NoDoubled(s, c) && k <= |s|
    ensures NoDoubled(s[k..], c)
  {
    var t := s[k..];
    forall j | 0 <= j < |t| - 1 ensures !(t[j] == c && t[j + 1] == c) {
      assert t[j] == s[k + j] && t[j + 1] == s[k + j + 1];
    }
  }

  /** A string without two adjacent separators splits into pieces of which only the first and
      the last can be empty. */
  lemma {:induction false} SplitInteriorNonEmpty(s: string, c: char)
    requires NoDoubled(s, c)
    ensures forall i :: 0 < i < |Split(s, c)| - 1 ==> |Split(s, c)[i]| > 0
    decreases |s|
  {
    match FirstIndex(s, c)
    case None =>
    case Some(i) =>
      var t := s[i + 1..];
      NoDoubledSuffix(s, c, i + 1);
      SplitInteriorNonEmpty(t, c);
      SplitStep(s, c, i);
      if |Split(t, c)| >= 2 {
        SecondPieceNonEmpty(s, c, i);
      }
      InteriorCons(s[..i], Split(t, c));
  }

  /** Without doubled separators, the piece after the first separator is not empty when more
      pieces follow it. */
  lemma SecondPieceNonEmpty(s: string, c: char, i: nat)
    requires NoDoubled(s, c) && FirstIndex(s, c) == Some(i)
    requires |Split(s[i + 1..], c)| >= 2
    ensures |Split(s[i + 1..], c)[0]| > 0
  {
    var t := s[i + 1..];
    assert c in t;
    assert t[0] == s[i + 1];
  }

  /** Putting a piece in front keeps the interior pieces non-empty when the old first piece was. */
  lemma InteriorCons(p: string, rest: seq<string>)
    requires forall i :: 0 < i < |rest| - 1 ==> |rest[i]| > 0
    requires |rest| >= 2 ==> |rest[0]| > 0
    ensures forall j :: 0 < j < |[p] + rest| - 1 ==> |([p] + rest)[j]| > 0
  {
    forall j | 0 < j < |[p] + rest| - 1
      ensures |([p] + rest)[j]| > 0
    {
      assert ([p] + rest)[j] == rest[j - 1];
    }
  }

  /** The first `n` elements, or all of them when there are fewer: `slice(0, n)`. */
  function Take<T>(s: seq<T>, n: int): (r: seq<T>)
    ensures |r| == if n < 0 then 0 else if n < |s| then n else |s|
    ensures r == s[..|r|]
  {
    if n <= 0 then [] else if n < |s| then s[..n] else s
  }

  function Reverse<T>(s: seq<T>): (r: seq<T>)
    ensures |r| == |s|
    ensures forall i :: 0 <= i < |s| ==> r[i] == s[|s| - 1 - i]
  {
    seq(|s|, i requires 0 <= i < |s| => s[|s| - 1 - i])
  }

  function LowerChar(c: char): char
  {
    if 'A' <= c <= 'Z' then (c as int + 32) as char else c
  }

  function UpperChar(c: char): char
  {
    if 'a' <= c <= 'z' then (c as int - 32) as char else c
  }

  /** ASCII lower-casing (an approximation of Python's Unicode `str.lower()`). */
  function Lower(s: string): (r: string)
    ensures |r| == |s| && forall i :: 0 <= i < |s| ==> r[i] == LowerChar(s[i])
  {
    seq(|s|, i requires 0 <= i < |s| => LowerChar(s[i]))
  }

  function Upper(s: string): (r: string)
    ensures |r| == |s| && forall i :: 0 <= i < |s| ==> r[i] == UpperChar(s[i])
  {
    seq(|s|, i requires 0 <= i < |s| => UpperChar(s[i]))
  }

  lemma LowerCharSpace(k: Spaces, c: char)
    ensures IsSpace(k, LowerChar(c)) <==> IsSpace(k, c)
  {
  }

  lemma LowerTail(s: string)
    requires |s| > 0
    ensures Lower(s)[1..] == Lower(s[1..])
  {
  }

  lemma {:induction false} TrimStartLower(k: Spaces, s: string)
    ensures TrimStart(k, Lower(s)) == Lower(TrimStart(k, s))
    decreases |s|
  {
    if |s| > 0 {
      LowerCharSpace(k, s[0]);
      LowerTail(s);
      TrimStartLower(k, s[1..]);
    }
  }

  lemma {:induction false} TrimEndLower(k: Spaces, s: string)
    ensures TrimEnd(k, Lower(s)) == Lower(TrimEnd(k, s))
    decreases |s|
  {
    if |s| > 0 {
      LowerCharSpace(k, s[|s| - 1]);
      assert Lower(s)[..|s| - 1] == Lower(s[..|s| - 1]);
      TrimEndLower(k, s[..|s| - 1]);
    }
  }

  /** Lower-casing and trimming commute: case never touches white space. */
  lemma TrimLower(k: Spaces, s: string)
    ensures Trim(k, Lower(s)) == Lower(Trim(k, s))
  {
    TrimStartLower(k, s);
    TrimEndLower(k, TrimStart(k, s));
  }

  /** Lower-casing forgets the letter case of the input entirely. */
  lemma LowerForgetsCase(s: string)
    ensures Lower(Upper(s)) == Lower(s)
    ensures Lower(Lower(s)) == Lower(s)
  {
  }

  function DigitChar(d: nat): (c: char)
    requires d < 10
    ensures '0' <= c <= '9'
  {
    ('0' as int + d) as char
  }

  predicate IsDigit(c: char)
  {
    '0' <= c <= '9'
  }

  /** Decimal digits of a natural number, without leading zeros. */
  function NatToString(n: nat): (r: string)
    ensures |r| > 0 && forall i :: 0 <= i < |r| ==> IsDigit(r[i])
    ensures r[0] == '0' ==> n == 0
    decreases n
  {
    if n < 10 then [DigitChar(n)] else NatToString(n / 10) + [DigitChar(n % 10)]
  }

  /** Decimal rendering of an integer: Python `str(n)`, and JavaScript's for integers below 10^21. */
  function IntToString(n: int): (r: string)
    ensures |r| > 0
    ensures (r[0] == '-') <==> n < 0
    ensures forall i :: 0 < i < |r| ==> IsDigit(r[i])
  {
    if n < 0 then "-" + NatToString(-n) else NatToString(n)
  }

  /** The value of a non-empty run of decimal digits. */
  function DigitsValue(s: string): nat
    requires |s| > 0 && forall i :: 0 <= i < |s| ==> IsDigit(s[i])
    decreases |s|
  {
    assert IsDigit(s[|s| - 1]);
    var d := s[|s| - 1] as int - '0' as int;
    if |s| == 1 then d else DigitsValue(s[..|s| - 1]) * 10 + d
  }

  /** An integer literal: optional sign followed by one or more ASCII digits. */
  function ParseIntLiteral(s: string): (r: Option<int>)
  {
    if |s| > 0 && (s[0] == '-' || s[0] == '+') then
      var body := s[1..];
      if |body| > 0 && forall i :: 0 <= i < |body| ==> IsDigit(body[i]) then
        var v: int := DigitsValue(body);
        Some(if s[0] == '-' then -v else v)
      else None
    else if |s| > 0 && forall i :: 0 <= i < |s| ==> IsDigit(s[i]) then Some(DigitsValue(s))
    else None
  }

  /** CPython's default `sys.int_max_str_digits` (from Python 3.11): `int()` refuses decimal
      text with more digits than this. */
  const IntMaxStrDigits := 4300

  /** The number of digits of a literal: its length without a leading sign. */
  function LiteralDigits(t: string): nat
  {
    if |t| > 0 && (t[0] == '-' || t[0] == '+') then |t| - 1 else |t|
  }

  /** Python `int(s)` for a string (ASCII digits, no underscores): surrounding spaces are
      ignored, and text with more than `IntMaxStrDigits` digits raises. */
  function PyParseInt(s: string): (r: Option<int>)
    ensures r.Some? ==> LiteralDigits(Trim(PySpaces, s)) <= IntMaxStrDigits
  {
    var t := Trim(PySpaces, s);
    if LiteralDigits(t) > IntMaxStrDigits then None else ParseIntLiteral(t)
  }

  /** The decimal digits of `n`, not counting its sign, are few enough for `int()`. */
  predicate WithinStrDigits(n: int)
  {
    |NatToString(if n < 0 then -n else n)| <= IntMaxStrDigits
  }

  function Pow10(k: nat): nat
  {
    if k == 0 then 1 else 10 * Pow10(k - 1)
  }

  /** A number below 10^k has at most k digits. */
  lemma {:induction false} NatToStringShort(n: nat, k: nat)
    requires k >= 1 && n < Pow10(k)
    ensures |NatToString(n)| <= k
    decreases k
  {
    if n >= 10 {
      NatToStringShort(n / 10, k - 1);
    }
  }

  lemma {:induction false} Pow10Split(a: nat, b: nat)
    ensures Pow10(a + b) == Pow10(a) * Pow10(b)
    decreases a
  {
    if a > 0 {
      Pow10Split(a - 1, b);
    }
  }

  /** Every integer of magnitude below 10^19 is within the digit limit. */
  lemma WithinStrDigitsSmall(n: int)
    requires (if n < 0 then -n else n) < 10_000_000_000_000_000_000
    ensures WithinStrDigits(n)
  {
    Pow10Split(10, 9);
    NatToStringShort(if n < 0 then -n else n, 19);
  }

  lemma {:induction false} DigitsRoundTrip(n: nat)
    ensures DigitsValue(NatToString(n)) == n
    decreases n
  {
    if n >= 10 {
      var s := NatToString(n);
      assert s[..|s| - 1] == NatToString(n / 10);
      DigitsRoundTrip(n / 10);
    }
  }

  lemma IntToStringTrimmed(n: int)
    ensures Trim(PySpaces, IntToString(n)) == IntToString(n)
  {
    var s := IntToString(n);
    assert s[0] == '-' || IsDigit(s[0]);
    assert |s| > 1 ==> IsDigit(s[|s| - 1]);
    TrimTrimmed(PySpaces, s);
  }

  /** Rendering an integer and parsing it back gives the integer, unless it has too many digits
      for `int()`. */
  lemma IntRoundTrip(n: int)
    ensures WithinStrDigits(n) ==> PyParseInt(IntToString(n)) == Some(n)
    ensures !WithinStrDigits(n) ==> PyParseInt(IntToString(n)).None?
  {
    if WithinStrDigits(n) {
      IntRoundTripWithin(n);
    } else {
      IntRoundTripBeyond(n);
    }
  }

  lemma IntRoundTripWithin(n: int)
    requires WithinStrDigits(n)
    ensures PyParseInt(IntToString(n)) == Some(n)
  {
    IntToStringTrimmed(n);
    LiteralDigitsOf(n);
    ParseTrimmed(IntToString(n));
    LiteralRoundTrip(n);
  }

  lemma IntRoundTripBeyond(n: int)
    requires !WithinStrDigits(n)
    ensures PyParseInt(IntToString(n)).None?
  {
    IntToStringTrimmed(n);
    LiteralDigitsOf(n);
    ParseTrimmed(IntToString(n));
  }

  /** `int()` of text without surrounding spaces: the digit limit, then the literal. */
  lemma ParseTrimmed(s: string)
    requires Trim(PySpaces, s) == s
    ensures LiteralDigits(s) > IntMaxStrDigits ==> PyParseInt(s).None?
    ensures LiteralDigits(s) <= IntMaxStrDigits ==> PyParseInt(s) == ParseIntLiteral(s)
  {
  }

  /** The digits of a rendered integer are those of its magnitude. */
  lemma LiteralDigitsOf(n: int)
    ensures LiteralDigits(IntToString(n)) == |NatToString(if n < 0 then -n else n)|
  {
    if n >= 0 {
      assert IsDigit(IntToString(n)[0]);
    }
  }

  lemma LiteralRoundTrip(n: int)
    ensures ParseIntLiteral(IntToString(n)) == Some(n)
  {
    if n < 0 {
      var body := NatToString(-n);
      assert IntToString(n)[1..] == body;
      DigitsRoundTrip(-n);
    } else {
      DigitsRoundTrip(n);
    }
  }

  /** Concatenation of a sequence of strings. */
  function Concat(ps: seq<string>): (r: string)
    decreases |ps|
  {
    if |ps| == 0 then "" else ps[0] + Concat(ps[1..])
  }

  lemma {:induction false} ConcatAppend(a: seq<string>, b: seq<string>)
    ensures Concat(a + b) == Concat(a) + Concat(b)
    decreases |a|
  {
    if |a| > 0 {
      assert (a + b)[1..] == a[1..] + b;
      ConcatAppend(a[1..], b);
    } else {
      assert a + b == b;
    }
  }
}
