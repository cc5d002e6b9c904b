/** The few `strings` package operations the core relies on, written over
    strings of Unicode scalar values. */
module Text {

  import opened Results

  /** The white space characters of Go's `unicode` package, listed one by
      one: tab, line feed, vertical tab, form feed, carriage return, space,
      NEL, no-break space, and the Unicode space, line and paragraph
      separators. */
  const SpaceChars: set<char> := {
    '\t', '\n', '\U{000B}', '\U{000C}', '\r', ' ', '\U{0085}', '\U{00A0}', '\U{1680}',
    '\U{2000}', '\U{2001}', '\U{2002}', '\U{2003}', '\U{2004}', '\U{2005}', '\U{2006}',
    '\U{2007}', '\U{2008}', '\U{2009}', '\U{200A}', '\U{2028}', '\U{2029}', '\U{202F}',
    '\U{205F}', '\U{3000}'}

  /** Go's `unicode.IsSpace`, written as it tests: Latin-1 characters by
      range, the rest against the separators. `IsSpaceListed` ties it to
      `SpaceChars`. */
  predicate IsSpace(c: char) {
    if c <= '\U{00FF}' then
      c == ' ' || ('\t' <= c <= '\r') || c == '\U{0085}' || c == '\U{00A0}'
    else
      || c == '\U{1680}' || ('\U{2000}' <= c <= '\U{200A}') || c == '\U{2028}' || c == '\U{2029}'
      || c == '\U{202F}' || c == '\U{205F}' || c == '\U{3000}'
  }

  /** The range test is exactly the listed set. */
  lemma IsSpaceListed(c: char)
    ensures IsSpace(c) <==> c in SpaceChars
  {
  }

  /** Every character of `s` satisfies `f`. */
  predicate All(s: string, f: char -> bool) {
    forall i :: 0 <= i < |s| ==> f(s[i])
  }

  predicate AllSpace(s: string) {
    All(s, IsSpace)
  }

  /** Neither end of `s` is white space. */
  predicate Trimmed(s: string) {
    s == [] || (!IsSpace(s[0]) && !IsSpace(s[|s| - 1]))
  }

  /** `r` is the infix `s[i..j]` and only characters satisfying `f` lie
      outside it. */
  predicate Padded(s: string, i: int, j: int, r: string, f: char -> bool) {
    0 <= i <= j <= |s| && r == s[i..j] && All(s[..i], f) && All(s[j..], f)
  }

  /** `strings.TrimLeftFunc`. */
  function TrimLeftFunc(s: string, f: char -> bool): (r: string)
    ensures |r| <= |s| && r == s[|s| - |r|..]
    ensures All(s[..|s| - |r|], f)
    ensures r == [] || !f(r[0])
    decreases |s|
  {
    if |s| > 0 && f(s[0]) then TrimLeftFunc(s[1..], f) else s
  }

  /** `strings.TrimRightFunc`. */
  function TrimRightFunc(s: string, f: char -> bool): (r: string)
    ensures |r| <= |s| && r == s[..|r|]
    ensures All(s[|r|..], f)
    ensures r == [] || !f(r[|r| - 1])
    decreases |s|
  {
    if |s| > 0 && f(s[|s| - 1]) then
      var r := TrimRightFunc(s[..|s| - 1], f);
      assert forall i :: |r| <= i < |s| - 1 ==> s[i] == s[..|s| - 1][i];
      r
    else s
  }

  /** `strings.TrimFunc`: the infix left after removing every leading and
      trailing character that satisfies `f`. */
  function TrimFunc(s: string, f: char -> bool): (r: string)
    ensures |r| <= |s|
    ensures r == [] || (!f(r[0]) && !f(r[|r| - 1]))
    ensures r == [] <==> All(s, f)
  {
    TrimEmptyIff(s, f);
    TrimRightFunc(TrimLeftFunc(s, f), f)
  }

  /** What `TrimFunc` removes is only characters satisfying `f`, and what it
      keeps is one contiguous piece of the input. */
  lemma TrimIsPaddedInfix(s: string, f: char -> bool)
    ensures exists i, j :: Padded(s, i, j, TrimFunc(s, f), f)
  {
    var i, j := TrimBounds(s, f);
    assert Padded(s, i, j, TrimFunc(s, f), f);
  }

  /** Where the two one-sided trims cut `s`. */
  lemma TrimBounds(s: string, f: char -> bool) returns (i: int, j: int)
    ensures Padded(s, i, j, TrimRightFunc(TrimLeftFunc(s, f), f), f)
  {
    var l := TrimLeftFunc(s, f);
    var r := TrimRightFunc(l, f);
    i := |s| - |l|;
    j := i + |r|;
    assert l == s[i..] && All(s[..i], f);
    assert r == l[..|r|] && All(l[|r|..], f);
    SliceOfSuffix(s, i, |r|);
    assert r == s[i..j];
    assert l[|r|..] == s[j..];
  }

  /** Slicing a suffix is slicing the string. */
  lemma SliceOfSuffix(s: string, i: int, k: int)
    requires 0 <= i <= |s| && 0 <= k <= |s| - i
    ensures s[i..][..k] == s[i..i + k] && s[i..][k..] == s[i + k..]
  {
  }

  lemma TrimEmptyIff(s: string, f: char -> bool)
    ensures TrimRightFunc(TrimLeftFunc(s, f), f) == [] <==> All(s, f)
  {
    var l := TrimLeftFunc(s, f);
    TrimLeftOfAll(s, f);
    if TrimRightFunc(l, f) == [] {
      TrimRightToNothing(l, f);
      var i := |s| - |l|;
      assert s == s[..i] + l;
      AllConcat(s[..i], l, f);
    }
  }

  /** Two strings of trimmed characters make one. */
  lemma AllConcat(a: string, b: string, f: char -> bool)
    requires All(a, f) && All(b, f)
    ensures All(a + b, f)
  {
    forall k | 0 <= k < |a + b| ensures f((a + b)[k]) {
      if k >= |a| {
        assert (a + b)[k] == b[k - |a|];
      }
    }
  }

  /** Trimming a string made only of trimmed characters leaves nothing. */
  lemma TrimLeftOfAll(s: string, f: char -> bool)
    ensures All(s, f) ==> TrimLeftFunc(s, f) == []
  {
    var l := TrimLeftFunc(s, f);
    assert l != [] ==> l[0] == s[|s| - |l|];
  }

  /** What trims away to nothing on the right was all trimmed characters. */
  lemma TrimRightToNothing(s: string, f: char -> bool)
    requires TrimRightFunc(s, f) == []
    ensures All(s, f)
  {
    assert s[|TrimRightFunc(s, f)|..] == s;
  }

  /** Trimming only removes characters: whatever it keeps was in the input. */
  lemma TrimKeepsChars(s: string, f: char -> bool)
    ensures forall ch :: ch in TrimFunc(s, f) ==> ch in s
  {
    var i, j := TrimBounds(s, f);
    var r := TrimFunc(s, f);
    assert r == s[i..j];
    forall ch | ch in r ensures ch in s {
      var k :| 0 <= k < |r| && r[k] == ch;
      assert s[i + k] == ch;
    }
  }

  /** `strings.TrimSpace`: `TrimFunc` with Go's white space test. */
  function TrimSpace(s: string): (r: string)
    ensures |r| <= |s|
    ensures Trimmed(r)
    ensures r == [] <==> AllSpace(s)
  {
    TrimFunc(s, IsSpace)
  }

  /** Leading characters satisfying `f` do not survive `TrimLeftFunc`. */
  lemma {:induction false} TrimLeftSkips(pre: string, u: string, f: char -> bool)
    requires All(pre, f)
    ensures TrimLeftFunc(pre + u, f) == TrimLeftFunc(u, f)
    decreases |pre|
  {
    if |pre| > 0 {
      assert (pre + u)[0] == pre[0];
      assert (pre + u)[1..] == pre[1..] + u;
      TrimLeftSkips(pre[1..], u, f);
    } else {
      assert pre + u == u;
    }
  }

  /** Trailing characters satisfying `f` do not survive `TrimRightFunc`. */
  lemma {:induction false} TrimRightSkips(v: string, post: string, f: char -> bool)
    requires All(post, f)
    ensures TrimRightFunc(v + post, f) == TrimRightFunc(v, f)
    decreases |post|
  {
    if |post| > 0 {
      var w := v + post;
      assert w[|w| - 1] == post[|post| - 1];
      assert w[..|w| - 1] == v + post[..|post| - 1];
      TrimRightSkips(v, post[..|post| - 1], f);
    } else {
      assert v + post == v;
    }
  }

  /** A trimmed string padded with white space on both sides trims back to
      itself: `TrimSpace` removes exactly the padding. */
  lemma TrimSpaceOfPadded(pre: string, t: string, post: string)
    requires AllSpace(pre) && AllSpace(post) && Trimmed(t)
    ensures TrimSpace(pre + t + post) == t
  {
    if t == [] {
      TrimSpaceOfAllSpace(pre, post);
    } else {
      TrimSpaceOfPaddedNonEmpty(pre, t, post);
    }
  }

  lemma TrimSpaceOfAllSpace(pre: string, post: string)
    requires AllSpace(pre) && AllSpace(post)
    ensures TrimSpace(pre + [] + post) == []
  {
    var s := pre + [] + post;
    assert forall k :: 0 <= k < |s| ==> s[k] == if k < |pre| then pre[k] else post[k - |pre|];
    assert AllSpace(s);
  }

  lemma TrimSpaceOfPaddedNonEmpty(pre: string, t: string, post: string)
    requires AllSpace(pre) && AllSpace(post) && Trimmed(t) && t != []
    ensures TrimSpace(pre + t + post) == t
  {
    assert pre + t + post == pre + (t + post);
    TrimLeftSkips(pre, t + post, IsSpace);
    assert (t + post)[0] == t[0];
    assert TrimLeftFunc(t + post, IsSpace) == t + post;
    TrimRightSkips(t, post, IsSpace);
  }

  /** `strings.HasPrefix`. */
  predicate HasPrefix(s: string, prefix: string) {
    |prefix| <= |s| && s[..|prefix|] == prefix
  }

  /** `strings.TrimPrefix`: `s` without `prefix` when it starts with it,
      otherwise `s` unchanged. */
  function TrimPrefix(s: string, prefix: string): (r: string)
    ensures HasPrefix(s, prefix) ==> prefix + r == s
    ensures !HasPrefix(s, prefix) ==> r == s
  {
    if HasPrefix(s, prefix) then s[|prefix|..] else s
  }

  /** The inverse of `Split`: the pieces glued back together with `sep`. */
  function Join(parts: seq<string>, sep: char): string
    requires |parts| >= 1
  {
    if |parts| == 1 then parts[0] else parts[0] + [sep] + Join(parts[1..], sep)
  }

  /** `strings.Split` (and `strings.SplitSeq`) with a one-character
      separator: the maximal separator-free pieces, one more than the number
      of separators, so that the empty string gives one empty piece. */
  function Split(s: string, sep: char): (parts: seq<string>)
    ensures |parts| >= 1
    ensures forall k :: 0 <= k < |parts| ==> sep !in parts[k]
    ensures Join(parts, sep) == s
    decreases |s|
  {
    if |s| == 0 then [""]
    else
      var rest := Split(s[1..], sep);
      if s[0] == sep then
        assert s == [sep] + s[1..];
        [""] + rest
      else
        var parts := [[s[0]] + rest[0]] + rest[1..];
        assert parts[1..] == rest[1..];
        assert s == [s[0]] + s[1..];
        assert Join(parts, sep) == s by {
          if |rest| > 1 {
            assert Join(rest, sep) == rest[0] + [sep] + Join(rest[1..], sep);
          }
        }
        parts
  }

  /** A separator-free string is a single piece. */
  lemma {:induction false} SplitNoSeparator(p: string, sep: char)
    requires sep !in p
    ensures Split(p, sep) == [p]
    decreases |p|
  {
    if |p| > 0 {
      assert sep !in p[1..] by {
        assert forall k :: 0 <= k < |p[1..]| ==> p[1..][k] == p[k + 1];
      }
      SplitNoSeparator(p[1..], sep);
      assert p == [p[0]] + p[1..];
    }
  }

  /** A separator-free piece followed by a separator splits off as the first
      piece. */
  lemma {:induction false} SplitFirstPiece(p: string, rest: string, sep: char)
    requires sep !in p
    ensures Split(p + [sep] + rest, sep) == [p] + Split(rest, sep)
    decreases |p|
  {
    var s := p + [sep] + rest;
    if |p| == 0 {
      assert s[0] == sep && s[1..] == rest;
      assert Split(s, sep) == [""] + Split(rest, sep);
    } else {
      assert sep !in p[1..] by {
        assert forall k :: 0 <= k < |p[1..]| ==> p[1..][k] == p[k + 1];
      }
      assert s[0] == p[0] && s[0] != sep;
      assert s[1..] == p[1..] + [sep] + rest;
      SplitFirstPiece(p[1..], rest, sep);
      var tail := Split(s[1..], sep);
      assert tail == [p[1..]] + Split(rest, sep);
      assert Split(s, sep) == [[s[0]] + tail[0]] + tail[1..];
      assert [s[0]] + tail[0] == p;
      assert tail[1..] == Split(rest, sep);
    }
  }

  /** Splitting inverts joining separator-free pieces, so `Split` loses no
      information and invents no pieces. */
  lemma {:induction false} SplitJoin(parts: seq<string>, sep: char)
    requires |parts| >= 1
    requires forall k :: 0 <= k < |parts| ==> sep !in parts[k]
    ensures Split(Join(parts, sep), sep) == parts
    decreases |parts|
  {
    if |parts| == 1 {
      SplitNoSeparator(parts[0], sep);
    } else {
      SplitJoin(parts[1..], sep);
      SplitFirstPiece(parts[0], Join(parts[1..], sep), sep);
      assert parts == [parts[0]] + parts[1..];
    }
  }

  /** `strings.SplitN(s, sep, 2)` read as a pair: the text before the first
      `sep` and everything after it, or None when `sep` does not occur. */
  function SplitFirst(s: string, sep: char): (r: Option<(string, string)>)
    ensures r.None? <==> sep !in s
    ensures r.Some? ==> s == r.value.0 + [sep] + r.value.1 && sep !in r.value.0
    decreases |s|
  {
    if |s| == 0 then None
    else if s[0] == sep then Some(([], s[1..]))
    else
      match SplitFirst(s[1..], sep)
      case None => None
      case Some(pair) =>
        assert s == [s[0]] + s[1..];
        Some(([s[0]] + pair.0, pair.1))
  }

  /** `SplitFirst` cuts exactly at the first separator: its inverse is
      gluing the two halves back with the separator. */
  lemma SplitFirstOfJoined(a: string, b: string, sep: char)
    requires sep !in a
    ensures SplitFirst(a + [sep] + b, sep) == Some((a, b))
  {
    var s := a + [sep] + b;
    FirstOccurrence(s, a, b, sep);
    var r := SplitFirst(s, sep).value;
    FirstOccurrence(s, r.0, r.1, sep);
    var n := |r.0|;
    assert n == |a|;
    assert r.0 == s[..n] == a;
    assert r.1 == s[n + 1..] == b;
  }

  /** In `x + [sep] + y` with no `sep` in `x`, the first `sep` is at `|x|`. */
  lemma FirstOccurrence(s: string, x: string, y: string, sep: char)
    requires s == x + [sep] + y && sep !in x
    ensures s[|x|] == sep
    ensures forall k :: 0 <= k < |x| ==> s[k] != sep
  {
    assert forall k :: 0 <= k < |x| ==> s[k] == x[k];
  }

  /** A string ending in its only separator splits into it and nothing. */
  lemma SplitFirstAtEnd(a: string, sep: char)
    requires sep !in a
    ensures SplitFirst(a + [sep], sep) == Some((a, []))
  {
    assert a + [sep] + [] == a + [sep];
    SplitFirstOfJoined(a, [], sep);
  }

  /** A trimmed string is its own `TrimSpace`. */
  lemma TrimSpaceOfTrimmed(t: string)
    requires Trimmed(t)
    ensures TrimSpace(t) == t
  {
    assert [] + t + [] == t;
    TrimSpaceOfPadded([], t, []);
  }
}
