/** The bearer-token table: `parseTokens` turns the configuration string
    `token:cubby;token:cubby;...` into a map token ↦ scope, where the scope is
    a cubby name or `*` for every cubby. The parse fails closed: one bad
    segment rejects the whole string and no partial table is returned. */
module Tokens {

  import opened Results
  import opened Text

  datatype TokenError =
    | NoTokens                    // the configuration string is empty
    | MissingColon(pair: string)  // a segment without ':' (SplitN gave one part)
    | EmptyPart(pair: string)     // token or scope empty after trimming

  /** A binding the table may hold: token and scope are non-empty, carry no
      surrounding white space, and the token holds no ':' (the segment was cut
      at its first colon). */
  predicate ValidBinding(token: string, scope: string) {
    token != [] && scope != [] && Trimmed(token) && Trimmed(scope) && ':' !in token
  }

  /** One `;`-separated segment: `None` for a blank segment (skipped),
      otherwise the binding it declares, or the error that aborts the parse.
      `ParseSegmentMeaning` states what it yields and `ParseSegmentAccepts`
      which segments it accepts. */
  function ParseSegment(segment: string): (r: Outcome)
    ensures r.Failure? ==> r.error != NoTokens && r.error.pair == TrimSpace(segment)
  {
    var pair := TrimSpace(segment);
    if pair == "" then Success(None)
    else match SplitFirst(pair, ':')
      case None => Failure(MissingColon(pair))
      case Some((t, c)) =>
        var token := TrimSpace(t);
        var scope := TrimSpace(c);
        if token == "" || scope == "" then Failure(EmptyPart(pair))
        else Success(Some((token, scope)))
  }

  /** A segment is blank, or is cut at its first ':' into a token and a
      scope that are trimmed and must both be non-empty. */
  lemma ParseSegmentMeaning(segment: string)
    ensures var r := ParseSegment(segment);
      && (r == Success(None) <==> AllSpace(segment))
      && (r.Failure? && r.error.MissingColon? <==> !AllSpace(segment) && ':' !in TrimSpace(segment))
      && (r.Failure? ==> r.error != NoTokens && r.error.pair == TrimSpace(segment))
      && (r.Success? && r.value.Some? ==> ValidBinding(r.value.value.0, r.value.value.1))
      && (r.Success? && r.value.Some? ==>
            exists t, c :: && TrimSpace(segment) == t + [':'] + c && ':' !in t
                           && r.value.value == (TrimSpace(t), TrimSpace(c)))
  {
    var pair := TrimSpace(segment);
    match SplitFirst(pair, ':')
    case None =>
    case Some((t, c)) =>
      TrimKeepsChars(t, IsSpace);
  }

  /** The acceptance direction: a segment whose trimmed text is a colon-free
      token, a colon and a scope is accepted exactly when both sides are
      non-empty once trimmed, and then binds the trimmed token to the
      trimmed scope. So `t1 : a` declares `t1` with scope `a`. */
  lemma ParseSegmentAccepts(segment: string, t: string, c: string)
    requires TrimSpace(segment) == t + [':'] + c && ':' !in t
    ensures ParseSegment(segment).Success? <==> TrimSpace(t) != "" && TrimSpace(c) != ""
    ensures ParseSegment(segment).Success? ==> ParseSegment(segment) == Success(Some((TrimSpace(t), TrimSpace(c))))
  {
    SplitFirstOfJoined(t, c, ':');
    assert TrimSpace(segment) != "";
  }

  /** What a segment parses to. */
  type Outcome = Result<Option<(string, string)>, TokenError>

  /** Each segment parsed on its own. */
  function ParseEach(segs: seq<string>): (outs: seq<Outcome>)
    ensures |outs| == |segs|
    ensures forall i :: 0 <= i < |segs| ==> outs[i] == ParseSegment(segs[i])
  {
    seq(|segs|, i requires 0 <= i < |segs| => ParseSegment(segs[i]))
  }

  /** The bindings the outcomes declare, in order, blank segments skipped. */
  function Bindings(outs: seq<Outcome>): (bs: seq<(string, string)>)
  {
    if |outs| == 0 then []
    else (if outs[0].Success? && outs[0].value.Some? then [outs[0].value.value] else []) + Bindings(outs[1..])
  }

  /** Reference reading of "the last definition wins": the scope of the
      last binding for `token`, found by scanning from the end. */
  function LastScope(bs: seq<(string, string)>, token: string): (r: Option<string>)
    ensures r.None? <==> forall i :: 0 <= i < |bs| ==> bs[i].0 != token
    ensures r.Some? ==> exists i :: 0 <= i < |bs| && bs[i] == (token, r.value)
                                    && forall j :: i < j < |bs| ==> bs[j].0 != token
  {
    if |bs| == 0 then None
    else if bs[|bs| - 1].0 == token then Some(bs[|bs| - 1].1)
    else LastScope(bs[..|bs| - 1], token)
  }

  /** Looking a token up after one more binding at the front. */
  lemma {:induction false} LastScopeCons(b: (string, string), bs: seq<(string, string)>, token: string)
    ensures LastScope([b] + bs, token) ==
      if LastScope(bs, token).Some? then LastScope(bs, token)
      else if b.0 == token then Some(b.1) else None
    decreases |bs|
  {
    if |bs| > 0 {
      var c := [b] + bs;
      assert c[|c| - 1] == bs[|bs| - 1];
      assert c[..|c| - 1] == [b] + bs[..|bs| - 1];
      var last := bs[|bs| - 1];
      assert LastScope(c, token) == if last.0 == token then Some(last.1) else LastScope([b] + bs[..|bs| - 1], token);
      assert LastScope(bs, token) == if last.0 == token then Some(last.1) else LastScope(bs[..|bs| - 1], token);
      LastScopeCons(b, bs[..|bs| - 1], token);
    } else {
      assert [b] + bs == [b];
    }
  }

  /** `outs[i]` is the first failed outcome. */
  predicate FirstBad(outs: seq<Outcome>, i: int) {
    0 <= i < |outs| && outs[i].Failure? && forall j :: 0 <= j < i ==> outs[j].Success?
  }

  /** The loop of `parseTokens`: outcomes in order into `acc`, stopping at
      the first failure, a later binding for a token replacing an earlier one. */
  function Collect(outs: seq<Outcome>, acc: map<string, string>): (r: Result<map<string, string>, TokenError>)
    ensures r.Success? <==> forall i :: 0 <= i < |outs| ==> outs[i].Success?
    ensures r.Failure? ==> exists i :: FirstBad(outs, i) && r.error == outs[i].error
    decreases |outs|
  {
    if |outs| == 0 then Success(acc)
    else if outs[0].Failure? then
      assert FirstBad(outs, 0);
      Failure(outs[0].error)
    else
      var acc' := if outs[0].value.Some? then acc[outs[0].value.value.0 := outs[0].value.value.1] else acc;
      var r := Collect(outs[1..], acc');
      assert r.Failure? ==> exists i :: FirstBad(outs, i) && r.error == outs[i].error by {
        if r.Failure? {
          var i :| FirstBad(outs[1..], i) && r.error == outs[1..][i].error;
          assert FirstBad(outs, i + 1);
        }
      }
      assert (forall i :: 0 <= i < |outs| ==> outs[i].Success?)
         <==> (forall i :: 0 <= i < |outs[1..]| ==> outs[1..][i].Success?) by {
        assert forall i :: 0 < i < |outs| ==> outs[i] == outs[1..][i - 1];
      }
      r
  }

  /** The table the loop builds is the reference "last binding wins" table
      laid over `acc`. */
  lemma {:induction false} CollectLastWins(outs: seq<Outcome>, acc: map<string, string>)
    requires Collect(outs, acc).Success?
    ensures var m := Collect(outs, acc).value;
      forall t :: (t in m <==> t in acc || LastScope(Bindings(outs), t).Some?)
        && (t in m ==> m[t] == if LastScope(Bindings(outs), t).Some? then LastScope(Bindings(outs), t).value else acc[t])
    decreases |outs|
  {
    if |outs| > 0 {
      var acc' := if outs[0].value.Some? then acc[outs[0].value.value.0 := outs[0].value.value.1] else acc;
      CollectLastWins(outs[1..], acc');
      if outs[0].value.Some? {
        assert Bindings(outs) == [outs[0].value.value] + Bindings(outs[1..]);
        forall t { LastScopeCons(outs[0].value.value, Bindings(outs[1..]), t); }
      } else {
        assert Bindings(outs) == [] + Bindings(outs[1..]) == Bindings(outs[1..]);
      }
    }
  }

  /** `parseTokens`: reject the empty string, otherwise split on ';', parse
      every segment and collect the bindings. */
  function ParseTokens(s: string): (r: Result<map<string, string>, TokenError>)
    ensures s == "" ==> r == Failure(NoTokens)
    ensures s != "" ==> (r.Success? <==> forall o :: o in ParseEach(Split(s, ';')) ==> o.Success?)
    ensures s != "" && r.Failure? ==>
      exists i :: FirstBad(ParseEach(Split(s, ';')), i) && r.error == ParseEach(Split(s, ';'))[i].error
  {
    if s == "" then Failure(NoTokens)
    else Collect(ParseEach(Split(s, ';')), map[])
  }

  /** The bindings a configuration string declares, in order. */
  function Declared(s: string): seq<(string, string)> {
    Bindings(ParseEach(Split(s, ';')))
  }

  /** A parsed table binds exactly the tokens some segment declares, each to
      the scope of the last segment declaring it. */
  lemma ParseTokensLastWins(s: string)
    requires ParseTokens(s).Success?
    ensures forall t :: t in ParseTokens(s).value <==> LastScope(Declared(s), t).Some?
    ensures forall t :: t in ParseTokens(s).value ==> ParseTokens(s).value[t] == LastScope(Declared(s), t).value
  {
    CollectLastWins(ParseEach(Split(s, ';')), map[]);
  }

  /** Every binding in a parsed table is well formed: non-empty, trimmed,
      and the token holds no ':'. A `*` scope is kept as the literal string. */
  lemma ParsedBindingsValid(s: string)
    requires ParseTokens(s).Success?
    ensures forall t :: t in ParseTokens(s).value ==> ValidBinding(t, ParseTokens(s).value[t])
  {
    var segs := Split(s, ';');
    var outs := ParseEach(segs);
    forall i | 0 <= i < |outs| ensures DeclaresValid(outs[i]) {
      ParseSegmentMeaning(segs[i]);
    }
    BindingsValid(outs);
    ParseTokensLastWins(s);
    forall t | t in ParseTokens(s).value ensures ValidBinding(t, ParseTokens(s).value[t]) {
      var i :| 0 <= i < |Bindings(outs)| && Bindings(outs)[i] == (t, ParseTokens(s).value[t]);
    }
  }

  /** An outcome that declares a binding declares a valid one. */
  predicate DeclaresValid(o: Outcome) {
    o.Success? && o.value.Some? ==> ValidBinding(o.value.value.0, o.value.value.1)
  }

  lemma {:induction false} BindingsValid(outs: seq<Outcome>)
    requires forall i :: 0 <= i < |outs| ==> DeclaresValid(outs[i])
    ensures forall i :: 0 <= i < |Bindings(outs)| ==> ValidBinding(Bindings(outs)[i].0, Bindings(outs)[i].1)
    decreases |outs|
  {
    if |outs| > 0 {
      BindingsValid(outs[1..]);
      var head := if outs[0].Success? && outs[0].value.Some? then [outs[0].value.value] else [];
      assert Bindings(outs) == head + Bindings(outs[1..]);
    }
  }

  /** The configuration text for a list of bindings: `token:scope` segments
      joined with ';'. */
  function Render(bs: seq<(string, string)>): string
    requires |bs| >= 1
  {
    Join(RenderEach(bs), ';')
  }

  function RenderEach(bs: seq<(string, string)>): (segs: seq<string>)
    ensures |segs| == |bs|
    ensures forall i :: 0 <= i < |bs| ==> segs[i] == bs[i].0 + [':'] + bs[i].1
  {
    seq(|bs|, i requires 0 <= i < |bs| => bs[i].0 + [':'] + bs[i].1)
  }

  /** A valid binding written as `token:scope` parses back to itself, even
      when the scope contains ':' (only the first colon cuts). */
  lemma SegmentRoundTrip(token: string, scope: string)
    requires ValidBinding(token, scope)
    ensures ParseSegment(token + [':'] + scope) == Success(Some((token, scope)))
  {
    var seg := token + [':'] + scope;
    assert seg[0] == token[0] && seg[|seg| - 1] == scope[|scope| - 1];
    TrimSpaceOfTrimmed(seg);
    SplitFirstOfJoined(token, scope, ':');
    TrimSpaceOfTrimmed(token);
    TrimSpaceOfTrimmed(scope);
  }

  /** Outcomes that all declare bindings list exactly those bindings. */
  lemma {:induction false} BindingsOfDeclarations(outs: seq<Outcome>, bs: seq<(string, string)>)
    requires |outs| == |bs|
    requires forall i :: 0 <= i < |outs| ==> outs[i] == Success(Some(bs[i]))
    ensures Bindings(outs) == bs
    decreases |outs|
  {
    if |outs| > 0 {
      BindingsOfDeclarations(outs[1..], bs[1..]);
      assert bs == [bs[0]] + bs[1..];
    }
  }

  /** Rendering a non-empty list of valid bindings and parsing the text gives
      back a table (no error) whose declared bindings are that very list, so
      by `ParseTokensLastWins` each token maps to its last scope. */
  lemma RenderParseRoundTrip(bs: seq<(string, string)>)
    requires |bs| >= 1
    requires forall i :: 0 <= i < |bs| ==> ValidBinding(bs[i].0, bs[i].1) && ';' !in bs[i].0 && ';' !in bs[i].1
    ensures ParseTokens(Render(bs)).Success?
    ensures Declared(Render(bs)) == bs
  {
    var segs := RenderEach(bs);
    forall i | 0 <= i < |segs| ensures ';' !in segs[i] {
      assert forall k :: 0 <= k < |segs[i]| ==> segs[i][k] in bs[i].0 || segs[i][k] == ':' || segs[i][k] in bs[i].1;
    }
    SplitJoin(segs, ';');
    var outs := ParseEach(segs);
    forall i | 0 <= i < |outs| ensures outs[i] == Success(Some(bs[i])) {
      SegmentRoundTrip(bs[i].0, bs[i].1);
    }
    BindingsOfDeclarations(outs, bs);
    assert Render(bs) != "" by {
      assert |segs[0]| > 0;
      if |segs| > 1 {
        assert Render(bs) == segs[0] + [';'] + Join(segs[1..], ';');
      }
    }
  }

  /** A configuration of blank segments is accepted and yields an empty
      table: `parseTokens(" ; ")` returns no tokens and no error. */
  lemma BlankSegmentsGiveEmptyTable(a: string, b: string)
    requires AllSpace(a) && AllSpace(b) && ';' !in a && ';' !in b
    ensures ParseTokens(a + [';'] + b) == Success(map[])
  {
    assert Join([a, b], ';') == a + [';'] + b by {
      assert [a, b][1..] == [b];
    }
    SplitJoin([a, b], ';');
    ParseSegmentMeaning(a);
    ParseSegmentMeaning(b);
    assert ParseEach([a, b]) == [Success(None), Success(None)];
    var outs: seq<Outcome> := [Success(None), Success(None)];
    assert outs[1..][1..] == [];
  }

  /** The text of two bindings. */
  lemma RenderTwo(b1: (string, string), b2: (string, string))
    ensures Render([b1, b2]) == b1.0 + [':'] + b1.1 + [';'] + b2.0 + [':'] + b2.1
  {
    var segs := RenderEach([b1, b2]);
    assert segs[1..] == [segs[1]];
    assert Join(segs[1..], ';') == segs[1];
  }

  /** The table that last-wins lookup builds over two bindings. */
  lemma TableOfTwo(m: map<string, string>, b1: (string, string), b2: (string, string))
    requires forall t :: t in m <==> LastScope([b1, b2], t).Some?
    requires forall t :: t in m ==> m[t] == LastScope([b1, b2], t).value
    ensures b1.0 != b2.0 ==> m == map[b1.0 := b1.1, b2.0 := b2.1]
    ensures b1.0 == b2.0 ==> m == map[b2.0 := b2.1]
  {
    var bs := [b1, b2];
    forall k: string ensures k in m <==> k == b1.0 || k == b2.0 {
      assert LastScope(bs, k).Some? <==> bs[0].0 == k || bs[1].0 == k;
    }
    assert LastScope(bs, b2.0) == Some(b2.1);
    assert b1.0 != b2.0 ==> LastScope(bs, b1.0) == Some(b1.1);
  }

  /** Two bindings for distinct tokens give a two-entry table; the scope is
      kept literally, so a `*` scope is stored as the wildcard itself. */
  lemma TwoTokens(t1: string, s1: string, t2: string, s2: string)
    requires ValidBinding(t1, s1) && ';' !in t1 && ';' !in s1
    requires ValidBinding(t2, s2) && ';' !in t2 && ';' !in s2
    requires t1 != t2
    ensures ParseTokens(t1 + [':'] + s1 + [';'] + t2 + [':'] + s2) == Success(map[t1 := s1, t2 := s2])
  {
    var text := t1 + [':'] + s1 + [';'] + t2 + [':'] + s2;
    RenderTwo((t1, s1), (t2, s2));
    RenderParseRoundTrip([(t1, s1), (t2, s2)]);
    ParseTokensLastWins(text);
    TableOfTwo(ParseTokens(text).value, (t1, s1), (t2, s2));
  }

  /** A later segment for the same token replaces the earlier scope. */
  lemma SameTokenTwice(t: string, s1: string, s2: string)
    requires ValidBinding(t, s1) && ';' !in t && ';' !in s1
    requires ValidBinding(t, s2) && ';' !in s2
    ensures ParseTokens(t + [':'] + s1 + [';'] + t + [':'] + s2) == Success(map[t := s2])
  {
    var text := t + [':'] + s1 + [';'] + t + [':'] + s2;
    RenderTwo((t, s1), (t, s2));
    RenderParseRoundTrip([(t, s1), (t, s2)]);
    ParseTokensLastWins(text);
    TableOfTwo(ParseTokens(text).value, (t, s1), (t, s2));
  }

  /** A segment with an empty scope is an error naming the segment. */
  lemma SegmentWithEmptyScope(t: string)
    requires t != [] && Trimmed(t) && ':' !in t
    ensures ParseSegment(t + [':']) == Failure(EmptyPart(t + [':']))
  {
    var seg := t + [':'];
    assert seg[0] == t[0];
    TrimSpaceOfTrimmed(seg);
    SplitFirstAtEnd(t, ':');
    TrimSpaceOfTrimmed(t);
    assert TrimSpace([]) == [];
  }

  /** A configuration without ';' whose one segment is an error fails with
      that error. */
  lemma SingleBadSegment(seg: string, e: TokenError)
    requires seg != "" && ';' !in seg && ParseSegment(seg) == Failure(e)
    ensures ParseTokens(seg) == Failure(e)
  {
    SplitNoSeparator(seg, ';');
    assert ParseEach([seg]) == [ParseSegment(seg)];
  }

  /** A segment with an empty scope aborts the whole parse, e.g. `t1:`. */
  lemma EmptyScopeRejected(t: string)
    requires t != [] && Trimmed(t) && ':' !in t && ';' !in t
    ensures ParseTokens(t + [':']) == Failure(EmptyPart(t + [':']))
  {
    assert ';' !in t + [':'];
    assert t + [':'] != "";
    SegmentWithEmptyScope(t);
    SingleBadSegment(t + [':'], EmptyPart(t + [':']));
  }
}
