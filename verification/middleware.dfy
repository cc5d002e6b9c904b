/** The two request middlewares: `extractCubby`, which names the mailbox
    after the request path, and `requireToken`, which checks the bearer
    token against the token table before any handler runs. */
module Middleware {
  import opened Results
  import opened Text

  /** The authentication scheme prefix, matched case-sensitively and
      including its single trailing space. */
  const Bearer: string := "Bearer "

  /** The scope that grants access to every mailbox. */
  const Wildcard: string := "*"

  /** `extractCubby`: the mailbox name is the request path with one leading
      '/' removed (only one: "//a" names the mailbox "/a"). */
  function ExtractCubby(path: string): (cubby: string)
    ensures path == "/" + cubby || (cubby == path && (path == [] || path[0] != '/'))
  {
    TrimPrefix(path, "/")
  }

  /** Serving `/c` names mailbox `c`, whatever `c` holds. */
  lemma ExtractCubbyOfPath(c: string)
    ensures ExtractCubby("/" + c) == c
  {
    assert HasPrefix("/" + c, "/");
  }

  /** Only the first of several leading slashes is dropped. */
  lemma ExtractCubbyStripsOneSlash(c: string)
    ensures ExtractCubby("//" + c) == "/" + c
  {
    assert "//" + c == "/" + ("/" + c);
    ExtractCubbyOfPath("/" + c);
  }

  /** The outcome of `requireToken`: reject with 401, reject with 403, or
      hand the request on to the next handler. */
  datatype Verdict = Unauthorized | Forbidden | Proceed {
    /** The HTTP status a rejection is answered with; the next handler
        decides the status of a request that proceeds. */
    function Status(): (code: Option<int>)
      ensures code.None? <==> this == Proceed
      ensures this == Unauthorized ==> code == Some(401)
      ensures this == Forbidden ==> code == Some(403)
    {
      match this
      case Unauthorized => Some(401)
      case Forbidden => Some(403)
      case Proceed => None
    }
  }

  /** The token a header presents: what follows "Bearer " with surrounding
      white space trimmed, or nothing when the header does not start with
      the scheme. */
  function Presented(header: string): (token: Option<string>)
    ensures token.Some? <==> HasPrefix(header, Bearer)
    ensures token.Some? ==> Trimmed(token.value) && |token.value| <= |header| - |Bearer|
  {
    if HasPrefix(header, Bearer) then Some(TrimSpace(header[|Bearer|..])) else None
  }

  /** Indexing the token table: a token that is not in it reads as the
      empty scope, as indexing a Go map yields the zero value. */
  function ScopeOf(tokens: map<string, string>, token: string): (scope: string)
    ensures token in tokens ==> scope == tokens[token]
    ensures token !in tokens ==> scope == ""
  {
    if token in tokens then tokens[token] else ""
  }

  /** `requireToken`. `cubby` is the mailbox name that `extractCubby` put in
      the request context, or `None` when that middleware has not run (the
      context value is then nil, which equals no scope). */
  function RequireToken(tokens: map<string, string>, header: string, cubby: Option<string>): (v: Verdict)
    ensures v == Unauthorized <==> Presented(header).None?
    ensures v == Proceed <==>
      Presented(header).Some? &&
      var t := Presented(header).value;
      (t in tokens && (tokens[t] == Wildcard || cubby == Some(tokens[t])))
      || (t !in tokens && cubby == Some(""))
  {
    if header == "" then Unauthorized
    else if !HasPrefix(header, Bearer) then Unauthorized
    else
      var token := TrimSpace(TrimPrefix(header, Bearer));
      var scope := ScopeOf(tokens, token);
      if cubby != Some(scope) && scope != Wildcard then Forbidden else Proceed
  }

  /** A token whose scope is the wildcard is let through to any mailbox,
      and even when no mailbox name was extracted. */
  lemma WildcardAdmitsAnyCubby(tokens: map<string, string>, s: string, cubby: Option<string>)
    requires TrimSpace(s) in tokens && tokens[TrimSpace(s)] == Wildcard
    ensures RequireToken(tokens, Bearer + s, cubby) == Proceed
  {
    PresentedAfterScheme(s);
  }

  /** A token scoped to one mailbox opens that mailbox and no other: the
      comparison is exact, so scope "foo" does not open "foobar" and does
      not open "/foo". */
  lemma ScopeMatchesExactly(tokens: map<string, string>, s: string, cubby: Option<string>)
    requires TrimSpace(s) in tokens && tokens[TrimSpace(s)] != Wildcard
    ensures RequireToken(tokens, Bearer + s, cubby) == Proceed <==> cubby == Some(tokens[TrimSpace(s)])
    ensures RequireToken(tokens, Bearer + s, cubby) != Unauthorized
  {
    PresentedAfterScheme(s);
  }

  /** With no mailbox name in the context only wildcard tokens pass. */
  lemma MissingCubbyNeedsWildcard(tokens: map<string, string>, header: string)
    ensures RequireToken(tokens, header, None) == Proceed <==>
      Presented(header).Some? && ScopeOf(tokens, Presented(header).value) == Wildcard
  {
  }

  /** A token that is not in the table reads as the empty scope, so it is
      refused everywhere except at the mailbox with the empty name (the
      request path "/"). */
  lemma UnknownTokenOpensOnlyEmptyCubby(tokens: map<string, string>, s: string, cubby: Option<string>)
    requires TrimSpace(s) !in tokens
    ensures RequireToken(tokens, Bearer + s, cubby) == Proceed <==> cubby == Some("")
    ensures RequireToken(tokens, Bearer + s, cubby) != Unauthorized
  {
    PresentedAfterScheme(s);
  }

  /** A header made of the scheme and any text presents that text, trimmed. */
  lemma PresentedAfterScheme(s: string)
    ensures Presented(Bearer + s) == Some(TrimSpace(s))
  {
    assert (Bearer + s)[|Bearer|..] == s;
    assert HasPrefix(Bearer + s, Bearer);
  }

  /** White space around the token is ignored: padding the token does not
      change the verdict. */
  lemma PaddingIgnored(tokens: map<string, string>, pre: string, t: string, post: string, cubby: Option<string>)
    requires AllSpace(pre) && AllSpace(post) && Trimmed(t)
    ensures RequireToken(tokens, Bearer + (pre + t + post), cubby) == RequireToken(tokens, Bearer + t, cubby)
  {
    PresentedAfterScheme(pre + t + post);
    PresentedAfterScheme(t);
    TrimSpaceOfPadded(pre, t, post);
    TrimSpaceOfTrimmed(t);
    VerdictDependsOnPresented(tokens, Bearer + (pre + t + post), Bearer + t, cubby);
  }

  /** The verdict depends on the header only through the token it presents. */
  lemma VerdictDependsOnPresented(tokens: map<string, string>, h1: string, h2: string, cubby: Option<string>)
    requires Presented(h1) == Presented(h2)
    ensures RequireToken(tokens, h1, cubby) == RequireToken(tokens, h2, cubby)
  {
  }

  /** The scheme is matched case-sensitively: "bearer " is refused with 401
      whatever follows it. */
  lemma LowerCaseSchemeRefused(tokens: map<string, string>, s: string, cubby: Option<string>)
    ensures RequireToken(tokens, "bearer " + s, cubby) == Unauthorized
  {
    assert ("bearer " + s)[0] == 'b' != Bearer[0];
  }

  /** The whole pipeline for a request to `/c`: the mailbox name taken
      from the path is what the token's scope must equal. */
  lemma RequestForCubby(tokens: map<string, string>, s: string, c: string)
    ensures RequireToken(tokens, Bearer + s, Some(ExtractCubby("/" + c))) == Proceed <==>
      ScopeOf(tokens, TrimSpace(s)) in {Wildcard, c}
  {
    ExtractCubbyOfPath(c);
    PresentedAfterScheme(s);
  }
}
