/**
 * The bearer-token guard of the HTTP routes (lib/utils/api-guard.ts): the
 * configured token list, token extraction from a request, constant-time
 * string comparison and the accept/deny decision. Responses are reduced to
 * the decision they carry.
 */
module ApiGuard {
  import opened Wrappers
  import opened Text
  import Utf8

  /** The separators of `API_TOKENS`: white space and commas (`/[\s,]+/`). */
  predicate IsSeparator(c: char)
  {
    IsSpace(c) || c == ','
  }

  predicate SeparatorFree(s: string)
  {
    forall i :: 0 <= i < |s| ==> !IsSeparator(s[i])
  }

  /** Length of the run of separators at the front of `s`. */
  function SeparatorRun(s: string): (n: nat)
    ensures n <= |s|
    ensures forall i :: 0 <= i < n ==> IsSeparator(s[i])
    ensures n < |s| ==> !IsSeparator(s[n])
  {
    if s == [] || !IsSeparator(s[0]) then 0 else 1 + SeparatorRun(s[1..])
  }

  /**
   * `s.split(/[\s,]+/)`: the pieces between maximal separator runs, with an
   * empty first (last) piece when `s` starts (ends) with a separator.
   */
  function Split(s: string): (pieces: seq<string>)
    ensures |pieces| >= 1
    ensures forall k :: 0 <= k < |pieces| ==> SeparatorFree(pieces[k])
    decreases |s|
  {
    if s == [] then [""]
    else if IsSeparator(s[0]) then [""] + Split(s[SeparatorRun(s)..])
    else
      var rest := Split(s[1..]);
      [[s[0]] + rest[0]] + rest[1..]
  }

  /** `.map((s) => s.trim())`. */
  function TrimAll(pieces: seq<string>): (r: seq<string>)
    ensures |r| == |pieces|
    ensures forall k :: 0 <= k < |r| ==> r[k] == Trim(pieces[k])
  {
    if pieces == [] then [] else [Trim(pieces[0])] + TrimAll(pieces[1..])
  }

  /** `.filter(Boolean)`: drops the empty strings, keeps the order. */
  function NonEmpty(pieces: seq<string>): (r: seq<string>)
    ensures forall x :: x in r <==> x in pieces && x != ""
    ensures (forall k :: 0 <= k < |pieces| ==> pieces[k] != "") ==> r == pieces
  {
    if pieces == [] then []
    else if pieces[0] == "" then NonEmpty(pieces[1..])
    else [pieces[0]] + NonEmpty(pieces[1..])
  }

  /** The filter keeps the order: filtering a concatenation filters each part. */
  lemma {:induction false} NonEmptyAppend(a: seq<string>, b: seq<string>)
    ensures NonEmpty(a + b) == NonEmpty(a) + NonEmpty(b)
    decreases |a|
  {
    if a == [] {
      assert a + b == b;
    } else {
      assert (a + b)[0] == a[0] && (a + b)[1..] == a[1..] + b;
      NonEmptyAppend(a[1..], b);
      if a[0] != "" {
        assert [a[0]] + (NonEmpty(a[1..]) + NonEmpty(b)) == ([a[0]] + NonEmpty(a[1..])) + NonEmpty(b);
      }
    }
  }

  /**
   * `loadTokens()` with the two environment variables passed in: the
   * non-empty pieces of `API_TOKENS`, or of `API_TOKEN` when the former is
   * unset or empty. The result is kept as strings; the module stores their
   * UTF-8 encodings (see `Configured`).
   */
  function LoadTokens(apiTokens: Option<string>, apiToken: Option<string>): (r: seq<string>)
    ensures forall k :: 0 <= k < |r| ==> r[k] != "" && SeparatorFree(r[k])
    ensures !Present(apiTokens) && !Present(apiToken) ==> r == []
  {
    var raw := if apiTokens.Some? && apiTokens.value != "" then apiTokens.value
               else if apiToken.Some? && apiToken.value != "" then apiToken.value
               else "";
    var pieces := Split(raw);
    TrimSeparatorFree(pieces);
    assert raw == "" ==> NonEmpty(pieces) == [] by {
      if raw == "" {
        assert pieces == [""] && pieces[1..] == [];
      }
    }
    var r := NonEmpty(TrimAll(pieces));
    assert forall k :: 0 <= k < |r| ==> r[k] != "" && SeparatorFree(r[k]) by {
      forall k | 0 <= k < |r|
        ensures r[k] != "" && SeparatorFree(r[k])
      {
        assert r[k] in r;
        var j :| 0 <= j < |pieces| && pieces[j] == r[k];
      }
    }
    r
  }

  /** Pieces without white space are left alone by `trim`. */
  lemma TrimSeparatorFree(pieces: seq<string>)
    requires forall k :: 0 <= k < |pieces| ==> SeparatorFree(pieces[k])
    ensures TrimAll(pieces) == pieces
  {
    forall k | 0 <= k < |pieces|
      ensures Trim(pieces[k]) == pieces[k]
    {
      assert SeparatorFree(pieces[k]);
    }
  }

  /** `API_TOKEN` is read only when `API_TOKENS` is unset or empty. */
  lemma LoadTokensFallback(apiTokens: Option<string>, apiToken: Option<string>)
    ensures Present(apiTokens) ==> LoadTokens(apiTokens, apiToken) == LoadTokens(apiTokens, None)
    ensures !Present(apiTokens) ==> LoadTokens(apiTokens, apiToken) == LoadTokens(apiToken, None)
  {
  }

  /** The tokens are the non-empty pieces of the variable that is read. */
  lemma LoadTokensPieces(raw: string, apiToken: Option<string>, x: string)
    ensures x in LoadTokens(Some(raw), apiToken) <==>
      x != "" && x in Split(if raw != "" then raw else if Present(apiToken) then apiToken.value else "")
  {
    var pieces := Split(if raw != "" then raw else if Present(apiToken) then apiToken.value else "");
    TrimSeparatorFree(pieces);
    assert LoadTokens(Some(raw), apiToken) == NonEmpty(pieces);
  }

  /** `TOKENS`: each configured token as the buffer `Buffer.from(t)` makes of it. */
  function Configured(tokens: seq<string>): (r: seq<seq<Utf8.Byte>>)
    ensures |r| == |tokens|
    ensures forall k :: 0 <= k < |r| ==> Utf8.Decode(r[k]) == Some(tokens[k])
  {
    if tokens == [] then []
    else
      Utf8.DecodeEncode(tokens[0]);
      [Utf8.Encode(tokens[0])] + Configured(tokens[1..])
  }

  /** A non-empty run of white space and commas. */
  predicate IsSeparatorRun(sep: string)
  {
    sep != [] && forall i :: 0 <= i < |sep| ==> IsSeparator(sep[i])
  }

  /** The tokens written out in order with `seps[k]` between `tokens[k]` and `tokens[k + 1]`. */
  function JoinWith(tokens: seq<string>, seps: seq<string>): string
    requires |tokens| >= 1 && |seps| == |tokens| - 1
  {
    if |tokens| == 1 then tokens[0]
    else tokens[0] + seps[0] + JoinWith(tokens[1..], seps[1..])
  }

  lemma {:induction false} SplitOfPrefix(t: string, s: string)
    requires SeparatorFree(t)
    ensures Split(t + s) == [t + Split(s)[0]] + Split(s)[1..]
    decreases |t|
  {
    if t != [] {
      assert (t + s)[0] == t[0];
      assert (t + s)[1..] == t[1..] + s;
      SplitOfPrefix(t[1..], s);
      assert [t[0]] + (t[1..] + Split(s)[0]) == t + Split(s)[0];
    } else {
      assert t + s == s;
      assert t + Split(s)[0] == Split(s)[0];
    }
  }

  /** A run of separators before a string that starts with a token splits off one empty piece. */
  lemma SplitAfterRun(sep: string, rest: string)
    requires IsSeparatorRun(sep)
    requires rest != [] && !IsSeparator(rest[0])
    ensures Split(sep + rest) == [""] + Split(rest)
  {
    var s := sep + rest;
    assert s[0] == sep[0];
    var n := SeparatorRun(s);
    assert s[|sep|] == rest[0];
    assert n == |sep|;
    DropOfAppend(sep, rest, |sep|);
    assert sep[|sep|..] == [];
    assert s[n..] == rest;
  }

  /**
   * Writing non-empty separator-free tokens with any runs of white space
   * and commas between them, and splitting again, gives them back.
   */
  lemma {:induction false} SplitJoin(tokens: seq<string>, seps: seq<string>)
    requires |tokens| >= 1 && |seps| == |tokens| - 1
    requires forall k :: 0 <= k < |tokens| ==> tokens[k] != "" && SeparatorFree(tokens[k])
    requires forall k :: 0 <= k < |seps| ==> IsSeparatorRun(seps[k])
    ensures Split(JoinWith(tokens, seps)) == tokens
    decreases |tokens|
  {
    if |tokens| == 1 {
      SplitOfPrefix(tokens[0], "");
      assert tokens[0] + "" == tokens[0];
    } else {
      SplitJoin(tokens[1..], seps[1..]);
      SplitJoinStep(tokens[0], seps[0], tokens[1..], seps[1..]);
      assert [tokens[0]] + tokens[1..] == tokens;
      assert [seps[0]] + seps[1..] == seps;
    }
  }

  /** The inductive step of `SplitJoin`: one more token and separator run in front. */
  lemma SplitJoinStep(t: string, sep: string, tail: seq<string>, tailSeps: seq<string>)
    requires t != "" && SeparatorFree(t) && IsSeparatorRun(sep)
    requires |tail| >= 1 && |tailSeps| == |tail| - 1 && tail[0] != ""
    requires Split(JoinWith(tail, tailSeps)) == tail
    ensures Split(JoinWith([t] + tail, [sep] + tailSeps)) == [t] + tail
  {
    var rest := JoinWith(tail, tailSeps);
    var all := [t] + tail;
    var allSeps := [sep] + tailSeps;
    assert all[0] == t && all[1..] == tail;
    assert allSeps[0] == sep && allSeps[1..] == tailSeps;
    assert JoinWith(all, allSeps) == t + sep + rest;
    ConcatAssoc(t, sep, rest);
    SplitFirst(rest);
    SplitAfterRun(sep, rest);
    var pieces := Split(sep + rest);
    assert pieces[0] == "" && pieces[1..] == tail;
    SplitOfPrefix(t, sep + rest);
    assert t + "" == t;
  }

  /** When the first piece is not empty it starts where the string starts. */
  lemma {:induction false} SplitFirst(s: string)
    requires Split(s)[0] != ""
    ensures s != [] && s[0] == Split(s)[0][0]
  {
  }

  /**
   * A token list written in `API_TOKENS` with commas, spaces or newlines
   * between the tokens (`a,b c`) loads as exactly those tokens.
   */
  lemma LoadJoined(tokens: seq<string>, seps: seq<string>, apiToken: Option<string>)
    requires |tokens| >= 1 && |seps| == |tokens| - 1
    requires forall k :: 0 <= k < |tokens| ==> tokens[k] != "" && SeparatorFree(tokens[k])
    requires forall k :: 0 <= k < |seps| ==> IsSeparatorRun(seps[k])
    ensures LoadTokens(Some(JoinWith(tokens, seps)), apiToken) == tokens
  {
    SplitJoin(tokens, seps);
    assert JoinWith(tokens, seps) != "" by { assert Split("") == [""]; }
  }

  /**
   * `timingSafeEqualStr(a, b)`: the UTF-8 encodings are compared, first by
   * length, then byte by byte.
   */
  function TimingSafeEqualStr(a: string, b: string): (r: bool)
    ensures r <==> a == b
  {
    var ab := Utf8.Encode(a);
    var bb := Utf8.Encode(b);
    Utf8.EncodeInjective(a, b);
    if |ab| != |bb| then false else ab == bb
  }

  /** The parts of a request the guard reads; `None` is a missing header or query parameter. */
  datatype Request = Request(
    authorization: Option<string>,
    apiKeyHeader: Option<string>,
    queryToken: Option<string>,
    queryApiKey: Option<string>)

  /** `/^bearer\s+/i` matches `auth`. */
  predicate IsBearer(auth: string)
  {
    StartsWithNoCase(auth, "bearer") && |auth| > 6 && IsSpace(auth[6])
  }

  /** `auth.replace(/^bearer\s+/i, "").trim()`. */
  function BearerCredential(auth: string): (r: string)
    requires IsBearer(auth)
    ensures r == [] || (!IsSpace(r[0]) && !IsSpace(r[|r| - 1]))
    ensures IsInfix(r, auth[6..])
  {
    var rest := auth[6..];
    var after := rest[LeadingSpace(rest)..];
    var r := Trim(after);
    InfixOfSuffix(r, rest, LeadingSpace(rest));
    r
  }

  /**
   * An `Authorization` header made of the word `bearer` in any case, white
   * space and a credential yields that credential trimmed.
   */
  lemma BearerOf(word: string, space: char, rest: string)
    requires |word| == 6 && StartsWithNoCase(word, "bearer") && IsSpace(space)
    ensures IsBearer(word + [space] + rest)
    ensures BearerCredential(word + [space] + rest) == Trim(rest)
  {
    var auth := word + [space] + rest;
    assert IsBearer(auth) by {
      assert forall i :: 0 <= i < 6 ==> auth[i] == word[i];
      assert auth[6] == space;
    }
    var tail := auth[6..];
    assert tail == [space] + rest;
    var n := LeadingSpace(rest);
    assert LeadingSpace(tail) == 1 + n by {
      assert tail[1..] == rest;
    }
    assert tail[1 + n..] == rest[n..];
    TrimAfterSpace(rest);
  }

  /** A header or query value as JavaScript's `||` sees it: missing and empty both fall through. */
  predicate Present(v: Option<string>)
  {
    v.Some? && v.value != ""
  }

  /** `extractToken(req)`: bearer header, else `x-api-key` header, else `token`, else `x-api-key` query. */
  function ExtractToken(req: Request): (r: Option<string>)
    ensures Present(req.authorization) && IsBearer(req.authorization.value) ==>
              r == Some(BearerCredential(req.authorization.value))
    ensures !(Present(req.authorization) && IsBearer(req.authorization.value)) && Present(req.apiKeyHeader) ==>
              r == Some(Trim(req.apiKeyHeader.value))
    ensures !(Present(req.authorization) && IsBearer(req.authorization.value)) && !Present(req.apiKeyHeader) ==>
              r == (if Present(req.queryToken) then req.queryToken
                    else if Present(req.queryApiKey) then req.queryApiKey
                    else None)
  {
    if Present(req.authorization) && IsBearer(req.authorization.value) then
      Some(BearerCredential(req.authorization.value))
    else if Present(req.apiKeyHeader) then Some(Trim(req.apiKeyHeader.value))
    else if Present(req.queryToken) then req.queryToken
    else if Present(req.queryApiKey) then req.queryApiKey
    else None
  }

  /** What `requireAuth` answers: `null` (let through) or a 401 response. */
  datatype Decision = Allow | Unauthorized

  /** `TOKENS.some((t) => timingSafeEqualStr(token, t.toString()))`; a buffer that is not UTF-8 never matches. */
  predicate MatchesSome(token: string, tokens: seq<seq<Utf8.Byte>>)
  {
    exists k :: 0 <= k < |tokens| && Utf8.Decode(tokens[k]).Some? && TimingSafeEqualStr(token, Utf8.Decode(tokens[k]).value)
  }

  /** `requireAuth(req)` against the configured buffers `tokens`. */
  function RequireAuth(tokens: seq<seq<Utf8.Byte>>, req: Request): (d: Decision)
    ensures |tokens| == 0 ==> d == Allow
    ensures ExtractToken(req) == None || ExtractToken(req) == Some("") ==> d == (if |tokens| == 0 then Allow else Unauthorized)
    ensures d == Allow && |tokens| > 0 ==> MatchesSome(ExtractToken(req).value, tokens)
    ensures ExtractToken(req).Some? && MatchesSome(ExtractToken(req).value, tokens) && ExtractToken(req).value != "" ==> d == Allow
  {
    if |tokens| == 0 then Allow
    else
      match ExtractToken(req)
      case None => Unauthorized
      case Some(token) =>
        if token == "" then Unauthorized
        else if MatchesSome(token, tokens) then Allow
        else Unauthorized
  }

  /** A token matches one of the configured buffers exactly when it is one of the configured strings. */
  lemma MatchesConfigured(token: string, configured: seq<string>)
    ensures MatchesSome(token, Configured(configured)) <==> token in configured
  {
    var tokens := Configured(configured);
    if token in configured {
      var k :| 0 <= k < |configured| && configured[k] == token;
      assert Utf8.Decode(tokens[k]) == Some(configured[k]);
    }
  }

  /**
   * With the tokens loaded from the environment, a request passes exactly
   * when no token is configured, or when the extracted token is non-empty
   * and equal to one of them.
   */
  lemma RequireAuthDecision(configured: seq<string>, req: Request)
    ensures var tok := ExtractToken(req);
            RequireAuth(Configured(configured), req) == Allow <==>
              |configured| == 0 || (tok.Some? && tok.value != "" && tok.value in configured)
  {
    var tok := ExtractToken(req);
    if tok.Some? {
      MatchesConfigured(tok.value, configured);
    }
  }
}
