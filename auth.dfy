/**
 * The bearer-token guard `protect` of middleware/auth.js. Token verification
 * (`jwt.verify` with the server's secret) and the user lookup
 * (`User.findById(...).select('-password')`) are outside calls: each is a
 * parameter giving that call's answer for the value it is asked about.
 */
module Auth {
  import opened Wrappers
  import opened Js

  const NoToken := "Not authorized, no token"
  const TokenFailed := "Not authorized, token failed"
  const UserNotFound := "Not authorized, user not found"

  /** A user document as the lookup returns it, without its password. */
  datatype Account = Account(id: string)

  /** The payload `jwt.verify` decodes; `id` is absent from a payload without one. */
  datatype Claims = Claims(id: Option<string>)

  datatype Verified = Decoded(claims: Claims) | VerifyThrew
  datatype Lookup = Found(user: Account) | NotFound | LookupThrew

  /** The outside calls the guard makes, in order. */
  datatype Call = Verify(token: Option<string>) | FindUser(id: Option<string>)

  datatype Outcome = Proceed(user: Account) | Deny(error: string)

  datatype Decision = Decision(outcome: Outcome, calls: seq<Call>)

  /** The guard's entry test: a truthy header that starts with 'Bearer',
      case-sensitive and with no space required after it. */
  predicate HasBearer(header: Option<string>)
  {
    header.Some? && header.value != "" && StartsWith(header.value, "Bearer")
  }

  /** `authorization.split(' ')[1]`: the second space-separated piece, or
      `undefined` when the header has no space. */
  function BearerToken(header: string): (token: Option<string>)
    ensures token.Some? <==> ' ' in header
    ensures token.Some? ==> ' ' !in token.value
  {
    var pieces := Split(header, ' ');
    if ' ' in header then
      SplitHasTwo(header, ' ');
      Some(pieces[1])
    else
      SplitNoSep(header, ' ');
      None
  }

  /** The token is what lies between the first space and the next one (or
      the end of the header). */
  lemma BearerTokenOf(scheme: string, token: string, rest: string)
    requires ' ' !in scheme && ' ' !in token
    requires rest == "" || rest[0] == ' '
    ensures BearerToken(scheme + " " + token + rest) == Some(token)
  {
    var tail := " " + token + rest;
    assert scheme + " " + token + rest == scheme + tail;
    assert Split(rest, ' ')[0] == "";
    SplitPrefix(token, rest, ' ');
    assert tail[1..] == token + rest;
    assert Split(tail, ' ') == [""] + Split(token + rest, ' ');
    SplitPrefix(scheme, tail, ' ');
    assert Split(token + rest, ' ')[0] == token;
    assert Split(scheme + tail, ' ')[1] == token;
    assert (scheme + tail)[|scheme|] == ' ';
  }

  lemma BearerTokenExamples()
    ensures BearerToken("Bearer abc") == Some("abc")
    ensures BearerToken("Bearer") == None
    ensures BearerToken("Bearer  abc") == Some("")
  {
    BearerTokenOf("Bearer", "abc", "");
    assert "Bearer" + " " + "abc" + "" == "Bearer abc";
    BearerTokenOf("Bearer", "", " abc");
    assert "Bearer" + " " + "" + " abc" == "Bearer  abc";
    assert "Bearer"[6 - 1] != ' ';
  }

  /** `protect` as a decision: the outcome and the outside calls it made.
      Any throw of either call lands in the catch, which answers 'token
      failed'; a lookup that finds nothing answers 'user not found'. */
  function Decide(header: Option<string>, verify: Option<string> -> Verified, lookup: Option<string> -> Lookup): (d: Decision)
    ensures d.outcome == Deny(NoToken) <==> !HasBearer(header)
    ensures !HasBearer(header) ==> d.calls == []
    ensures d.outcome.Proceed? <==>
      && HasBearer(header)
      && verify(BearerToken(header.value)).Decoded?
      && lookup(verify(BearerToken(header.value)).claims.id).Found?
    ensures d.outcome.Proceed? ==> d.outcome.user == lookup(verify(BearerToken(header.value)).claims.id).user
    ensures d.outcome.Deny? ==> d.outcome.error in {NoToken, TokenFailed, UserNotFound}
    ensures HasBearer(header) ==> |d.calls| >= 1 && d.calls[0] == Verify(BearerToken(header.value))
    ensures HasBearer(header) && verify(BearerToken(header.value)).VerifyThrew? ==>
      d.calls == [Verify(BearerToken(header.value))]
    ensures HasBearer(header) && verify(BearerToken(header.value)).Decoded? ==>
      d.calls == [Verify(BearerToken(header.value)), FindUser(verify(BearerToken(header.value)).claims.id)]
  {
    if !HasBearer(header) then Decision(Deny(NoToken), [])
    else
      var token := BearerToken(header.value);
      match verify(token)
      case VerifyThrew => Decision(Deny(TokenFailed), [Verify(token)])
      case Decoded(claims) =>
        var calls := [Verify(token), FindUser(claims.id)];
        match lookup(claims.id)
        case LookupThrew => Decision(Deny(TokenFailed), calls)
        case NotFound => Decision(Deny(UserNotFound), calls)
        case Found(user) => Decision(Proceed(user), calls)
  }

  /** Which 401 is sent: 'token failed' exactly when one of the calls threw,
      'user not found' exactly when the lookup came back empty. */
  lemma DenialReasons(header: Option<string>, verify: Option<string> -> Verified, lookup: Option<string> -> Lookup)
    requires HasBearer(header)
    ensures var v := verify(BearerToken(header.value));
      && (Decide(header, verify, lookup).outcome == Deny(TokenFailed) <==>
            v.VerifyThrew? || lookup(v.claims.id).LookupThrew?)
      && (Decide(header, verify, lookup).outcome == Deny(UserNotFound) <==>
            v.Decoded? && lookup(v.claims.id).NotFound?)
  {
  }

  /** A header that starts with 'Bearer' but has no space passes the
      prefix test ('BearerX', 'Bearer'): verification is asked about the
      missing second piece instead of the guard answering 'no token'. */
  lemma PrefixNeedsNoSpace(rest: string, verify: Option<string> -> Verified, lookup: Option<string> -> Lookup)
    requires ' ' !in rest
    ensures Decide(Some("Bearer" + rest), verify, lookup).outcome != Deny(NoToken)
    ensures Decide(Some("Bearer" + rest), verify, lookup).calls[0] == Verify(None)
  {
    var header := "Bearer" + rest;
    assert HasBearer(Some(header)) by {
      assert header[..6] == "Bearer";
    }
    assert ' ' !in header by {
      assert forall c :: c in header ==> c in "Bearer" || c in rest;
    }
  }

  /** The scheme test is case-sensitive: a header whose first six characters
      are any other scheme ('bearer', 'BEARER', 'Basic ') is 'no token',
      without any outside call. */
  lemma SchemeIsCaseSensitive(scheme: string, rest: string, verify: Option<string> -> Verified, lookup: Option<string> -> Lookup)
    requires |scheme| == 6 && scheme != "Bearer"
    ensures Decide(Some(scheme + rest), verify, lookup) == Decision(Deny(NoToken), [])
  {
    assert (scheme + rest)[..6] == scheme;
  }

  /** The HTTP response as the guard writes it. */
  datatype Reply = Reply(status: nat, success: bool, error: string)

  /** One request passing through `protect`: `req.user`, the response, and
      whether `next()` was called. */
  class Exchange {
    var user: Option<Account>
    var reply: Option<Reply>
    var nextCalled: bool
    var calls: seq<Call>

    /** Exactly one of: a 401 sent, or `next()` called with the user set. */
    predicate Settled()
      reads this
    {
      (reply.Some? && !nextCalled) || (reply.None? && nextCalled && user.Some?)
    }

    constructor()
      ensures user.None? && reply.None? && !nextCalled && calls == []
    {
      user := None;
      reply := None;
      nextCalled := false;
      calls := [];
    }

    method Protect(header: Option<string>, verify: Option<string> -> Verified, lookup: Option<string> -> Lookup)
      requires reply.None? && !nextCalled
      modifies this
      ensures Settled()
      ensures calls == old(calls) + Decide(header, verify, lookup).calls
      ensures match Decide(header, verify, lookup).outcome
        case Proceed(account) => user == Some(account) && nextCalled && reply.None?
        case Deny(error) => reply == Some(Reply(401, false, error)) && !nextCalled && user == old(user)
    {
      if header.Some? && header.value != "" && StartsWith(header.value, "Bearer") {
        var token := BearerToken(header.value);
        calls := calls + [Verify(token)];
        var verified := verify(token);
        if verified.VerifyThrew? {
          reply := Some(Reply(401, false, TokenFailed));
          return;
        }
        var id := verified.claims.id;
        calls := calls + [FindUser(id)];
        var found := lookup(id);
        if found.LookupThrew? {
          reply := Some(Reply(401, false, TokenFailed));
          return;
        }
        if found.NotFound? {
          reply := Some(Reply(401, false, UserNotFound));
          return;
        }
        user := Some(found.user);
        nextCalled := true;
        return;
      }
      reply := Some(Reply(401, false, NoToken));
    }
  }
}
