// From /authorize to /token: what a client that asks for a code and redeems it
// gets, and what PKCE asks of it.
module Flow {
  import opened Wrappers
  import opened Code
  import opened Client
  import opened Token
  import opened Storage
  import opened Protocol
  import opened Service
  import Serial
  import Isolation
  import Provenance
  import Users

  // ------------------------------------------------------------- Verifiers

  // The challenge sent to /authorize, if any, is what a client computes from
  // this verifier by the method it named.
  ghost predicate VerifierMeets(p: Primitives, params: AuthorizeParams, verifier: Option<string>) {
    params.codeChallenge == None
    || exists m :: MethodNamed(params.codeChallengeMethod, m) && verifier.Some?
         && params.codeChallenge == Some(Challenge(p, m, verifier.value))
  }

  // The code's PKCE check is that.
  lemma PkceIsVerifier(p: Primitives, params: AuthorizeParams, code: AuthorizationCode, verifier: Option<string>)
    requires code.codeChallenge == params.codeChallenge
    requires MethodNamed(params.codeChallengeMethod, code.codeChallengeMethod)
    ensures PkceHolds(p, code, verifier) <==> VerifierMeets(p, params, verifier)
  {
    if code.codeChallenge.Some? && verifier.Some? {
      VerifierClears(p, code.codeChallengeMethod, verifier.value, verifier.value);
      var challenge := Challenge(p, code.codeChallengeMethod, verifier.value);
      assert VerifyPkce(p, code.codeChallengeMethod, code.codeChallenge.value, verifier.value) <==>
               code.codeChallenge.value == challenge;
    }
  }

  // For a challenge computed from a verifier, it is that verifier and no other.
  lemma OnlyThatVerifier(p: Primitives, params: AuthorizeParams, m: CodeChallengeMethod, verifier: string,
                         presented: Option<string>)
    requires p.DigestsInjective() && MethodNamed(params.codeChallengeMethod, m)
    requires params.codeChallenge == Some(Challenge(p, m, verifier))
    ensures VerifierMeets(p, params, presented) <==> presented == Some(verifier)
  {
    if presented.Some? {
      VerifierClears(p, m, verifier, presented.value);
      VerifierClears(p, m, presented.value, presented.value);
    }
  }

  // ---------------------------------------------------- One code, redeemed

  // The request presents, in time and as the client that asked for it, the code
  // this authorization redirected with.
  ghost predicate Returns(server: Server, params: AuthorizeParams, header: Option<string>, codeTime: Time,
                          stampTime: Time, env: Env, req: AccessTokenRequest) {
    var answer := Authorize(server, params, header, codeTime, stampTime).1;
    && answer.Ok? && req.code == answer.value.code
    && req.clientId == params.clientId && req.redirectUri == params.redirectUri
    && InWindow(stampTime, server.codeMaxAge, env.verifyAt)
  }

  // Nothing but PKCE stands in its way.
  ghost predicate OtherwiseGood(server: Server, env: Env, store: StoreState, req: AccessTokenRequest) {
    && server.clients.ClientSecretResult(req.clientId, req.clientSecret) == Allow
    && CodeReplayKey(server.prims, req.code) !in store.consumed
    && env.idSigns && env.accessSigns
  }

  // The tokens are for the user the header named, and carry what was asked.
  ghost predicate TokensFor(server: Server, params: AuthorizeParams, header: string, response: TokenResponse) {
    var client := server.clients.FindById(params.clientId);
    && client.Some? && response.idToken.IdToken? && response.accessToken.AccessToken?
    && var id, access := response.idToken.id, response.accessToken.access;
       && Users.Extract(header, server.dnAttribute, server.prims.upper) == Ok(id.sub) && access.sub == id.sub
       && id.aud == params.clientId && access.clientId == params.clientId
       && id.nonce == params.nonce
       && access.groups == Users.Union(client.value.groups, server.defaultGroups) && id.groups == Some(access.groups)
       && ScopeAsked(params.scope, access.scope)
  }

  lemma OpensToGrant(server: Server, params: AuthorizeParams, header: Option<string>, codeTime: Time, stampTime: Time)
    returns (code: AuthorizationCode)
    requires server.prims.CodecLaws() && Authorize(server, params, header, codeTime, stampTime).1.Ok?
    ensures var redirect := Authorize(server, params, header, codeTime, stampTime).1.value;
            Opened(server.prims, redirect.code, server.hmacKey) == Ok(TimestampedContainer(code, stampTime))
    ensures header.Some? && CodeFor(server, params, header.value, codeTime, code)
    ensures MayGrant(server, params, header)
  {
    AuthorizeHandsOut(server, params, header, codeTime, stampTime);
    AuthorizeDecides(server, params, header, codeTime, stampTime);
    var encoded := Authorize(server, params, header, codeTime, stampTime).1.value.code;
    code :| Opened(server.prims, encoded, server.hmacKey) == Ok(TimestampedContainer(code, stampTime))
            && CodeFor(server, params, header.value, codeTime, code);
  }

  lemma RefusedForPkce(server: Server, env: Env, store: StoreState, req: AccessTokenRequest,
                       container: TimestampedContainer)
    requires Opened(server.prims, req.code, server.hmacKey) == Ok(container)
    requires container.content.clientId == req.clientId && container.content.redirectUri == req.redirectUri
    requires !PkceHolds(server.prims, container.content, req.codeVerifier)
    ensures Drive(server, env, store, req, Received) ==
            (store, Err(InvalidGrant(if InWindow(container.timestamp, server.codeMaxAge, env.verifyAt) then PkceFailed
                                     else CodeExpired)))
  {
    var c := if InWindow(container.timestamp, server.codeMaxAge, env.verifyAt) then Pkce else Freshness;
    assert FailsFirst(server, env, store, req, c);
    TableRejects(server, env, store, req, c);
  }

  // A verifier that does not meet the challenge sent, or none where one was
  // sent, fails and uses nothing up.
  lemma WrongVerifierFails(server: Server, params: AuthorizeParams, header: Option<string>, codeTime: Time,
                           stampTime: Time, env: Env, store: StoreState, req: AccessTokenRequest)
    requires server.prims.CodecLaws() && Returns(server, params, header, codeTime, stampTime, env, req)
    requires !VerifierMeets(server.prims, params, req.codeVerifier)
    ensures Drive(server, env, store, req, Received) == (store, Err(InvalidGrant(PkceFailed)))
  {
    var code := OpensToGrant(server, params, header, codeTime, stampTime);
    PkceIsVerifier(server.prims, params, code, req.codeVerifier);
    RefusedForPkce(server, env, store, req, TimestampedContainer(code, stampTime));
  }

  lemma RightVerifierPasses(server: Server, params: AuthorizeParams, header: Option<string>, codeTime: Time,
                            stampTime: Time, env: Env, store: StoreState, req: AccessTokenRequest)
    requires server.prims.CodecLaws() && Returns(server, params, header, codeTime, stampTime, env, req)
    requires OtherwiseGood(server, env, store, req) && VerifierMeets(server.prims, params, req.codeVerifier)
    ensures PassesUpTo(server, env, store, req, 10)
    ensures Opened(server.prims, req.code, server.hmacKey).Ok?
    ensures header.Some? && CodeFor(server, params, header.value, codeTime, OpenedCode(server, req))
  {
    var code := OpensToGrant(server, params, header, codeTime, stampTime);
    PkceIsVerifier(server.prims, params, code, req.codeVerifier);
    AllPass(server, env, store, req, TimestampedContainer(code, stampTime));
  }

  lemma AllPass(server: Server, env: Env, store: StoreState, req: AccessTokenRequest, container: TimestampedContainer)
    requires Opened(server.prims, req.code, server.hmacKey) == Ok(container)
    requires container.content.clientId == req.clientId && container.content.redirectUri == req.redirectUri
    requires PkceHolds(server.prims, container.content, req.codeVerifier)
    requires InWindow(container.timestamp, server.codeMaxAge, env.verifyAt)
    requires server.clients.ValidateRedirectUri(req.clientId, req.redirectUri)
    requires OtherwiseGood(server, env, store, req)
    ensures PassesUpTo(server, env, store, req, 10)
  {
  }

  // From /authorize to /token: the code of any redirect, returned in time by its
  // client with nothing else amiss, is redeemed exactly when the verifier meets
  // the challenge that was sent, and then for the user the header named.
  lemma AuthorizeThenRedeem(server: Server, params: AuthorizeParams, header: Option<string>, codeTime: Time,
                            stampTime: Time, env: Env, store: StoreState, req: AccessTokenRequest)
    requires server.prims.CodecLaws() && Returns(server, params, header, codeTime, stampTime, env, req)
    requires OtherwiseGood(server, env, store, req)
    ensures header.Some?
    ensures var outcome := Drive(server, env, store, req, Received).1;
            && (outcome.Ok? <==> VerifierMeets(server.prims, params, req.codeVerifier))
            && (outcome.Ok? ==> TokensFor(server, params, header.value, outcome.value))
            && (outcome.Err? ==> outcome.error == InvalidGrant(PkceFailed))
  {
    if VerifierMeets(server.prims, params, req.codeVerifier) {
      RightVerifierPasses(server, params, header, codeTime, stampTime, env, store, req);
      TableAccepts(server, env, store, req);
    } else {
      WrongVerifierFails(server, params, header, codeTime, stampTime, env, store, req);
      var code := OpensToGrant(server, params, header, codeTime, stampTime);
    }
  }

  // --------------------------------------------------- In any interleaving

  // The text of a granted code, presented by its client.
  ghost predicate ReturnsGrant(server: Server, req: AccessTokenRequest, g: Grant) {
    && req.code == Sealed(server.prims, g.code, server.hmacKey, g.stampedAt)
    && req.clientId == g.params.clientId && req.redirectUri == g.params.redirectUri
  }

  // In every run, a finished request that returned a granted code with a
  // verifier that does not meet the challenge sent, or with none, was refused
  // for that, or because the code was not fresh when it was read.
  lemma WrongVerifierInRuns(server: Server, actions: seq<Action>, g: Grant, tid: nat)
    requires server.prims.CodecLaws() && Granted(g) in Run(server, actions).log
    requires tid in Run(server, actions).threads && Run(server, actions).threads[tid].stage.Finished?
    requires ReturnsGrant(server, Run(server, actions).threads[tid].req, g)
    requires !VerifierMeets(server.prims, g.params, Run(server, actions).threads[tid].req.codeVerifier)
    ensures Run(server, actions).threads[tid].stage.outcome ==
            Err(InvalidGrant(if InWindow(g.stampedAt, server.codeMaxAge, Serial.EnvOf(server, actions, tid).verifyAt)
                             then PkceFailed else CodeExpired))
  {
    var thread := Run(server, actions).threads[tid];
    var env, store := Serial.EnvOf(server, actions, tid), Serial.Against(server, thread);
    Isolation.GrantInLog(server, actions, g);
    Serial.FinishedIsDrive(server, actions, tid);
    GrantFailsPkce(server, env, store, thread.req, g);
  }

  lemma GrantFailsPkce(server: Server, env: Env, store: StoreState, req: AccessTokenRequest, g: Grant)
    requires server.prims.CodecLaws() && Provenance.GrantOk(server, g) && ReturnsGrant(server, req, g)
    requires !VerifierMeets(server.prims, g.params, req.codeVerifier)
    ensures Drive(server, env, store, req, Received).1 ==
            Err(InvalidGrant(if InWindow(g.stampedAt, server.codeMaxAge, env.verifyAt) then PkceFailed
                             else CodeExpired))
  {
    SealedOpens(server.prims, g.code, server.hmacKey, g.stampedAt, server.codeMaxAge, env.verifyAt);
    PkceIsVerifier(server.prims, g.params, g.code, req.codeVerifier);
    RefusedForPkce(server, env, store, req, TimestampedContainer(g.code, g.stampedAt));
  }
}
