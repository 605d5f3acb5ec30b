// Where tokens come from: every token traces, through the steps of its own
// request in order, to one earlier authorization.
module Provenance {
  import opened Wrappers
  import opened Code
  import opened Client
  import opened Token
  import opened Storage
  import opened Protocol
  import opened Service
  import Users

  // ------------------------------------------------------ What is recorded

  // A code is signed for what was asked, for a client that has registered the
  // redirect URI.
  ghost predicate GrantOk(server: Server, g: Grant) {
    && CodeFor(server, g.params, g.header, g.code.timestamp, g.code)
    && g.params.redirectUri in server.clients.FindById(g.params.clientId).value.redirectUris
  }

  // The request is bound to the code, from a registered redirect URI, by an
  // authenticated client.
  ghost predicate RequestMatches(server: Server, req: AccessTokenRequest, code: AuthorizationCode) {
    && ValidateTokenRequest(server.prims, code, req.clientId, req.redirectUri, req.codeVerifier).Ok?
    && server.clients.ValidateRedirectUri(req.clientId, req.redirectUri)
    && server.clients.ClientSecretResult(req.clientId, req.clientSecret) == Allow
  }

  ghost predicate IdMatches(server: Server, req: AccessTokenRequest, code: AuthorizationCode, token: Token) {
    && token.IdToken? && token.genuine && token.id.iss == server.jwtIssuer.issuer
    && token.id.sub == code.subject && token.id.aud == req.clientId
    && token.id.groups == Some(code.groups) && token.id.nonce == code.nonce
    && token.id.exp == token.id.iat + AsSecs(server.idTokenTtl)
  }

  ghost predicate AccessMatches(server: Server, req: AccessTokenRequest, code: AuthorizationCode, jti: string,
                                token: Token) {
    && token.AccessToken? && token.genuine
    && token.access.iss == token.access.aud == server.jwtIssuer.issuer
    && token.access.sub == code.subject && token.access.clientId == req.clientId
    && token.access.groups == code.groups && token.access.scope == code.scope && token.access.jti == jti
    && token.access.exp == token.access.iat + AsSecs(server.accessTokenTtl)
  }

  // The places in the log of the steps of one request.
  datatype Trace = Trace(accepted: nat, consumed: nat, drew: nat)

  ghost predicate AcceptedAt(log: seq<Event>, i: nat, tid: nat, req: AccessTokenRequest, code: AuthorizationCode) {
    i < |log| && log[i].Accepted? && log[i].tid == tid && log[i].req == req && log[i].code == code
  }

  ghost predicate ConsumedAt(server: Server, log: seq<Event>, t: Trace, tid: nat, req: AccessTokenRequest,
                             code: AuthorizationCode) {
    && t.accepted < t.consumed < |log|
    && AcceptedAt(log, t.accepted, tid, req, code)
    && log[t.consumed] == ConsumedBy(tid, CodeReplayKey(server.prims, req.code))
  }

  ghost predicate DrewAt(server: Server, log: seq<Event>, t: Trace, tid: nat, req: AccessTokenRequest,
                         code: AuthorizationCode, jti: string) {
    && ConsumedAt(server, log, t, tid, req, code)
    && t.consumed < t.drew < |log|
    && log[t.drew] == Drew(tid, jti)
  }

  ghost predicate Tokened(server: Server, log: seq<Event>, tid: nat, req: AccessTokenRequest, code: AuthorizationCode,
                          jti: string) {
    RequestMatches(server, req, code) && exists t :: DrewAt(server, log, t, tid, req, code, jti)
  }

  ghost predicate IssuedFrom(server: Server, log: seq<Event>, e: Event, req: AccessTokenRequest,
                             code: AuthorizationCode)
    requires e.Issued?
  {
    Tokened(server, log, e.tid, req, code, e.record.jti) && Faithful(server, req, code, e.record, e.response)
  }

  // ------------------------------------------------------------ Invariant

  // Why an event could follow the log so far.
  ghost predicate EventJustified(server: Server, log: seq<Event>, e: Event) {
    match e
    case Granted(g) => GrantOk(server, g)
    case Accepted(_, req, code, at) =>
      DecodeAndVerify(server.prims, req.code, server.hmacKey, server.codeMaxAge, at) == Ok(code)
    case Issued(_, _, _) => exists req, code :: IssuedFrom(server, log, e, req, code)
    case _ => true
  }

  ghost predicate LogJustified(server: Server, log: seq<Event>) {
    forall k | 0 <= k < |log| :: EventJustified(server, log[..k], log[k])
  }

  // What the log and the checks already made say of a thread.
  ghost predicate ThreadJustified(server: Server, log: seq<Event>, tid: nat, thread: Thread) {
    var req := thread.req;
    match thread.stage
    case Received => true
    case Verified(code) => (exists i: nat :: AcceptedAt(log, i, tid, req, code))
    case Bound(code) =>
      && (exists i: nat :: AcceptedAt(log, i, tid, req, code))
      && ValidateTokenRequest(server.prims, code, req.clientId, req.redirectUri, req.codeVerifier).Ok?
    case Registered(code) =>
      && (exists i: nat :: AcceptedAt(log, i, tid, req, code))
      && ValidateTokenRequest(server.prims, code, req.clientId, req.redirectUri, req.codeVerifier).Ok?
      && server.clients.ValidateRedirectUri(req.clientId, req.redirectUri)
    case Authenticated(code) =>
      (exists i: nat :: AcceptedAt(log, i, tid, req, code)) && RequestMatches(server, req, code)
    case Consumed(code) =>
      (exists t :: ConsumedAt(server, log, t, tid, req, code)) && RequestMatches(server, req, code)
    case Drawn(code, jti) => Tokened(server, log, tid, req, code, jti)
    case IdSigned(code, jti, idToken) =>
      Tokened(server, log, tid, req, code, jti) && IdMatches(server, req, code, idToken)
    case AccessSigned(code, jti, idToken, accessToken) =>
      && Tokened(server, log, tid, req, code, jti)
      && IdMatches(server, req, code, idToken)
      && AccessMatches(server, req, code, jti, accessToken)
    case Finished(outcome) => outcome.Ok? ==> exists e, code :: IssuedTo(server, log, e, tid, req, code, outcome.value)
  }

  ghost predicate IssuedTo(server: Server, log: seq<Event>, e: Event, tid: nat, req: AccessTokenRequest,
                           code: AuthorizationCode, response: TokenResponse) {
    e in log && e.Issued? && e.tid == tid && e.response == response && IssuedFrom(server, log, e, req, code)
  }

  ghost predicate Justified(server: Server, s: State) {
    && LogJustified(server, s.log)
    && forall tid | tid in s.threads :: ThreadJustified(server, s.log, tid, s.threads[tid])
  }

  // ------------------------------------------------------------- One step

  // What the log says of a thread it goes on saying.
  lemma ThreadStays(server: Server, log: seq<Event>, events: seq<Event>, tid: nat, thread: Thread)
    requires ThreadJustified(server, log, tid, thread)
    ensures ThreadJustified(server, log + events, tid, thread)
  {
    var log' := log + events;
    assert forall i | 0 <= i < |log| :: log'[i] == log[i];
    forall code, i: nat | AcceptedAt(log, i, tid, thread.req, code)
      ensures AcceptedAt(log', i, tid, thread.req, code)
    {
    }
    forall code, t | ConsumedAt(server, log, t, tid, thread.req, code)
      ensures ConsumedAt(server, log', t, tid, thread.req, code)
    {
    }
    forall code, jti | Tokened(server, log, tid, thread.req, code, jti)
      ensures Tokened(server, log', tid, thread.req, code, jti)
    {
      TokenedStays(server, log, events, tid, thread.req, code, jti);
    }
    forall e, code, response | IssuedTo(server, log, e, tid, thread.req, code, response)
      ensures IssuedTo(server, log', e, tid, thread.req, code, response)
    {
      TokenedStays(server, log, events, tid, thread.req, code, e.record.jti);
    }
  }

  lemma TokenedStays(server: Server, log: seq<Event>, events: seq<Event>, tid: nat, req: AccessTokenRequest,
                     code: AuthorizationCode, jti: string)
    requires Tokened(server, log, tid, req, code, jti)
    ensures Tokened(server, log + events, tid, req, code, jti)
  {
    var t :| DrewAt(server, log, t, tid, req, code, jti);
    assert forall i | 0 <= i < |log| :: (log + events)[i] == log[i];
    assert DrewAt(server, log + events, t, tid, req, code, jti);
  }

  lemma LogGrows(server: Server, log: seq<Event>, events: seq<Event>)
    requires LogJustified(server, log) && |events| <= 1
    requires events != [] ==> EventJustified(server, log, events[0])
    ensures LogJustified(server, log + events)
  {
    var log' := log + events;
    forall k | 0 <= k < |log'|
      ensures EventJustified(server, log'[..k], log'[k])
    {
      assert log'[..k] == log[..k];
    }
  }

  // The stage a step leads to, and the event it logs, are justified.
  ghost predicate StepJustified(server: Server, log: seq<Event>, tid: nat, env: Env, store: StoreState,
                                thread: Thread) {
    var stage' := Next(server, env, store, thread.req, thread.stage).1;
    var events := Happened(server, tid, env, thread, stage');
    && (events != [] ==> EventJustified(server, log, events[0]))
    && ThreadJustified(server, log + events, tid, Thread(thread.req, stage'))
  }

  lemma EarlyStep(server: Server, log: seq<Event>, tid: nat, env: Env, store: StoreState, thread: Thread)
    requires ThreadJustified(server, log, tid, thread)
    requires thread.stage.Verified? || thread.stage.Bound? || thread.stage.Registered? || thread.stage.Finished?
    ensures StepJustified(server, log, tid, env, store, thread)
  {
    assert log + [] == log;
  }

  lemma VerifyStep(server: Server, log: seq<Event>, tid: nat, env: Env, store: StoreState, thread: Thread)
    requires thread.stage.Received?
    ensures StepJustified(server, log, tid, env, store, thread)
  {
    var stage' := Next(server, env, store, thread.req, thread.stage).1;
    if stage'.Verified? {
      var log' := log + [Accepted(tid, thread.req, stage'.code, env.verifyAt)];
      assert AcceptedAt(log', |log|, tid, thread.req, stage'.code);
    }
  }

  lemma ConsumeStep(server: Server, log: seq<Event>, tid: nat, env: Env, store: StoreState, thread: Thread)
    requires thread.stage.Authenticated? && ThreadJustified(server, log, tid, thread)
    ensures StepJustified(server, log, tid, env, store, thread)
  {
    var code := thread.stage.code;
    var i: nat :| AcceptedAt(log, i, tid, thread.req, code);
    var log' := log + [ConsumedBy(tid, KeyOf(server, thread))];
    assert log'[i] == log[i];
    assert ConsumedAt(server, log', Trace(i, |log|, 0), tid, thread.req, code);
  }

  lemma DrawStep(server: Server, log: seq<Event>, tid: nat, env: Env, store: StoreState, thread: Thread)
    requires thread.stage.Consumed? && ThreadJustified(server, log, tid, thread)
    ensures StepJustified(server, log, tid, env, store, thread)
  {
    var code := thread.stage.code;
    var jti := Next(server, env, store, thread.req, thread.stage).1.jti;
    var t :| ConsumedAt(server, log, t, tid, thread.req, code);
    var log' := log + [Drew(tid, jti)];
    assert log'[t.accepted] == log[t.accepted] && log'[t.consumed] == log[t.consumed];
    assert DrewAt(server, log', t.(drew := |log|), tid, thread.req, code, jti);
  }

  lemma SignStep(server: Server, log: seq<Event>, tid: nat, env: Env, store: StoreState, thread: Thread)
    requires (thread.stage.Drawn? || thread.stage.IdSigned?) && ThreadJustified(server, log, tid, thread)
    ensures StepJustified(server, log, tid, env, store, thread)
  {
    assert log + [] == log;
  }

  lemma IssueStep(server: Server, log: seq<Event>, tid: nat, env: Env, store: StoreState, thread: Thread)
    requires thread.stage.AccessSigned? && ThreadJustified(server, log, tid, thread)
    ensures StepJustified(server, log, tid, env, store, thread)
  {
    var e := IssueEvent(server, tid, env, thread);
    assert IssuedFrom(server, log, e, thread.req, thread.stage.code);
    TokenedStays(server, log, [e], tid, thread.req, thread.stage.code, e.record.jti);
    assert IssuedTo(server, log + [e], e, tid, thread.req, thread.stage.code, e.response);
  }

  lemma NextJustified(server: Server, log: seq<Event>, tid: nat, env: Env, store: StoreState, thread: Thread)
    requires ThreadJustified(server, log, tid, thread)
    ensures StepJustified(server, log, tid, env, store, thread)
  {
    match thread.stage {
      case Received => VerifyStep(server, log, tid, env, store, thread);
      case Authenticated(_) => ConsumeStep(server, log, tid, env, store, thread);
      case Consumed(_) => DrawStep(server, log, tid, env, store, thread);
      case Drawn(_, _) => SignStep(server, log, tid, env, store, thread);
      case IdSigned(_, _, _) => SignStep(server, log, tid, env, store, thread);
      case AccessSigned(_, _, _, _) => IssueStep(server, log, tid, env, store, thread);
      case _ => EarlyStep(server, log, tid, env, store, thread);
    }
  }

  lemma AdvanceKeeps(server: Server, s: State, tid: nat, env: Env)
    requires Justified(server, s) && tid in s.threads
    ensures Justified(server, Advance(server, s, tid, env))
  {
    var s' := Advance(server, s, tid, env);
    var events := Happened(server, tid, env, s.threads[tid], s'.threads[tid].stage);
    NextJustified(server, s.log, tid, env, s.store, s.threads[tid]);
    LogGrows(server, s.log, events);
    forall u | u in s'.threads
      ensures ThreadJustified(server, s'.log, u, s'.threads[u])
    {
      if u != tid { ThreadStays(server, s.log, events, u, s.threads[u]); }
    }
  }

  // An event outside the threads.
  lemma EventKeeps(server: Server, s: State, s': State, e: Event)
    requires Justified(server, s) && s'.threads == s.threads && s'.log == s.log + [e]
    requires EventJustified(server, s.log, e)
    ensures Justified(server, s')
  {
    LogGrows(server, s.log, [e]);
    forall u | u in s'.threads
      ensures ThreadJustified(server, s'.log, u, s'.threads[u])
    {
      ThreadStays(server, s.log, [e], u, s.threads[u]);
    }
  }

  lemma GrantIsOk(server: Server, params: AuthorizeParams, header: Option<string>, codeTime: Time, stampTime: Time)
    ensures var g := Authorize(server, params, header, codeTime, stampTime).0;
            g.Some? ==> GrantOk(server, g.value)
  {
    AuthorizeDecides(server, params, header, codeTime, stampTime);
  }

  // The grant was made for a request of the run.
  ghost predicate WasAsked(server: Server, a: Action, g: Grant) {
    && a.Authorizing? && a.params == g.params && a.header == Some(g.header) && a.stampTime == g.stampedAt
    && CodeFor(server, a.params, g.header, a.codeTime, g.code)
  }

  lemma GrantStep(server: Server, s: State, a: Action, g: Grant)
    requires Granted(g) in Apply(server, s, a).log && Granted(g) !in s.log
    ensures WasAsked(server, a, g)
  {
    if a.Authorizing? {
      AuthorizeDecides(server, a.params, a.header, a.codeTime, a.stampTime);
    } else if a.Advancing? && a.tid in s.threads {
      var thread := s.threads[a.tid];
      EventKinds(server, a.tid, a.env, thread, Next(server, a.env, s.store, thread.req, thread.stage).1);
    }
  }

  // In every run, each code that was signed says what an authorization of the
  // run and its header asked for.
  lemma {:induction false} GrantWasAsked(server: Server, actions: seq<Action>, g: Grant)
    requires Granted(g) in Run(server, actions).log
    ensures exists a :: a in actions && WasAsked(server, a, g)
  {
    var init, a := actions[..|actions| - 1], actions[|actions| - 1];
    if Granted(g) in Run(server, init).log {
      GrantWasAsked(server, init, g);
      var b :| b in init && WasAsked(server, b, g);
      assert b in actions;
    } else {
      GrantStep(server, Run(server, init), a, g);
      assert a in actions;
    }
  }

  lemma StepKeeps(server: Server, s: State, a: Action)
    requires Justified(server, s)
    ensures Justified(server, Apply(server, s, a))
  {
    match a {
      case Authorizing(params, header, codeTime, stampTime) =>
        var grant := Authorize(server, params, header, codeTime, stampTime).0;
        GrantIsOk(server, params, header, codeTime, stampTime);
        if grant.Some? {
          EventKeeps(server, s, Apply(server, s, a), Granted(grant.value));
        }
      case Receiving(tid, req) =>
      case Advancing(tid, env) =>
        if tid in s.threads { AdvanceKeeps(server, s, tid, env); }
      case RevokingToken(jti) =>
        EventKeeps(server, s, Apply(server, s, a), Revoked(jti, jti in s.store.records));
    }
  }

  lemma {:induction false} Reachable(server: Server, actions: seq<Action>)
    ensures Justified(server, Run(server, actions))
  {
    if actions != [] {
      Reachable(server, actions[..|actions| - 1]);
      StepKeeps(server, Run(server, actions[..|actions| - 1]), actions[|actions| - 1]);
    }
  }

  // ------------------------------------------------------------- Theorems

  // The MAC is ideal: a text that verifies carries data signed by an earlier
  // authorization of this run. It need not be the text then handed out.
  ghost predicate IdealMac(server: Server, log: seq<Event>) {
    forall k | 0 <= k < |log| && log[k].Accepted? ::
      exists i: nat :: i < k && SignedFor(server, log[i], log[k].req.code)
  }

  ghost predicate SignedFor(server: Server, e: Event, encoded: string) {
    && e.Granted?
    && SignedData(server.prims, encoded, server.hmacKey) == Ok(Data(server.prims, e.grant.code, e.grant.stampedAt))
  }

  // The token issued at k comes from the authorization at i by way of the
  // steps of its request: the code it was granted for was accepted within its
  // window, consumed and turned into tokens, in this order, for a request that
  // matches it.
  ghost predicate Origin(server: Server, log: seq<Event>, i: nat, t: Trace, k: nat) {
    && i < t.accepted < t.consumed < t.drew < k < |log|
    && log[i].Granted? && log[t.accepted].Accepted? && log[k].Issued?
    && var g, tid, req := log[i].grant, log[k].tid, log[t.accepted].req;
       && GrantOk(server, g)
       && AcceptedAt(log, t.accepted, tid, req, g.code)
       && InWindow(g.stampedAt, server.codeMaxAge, log[t.accepted].at)
       && log[t.consumed] == ConsumedBy(tid, CodeReplayKey(server.prims, req.code))
       && log[t.drew] == Drew(tid, log[k].record.jti)
       && RequestMatches(server, req, g.code)
       && Faithful(server, req, g.code, log[k].record, log[k].response)
  }

  ghost predicate HasOrigin(server: Server, log: seq<Event>, k: nat) {
    exists i: nat, t :: Origin(server, log, i, t, k)
  }

  // The response is one that was issued to this request, from such an origin.
  ghost predicate IssuedWithOrigin(server: Server, log: seq<Event>, tid: nat, response: TokenResponse) {
    exists k: nat :: k < |log| && HasOrigin(server, log, k)
      && log[k].Issued? && log[k].tid == tid && log[k].response == response
  }

  lemma AcceptedIsGranted(server: Server, log: seq<Event>, k: nat) returns (i: nat)
    requires server.prims.CodecLaws() && LogJustified(server, log) && IdealMac(server, log)
    requires k < |log| && log[k].Accepted?
    ensures i < k && log[i].Granted? && GrantOk(server, log[i].grant)
    ensures log[k].code == log[i].grant.code
    ensures InWindow(log[i].grant.stampedAt, server.codeMaxAge, log[k].at)
  {
    i :| i < k && SignedFor(server, log[i], log[k].req.code);
    assert EventJustified(server, log[..i], log[i]);
    assert EventJustified(server, log[..k], log[k]);
    SignedForOpens(server, log[i], log[k].req.code, log[k].at);
  }

  lemma SignedForOpens(server: Server, e: Event, encoded: string, at: Time)
    requires server.prims.CodecLaws() && SignedFor(server, e, encoded)
    ensures DecodeAndVerify(server.prims, encoded, server.hmacKey, server.codeMaxAge, at) ==
            if InWindow(e.grant.stampedAt, server.codeMaxAge, at) then Ok(e.grant.code) else Err(InvalidTimestamp)
  {
    assert Opened(server.prims, encoded, server.hmacKey) == Ok(TimestampedContainer(e.grant.code, e.grant.stampedAt));
  }

  lemma TraceInPrefix(server: Server, log: seq<Event>, k: nat, t: Trace, tid: nat, req: AccessTokenRequest,
                      code: AuthorizationCode, jti: string)
    requires k <= |log| && DrewAt(server, log[..k], t, tid, req, code, jti)
    ensures t.drew < k && DrewAt(server, log, t, tid, req, code, jti)
  {
    assert forall j | 0 <= j < k :: log[..k][j] == log[j];
  }

  lemma OriginFound(server: Server, log: seq<Event>, k: nat, t: Trace, req: AccessTokenRequest, code: AuthorizationCode)
    returns (i: nat)
    requires server.prims.CodecLaws() && LogJustified(server, log) && IdealMac(server, log)
    requires k < |log| && log[k].Issued? && t.drew < k
    requires DrewAt(server, log, t, log[k].tid, req, code, log[k].record.jti)
    requires RequestMatches(server, req, code) && Faithful(server, req, code, log[k].record, log[k].response)
    ensures Origin(server, log, i, t, k)
  {
    i := AcceptedIsGranted(server, log, t.accepted);
  }

  // Every issued token has an origin.
  lemma IssuedHasOrigin(server: Server, actions: seq<Action>, k: nat)
    requires server.prims.CodecLaws() && IdealMac(server, Run(server, actions).log)
    requires k < |Run(server, actions).log| && Run(server, actions).log[k].Issued?
    ensures HasOrigin(server, Run(server, actions).log, k)
  {
    Reachable(server, actions);
    var log := Run(server, actions).log;
    var e := log[k];
    assert EventJustified(server, log[..k], e);
    var req, code :| IssuedFrom(server, log[..k], e, req, code);
    var t :| DrewAt(server, log[..k], t, e.tid, req, code, e.record.jti);
    TraceInPrefix(server, log, k, t, e.tid, req, code, e.record.jti);
    var i := OriginFound(server, log, k, t, req, code);
  }

  lemma ResponseIsIssued(server: Server, s: State, tid: nat) returns (k: nat)
    requires Justified(server, s) && tid in s.threads
    requires s.threads[tid].stage.Finished? && s.threads[tid].stage.outcome.Ok?
    ensures k < |s.log| && s.log[k].Issued? && s.log[k].tid == tid
    ensures s.log[k].response == s.threads[tid].stage.outcome.value
  {
    assert ThreadJustified(server, s.log, tid, s.threads[tid]);
    var e, code :| IssuedTo(server, s.log, e, tid, s.threads[tid].req, code, s.threads[tid].stage.outcome.value);
    k :| k < |s.log| && s.log[k] == e;
  }

  // So has every response: a request that ended well was issued its tokens.
  lemma ResponseHasOrigin(server: Server, actions: seq<Action>, tid: nat)
    requires server.prims.CodecLaws() && IdealMac(server, Run(server, actions).log)
    requires tid in Run(server, actions).threads
    requires var stage := Run(server, actions).threads[tid].stage; stage.Finished? && stage.outcome.Ok?
    ensures var s := Run(server, actions);
            IssuedWithOrigin(server, s.log, tid, s.threads[tid].stage.outcome.value)
  {
    Reachable(server, actions);
    var k := ResponseIsIssued(server, Run(server, actions), tid);
    IssuedHasOrigin(server, actions, k);
  }
}
