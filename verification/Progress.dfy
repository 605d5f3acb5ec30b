// That good requests get their tokens, however the steps of other requests,
// authorizations and revocations fall between theirs.
module Progress {
  import opened Wrappers
  import opened Code
  import opened Protocol
  import opened Service
  import opened Isolation
  import OneTime
  import Provenance

  // ------------------------------------------------------------- Finishing

  // How many of the actions, from this place on, are steps of the request.
  function StepCount(actions: seq<Action>, from: nat, tid: nat): nat {
    if |actions| <= from then 0
    else
      var a := actions[|actions| - 1];
      StepCount(actions[..|actions| - 1], from, tid) + if a.Advancing? && a.tid == tid then 1 else 0
  }

  lemma StepShortens(server: Server, s: State, a: Action, tid: nat)
    requires tid in s.threads
    ensures var s' := Apply(server, s, a);
            && tid in s'.threads && s'.threads[tid].req == s.threads[tid].req
            && (a.Advancing? && a.tid == tid && !s.threads[tid].stage.Finished? ==>
                  StepsLeft(s'.threads[tid].stage) < StepsLeft(s.threads[tid].stage))
            && (!(a.Advancing? && a.tid == tid && !s.threads[tid].stage.Finished?) ==>
                  s'.threads[tid] == s.threads[tid])
  {
    if a.Advancing? && a.tid == tid && !s.threads[tid].stage.Finished? {
      Reaches(server, a.env, s.store, s.threads[tid].req, s.threads[tid].stage);
    } else {
      Unmoved(server, s, a, tid);
    }
  }

  // Since its thread was in the past state, the request has come nearer its end by
  // the steps it took.
  ghost predicate Nearer(past: Thread, s: State, tid: nat, steps: nat) {
    && tid in s.threads && s.threads[tid].req == past.req
    && (s.threads[tid].stage.Finished? || StepsLeft(s.threads[tid].stage) + steps <= StepsLeft(past.stage))
  }

  // Each step of a request brings it nearer, and nothing sets it back.
  lemma {:induction false} StepsBringNearer(server: Server, actions: seq<Action>, from: nat, tid: nat)
    requires from <= |actions| && tid in Run(server, actions[..from]).threads
    ensures Nearer(Run(server, actions[..from]).threads[tid], Run(server, actions), tid, StepCount(actions, from, tid))
    decreases |actions|
  {
    if |actions| == from {
      assert actions[..from] == actions;
    } else {
      var init, a := actions[..|actions| - 1], actions[|actions| - 1];
      assert init[..from] == actions[..from];
      StepsBringNearer(server, init, from, tid);
      StepShortens(server, Run(server, init), a, tid);
    }
  }

  // ------------------------------------------------------------- Succeeding

  // The step finds what is not up to the request: the code fresh when it is
  // verified, and a signer that works when it signs.
  ghost predicate Helped(server: Server, stage: Stage, env: Env, container: TimestampedContainer) {
    && (stage.Received? ==> InWindow(container.timestamp, server.codeMaxAge, env.verifyAt))
    && (stage.Drawn? ==> env.idSigns)
    && (stage.IdSigned? ==> env.accessSigns)
  }

  // Every step of the request does.
  ghost predicate AllHelped(server: Server, actions: seq<Action>, tid: nat, container: TimestampedContainer) {
    forall k | 0 <= k < |actions| && actions[k].Advancing? && actions[k].tid == tid ::
      tid in Run(server, actions[..k]).threads ==>
        Helped(server, Run(server, actions[..k]).threads[tid].stage, actions[k].env, container)
  }

  // The request passes the checks on the request alone, with this in its code.
  ghost predicate Good(server: Server, req: AccessTokenRequest, container: TimestampedContainer) {
    && Opened(server.prims, req.code, server.hmacKey) == Ok(container)
    && forall c :: RequestPasses(server, req, c)
  }

  lemma HelpedDoesNotFail(server: Server, actions: seq<Action>, tid: nat, req: AccessTokenRequest, k: nat, c: Check,
                          container: TimestampedContainer)
    requires FailedAt(server, actions, tid, req, k, c) && c in {Freshness, IdSigning, AccessSigning}
    requires Opened(server.prims, req.code, server.hmacKey) == Ok(container)
    ensures !AllHelped(server, actions, tid, container)
  {
    assert !Helped(server, Run(server, actions[..k]).threads[tid].stage, actions[k].env, container);
  }

  lemma RivalBlocks(server: Server, s: State, tid: nat, u: nat)
    requires OneTime.KeysMatch(server, s) && tid in s.threads && IsRival(server, s, tid, u)
    ensures tid !in OneTime.Past(s)
  {
    var keys := OneTime.Keys(server, s);
    assert keys[u] == KeyOf(server, s.threads[tid]);
  }

  // In any interleaving, a good request whose own steps are helped ends with
  // tokens exactly when no other request has used up its replay key.
  lemma GoodRequestSucceeds(server: Server, actions: seq<Action>, tid: nat, container: TimestampedContainer)
    requires tid in Run(server, actions).threads && Run(server, actions).threads[tid].stage.Finished?
    requires Good(server, Run(server, actions).threads[tid].req, container)
    requires AllHelped(server, actions, tid, container)
    ensures var s := Run(server, actions);
            var outcome := s.threads[tid].stage.outcome;
            && (outcome.Ok? <==> !exists u :: IsRival(server, s, tid, u))
            && (outcome.Err? ==> outcome.error == InvalidGrant(CodeAlreadyUsed))
  {
    var s := Run(server, actions);
    GoodRequestAnswers(server, actions, tid);
    OneTime.Reachable(server, actions);
    forall k: nat, c | FailedAt(server, actions, tid, s.threads[tid].req, k, c)
                       && c in {Freshness, IdSigning, AccessSigning}
      ensures false
    {
      HelpedDoesNotFail(server, actions, tid, s.threads[tid].req, k, c, container);
    }
    if u :| IsRival(server, s, tid, u) {
      RivalBlocks(server, s, tid, u);
    }
  }

  // ------------------------------------------------------------- Redeeming

  lemma PresentedIsGood(server: Server, actions: seq<Action>, g: Grant, req: AccessTokenRequest)
    requires server.prims.CodecLaws() && Granted(g) in Run(server, actions).log && Presents(server, req, g)
    ensures Good(server, req, TimestampedContainer(g.code, g.stampedAt))
  {
    GrantInLog(server, actions, g);
    SealedOpens(server.prims, g.code, server.hmacKey, g.stampedAt, server.codeMaxAge, g.stampedAt);
  }

  // The log has the issue of this response, and tokens and record carry the grant.
  ghost predicate IssuedFor(server: Server, log: seq<Event>, e: Event, tid: nat, req: AccessTokenRequest, g: Grant,
                            response: TokenResponse) {
    && e in log && e.Issued? && e.tid == tid && e.response == response
    && Faithful(server, req, g.code, e.record, response)
  }

  lemma TokensCarryGrant(server: Server, s: State, tid: nat, g: Grant)
    requires Provenance.Justified(server, s) && tid in OneTime.Completed(s)
    requires Opens(server, s.threads[tid].req, g.code)
    ensures exists e :: IssuedFor(server, s.log, e, tid, s.threads[tid].req, g, s.threads[tid].stage.outcome.value)
  {
    var req, response := s.threads[tid].req, s.threads[tid].stage.outcome.value;
    assert Provenance.ThreadJustified(server, s.log, tid, s.threads[tid]);
    var e, code :| Provenance.IssuedTo(server, s.log, e, tid, req, code, response);
    var t :| Provenance.DrewAt(server, s.log, t, tid, req, code, e.record.jti);
    AcceptedOpens(server, s.log, t.accepted, tid, req, code);
    assert IssuedFor(server, s.log, e, tid, req, g, response);
  }

  // Where a code was accepted, it opened.
  lemma AcceptedOpens(server: Server, log: seq<Event>, i: nat, tid: nat, req: AccessTokenRequest,
                      code: AuthorizationCode)
    requires Provenance.LogJustified(server, log) && Provenance.AcceptedAt(log, i, tid, req, code)
    ensures Opens(server, req, code)
  {
    assert Provenance.EventJustified(server, log[..i], log[i]);
  }

  // The request ended, and with tokens that carry the grant exactly when no
  // other request has used up its replay key.
  ghost predicate Redeemed(server: Server, s: State, tid: nat, g: Grant) {
    && tid in s.threads && s.threads[tid].stage.Finished?
    && (s.threads[tid].stage.outcome.Ok? <==> !exists u :: IsRival(server, s, tid, u))
    && (s.threads[tid].stage.outcome.Ok? ==>
          exists e :: IssuedFor(server, s.log, e, tid, s.threads[tid].req, g, s.threads[tid].stage.outcome.value))
  }

  lemma FinishedRedeems(server: Server, actions: seq<Action>, tid: nat, g: Grant)
    requires server.prims.CodecLaws() && Granted(g) in Run(server, actions).log
    requires tid in Run(server, actions).threads && Run(server, actions).threads[tid].stage.Finished?
    requires Presents(server, Run(server, actions).threads[tid].req, g)
    requires AllHelped(server, actions, tid, TimestampedContainer(g.code, g.stampedAt))
    ensures Redeemed(server, Run(server, actions), tid, g)
  {
    var s := Run(server, actions);
    PresentedIsGood(server, actions, g, s.threads[tid].req);
    GoodRequestSucceeds(server, actions, tid, TimestampedContainer(g.code, g.stampedAt));
    if s.threads[tid].stage.outcome.Ok? {
      Provenance.Reachable(server, actions);
      TokensCarryGrant(server, s, tid, g);
    }
  }

  lemma Ends(server: Server, actions: seq<Action>, from: nat, tid: nat)
    requires from <= |actions| && tid in Run(server, actions[..from]).threads && StepCount(actions, from, tid) >= 9
    ensures var s := Run(server, actions);
            && tid in s.threads && s.threads[tid].req == Run(server, actions[..from]).threads[tid].req
            && s.threads[tid].stage.Finished?
  {
    StepsBringNearer(server, actions, from, tid);
    NineSuffice(Run(server, actions[..from]).threads[tid].stage);
    NineSuffice(Run(server, actions).threads[tid].stage);
  }

  lemma NineSuffice(stage: Stage)
    ensures StepsLeft(stage) <= 9 && (StepsLeft(stage) == 0 ==> stage.Finished?)
  {
  }

  // A granted code presented as it was given is redeemed: with nine steps of the
  // request's own after its arrival, all helped, and whatever else before,
  // between and after them.
  lemma GrantedCodeRedeems(server: Server, actions: seq<Action>, from: nat, tid: nat, g: Grant)
    requires server.prims.CodecLaws() && Granted(g) in Run(server, actions).log
    requires from <= |actions| && tid in Run(server, actions[..from]).threads && StepCount(actions, from, tid) >= 9
    requires Presents(server, Run(server, actions[..from]).threads[tid].req, g)
    requires AllHelped(server, actions, tid, TimestampedContainer(g.code, g.stampedAt))
    ensures Redeemed(server, Run(server, actions), tid, g)
  {
    Ends(server, actions, from, tid);
    FinishedRedeems(server, actions, tid, g);
  }

  // Another request got past consumption with the same text.
  ghost predicate SameTextUsed(s: State, tid: nat, u: nat)
    requires tid in s.threads
  {
    u != tid && u in OneTime.Past(s) && s.threads[u].req.code == s.threads[tid].req.code
  }

  // Where digests tell texts apart, the rivals of a request are those that
  // presented its own text: no other code stands in its way.
  lemma GrantedTextRedeems(server: Server, actions: seq<Action>, from: nat, tid: nat, g: Grant)
    requires server.prims.CodecLaws() && server.prims.DigestsInjective() && Granted(g) in Run(server, actions).log
    requires from <= |actions| && tid in Run(server, actions[..from]).threads && StepCount(actions, from, tid) >= 9
    requires Presents(server, Run(server, actions[..from]).threads[tid].req, g)
    requires AllHelped(server, actions, tid, TimestampedContainer(g.code, g.stampedAt))
    ensures var s := Run(server, actions);
            && tid in s.threads && s.threads[tid].stage.Finished?
            && (s.threads[tid].stage.outcome.Ok? <==> !exists u :: SameTextUsed(s, tid, u))
  {
    GrantedCodeRedeems(server, actions, from, tid, g);
    RivalsShareText(server, Run(server, actions), tid);
  }

  lemma RivalsShareText(server: Server, s: State, tid: nat)
    requires server.prims.DigestsInjective() && tid in s.threads
    ensures forall u :: IsRival(server, s, tid, u) <==> SameTextUsed(s, tid, u)
  {
    forall u | u in OneTime.Past(s)
      ensures KeyOf(server, s.threads[u]) == KeyOf(server, s.threads[tid]) <==>
                s.threads[u].req.code == s.threads[tid].req.code
    {
      ReplayKeyInjective(server.prims, s.threads[u].req.code, s.threads[tid].req.code);
    }
  }
}
