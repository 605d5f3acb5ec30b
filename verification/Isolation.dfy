// What requests do to one another: failed requests leave no trace, a refusal
// has its reason, and a good request succeeds.
module Isolation {
  import opened Wrappers
  import opened Code
  import opened Client
  import opened Storage
  import opened Protocol
  import opened Service
  import OneTime
  import Provenance

  // ------------------------------------------------------------- Erasure

  predicate Concerns(e: Event, tids: set<nat>) {
    match e
    case Accepted(tid, _, _, _) => tid in tids
    case ConsumedBy(tid, _) => tid in tids
    case Drew(tid, _) => tid in tids
    case Issued(tid, _, _) => tid in tids
    case _ => false
  }

  function EraseLog(log: seq<Event>, tids: set<nat>): seq<Event> {
    if log == [] then []
    else
      var e := log[|log| - 1];
      EraseLog(log[..|log| - 1], tids) + if Concerns(e, tids) then [] else [e]
  }

  // The state without the threads and the events of some requests. The store
  // is the same.
  ghost function Erase(s: State, tids: set<nat>): State {
    State(s.store, s.threads - tids, EraseLog(s.log, tids))
  }

  predicate IsStepOf(a: Action, tids: set<nat>) {
    match a
    case Receiving(tid, _) => tid in tids
    case Advancing(tid, _) => tid in tids
    case _ => false
  }

  // The run without their steps.
  function EraseSteps(actions: seq<Action>, tids: set<nat>): seq<Action> {
    if actions == [] then []
    else
      var a := actions[|actions| - 1];
      EraseSteps(actions[..|actions| - 1], tids) + if IsStepOf(a, tids) then [] else [a]
  }

  lemma EraseEvents(log: seq<Event>, events: seq<Event>, tids: set<nat>)
    requires |events| <= 1
    ensures EraseLog(log + events, tids) ==
            EraseLog(log, tids) + if events == [] || Concerns(events[0], tids) then [] else events
  {
    if events == [] {
      assert log + [] == log;
    } else {
      assert events == [events[0]] && (log + events)[..|log|] == log;
    }
  }

  lemma EventsConcern(server: Server, tid: nat, env: Env, thread: Thread, stage': Stage, tids: set<nat>)
    ensures forall e | e in Happened(server, tid, env, thread, stage') :: Concerns(e, tids) <==> tid in tids
  {
  }

  // A step of an erased request that does not get past consumption.
  lemma ErasedStep(server: Server, s: State, tid: nat, env: Env, tids: set<nat>)
    requires tid in tids && tid in s.threads
    requires !PastConsumption(Advance(server, s, tid, env).threads[tid].stage)
    ensures Erase(Advance(server, s, tid, env), tids) == Erase(s, tids)
  {
    var s', thread := Advance(server, s, tid, env), s.threads[tid];
    OneTime.NextFacts(server, env, s.store, thread.req, thread.stage);
    var events := Happened(server, tid, env, thread, s'.threads[tid].stage);
    EventsConcern(server, tid, env, thread, s'.threads[tid].stage, tids);
    EraseEvents(s.log, events, tids);
    assert events != [] ==> events[0] in events;
    assert s'.threads - tids == s.threads - tids;
    assert s'.store == s.store;
  }

  // A step of another request does the same with and without the erased ones.
  lemma KeptStep(server: Server, s: State, tid: nat, env: Env, tids: set<nat>)
    requires tid !in tids && tid in s.threads
    ensures Erase(Advance(server, s, tid, env), tids) == Advance(server, Erase(s, tids), tid, env)
  {
    var s', thread := Advance(server, s, tid, env), s.threads[tid];
    var events := Happened(server, tid, env, thread, s'.threads[tid].stage);
    EventsConcern(server, tid, env, thread, s'.threads[tid].stage, tids);
    EraseEvents(s.log, events, tids);
    assert events != [] ==> events[0] in events;
    assert s'.threads - tids == (s.threads - tids)[tid := s'.threads[tid]];
  }

  lemma GrantStep(s: State, grant: Option<Grant>, tids: set<nat>)
    ensures Erase(LogGrant(s, grant), tids) == LogGrant(Erase(s, tids), grant)
  {
    if grant.Some? { EraseEvents(s.log, [Granted(grant.value)], tids); }
  }

  lemma ReceiveStep(server: Server, s: State, tid: nat, req: AccessTokenRequest, tids: set<nat>)
    ensures Erase(Apply(server, s, Receiving(tid, req)), tids) ==
            if tid in tids then Erase(s, tids) else Apply(server, Erase(s, tids), Receiving(tid, req))
  {
    if tid !in s.threads {
      var threads' := s.threads[tid := Thread(req, Received)];
      if tid in tids {
        assert threads' - tids == s.threads - tids;
      } else {
        assert threads' - tids == (s.threads - tids)[tid := Thread(req, Received)];
      }
    }
  }

  lemma EraseStep(server: Server, s: State, a: Action, tids: set<nat>)
    requires tids !! OneTime.Past(Apply(server, s, a))
    ensures Erase(Apply(server, s, a), tids) ==
            if IsStepOf(a, tids) then Erase(s, tids) else Apply(server, Erase(s, tids), a)
  {
    match a {
      case Authorizing(params, header, codeTime, stampTime) =>
        GrantStep(s, Authorize(server, params, header, codeTime, stampTime).0, tids);
      case Receiving(tid, req) => ReceiveStep(server, s, tid, req, tids);
      case Advancing(tid, env) =>
        if tid in s.threads {
          if tid in tids {
            assert tid !in OneTime.Past(Apply(server, s, a));
            ErasedStep(server, s, tid, env, tids);
          } else {
            KeptStep(server, s, tid, env, tids);
          }
        }
      case RevokingToken(jti) =>
        EraseEvents(s.log, [Revoked(jti, jti in s.store.records)], tids);
    }
  }

  lemma PastStays(server: Server, s: State, a: Action)
    ensures OneTime.Past(s) <= OneTime.Past(Apply(server, s, a))
  {
    match a {
      case Advancing(tid, env) =>
        if tid in s.threads { OneTime.NextFacts(server, env, s.store, s.threads[tid].req, s.threads[tid].stage); }
      case _ =>
    }
  }

  // Deleting from any run the steps of requests that never got past consumption
  // leaves the store and every other request and event exactly as they were.
  lemma {:induction false} ErasureIsInvisible(server: Server, actions: seq<Action>, tids: set<nat>)
    requires tids !! OneTime.Past(Run(server, actions))
    ensures Run(server, EraseSteps(actions, tids)) == Erase(Run(server, actions), tids)
  {
    if actions == [] {
      assert START.threads - tids == START.threads;
    } else {
      var init, a := actions[..|actions| - 1], actions[|actions| - 1];
      PastStays(server, Run(server, init), a);
      ErasureIsInvisible(server, init, tids);
      EraseStep(server, Run(server, init), a, tids);
      var kept := EraseSteps(init, tids);
      if IsStepOf(a, tids) {
        assert EraseSteps(actions, tids) == kept;
      } else {
        RunSnoc(server, kept, a);
      }
    }
  }

  // The requests answered InvalidGrant or InvalidClient are such requests: both
  // maps are what they would be had those requests never been made.
  lemma RefusedLeaveNoTrace(server: Server, actions: seq<Action>, tids: set<nat>)
    requires var s := Run(server, actions);
             forall tid | tid in tids && tid in s.threads ::
               && s.threads[tid].stage.Finished? && s.threads[tid].stage.outcome.Err?
               && (s.threads[tid].stage.outcome.error.InvalidGrant?
                   || s.threads[tid].stage.outcome.error == InvalidClient)
    ensures Run(server, EraseSteps(actions, tids)).store == Run(server, actions).store
    ensures forall tid | tid in Run(server, actions).threads && tid !in tids ::
              && tid in Run(server, EraseSteps(actions, tids)).threads
              && Run(server, EraseSteps(actions, tids)).threads[tid] == Run(server, actions).threads[tid]
  {
    ErasureIsInvisible(server, actions, tids);
  }

  // ------------------------------------------------------------- Refusals

  // The step from this stage makes this check.
  predicate MakesCheck(stage: Stage, c: Check) {
    match c
    case Decoding => stage.Received?
    case Freshness => stage.Received?
    case ClientMatch => stage.Verified?
    case RedirectMatch => stage.Verified?
    case Pkce => stage.Verified?
    case Registration => stage.Bound?
    case ClientSecret => stage.Registered?
    case FirstUse => stage.Authenticated?
    case IdSigning => stage.Drawn?
    case AccessSigning => stage.IdSigned?
  }

  // Of the checks the step makes, this is the first to fail, with the step's
  // own clock, signers and store.
  ghost predicate FailsHere(server: Server, env: Env, store: StoreState, thread: Thread, c: Check) {
    && MakesCheck(thread.stage, c) && !Passes(server, env, store, thread.req, c)
    && forall d | MakesCheck(thread.stage, d) && Rank(d) < Rank(c) :: Passes(server, env, store, thread.req, d)
  }

  // Action k of the run is a step of the request, and there the check failed.
  ghost predicate FailedAt(server: Server, actions: seq<Action>, tid: nat, req: AccessTokenRequest, k: nat, c: Check) {
    && k < |actions| && actions[k].Advancing? && actions[k].tid == tid
    && var s := Run(server, actions[..k]);
       && tid in s.threads && s.threads[tid].req == req
       && FailsHere(server, actions[k].env, s.store, s.threads[tid], c)
  }

  // Another request past consumption with the same replay key.
  ghost predicate IsRival(server: Server, s: State, tid: nat, u: nat)
    requires tid in s.threads
  {
    u != tid && u in OneTime.Past(s) && KeyOf(server, s.threads[u]) == KeyOf(server, s.threads[tid])
  }

  // The answer names a check that failed at one of the request's steps; when
  // that was first use, another request has the code.
  ghost predicate RefusedBy(server: Server, actions: seq<Action>, tid: nat, e: OIDCError, c: Check)
    requires tid in Run(server, actions).threads
  {
    var s := Run(server, actions);
    && e == ErrorOf(server, s.threads[tid].req, c)
    && (exists k: nat :: FailedAt(server, actions, tid, s.threads[tid].req, k, c))
    && (c.FirstUse? ==> exists u :: IsRival(server, s, tid, u))
  }

  // A request still in flight carries what its code opens to.
  ghost predicate CarriesCode(server: Server, req: AccessTokenRequest, stage: Stage) {
    match stage
    case Verified(code) => Opens(server, req, code)
    case Bound(code) => Opens(server, req, code)
    case Registered(code) => Opens(server, req, code)
    case Authenticated(code) => Opens(server, req, code)
    case _ => true
  }

  ghost predicate Opens(server: Server, req: AccessTokenRequest, code: AuthorizationCode) {
    var held := Opened(server.prims, req.code, server.hmacKey);
    held.Ok? && held.value.content == code
  }

  ghost predicate Stands(server: Server, actions: seq<Action>, tid: nat)
    requires tid in Run(server, actions).threads
  {
    var thread := Run(server, actions).threads[tid];
    && CarriesCode(server, thread.req, thread.stage)
    && (thread.stage.Finished? && thread.stage.outcome.Err? ==>
          exists c :: RefusedBy(server, actions, tid, thread.stage.outcome.error, c))
  }

  lemma BindingRefusal(server: Server, env: Env, store: StoreState, thread: Thread) returns (c: Check)
    requires CarriesCode(server, thread.req, thread.stage) && thread.stage.Verified?
    requires Next(server, env, store, thread.req, thread.stage).1.Finished?
    ensures Next(server, env, store, thread.req, thread.stage).1 == Failed(ErrorOf(server, thread.req, c))
    ensures FailsHere(server, env, store, thread, c)
  {
    var code := thread.stage.code;
    c := if code.clientId != thread.req.clientId then ClientMatch
         else if code.redirectUri != thread.req.redirectUri then RedirectMatch
         else Pkce;
  }

  // The check at which a step refuses.
  lemma RefusalStep(server: Server, env: Env, store: StoreState, thread: Thread) returns (c: Check)
    requires CarriesCode(server, thread.req, thread.stage) && !thread.stage.Finished?
    requires var stage' := Next(server, env, store, thread.req, thread.stage).1;
             stage'.Finished? && stage'.outcome.Err?
    ensures Next(server, env, store, thread.req, thread.stage).1.outcome.error == ErrorOf(server, thread.req, c)
    ensures FailsHere(server, env, store, thread, c)
  {
    match thread.stage {
      case Received => c := if Opened(server.prims, thread.req.code, server.hmacKey).Ok? then Freshness else Decoding;
      case Verified(_) => c := BindingRefusal(server, env, store, thread);
      case Bound(_) => c := Registration;
      case Registered(_) => c := ClientSecret;
      case Authenticated(_) => c := FirstUse;
      case Drawn(_, _) => c := IdSigning;
      case _ => c := AccessSigning;
    }
  }

  lemma NextCarries(server: Server, env: Env, store: StoreState, req: AccessTokenRequest, stage: Stage)
    requires CarriesCode(server, req, stage)
    ensures CarriesCode(server, req, Next(server, env, store, req, stage).1)
  {
  }

  lemma RequestsStay(server: Server, s: State, a: Action)
    ensures var s' := Apply(server, s, a);
            forall u | u in s.threads :: u in s'.threads && s'.threads[u].req == s.threads[u].req
  {
  }

  // Only its own steps move a request, and no step moves one that finished.
  lemma Unmoved(server: Server, s: State, a: Action, u: nat)
    requires u in s.threads && (a.Advancing? && a.tid == u ==> s.threads[u].stage.Finished?)
    ensures u in Apply(server, s, a).threads && Apply(server, s, a).threads[u] == s.threads[u]
  {
  }

  lemma RivalStays(server: Server, s: State, a: Action, tid: nat, u: nat)
    requires tid in s.threads && IsRival(server, s, tid, u)
    ensures tid in Apply(server, s, a).threads && IsRival(server, Apply(server, s, a), tid, u)
  {
    PastStays(server, s, a);
    RequestsStay(server, s, a);
  }

  lemma FailureStays(server: Server, init: seq<Action>, a: Action, tid: nat, req: AccessTokenRequest, k: nat, c: Check)
    requires FailedAt(server, init, tid, req, k, c)
    ensures FailedAt(server, init + [a], tid, req, k, c)
  {
    assert (init + [a])[..k] == init[..k];
  }

  // A refusal goes on standing.
  lemma RefusalStays(server: Server, init: seq<Action>, a: Action, tid: nat, e: OIDCError, c: Check)
    requires tid in Run(server, init).threads && RefusedBy(server, init, tid, e, c)
    ensures tid in Run(server, init + [a]).threads && RefusedBy(server, init + [a], tid, e, c)
  {
    var s := Run(server, init);
    var req := s.threads[tid].req;
    RunSnoc(server, init, a);
    RequestsStay(server, s, a);
    var k: nat :| FailedAt(server, init, tid, req, k, c);
    FailureStays(server, init, a, tid, req, k, c);
    if c.FirstUse? {
      var u :| IsRival(server, s, tid, u);
      RivalStays(server, s, a, tid, u);
    }
  }

  lemma OtherStep(server: Server, init: seq<Action>, a: Action, tid: nat)
    requires tid in Run(server, init).threads && Stands(server, init, tid)
    requires a.Advancing? && a.tid == tid ==> Run(server, init).threads[tid].stage.Finished?
    ensures tid in Run(server, init + [a]).threads && Stands(server, init + [a], tid)
  {
    RunSnoc(server, init, a);
    Unmoved(server, Run(server, init), a, tid);
    var stage := Run(server, init).threads[tid].stage;
    if stage.Finished? && stage.outcome.Err? {
      var c :| RefusedBy(server, init, tid, stage.outcome.error, c);
      RefusalStays(server, init, a, tid, stage.outcome.error, c);
    }
  }

  lemma NewRefusal(server: Server, init: seq<Action>, tid: nat, env: Env, e: OIDCError)
    requires tid in Run(server, init).threads && !Run(server, init).threads[tid].stage.Finished?
    requires var s := Run(server, init);
             && CarriesCode(server, s.threads[tid].req, s.threads[tid].stage)
             && Next(server, env, s.store, s.threads[tid].req, s.threads[tid].stage).1 == Failed(e)
    ensures tid in Run(server, init + [Advancing(tid, env)]).threads
    ensures exists c :: RefusedBy(server, init + [Advancing(tid, env)], tid, e, c)
  {
    var s, a := Run(server, init), Advancing(tid, env);
    var thread := s.threads[tid];
    var c := RefusalStep(server, env, s.store, thread);
    RunSnoc(server, init, a);
    RequestsStay(server, s, a);
    assert (init + [a])[..|init|] == init;
    assert FailedAt(server, init + [a], tid, thread.req, |init|, c);
    if c.FirstUse? {
      OneTime.Reachable(server, init);
      var u := RivalOf(server, s, tid);
      RivalStays(server, s, a, tid, u);
    }
    assert RefusedBy(server, init + [a], tid, e, c);
  }

  lemma RivalOf(server: Server, s: State, tid: nat) returns (u: nat)
    requires OneTime.KeysMatch(server, s) && tid in s.threads && s.threads[tid].stage.Authenticated?
    requires KeyOf(server, s.threads[tid]) in s.store.consumed
    ensures IsRival(server, s, tid, u)
  {
    var keys := OneTime.Keys(server, s);
    u :| u in keys && keys[u] == KeyOf(server, s.threads[tid]);
  }

  lemma OwnStep(server: Server, init: seq<Action>, tid: nat, env: Env)
    requires tid in Run(server, init).threads && Stands(server, init, tid)
    requires !Run(server, init).threads[tid].stage.Finished?
    ensures tid in Run(server, init + [Advancing(tid, env)]).threads
    ensures Stands(server, init + [Advancing(tid, env)], tid)
  {
    var s := Run(server, init);
    StepOfRun(server, init, tid, env);
    NextCarries(server, env, s.store, s.threads[tid].req, s.threads[tid].stage);
    var stage' := Next(server, env, s.store, s.threads[tid].req, s.threads[tid].stage).1;
    if stage'.Finished? && stage'.outcome.Err? {
      NewRefusal(server, init, tid, env, stage'.outcome.error);
    }
  }

  lemma Arrival(server: Server, init: seq<Action>, a: Action, tid: nat)
    requires tid !in Run(server, init).threads && tid in Run(server, init + [a]).threads
    ensures Stands(server, init + [a], tid)
  {
    RunSnoc(server, init, a);
  }

  lemma OneStep(server: Server, init: seq<Action>, a: Action, tid: nat)
    requires tid in Run(server, init).threads && Stands(server, init, tid)
    ensures tid in Run(server, init + [a]).threads && Stands(server, init + [a], tid)
  {
    if a.Advancing? && a.tid == tid && !Run(server, init).threads[tid].stage.Finished? {
      OwnStep(server, init, tid, a.env);
    } else {
      OtherStep(server, init, a, tid);
    }
  }

  // In every run, whoever was refused did fail, at a step of its own, the check
  // the answer names.
  lemma {:induction false} Reachable(server: Server, actions: seq<Action>, tid: nat)
    requires tid in Run(server, actions).threads
    ensures Stands(server, actions, tid)
  {
    var init, a := actions[..|actions| - 1], actions[|actions| - 1];
    assert actions == init + [a];
    if tid in Run(server, init).threads {
      Reachable(server, init, tid);
      OneStep(server, init, a, tid);
    } else {
      Arrival(server, init, a, tid);
    }
  }

  // In every run, a request that passes the checks on the request alone is
  // answered with tokens; or a step of it read its code outside the window, or
  // met a signer that failed; or another request with the same key has the
  // code.
  lemma GoodRequestAnswers(server: Server, actions: seq<Action>, tid: nat)
    requires tid in Run(server, actions).threads && Run(server, actions).threads[tid].stage.Finished?
    requires forall c :: RequestPasses(server, Run(server, actions).threads[tid].req, c)
    ensures var s := Run(server, actions);
            var req, outcome := s.threads[tid].req, s.threads[tid].stage.outcome;
            || outcome.Ok?
            || (exists k: nat, c :: FailedAt(server, actions, tid, req, k, c)
                  && c in {Freshness, IdSigning, AccessSigning} && outcome.error == ErrorOf(server, req, c))
            || (outcome.error == InvalidGrant(CodeAlreadyUsed) && exists u :: IsRival(server, s, tid, u))
  {
    Reachable(server, actions, tid);
    var s := Run(server, actions);
    var req := s.threads[tid].req;
    if s.threads[tid].stage.outcome.Err? {
      var c :| RefusedBy(server, actions, tid, s.threads[tid].stage.outcome.error, c);
      var k: nat :| FailedAt(server, actions, tid, req, k, c);
      NotOnRequest(server, actions, tid, req, k, c);
    }
  }

  lemma NotOnRequest(server: Server, actions: seq<Action>, tid: nat, req: AccessTokenRequest, k: nat, c: Check)
    requires FailedAt(server, actions, tid, req, k, c) && RequestPasses(server, req, c)
    ensures c in {Freshness, FirstUse, IdSigning, AccessSigning}
  {
  }

  // ------------------------------------------------------------- Progress

  function Steps(tid: nat, env: Env, n: nat): (actions: seq<Action>)
    ensures |actions| == n
  {
    if n == 0 then [] else Steps(tid, env, n - 1) + [Advancing(tid, env)]
  }

  // n steps of one request with no other in between.
  function Alone(server: Server, s: State, tid: nat, env: Env, n: nat): (s': State)
    requires tid in s.threads
    ensures tid in s'.threads
    decreases n
  {
    if n == 0 then s else Advance(server, Alone(server, s, tid, env, n - 1), tid, env)
  }

  lemma StepsSnoc(actions: seq<Action>, tid: nat, env: Env, n: nat)
    requires n > 0
    ensures actions + Steps(tid, env, n) == actions + Steps(tid, env, n - 1) + [Advancing(tid, env)]
  {
  }

  lemma {:induction false} RunAlone(server: Server, actions: seq<Action>, tid: nat, env: Env, n: nat)
    requires tid in Run(server, actions).threads
    ensures Run(server, actions + Steps(tid, env, n)) == Alone(server, Run(server, actions), tid, env, n)
    decreases n
  {
    if n == 0 {
      assert actions + [] == actions;
    } else {
      RunAlone(server, actions, tid, env, n - 1);
      StepsSnoc(actions, tid, env, n);
      StepOfRun(server, actions + Steps(tid, env, n - 1), tid, env);
    }
  }

  lemma StepOfRun(server: Server, actions: seq<Action>, tid: nat, env: Env)
    requires tid in Run(server, actions).threads
    ensures Run(server, actions + [Advancing(tid, env)]) == Advance(server, Run(server, actions), tid, env)
  {
    RunSnoc(server, actions, Advancing(tid, env));
  }

  // The request is n steps or more nearer its end, which is the same.
  ghost predicate Driven(server: Server, s: State, s': State, tid: nat, env: Env, n: nat)
    requires tid in s.threads && tid in s'.threads
  {
    var thread, thread' := s.threads[tid], s'.threads[tid];
    && thread'.req == thread.req
    && (thread'.stage.Finished? || StepsLeft(thread'.stage) + n <= StepsLeft(thread.stage))
    && Drive(server, env, s'.store, thread'.req, thread'.stage) ==
       Drive(server, env, s.store, thread.req, thread.stage)
  }

  lemma StepDrives(server: Server, s: State, tid: nat, env: Env)
    requires tid in s.threads
    ensures Driven(server, s, Advance(server, s, tid, env), tid, env, 1)
  {
    if !s.threads[tid].stage.Finished? {
      Reaches(server, env, s.store, s.threads[tid].req, s.threads[tid].stage);
    }
  }

  lemma FinishedStays(server: Server, s: State, tid: nat, env: Env)
    requires tid in s.threads && s.threads[tid].stage.Finished?
    ensures Advance(server, s, tid, env).threads[tid] == s.threads[tid]
  {
  }

  lemma DrivenOn(server: Server, s: State, mid: State, tid: nat, env: Env, n: nat)
    requires tid in s.threads && tid in mid.threads && Driven(server, s, mid, tid, env, n)
    ensures Driven(server, s, Advance(server, mid, tid, env), tid, env, n + 1)
  {
    StepDrives(server, mid, tid, env);
    if mid.threads[tid].stage.Finished? { FinishedStays(server, mid, tid, env); }
  }

  lemma {:induction false} AloneDrives(server: Server, s: State, tid: nat, env: Env, n: nat)
    requires tid in s.threads
    ensures Driven(server, s, Alone(server, s, tid, env, n), tid, env, n)
    decreases n
  {
    if n > 0 {
      AloneDrives(server, s, tid, env, n - 1);
      DrivenOn(server, s, Alone(server, s, tid, env, n - 1), tid, env, n - 1);
    }
  }

  lemma DriveEnd(server: Server, env: Env, store: StoreState, req: AccessTokenRequest, stage: Stage)
    requires StepsLeft(stage) == 0
    ensures stage == Finished(Drive(server, env, store, req, stage).1)
    ensures Drive(server, env, store, req, stage).0 == store
  {
  }

  lemma AloneFinishes(server: Server, s: State, tid: nat, env: Env, n: nat)
    requires tid in s.threads && StepsLeft(s.threads[tid].stage) <= n
    ensures var s' := Alone(server, s, tid, env, n);
            var (store', outcome) := Drive(server, env, s.store, s.threads[tid].req, s.threads[tid].stage);
            s'.store == store' && s'.threads[tid] == Thread(s.threads[tid].req, Finished(outcome))
  {
    AloneDrives(server, s, tid, env, n);
    var s' := Alone(server, s, tid, env, n);
    DriveEnd(server, env, s'.store, s'.threads[tid].req, s'.threads[tid].stage);
  }

  // A request run alone does what the sequential redemption does.
  lemma SoloIsDrive(server: Server, actions: seq<Action>, tid: nat, env: Env, n: nat)
    requires tid in Run(server, actions).threads && StepsLeft(Run(server, actions).threads[tid].stage) <= n
    ensures var s, s' := Run(server, actions), Run(server, actions + Steps(tid, env, n));
            var (store', outcome) := Drive(server, env, s.store, s.threads[tid].req, s.threads[tid].stage);
            && s'.store == store'
            && tid in s'.threads && s'.threads[tid] == Thread(s.threads[tid].req, Finished(outcome))
  {
    RunAlone(server, actions, tid, env, n);
    AloneFinishes(server, Run(server, actions), tid, env, n);
  }

  // The request presents the granted code as its client was given it.
  ghost predicate Presents(server: Server, req: AccessTokenRequest, g: Grant) {
    && req.code == Sealed(server.prims, g.code, server.hmacKey, g.stampedAt)
    && req.clientId == g.code.clientId && req.redirectUri == g.code.redirectUri
    && PkceHolds(server.prims, g.code, req.codeVerifier)
    && server.clients.ClientSecretResult(req.clientId, req.clientSecret) == Allow
  }

  // No request past consumption has the replay key of this text.
  ghost predicate Unused(server: Server, s: State, code: string) {
    forall t | t in OneTime.Past(s) :: KeyOf(server, s.threads[t]) != CodeReplayKey(server.prims, code)
  }

  lemma GrantedRequestPasses(server: Server, env: Env, s: State, g: Grant, req: AccessTokenRequest)
    requires server.prims.CodecLaws() && OneTime.KeysMatch(server, s)
    requires Provenance.GrantOk(server, g) && Presents(server, req, g) && Unused(server, s, req.code)
    requires InWindow(g.stampedAt, server.codeMaxAge, env.verifyAt) && env.idSigns && env.accessSigns
    ensures Opened(server.prims, req.code, server.hmacKey) == Ok(TimestampedContainer(g.code, g.stampedAt))
    ensures PassesUpTo(server, env, s.store, req, 10)
  {
    SealedOpens(server.prims, g.code, server.hmacKey, g.stampedAt, server.codeMaxAge, env.verifyAt);
    var keys := OneTime.Keys(server, s);
    assert CodeReplayKey(server.prims, req.code) !in s.store.consumed;
  }

  // In every reachable state, a matching request for a granted code that is
  // fresh and unused, run with a working signer, gets tokens faithful to the
  // grant, and their record is in the store.
  lemma FreshCodeRedeems(server: Server, actions: seq<Action>, g: Grant, tid: nat, req: AccessTokenRequest, env: Env)
    requires server.prims.CodecLaws()
    requires Granted(g) in Run(server, actions).log && tid !in Run(server, actions).threads
    requires Presents(server, req, g) && Unused(server, Run(server, actions), req.code)
    requires InWindow(g.stampedAt, server.codeMaxAge, env.verifyAt) && env.idSigns && env.accessSigns
    ensures var s' := Run(server, actions + [Receiving(tid, req)] + Steps(tid, env, 9));
            && tid in s'.threads && s'.threads[tid].stage.Finished? && s'.threads[tid].stage.outcome.Ok?
            && exists record: TokenRecord :: s'.store.Lookup(record.jti) == Some(record)
                 && Faithful(server, req, g.code, record, s'.threads[tid].stage.outcome.value)
  {
    var s := Run(server, actions);
    OneTime.Reachable(server, actions);
    GrantInLog(server, actions, g);
    GrantedRequestPasses(server, env, s, g, req);
    TableAccepts(server, env, s.store, req);
    RunSnoc(server, actions, Receiving(tid, req));
    SoloIsDrive(server, actions + [Receiving(tid, req)], tid, env, 9);
  }

  lemma GrantInLog(server: Server, actions: seq<Action>, g: Grant)
    requires Granted(g) in Run(server, actions).log
    ensures Provenance.GrantOk(server, g)
  {
    Provenance.Reachable(server, actions);
    var log := Run(server, actions).log;
    var k: nat :| k < |log| && log[k] == Granted(g);
    assert Provenance.EventJustified(server, log[..k], log[k]);
  }
}
