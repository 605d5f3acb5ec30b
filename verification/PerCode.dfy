// One-time use of a code, where OneTime speaks of the text that carries it: a
// code that can be redeemed is redeemed once exactly when all texts that open
// to it have one replay key. A reader that ignores what follows the item it
// reads does not meet this; one that reads only what is written does.
module PerCode {
  import opened Wrappers
  import opened Code
  import opened Storage
  import opened Protocol
  import opened Service
  import OneTime
  import Isolation
  import Provenance

  // The request passes the checks on the request alone that rank below this
  // one, and there is a time at which its code is fresh.
  ghost predicate Clears(server: Server, req: AccessTokenRequest, rank: nat) {
    && Opened(server.prims, req.code, server.hmacKey).Ok?
    && server.codeMaxAge > 0
    && forall c: Check | Rank(c) < rank :: RequestPasses(server, req, c)
  }

  // --------------------------------------- What a request has cleared so far

  function Level(stage: Stage): nat {
    match stage
    case Received => 0
    case Verified(_) => 2
    case Bound(_) => 5
    case Registered(_) => 6
    case Finished(_) => if PastConsumption(stage) then 7 else 0
    case _ => 7
  }

  ghost predicate Cleared(server: Server, thread: Thread) {
    && Isolation.CarriesCode(server, thread.req, thread.stage)
    && (Level(thread.stage) > 0 ==> Clears(server, thread.req, Level(thread.stage)))
  }

  lemma EarlyClears(server: Server, env: Env, store: StoreState, req: AccessTokenRequest, stage: Stage)
    requires Cleared(server, Thread(req, stage)) && Level(stage) < 7 && !stage.Finished?
    ensures var stage' := Next(server, env, store, req, stage).1;
            Level(stage') > 0 ==> Clears(server, req, Level(stage'))
  {
    var stage' := Next(server, env, store, req, stage).1;
    if Level(stage') > 0 {
      forall c: Check | Rank(c) < Level(stage')
        ensures RequestPasses(server, req, c)
      {
        if Level(stage) <= Rank(c) { StepChecks(server, env, store, req, stage, c); }
      }
    }
  }

  // A step that goes on makes the checks between its two stages.
  lemma StepChecks(server: Server, env: Env, store: StoreState, req: AccessTokenRequest, stage: Stage, c: Check)
    requires Isolation.CarriesCode(server, req, stage) && Level(stage) < 7 && !stage.Finished?
    requires Level(stage) <= Rank(c) < Level(Next(server, env, store, req, stage).1)
    ensures RequestPasses(server, req, c)
  {
  }

  lemma NextClears(server: Server, env: Env, store: StoreState, thread: Thread)
    requires Cleared(server, thread)
    ensures Cleared(server, Thread(thread.req, Next(server, env, store, thread.req, thread.stage).1))
  {
    Isolation.NextCarries(server, env, store, thread.req, thread.stage);
    if Level(thread.stage) < 7 && !thread.stage.Finished? {
      EarlyClears(server, env, store, thread.req, thread.stage);
    } else {
      NoLower(server, env, store, thread.req, thread.stage);
    }
  }

  lemma NoLower(server: Server, env: Env, store: StoreState, req: AccessTokenRequest, stage: Stage)
    requires Level(stage) == 7 || stage.Finished?
    ensures Level(Next(server, env, store, req, stage).1) in {0, Level(stage)}
  {
  }

  ghost predicate AllCleared(server: Server, s: State) {
    forall tid | tid in s.threads :: Cleared(server, s.threads[tid])
  }

  lemma AdvanceClears(server: Server, s: State, tid: nat, env: Env)
    requires AllCleared(server, s) && tid in s.threads
    ensures AllCleared(server, Advance(server, s, tid, env))
  {
    assert Cleared(server, s.threads[tid]);
    NextClears(server, env, s.store, s.threads[tid]);
    forall u | u in s.threads && u != tid
      ensures Cleared(server, Advance(server, s, tid, env).threads[u])
    {
      Isolation.Unmoved(server, s, Advancing(tid, env), u);
    }
  }

  lemma OtherClears(server: Server, s: State, a: Action)
    requires AllCleared(server, s) && !a.Advancing?
    ensures AllCleared(server, Apply(server, s, a))
  {
  }

  // In every reachable state, each request has passed the checks its stage says.
  lemma {:induction false} Reachable(server: Server, actions: seq<Action>)
    ensures AllCleared(server, Run(server, actions))
  {
    if actions != [] {
      var init, a := actions[..|actions| - 1], actions[|actions| - 1];
      Reachable(server, init);
      if a.Advancing? {
        if a.tid in Run(server, init).threads { AdvanceClears(server, Run(server, init), a.tid, a.env); }
      } else {
        OtherClears(server, Run(server, init), a);
      }
    }
  }

  // -------------------------------------------------- One request after another

  ghost predicate OthersKept(s: State, s': State, tid: nat) {
    && s'.threads.Keys == s.threads.Keys + {tid}
    && forall u | u in s.threads && u != tid :: s'.threads[u] == s.threads[u]
  }

  lemma StepKeepsOthers(server: Server, s: State, tid: nat, env: Env)
    requires tid in s.threads
    ensures OthersKept(s, Advance(server, s, tid, env), tid)
  {
  }

  lemma {:induction false} AloneKeeps(server: Server, s: State, tid: nat, env: Env, n: nat)
    requires tid in s.threads
    ensures OthersKept(s, Isolation.Alone(server, s, tid, env, n), tid)
    decreases n
  {
    if n > 0 {
      AloneKeeps(server, s, tid, env, n - 1);
      StepKeepsOthers(server, Isolation.Alone(server, s, tid, env, n - 1), tid, env);
    }
  }

  // The run that goes on with all of one request.
  function Whole(actions: seq<Action>, tid: nat, req: AccessTokenRequest, env: Env, n: nat): seq<Action> {
    actions + [Receiving(tid, req)] + Isolation.Steps(tid, env, n)
  }

  // The request completed, its key is the only new one, and the other requests
  // are where they were.
  ghost predicate CompletedAlone(server: Server, s: State, s': State, tid: nat, req: AccessTokenRequest) {
    && tid in OneTime.Completed(s') && s'.threads[tid].req == req
    && s'.store.consumed == s.store.consumed + {CodeReplayKey(server.prims, req.code)}
    && OthersKept(s, s', tid)
  }

  lemma AloneCompletes(server: Server, s: State, tid: nat, req: AccessTokenRequest, env: Env)
    requires tid in s.threads && s.threads[tid] == Thread(req, Received)
    requires PassesUpTo(server, env, s.store, req, 10)
    ensures CompletedAlone(server, s, Isolation.Alone(server, s, tid, env, 9), tid, req)
  {
    TableAccepts(server, env, s.store, req);
    Isolation.AloneFinishes(server, s, tid, env, 9);
    AloneKeeps(server, s, tid, env, 9);
  }

  function Arrived(s: State, tid: nat, req: AccessTokenRequest): State {
    s.(threads := s.threads[tid := Thread(req, Received)])
  }

  lemma RunReceiving(server: Server, actions: seq<Action>, tid: nat, req: AccessTokenRequest)
    requires tid !in Run(server, actions).threads
    ensures Run(server, actions + [Receiving(tid, req)]) == Arrived(Run(server, actions), tid, req)
  {
    RunSnoc(server, actions, Receiving(tid, req));
  }

  lemma RunWhole(server: Server, actions: seq<Action>, tid: nat, req: AccessTokenRequest, env: Env, n: nat)
    requires tid !in Run(server, actions).threads
    ensures Run(server, Whole(actions, tid, req, env, n)) ==
            Isolation.Alone(server, Arrived(Run(server, actions), tid, req), tid, env, n)
  {
    RunReceiving(server, actions, tid, req);
    Isolation.RunAlone(server, actions + [Receiving(tid, req)], tid, env, n);
  }

  // A request that passes every check completes when it runs alone.
  lemma Completes(server: Server, actions: seq<Action>, tid: nat, req: AccessTokenRequest, env: Env)
    requires tid !in Run(server, actions).threads
    requires PassesUpTo(server, env, Run(server, actions).store, req, 10)
    ensures CompletedAlone(server, Run(server, actions), Run(server, Whole(actions, tid, req, env, 9)), tid, req)
  {
    var s := Run(server, actions);
    RunWhole(server, actions, tid, req, env, 9);
    AloneCompletes(server, Arrived(s, tid, req), tid, req, env);
    SinceArrival(server, s, Isolation.Alone(server, Arrived(s, tid, req), tid, env, 9), tid, req);
  }

  lemma SinceArrival(server: Server, s: State, s': State, tid: nat, req: AccessTokenRequest)
    requires tid !in s.threads && CompletedAlone(server, Arrived(s, tid, req), s', tid, req)
    ensures CompletedAlone(server, s, s', tid, req)
  {
    assert Arrived(s, tid, req).threads.Keys == s.threads.Keys + {tid};
  }

  // An authorization of the run signed what the text carries.
  ghost predicate SignedIn(server: Server, log: seq<Event>, text: string) {
    exists i: nat :: i < |log| && Provenance.SignedFor(server, log[i], text)
  }

  lemma SignedStays(server: Server, log: seq<Event>, log': seq<Event>, text: string)
    requires SignedIn(server, log, text) && log <= log'
    ensures SignedIn(server, log', text)
  {
    var i: nat :| i < |log| && Provenance.SignedFor(server, log[i], text);
    assert log'[i] == log[i];
  }

  // From s the log has grown to one that an ideal MAC allows.
  ghost predicate IdealGrowth(server: Server, s: State, s': State, tid: nat)
    requires tid in s.threads && tid in s'.threads
  {
    s.log <= s'.log && s'.threads[tid].req == s.threads[tid].req && Provenance.IdealMac(server, s'.log)
  }

  // Steps of a request with such a text are steps an ideal MAC allows.
  lemma StepKeepsIdeal(server: Server, s: State, tid: nat, env: Env)
    requires tid in s.threads && SignedIn(server, s.log, s.threads[tid].req.code)
    requires Provenance.IdealMac(server, s.log)
    ensures IdealGrowth(server, s, Advance(server, s, tid, env), tid)
  {
    var log, s' := s.log, Advance(server, s, tid, env);
    assert forall i | 0 <= i < |log| :: s'.log[i] == log[i];
    forall k | |log| <= k < |s'.log| && s'.log[k].Accepted?
      ensures k == |log| && s'.log[k].req == s.threads[tid].req
    {
    }
  }

  lemma GrowOn(server: Server, s: State, mid: State, tid: nat, env: Env)
    requires tid in s.threads && tid in mid.threads && IdealGrowth(server, s, mid, tid)
    requires SignedIn(server, s.log, s.threads[tid].req.code)
    ensures IdealGrowth(server, s, Advance(server, mid, tid, env), tid)
  {
    SignedStays(server, s.log, mid.log, s.threads[tid].req.code);
    StepKeepsIdeal(server, mid, tid, env);
  }

  lemma {:induction false} AloneKeepsIdeal(server: Server, s: State, tid: nat, env: Env, n: nat)
    requires tid in s.threads && SignedIn(server, s.log, s.threads[tid].req.code)
    requires Provenance.IdealMac(server, s.log)
    ensures IdealGrowth(server, s, Isolation.Alone(server, s, tid, env, n), tid)
    decreases n
  {
    if n > 0 {
      AloneKeepsIdeal(server, s, tid, env, n - 1);
      GrowOn(server, s, Isolation.Alone(server, s, tid, env, n - 1), tid, env);
    }
  }

  lemma WholeKeepsIdeal(server: Server, actions: seq<Action>, tid: nat, req: AccessTokenRequest, env: Env, n: nat)
    requires tid !in Run(server, actions).threads && SignedIn(server, Run(server, actions).log, req.code)
    requires Provenance.IdealMac(server, Run(server, actions).log)
    ensures var log, log' := Run(server, actions).log, Run(server, Whole(actions, tid, req, env, n)).log;
            log <= log' && Provenance.IdealMac(server, log')
  {
    RunWhole(server, actions, tid, req, env, n);
    AloneKeepsIdeal(server, Arrived(Run(server, actions), tid, req), tid, env, n);
  }

  // ------------------------------------------------------------- Theorems

  ghost predicate OpensTo(server: Server, text: string, container: TimestampedContainer) {
    Opened(server.prims, text, server.hmacKey) == Ok(container)
  }

  // The request can redeem what is in the container.
  ghost predicate Redeems(server: Server, req: AccessTokenRequest, container: TimestampedContainer) {
    Clears(server, req, 7) && OpensTo(server, req.code, container)
  }

  // The texts that open to the container have one replay key.
  ghost predicate OneKey(server: Server, container: TimestampedContainer) {
    forall a, b | OpensTo(server, a, container) && OpensTo(server, b, container) ::
      CodeReplayKey(server.prims, a) == CodeReplayKey(server.prims, b)
  }

  // The request got tokens for what is in the container.
  ghost predicate RedeemedBy(server: Server, s: State, container: TimestampedContainer, tid: nat) {
    tid in OneTime.Completed(s) && OpensTo(server, s.threads[tid].req.code, container)
  }

  ghost predicate OncePerCode(server: Server, container: TimestampedContainer) {
    forall actions, t, u | RedeemedBy(server, Run(server, actions), container, t)
                           && RedeemedBy(server, Run(server, actions), container, u) :: t == u
  }

  lemma RedeemerRedeems(server: Server, s: State, container: TimestampedContainer, t: nat)
    requires AllCleared(server, s) && RedeemedBy(server, s, container, t)
    ensures t in OneTime.Past(s) && Redeems(server, s.threads[t].req, container)
  {
    assert Cleared(server, s.threads[t]);
  }

  lemma SameKeySameRequest(server: Server, s: State, t: nat, u: nat)
    requires OneTime.KeysMatch(server, s) && t in OneTime.Past(s) && u in OneTime.Past(s)
    requires KeyOf(server, s.threads[t]) == KeyOf(server, s.threads[u])
    ensures t == u
  {
    var keys := OneTime.Keys(server, s);
    assert t in keys && u in keys && keys[t] == keys[u];
  }

  lemma OneKeySuffices(server: Server, container: TimestampedContainer, actions: seq<Action>, t: nat, u: nat)
    requires OneKey(server, container)
    requires RedeemedBy(server, Run(server, actions), container, t)
    requires RedeemedBy(server, Run(server, actions), container, u)
    ensures t == u
  {
    OneTime.Reachable(server, actions);
    SameKeySameRequest(server, Run(server, actions), t, u);
  }

  lemma Passing(server: Server, req: AccessTokenRequest, container: TimestampedContainer, env: Env, store: StoreState)
    requires Redeems(server, req, container) && CodeReplayKey(server.prims, req.code) !in store.consumed
    requires env.verifyAt == container.timestamp && env.idSigns && env.accessSigns
    ensures PassesUpTo(server, env, store, req, 10)
  {
    assert forall c: Check | Rank(c) < 7 :: RequestPasses(server, req, c);
  }

  ghost predicate GotTokens(s: State, tid: nat, req: AccessTokenRequest) {
    tid in OneTime.Completed(s) && s.threads[tid].req == req
  }

  // Two free threads, and two texts with different keys that no request has used.
  ghost predicate CanBoth(server: Server, s: State, t: nat, a: string, u: nat, b: string) {
    && t != u && t !in s.threads && u !in s.threads
    && CodeReplayKey(server.prims, a) !in s.store.consumed && CodeReplayKey(server.prims, b) !in s.store.consumed
    && CodeReplayKey(server.prims, a) != CodeReplayKey(server.prims, b)
  }

  ghost predicate BothGetTokens(server: Server, actions: seq<Action>, t: nat, r: AccessTokenRequest, u: nat,
                                q: AccessTokenRequest) {
    GotTokens(Run(server, actions), t, r) && GotTokens(Run(server, actions), u, q)
  }

  // One request, and then the other.
  function InTurn(actions: seq<Action>, t: nat, r: AccessTokenRequest, env: Env, u: nat, q: AccessTokenRequest,
                  env': Env): seq<Action>
  {
    Whole(Whole(actions, t, r, env, 9), u, q, env', 9)
  }

  function EnvAt(now: Time): Env {
    Env(now, now, now, now, seq(16, _ => 0), true, true)
  }

  lemma InTurnBothGet(server: Server, actions: seq<Action>, t: nat, r: AccessTokenRequest, c: TimestampedContainer,
                      u: nat, q: AccessTokenRequest, c': TimestampedContainer)
    requires Redeems(server, r, c) && Redeems(server, q, c')
    requires CanBoth(server, Run(server, actions), t, r.code, u, q.code)
    ensures BothGetTokens(server, InTurn(actions, t, r, EnvAt(c.timestamp), u, q, EnvAt(c'.timestamp)), t, r, u, q)
  {
    var env, env' := EnvAt(c.timestamp), EnvAt(c'.timestamp);
    Passing(server, r, c, env, Run(server, actions).store);
    Completes(server, actions, t, r, env);
    var first := Whole(actions, t, r, env, 9);
    Passing(server, q, c', env', Run(server, first).store);
    Completes(server, first, u, q, env');
  }

  lemma InTurnKeepsIdeal(server: Server, actions: seq<Action>, t: nat, r: AccessTokenRequest, env: Env, u: nat,
                         q: AccessTokenRequest, env': Env)
    requires t != u && t !in Run(server, actions).threads && u !in Run(server, actions).threads
    requires SignedIn(server, Run(server, actions).log, r.code) && SignedIn(server, Run(server, actions).log, q.code)
    requires Provenance.IdealMac(server, Run(server, actions).log)
    ensures Provenance.IdealMac(server, Run(server, InTurn(actions, t, r, env, u, q, env')).log)
  {
    var first := Whole(actions, t, r, env, 9);
    WholeKeepsIdeal(server, actions, t, r, env, 9);
    SignedStays(server, Run(server, actions).log, Run(server, first).log, q.code);
    WholeAddsOne(server, actions, t, r, env, 9);
    WholeKeepsIdeal(server, first, u, q, env', 9);
  }

  lemma WholeAddsOne(server: Server, actions: seq<Action>, tid: nat, req: AccessTokenRequest, env: Env, n: nat)
    requires tid !in Run(server, actions).threads
    ensures Run(server, Whole(actions, tid, req, env, n)).threads.Keys == Run(server, actions).threads.Keys + {tid}
  {
    RunWhole(server, actions, tid, req, env, n);
    AloneKeeps(server, Arrived(Run(server, actions), tid, req), tid, env, n);
  }

  lemma InTurnGoesOn(actions: seq<Action>, t: nat, r: AccessTokenRequest, env: Env, u: nat, q: AccessTokenRequest,
                     env': Env) returns (more: seq<Action>)
    ensures InTurn(actions, t, r, env, u, q, env') == actions + more
  {
    more := InTurn(actions, t, r, env, u, q, env')[|actions|..];
  }

  // From any state in which their keys are unused, two requests that can each
  // redeem a code can both get tokens exactly when the keys differ.
  lemma TwoKeysRedeemTwice(server: Server, actions: seq<Action>, container: TimestampedContainer, t: nat,
                           r: AccessTokenRequest, u: nat, q: AccessTokenRequest)
    requires Redeems(server, r, container) && Redeems(server, q, container)
    requires t != u && t !in Run(server, actions).threads && u !in Run(server, actions).threads
    requires CodeReplayKey(server.prims, r.code) !in Run(server, actions).store.consumed
    requires CodeReplayKey(server.prims, q.code) !in Run(server, actions).store.consumed
    ensures (exists more :: BothGetTokens(server, actions + more, t, r, u, q)) <==>
            CodeReplayKey(server.prims, r.code) != CodeReplayKey(server.prims, q.code)
  {
    if CodeReplayKey(server.prims, r.code) != CodeReplayKey(server.prims, q.code) {
      InTurnBothGet(server, actions, t, r, container, u, q, container);
      var more := InTurnGoesOn(actions, t, r, EnvAt(container.timestamp), u, q, EnvAt(container.timestamp));
      assert BothGetTokens(server, actions + more, t, r, u, q);
    } else {
      forall more | BothGetTokens(server, actions + more, t, r, u, q)
        ensures false
      {
        SameKeyOnlyOne(server, actions + more, t, r, u, q);
      }
    }
  }

  lemma SameKeyOnlyOne(server: Server, actions: seq<Action>, t: nat, r: AccessTokenRequest, u: nat,
                       q: AccessTokenRequest)
    requires CodeReplayKey(server.prims, r.code) == CodeReplayKey(server.prims, q.code) && t != u
    ensures !BothGetTokens(server, actions, t, r, u, q)
  {
    OneTime.Reachable(server, actions);
    if BothGetTokens(server, actions, t, r, u, q) {
      SameKeySameRequest(server, Run(server, actions), t, u);
    }
  }

  // A request for the same code by way of another text.
  lemma AnotherText(server: Server, req: AccessTokenRequest, container: TimestampedContainer, text: string)
    requires Redeems(server, req, container) && OpensTo(server, text, container)
    ensures Redeems(server, req.(code := text), container)
  {
    forall c: Check | Rank(c) < 7
      ensures RequestPasses(server, req.(code := text), c)
    {
      assert RequestPasses(server, req, c);
    }
  }

  lemma TwoTextsRedeemTwice(server: Server, container: TimestampedContainer, req: AccessTokenRequest, a: string,
                            b: string)
    requires Redeems(server, req, container) && OpensTo(server, a, container) && OpensTo(server, b, container)
    requires CodeReplayKey(server.prims, a) != CodeReplayKey(server.prims, b)
    ensures !OncePerCode(server, container)
  {
    AnotherText(server, req, container, a);
    AnotherText(server, req, container, b);
    var r, q := req.(code := a), req.(code := b);
    InTurnBothGet(server, [], 0, r, container, 1, q, container);
    var actions := InTurn([], 0, r, EnvAt(container.timestamp), 1, q, EnvAt(container.timestamp));
    var s := Run(server, actions);
    assert RedeemedBy(server, s, container, 0) && RedeemedBy(server, s, container, 1);
  }

  lemma RedeemableIfRedeemed(server: Server, container: TimestampedContainer, actions: seq<Action>, t: nat)
    requires RedeemedBy(server, Run(server, actions), container, t)
    ensures exists req :: Redeems(server, req, container)
  {
    Reachable(server, actions);
    RedeemerRedeems(server, Run(server, actions), container, t);
  }

  // In every run at most one request gets tokens for what is in the container,
  // if and only if no request can or the texts that open to it have one key.
  lemma OncePerCodeIff(server: Server, container: TimestampedContainer)
    ensures OncePerCode(server, container) <==>
              ((exists req :: Redeems(server, req, container)) ==> OneKey(server, container))
  {
    if OneKey(server, container) {
      forall actions, t, u | RedeemedBy(server, Run(server, actions), container, t)
                             && RedeemedBy(server, Run(server, actions), container, u)
        ensures t == u
      {
        OneKeySuffices(server, container, actions, t, u);
      }
    } else if req :| Redeems(server, req, container) {
      var a, b :| OpensTo(server, a, container) && OpensTo(server, b, container)
                  && CodeReplayKey(server.prims, a) != CodeReplayKey(server.prims, b);
      TwoTextsRedeemTwice(server, container, req, a, b);
    } else {
      forall actions, t | RedeemedBy(server, Run(server, actions), container, t)
        ensures false
      {
        RedeemableIfRedeemed(server, container, actions, t);
      }
    }
  }

  // ------------------------------------------- In runs an ideal MAC allows

  // The text carries the signed data of the grant.
  ghost predicate Carries(server: Server, text: string, g: Grant) {
    SignedData(server.prims, text, server.hmacKey) == Ok(Data(server.prims, g.code, g.stampedAt))
  }

  function Container(g: Grant): TimestampedContainer {
    TimestampedContainer(g.code, g.stampedAt)
  }

  ghost predicate OneSignedKey(server: Server, g: Grant) {
    forall a, b | Carries(server, a, g) && Carries(server, b, g) ::
      CodeReplayKey(server.prims, a) == CodeReplayKey(server.prims, b)
  }

  ghost predicate OncePerGrant(server: Server, g: Grant) {
    forall actions, t, u | Provenance.IdealMac(server, Run(server, actions).log)
                           && RedeemedBy(server, Run(server, actions), Container(g), t)
                           && RedeemedBy(server, Run(server, actions), Container(g), u) :: t == u
  }

  lemma CarriesOpens(server: Server, text: string, g: Grant)
    requires server.prims.CodecLaws() && Carries(server, text, g)
    ensures OpensTo(server, text, Container(g))
  {
  }

  // What was accepted under an ideal MAC carries signed data.
  lemma AcceptedCarries(server: Server, log: seq<Event>, k: nat, g: Grant)
    requires server.prims.CodecLaws() && Provenance.IdealMac(server, log) && k < |log| && log[k].Accepted?
    requires OpensTo(server, log[k].req.code, Container(g))
    ensures Carries(server, log[k].req.code, g)
  {
    var i: nat :| i < k && Provenance.SignedFor(server, log[i], log[k].req.code);
    CarriesOpens(server, log[k].req.code, log[i].grant);
  }

  lemma RedeemedCarries(server: Server, s: State, g: Grant, tid: nat)
    requires server.prims.CodecLaws() && Provenance.IdealMac(server, s.log) && Provenance.Justified(server, s)
    requires RedeemedBy(server, s, Container(g), tid)
    ensures Carries(server, s.threads[tid].req.code, g)
  {
    var req, response := s.threads[tid].req, s.threads[tid].stage.outcome.value;
    assert Provenance.ThreadJustified(server, s.log, tid, s.threads[tid]);
    var e, code :| Provenance.IssuedTo(server, s.log, e, tid, req, code, response);
    var t :| Provenance.DrewAt(server, s.log, t, tid, req, code, e.record.jti);
    AcceptedCarries(server, s.log, t.accepted, g);
  }

  lemma OneSignedKeySuffices(server: Server, actions: seq<Action>, g: Grant, t: nat, u: nat)
    requires server.prims.CodecLaws() && Provenance.IdealMac(server, Run(server, actions).log)
    requires OneSignedKey(server, g)
    requires RedeemedBy(server, Run(server, actions), Container(g), t)
    requires RedeemedBy(server, Run(server, actions), Container(g), u)
    ensures t == u
  {
    OneTime.Reachable(server, actions);
    Provenance.Reachable(server, actions);
    OneSignedKeyDecides(server, Run(server, actions), g, t, u);
  }

  lemma OneSignedKeyDecides(server: Server, s: State, g: Grant, t: nat, u: nat)
    requires server.prims.CodecLaws() && Provenance.IdealMac(server, s.log) && OneSignedKey(server, g)
    requires OneTime.KeysMatch(server, s) && Provenance.Justified(server, s)
    requires RedeemedBy(server, s, Container(g), t) && RedeemedBy(server, s, Container(g), u)
    ensures t == u
  {
    RedeemedCarries(server, s, g, t);
    RedeemedCarries(server, s, g, u);
    SameKeySameRequest(server, s, t, u);
  }

  lemma GrantSigns(server: Server, log: seq<Event>, g: Grant, text: string)
    requires Granted(g) in log && Carries(server, text, g)
    ensures SignedIn(server, log, text)
  {
    var i: nat :| i < |log| && log[i] == Granted(g);
    assert Provenance.SignedFor(server, log[i], text);
  }

  // After the grant, two texts that carry it and whose keys differ and are
  // unused both get tokens; and an ideal MAC allows it.
  lemma GrantRedeemedTwice(server: Server, actions: seq<Action>, g: Grant, req: AccessTokenRequest, t: nat, a: string,
                           u: nat, b: string) returns (more: seq<Action>)
    requires server.prims.CodecLaws() && Granted(g) in Run(server, actions).log && Redeems(server, req, Container(g))
    requires Carries(server, a, g) && Carries(server, b, g)
    requires CanBoth(server, Run(server, actions), t, a, u, b)
    ensures BothGetTokens(server, actions + more, t, req.(code := a), u, req.(code := b))
    ensures Provenance.IdealMac(server, Run(server, actions).log) ==>
              Provenance.IdealMac(server, Run(server, actions + more).log)
  {
    var log, env := Run(server, actions).log, EnvAt(g.stampedAt);
    var r, q := req.(code := a), req.(code := b);
    CarriesOpens(server, a, g);
    CarriesOpens(server, b, g);
    AnotherText(server, req, Container(g), a);
    AnotherText(server, req, Container(g), b);
    InTurnBothGet(server, actions, t, r, Container(g), u, q, Container(g));
    GrantSigns(server, log, g, a);
    GrantSigns(server, log, g, b);
    if Provenance.IdealMac(server, log) {
      InTurnKeepsIdeal(server, actions, t, r, env, u, q, env);
    }
    more := InTurnGoesOn(actions, t, r, env, u, q, env);
  }

  // No request past consumption presented this text.
  ghost predicate NotPresented(s: State, text: string) {
    forall u | u in OneTime.Past(s) :: s.threads[u].req.code != text
  }

  lemma NotConsumed(server: Server, s: State, text: string)
    requires OneTime.KeysMatch(server, s) && server.prims.DigestsInjective() && NotPresented(s, text)
    ensures CodeReplayKey(server.prims, text) !in s.store.consumed
  {
    var keys := OneTime.Keys(server, s);
    if CodeReplayKey(server.prims, text) in s.store.consumed {
      var u :| u in keys && keys[u] == CodeReplayKey(server.prims, text);
      ReplayKeyInjective(server.prims, s.threads[u].req.code, text);
    }
  }

  lemma DifferentTexts(p: Primitives, key: Bytes, g: Grant, h: Grant)
    requires p.CodecLaws() && Container(g) != Container(h)
    ensures Sealed(p, g.code, key, g.stampedAt) != Sealed(p, h.code, key, h.stampedAt)
  {
    SealedOpens(p, g.code, key, g.stampedAt, 1, g.stampedAt);
    SealedOpens(p, h.code, key, h.stampedAt, 1, h.stampedAt);
  }

  // Redeeming one code does not stand in the way of another: in every run that
  // granted two different codes whose texts no request has used, both can still
  // be redeemed.
  lemma TwoGrantsRedeem(server: Server, actions: seq<Action>, g: Grant, h: Grant, t: nat, r: AccessTokenRequest,
                        u: nat, q: AccessTokenRequest) returns (more: seq<Action>)
    requires server.prims.CodecLaws() && server.prims.DigestsInjective() && server.codeMaxAge > 0
    requires Granted(g) in Run(server, actions).log && Granted(h) in Run(server, actions).log
    requires Container(g) != Container(h) && Isolation.Presents(server, r, g) && Isolation.Presents(server, q, h)
    requires t != u && t !in Run(server, actions).threads && u !in Run(server, actions).threads
    requires NotPresented(Run(server, actions), r.code) && NotPresented(Run(server, actions), q.code)
    ensures BothGetTokens(server, actions + more, t, r, u, q)
  {
    PresentedRedeems(server, actions, g, r);
    PresentedRedeems(server, actions, h, q);
    OneTime.Reachable(server, actions);
    NotConsumed(server, Run(server, actions), r.code);
    NotConsumed(server, Run(server, actions), q.code);
    DifferentTexts(server.prims, server.hmacKey, g, h);
    ReplayKeyInjective(server.prims, r.code, q.code);
    InTurnBothGet(server, actions, t, r, Container(g), u, q, Container(h));
    more := InTurnGoesOn(actions, t, r, EnvAt(g.stampedAt), u, q, EnvAt(h.stampedAt));
  }

  // The run of one authorization.
  lemma JustGranted(server: Server, a: Action, g: Grant)
    requires a.Authorizing? && Authorize(server, a.params, a.header, a.codeTime, a.stampTime).0 == Some(g)
    ensures Run(server, [a]) == State(EMPTY, map[], [Granted(g)])
  {
    assert [a] == [] + [a];
    RunSnoc(server, [], a);
  }

  lemma TwoSignedKeys(server: Server, action: Action, g: Grant, req: AccessTokenRequest, a: string, b: string)
    requires server.prims.CodecLaws() && Redeems(server, req, Container(g))
    requires action.Authorizing?
    requires Authorize(server, action.params, action.header, action.codeTime, action.stampTime).0 == Some(g)
    requires Carries(server, a, g) && Carries(server, b, g)
    requires CodeReplayKey(server.prims, a) != CodeReplayKey(server.prims, b)
    ensures !OncePerGrant(server, g)
  {
    JustGranted(server, action, g);
    var more := GrantRedeemedTwice(server, [action], g, req, 0, a, 1, b);
    CarriesOpens(server, a, g);
    CarriesOpens(server, b, g);
    var s := Run(server, [action] + more);
    assert RedeemedBy(server, s, Container(g), 0) && RedeemedBy(server, s, Container(g), 1);
  }

  // For every code an authorization grants, and over the runs an ideal MAC
  // allows: at most one request ever gets tokens for it, if and only if no
  // request can or the texts that carry its signed data have one replay key.
  lemma OncePerGrantIff(server: Server, action: Action, g: Grant)
    requires server.prims.CodecLaws() && action.Authorizing?
    requires Authorize(server, action.params, action.header, action.codeTime, action.stampTime).0 == Some(g)
    ensures OncePerGrant(server, g) <==>
              ((exists req :: Redeems(server, req, Container(g))) ==> OneSignedKey(server, g))
  {
    if OneSignedKey(server, g) {
      forall actions, t, u | Provenance.IdealMac(server, Run(server, actions).log)
                             && RedeemedBy(server, Run(server, actions), Container(g), t)
                             && RedeemedBy(server, Run(server, actions), Container(g), u)
        ensures t == u
      {
        OneSignedKeySuffices(server, actions, g, t, u);
      }
    } else if req :| Redeems(server, req, Container(g)) {
      var a, b :| Carries(server, a, g) && Carries(server, b, g)
                  && CodeReplayKey(server.prims, a) != CodeReplayKey(server.prims, b);
      TwoSignedKeys(server, action, g, req, a, b);
    } else {
      forall actions, t | RedeemedBy(server, Run(server, actions), Container(g), t)
        ensures false
      {
        RedeemableIfRedeemed(server, Container(g), actions, t);
      }
    }
  }

  // ------------------------------------------------------------- Two readers

  // A granted code with bytes after it.
  function Padded(server: Server, g: Grant, trailing: Bytes): string {
    var p, data := server.prims, Data(server.prims, g.code, g.stampedAt);
    (p.base64Encode)((p.writeSigned)(SignedAuthorizationCode(data, (p.keyedHash)(server.hmacKey, data))) + trailing)
  }

  lemma PaddedCarries(server: Server, g: Grant, trailing: Bytes)
    requires server.prims.CodecLaws() && server.prims.TrailingIsIgnored()
    ensures Carries(server, Padded(server, g, trailing), g)
    ensures trailing != [] ==> Padded(server, g, trailing) != Sealed(server.prims, g.code, server.hmacKey, g.stampedAt)
  {
    var p, data := server.prims, Data(server.prims, g.code, g.stampedAt);
    var signed := SignedAuthorizationCode(data, (p.keyedHash)(server.hmacKey, data));
    var bytes := (p.writeSigned)(signed);
    assert (p.readSigned)(bytes + trailing) == Some(signed);
    assert (p.base64Decode)((p.base64Encode)(bytes + trailing)) == Some(bytes + trailing);
    assert (p.base64Decode)((p.base64Encode)(bytes)) == Some(bytes);
    assert |bytes + trailing| == |bytes| + |trailing|;
  }

  lemma PresentedRedeems(server: Server, actions: seq<Action>, g: Grant, req: AccessTokenRequest)
    requires server.prims.CodecLaws() && server.codeMaxAge > 0
    requires Granted(g) in Run(server, actions).log && Isolation.Presents(server, req, g)
    ensures Redeems(server, req, Container(g)) && Carries(server, req.code, g)
  {
    Isolation.GrantInLog(server, actions, g);
    SealedOpens(server.prims, g.code, server.hmacKey, g.stampedAt, server.codeMaxAge, g.stampedAt);
  }

  // With a reader that ignores what follows, as the source's: in every run that
  // granted a code, it can still be redeemed twice, as given and with any bytes
  // after it, when the two keys differ and are unused; and an ideal MAC allows it.
  lemma TrailingBytesRedeemTwice(server: Server, actions: seq<Action>, g: Grant, req: AccessTokenRequest,
                                 trailing: Bytes, t: nat, u: nat) returns (more: seq<Action>)
    requires server.prims.CodecLaws() && server.prims.TrailingIsIgnored() && server.codeMaxAge > 0
    requires Granted(g) in Run(server, actions).log && Isolation.Presents(server, req, g)
    requires CanBoth(server, Run(server, actions), t, req.code, u, Padded(server, g, trailing))
    ensures BothGetTokens(server, actions + more, t, req, u, req.(code := Padded(server, g, trailing)))
    ensures Provenance.IdealMac(server, Run(server, actions).log) ==>
              Provenance.IdealMac(server, Run(server, actions + more).log)
  {
    PresentedRedeems(server, actions, g, req);
    PaddedCarries(server, g, trailing);
    more := GrantRedeemedTwice(server, actions, g, req, t, req.code, u, Padded(server, g, trailing));
    assert req.(code := req.code) == req;
  }

  // With codecs that read only what is written, a code has one text, and every
  // code is redeemed once.
  lemma StrictReaderRedeemsOnce(server: Server, container: TimestampedContainer)
    requires server.prims.OnlyWrittenIsRead()
    ensures OncePerCode(server, container)
  {
    forall text | OpensTo(server, text, container)
      ensures text == Sealed(server.prims, container.content, server.hmacKey, container.timestamp)
    {
      OneTextOpens(server, text, container);
    }
    OncePerCodeIff(server, container);
  }

  lemma OneTextOpens(server: Server, text: string, container: TimestampedContainer)
    requires server.prims.OnlyWrittenIsRead() && OpensTo(server, text, container)
    ensures text == Sealed(server.prims, container.content, server.hmacKey, container.timestamp)
  {
    var p := server.prims;
    var serialized := (p.base64Decode)(text).value;
    var signed := (p.readSigned)(serialized).value;
    assert (p.writeContainer)(container) == signed.data;
    assert signed == SignedAuthorizationCode(signed.data, (p.keyedHash)(server.hmacKey, signed.data));
  }
}
