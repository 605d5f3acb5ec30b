// However the steps of requests interleave, the store and the answers are those
// of a service that redeems each code in one atomic step. A request counts where
// it issues; one that got past consumption without issuing, and one that was
// refused, count after those. (The order of whole requests in time is not kept:
// a rival may be refused before the winner it lost to has issued.)
module Serial {
  import opened Wrappers
  import opened Storage
  import opened Protocol
  import opened Service
  import OneTime
  import Isolation
  import Provenance
  import Records

  // ------------------------------------------------------ The atomic service

  datatype Op =
    | Redeem(tid: nat, req: AccessTokenRequest, env: Env)
    | Revoke(jti: string)

  datatype Done = Done(store: StoreState, answers: map<nat, Result<TokenResponse, OIDCError>>)

  function Do(server: Server, done: Done, op: Op): Done {
    match op
    case Redeem(tid, req, env) =>
      var (store', answer) := Drive(server, env, done.store, req, Received);
      Done(store', done.answers[tid := answer])
    case Revoke(jti) => done.(store := done.store.Revoke(jti))
  }

  function RunOps(server: Server, ops: seq<Op>): Done {
    if ops == [] then Done(EMPTY, map[])
    else Do(server, RunOps(server, ops[..|ops| - 1]), ops[|ops| - 1])
  }

  lemma RunOpsSnoc(server: Server, ops: seq<Op>, op: Op)
    ensures RunOps(server, ops + [op]) == Do(server, RunOps(server, ops), op)
  {
    assert (ops + [op])[..|ops|] == ops;
  }

  // -------------------------------------------------- What a request has read

  // What a step from this stage reads, it takes from its environment.
  function Took(stage: Stage, e: Env, x: Env): Env {
    match stage
    case Received => e.(verifyAt := x.verifyAt)
    case Consumed(_) => e.(fill := x.fill)
    case Drawn(_, _) => e.(idAt := x.idAt, idSigns := x.idSigns)
    case IdSigned(_, _, _) => e.(accessAt := x.accessAt, accessSigns := x.accessSigns)
    case AccessSigned(_, _, _, _) => e.(recordAt := x.recordAt)
    case _ => e
  }

  function Unread(): Env {
    Env(0, 0, 0, 0, [0, 0, 0, 0, 0, 0, 0, 0, 0, 0, 0, 0, 0, 0, 0, 0], false, false)
  }

  // All that the request's steps have read, each reading from the step that
  // made it.
  function EnvOf(server: Server, actions: seq<Action>, tid: nat): Env {
    if actions == [] then Unread()
    else
      var init, a := actions[..|actions| - 1], actions[|actions| - 1];
      var s := Run(server, init);
      if a.Advancing? && a.tid == tid && tid in s.threads
      then Took(s.threads[tid].stage, EnvOf(server, init, tid), a.env)
      else EnvOf(server, init, tid)
  }

  // The same has been read by this stage.
  ghost predicate Agree(stage: Stage, e: Env, e': Env) {
    match stage
    case Received => true
    case Drawn(_, _) => e'.verifyAt == e.verifyAt && e'.fill == e.fill
    case IdSigned(_, _, _) =>
      e'.verifyAt == e.verifyAt && e'.fill == e.fill && e'.idAt == e.idAt && e'.idSigns == e.idSigns
    case AccessSigned(_, _, _, _) => e' == e.(recordAt := e'.recordAt)
    case Finished(_) => e' == e
    case _ => e'.verifyAt == e.verifyAt
  }

  function ReplayKey(server: Server, req: AccessTokenRequest): string {
    CodeReplayKey(server.prims, req.code)
  }

  predicate LostCode(stage: Stage) {
    stage == Failed(InvalidGrant(CodeAlreadyUsed))
  }

  // A store on which the request can come to this stage.
  ghost predicate Fits(server: Server, store: StoreState, req: AccessTokenRequest, stage: Stage) {
    && (PastConsumption(stage) ==> ReplayKey(server, req) !in store.consumed)
    && (LostCode(stage) ==> ReplayKey(server, req) in store.consumed)
  }

  // And what it makes of the store by then, when it has not issued.
  function Reached(server: Server, store: StoreState, req: AccessTokenRequest, stage: Stage): StoreState {
    if PastConsumption(stage) then store.Consume(ReplayKey(server, req)) else store
  }

  // Redeeming in one go, with what was read, comes by this stage.
  ghost predicate ComesBy(server: Server, e: Env, req: AccessTokenRequest, stage: Stage) {
    forall store, e' | Agree(stage, e, e') && Fits(server, store, req, stage) ::
      Drive(server, e', store, req, Received) ==
      Drive(server, e', Reached(server, store, req, stage), req, stage)
  }

  // A step reads only what its stage reads.
  lemma SameStep(server: Server, x: Env, store: StoreState, req: AccessTokenRequest, stage: Stage, e: Env, e': Env,
                 store': StoreState)
    requires !stage.Finished? && !stage.AccessSigned?
    requires var stage' := Next(server, x, store, req, stage).1;
             Agree(stage', Took(stage, e, x), e') && Fits(server, store', req, stage')
    ensures Agree(stage, e, e') && Fits(server, store', req, stage)
    ensures var stage' := Next(server, x, store, req, stage).1;
            Next(server, e', Reached(server, store', req, stage), req, stage) ==
            (Reached(server, store', req, stage'), stage')
  {
    if stage.Authenticated? && ReplayKey(server, req) in store'.consumed {
      assert store'.consumed + {ReplayKey(server, req)} == store'.consumed;
    }
  }

  lemma NextComesBy(server: Server, x: Env, store: StoreState, req: AccessTokenRequest, stage: Stage, e: Env)
    requires !stage.Finished? && !stage.AccessSigned? && ComesBy(server, e, req, stage)
    ensures ComesBy(server, Took(stage, e, x), req, Next(server, x, store, req, stage).1)
  {
    var stage' := Next(server, x, store, req, stage).1;
    forall store', e' | Agree(stage', Took(stage, e, x), e') && Fits(server, store', req, stage')
      ensures Drive(server, e', store', req, Received) ==
              Drive(server, e', Reached(server, store', req, stage'), req, stage')
    {
      SameStep(server, x, store, req, stage, e, e', store');
      Reaches(server, e', Reached(server, store', req, stage), req, stage);
    }
  }

  // A request that got past consumption is one whose signer may yet fail.
  ghost predicate MayFail(server: Server, e: Env, req: AccessTokenRequest) {
    forall store: StoreState, e': Env | e'.verifyAt == e.verifyAt && !e'.idSigns
                                        && ReplayKey(server, req) !in store.consumed ::
      Drive(server, e', store, req, Received) == (store.Consume(ReplayKey(server, req)), Err(ServerError))
  }

  lemma ConsumedMayFail(server: Server, e: Env, req: AccessTokenRequest, stage: Stage)
    requires stage.Consumed? && ComesBy(server, e, req, stage)
    ensures MayFail(server, e, req)
  {
    forall store: StoreState, e': Env | e'.verifyAt == e.verifyAt && !e'.idSigns
                                        && ReplayKey(server, req) !in store.consumed
      ensures Drive(server, e', store, req, Received) == (store.Consume(ReplayKey(server, req)), Err(ServerError))
    {
      var consumed := store.Consume(ReplayKey(server, req));
      assert Fits(server, store, req, stage) && Agree(stage, e, e');
      Reaches(server, e', consumed, req, stage);
      SigningFails(server, e', consumed, req, stage.code, Next(server, e', consumed, req, stage).1.jti);
    }
  }

  // The request, redeemed in one go with what it read, issues what was logged.
  ghost predicate Issues(server: Server, e: Env, req: AccessTokenRequest, record: TokenRecord,
                         response: TokenResponse) {
    forall store: StoreState | ReplayKey(server, req) !in store.consumed ::
      Drive(server, e, store, req, Received) ==
      (store.Consume(ReplayKey(server, req)).Issue(record), Ok(response))
  }

  lemma LastStepIssues(server: Server, x: Env, tid: nat, thread: Thread, e: Env)
    requires thread.stage.AccessSigned? && ComesBy(server, e, thread.req, thread.stage)
    ensures var event := IssueEvent(server, tid, x, thread);
            Issues(server, Took(thread.stage, e, x), thread.req, event.record, event.response)
  {
    var e', event := Took(thread.stage, e, x), IssueEvent(server, tid, x, thread);
    forall store: StoreState | ReplayKey(server, thread.req) !in store.consumed
      ensures Drive(server, e', store, thread.req, Received) ==
              (store.Consume(ReplayKey(server, thread.req)).Issue(event.record), Ok(event.response))
    {
      assert Fits(server, store, thread.req, thread.stage) && Agree(thread.stage, e, e');
      Reaches(server, e', store.Consume(ReplayKey(server, thread.req)), thread.req, thread.stage);
    }
  }

  // -------------------------------------------------- Every request, always

  predicate Answered(stage: Stage) {
    stage.Finished? && stage.outcome.Ok?
  }

  ghost predicate IssuesLogged(server: Server, log: seq<Event>, tid: nat, req: AccessTokenRequest, e: Env) {
    forall event | event in log && event.Issued? && event.tid == tid ::
      Issues(server, e, req, event.record, event.response)
  }

  ghost predicate Tracks(server: Server, log: seq<Event>, tid: nat, thread: Thread, e: Env) {
    && (if Answered(thread.stage) then IssuesLogged(server, log, tid, thread.req, e)
        else ComesBy(server, e, thread.req, thread.stage))
    && (PastConsumption(thread.stage) ==> MayFail(server, e, thread.req))
  }

  lemma ArrivalTracks(server: Server, log: seq<Event>, tid: nat, req: AccessTokenRequest, e: Env)
    ensures Tracks(server, log, tid, Thread(req, Received), e)
  {
  }

  lemma IssueTracks(server: Server, s: State, tid: nat, x: Env, e: Env)
    requires OneTime.LogMatches(server, s) && tid in s.threads && s.threads[tid].stage.AccessSigned?
    requires Tracks(server, s.log, tid, s.threads[tid], e)
    ensures var s' := Advance(server, s, tid, x);
            Tracks(server, s'.log, tid, s'.threads[tid], Took(s.threads[tid].stage, e, x))
  {
    var thread := s.threads[tid];
    IssueEffect(server, s, tid, x);
    LastStepIssues(server, x, tid, thread, e);
    assert forall event | event in s.log && event.Issued? :: event.tid != tid;
  }

  lemma OtherTracks(server: Server, s: State, tid: nat, x: Env, e: Env)
    requires tid in s.threads && !s.threads[tid].stage.Finished? && !s.threads[tid].stage.AccessSigned?
    requires Tracks(server, s.log, tid, s.threads[tid], e)
    ensures var s' := Advance(server, s, tid, x);
            Tracks(server, s'.log, tid, s'.threads[tid], Took(s.threads[tid].stage, e, x))
  {
    var thread := s.threads[tid];
    var stage', e' := Next(server, x, s.store, thread.req, thread.stage).1, Took(thread.stage, e, x);
    NextComesBy(server, x, s.store, thread.req, thread.stage, e);
    NotYetAnswered(server, x, s.store, thread.req, thread.stage);
    if PastConsumption(stage') && !PastConsumption(thread.stage) {
      OneTime.NextFacts(server, x, s.store, thread.req, thread.stage);
      ConsumedMayFail(server, e', thread.req, stage');
    }
  }

  lemma NotYetAnswered(server: Server, x: Env, store: StoreState, req: AccessTokenRequest, stage: Stage)
    requires !stage.Finished? && !stage.AccessSigned?
    ensures !Answered(Next(server, x, store, req, stage).1)
    ensures PastConsumption(stage) ==> forall e :: Took(stage, e, x).verifyAt == e.verifyAt
  {
  }

  lemma FinishedTracks(server: Server, s: State, a: Action, tid: nat, e: Env)
    requires tid in s.threads && Tracks(server, s.log, tid, s.threads[tid], e)
    requires a.Advancing? && a.tid == tid ==> s.threads[tid].stage.Finished?
    ensures var s' := Apply(server, s, a);
            tid in s'.threads && Tracks(server, s'.log, tid, s'.threads[tid], e)
  {
    Isolation.Unmoved(server, s, a, tid);
    NoNewIssue(server, s, a, tid);
  }

  lemma NoNewIssue(server: Server, s: State, a: Action, tid: nat)
    requires tid in s.threads && (a.Advancing? && a.tid == tid ==> s.threads[tid].stage.Finished?)
    ensures forall event | event in Apply(server, s, a).log && event.Issued? && event.tid == tid :: event in s.log
  {
    if a.Advancing? && a.tid in s.threads {
      OtherIssue(server, s, a.tid, a.env, tid);
    }
  }

  lemma OtherIssue(server: Server, s: State, u: nat, x: Env, tid: nat)
    requires u in s.threads && (u == tid ==> s.threads[u].stage.Finished?)
    ensures forall event | event in Advance(server, s, u, x).log && event.Issued? && event.tid == tid :: event in s.log
  {
    var thread := s.threads[u];
    var stage' := Next(server, x, s.store, thread.req, thread.stage).1;
    forall event | event in Happened(server, u, x, thread, stage') && event.Issued?
      ensures event.tid == u && !thread.stage.Finished?
    {
      EventKinds(server, u, x, thread, stage');
    }
  }

  lemma StepTracks(server: Server, s: State, a: Action, tid: nat, e: Env)
    requires OneTime.LogMatches(server, s) && tid in s.threads && Tracks(server, s.log, tid, s.threads[tid], e)
    ensures var s' := Apply(server, s, a);
            var e' := if a.Advancing? && a.tid == tid then Took(s.threads[tid].stage, e, a.env) else e;
            tid in s'.threads && Tracks(server, s'.log, tid, s'.threads[tid], e')
  {
    if a.Advancing? && a.tid == tid && !s.threads[tid].stage.Finished? {
      if s.threads[tid].stage.AccessSigned? {
        IssueTracks(server, s, tid, a.env, e);
      } else {
        OtherTracks(server, s, tid, a.env, e);
      }
    } else {
      FinishedTracks(server, s, a, tid, e);
    }
  }

  // In every run, what a request has read makes the atomic redemption come to
  // where the request is.
  lemma {:induction false} Reachable(server: Server, actions: seq<Action>, tid: nat)
    requires tid in Run(server, actions).threads
    ensures var s := Run(server, actions); Tracks(server, s.log, tid, s.threads[tid], EnvOf(server, actions, tid))
  {
    var init, a := actions[..|actions| - 1], actions[|actions| - 1];
    if tid in Run(server, init).threads {
      Reachable(server, init, tid);
      OneTime.Reachable(server, init);
      StepTracks(server, Run(server, init), a, tid, EnvOf(server, init, tid));
    } else {
      Arrived(server, Run(server, init), a, tid);
      ArrivalTracks(server, Run(server, actions).log, tid, a.req, EnvOf(server, actions, tid));
    }
  }

  lemma Arrived(server: Server, s: State, a: Action, tid: nat)
    requires tid !in s.threads && tid in Apply(server, s, a).threads
    ensures a.Receiving? && a.tid == tid && Apply(server, s, a).threads[tid] == Thread(a.req, Received)
  {
  }

  // ------------------------------------------------------ One request, atomically

  // Redeemed in one go, the request uses up its key and fails in signing.
  ghost predicate OnlyConsumes(server: Server, e: Env, req: AccessTokenRequest) {
    forall store: StoreState | ReplayKey(server, req) !in store.consumed ::
      Drive(server, e, store, req, Received) == (store.Consume(ReplayKey(server, req)), Err(ServerError))
  }

  // It is refused as it was; when it had lost its code, wherever that is used.
  ghost predicate IsRefused(server: Server, e: Env, req: AccessTokenRequest, stage: Stage)
    requires stage.Finished?
  {
    forall store: StoreState | LostCode(stage) ==> ReplayKey(server, req) in store.consumed ::
      Drive(server, e, store, req, Received) == (store, stage.outcome)
  }

  ghost predicate Does(server: Server, log: seq<Event>, tid: nat, thread: Thread, e: Env) {
    && (Answered(thread.stage) ==> IssuesLogged(server, log, tid, thread.req, e))
    && (PastConsumption(thread.stage) && !Answered(thread.stage) ==> OnlyConsumes(server, e, thread.req))
    && (thread.stage.Finished? && !PastConsumption(thread.stage) ==> IsRefused(server, e, thread.req, thread.stage))
  }

  // What the atomic redemption reads: what the request read; and if it is still
  // in flight, a signer that fails.
  function OpEnv(thread: Thread, e: Env): Env {
    if thread.stage.Finished? then e else e.(idSigns := false)
  }

  lemma TracksDoes(server: Server, log: seq<Event>, tid: nat, thread: Thread, e: Env)
    requires Tracks(server, log, tid, thread, e)
    ensures Does(server, log, tid, thread, OpEnv(thread, e))
  {
    var req, stage := thread.req, thread.stage;
    if stage.Finished? && !Answered(stage) {
      forall store | Fits(server, store, req, stage)
        ensures Drive(server, e, store, req, Received) == (Reached(server, store, req, stage), stage.outcome)
      {
        assert Agree(stage, e, e);
      }
    }
  }

  // ------------------------------------------------------------- The order

  ghost predicate OnceEach(ops: seq<Op>) {
    forall i, j | 0 <= i < j < |ops| && ops[i].Redeem? && ops[j].Redeem? :: ops[i].tid != ops[j].tid
  }

  function Revocations(ops: seq<Op>): seq<string> {
    if ops == [] then []
    else
      var op := ops[|ops| - 1];
      Revocations(ops[..|ops| - 1]) + if op.Revoke? then [op.jti] else []
  }

  function OpFor(s: State, envs: map<nat, Env>, tid: nat): Op
    requires tid in s.threads && tid in envs
  {
    Redeem(tid, s.threads[tid].req, envs[tid])
  }

  ghost predicate AllDo(server: Server, s: State, envs: map<nat, Env>) {
    && envs.Keys == s.threads.Keys
    && forall tid | tid in s.threads :: Does(server, s.log, tid, s.threads[tid], envs[tid])
  }

  ghost function KeysOf(server: Server, s: State, tids: set<nat>): set<string> {
    set tid | tid in tids && tid in OneTime.Past(s) :: KeyOf(server, s.threads[tid])
  }

  ghost predicate Ordered(s: State, envs: map<nat, Env>, ops: seq<Op>, tids: set<nat>)
    requires envs.Keys == s.threads.Keys
  {
    && OnceEach(ops)
    && forall op | op in ops && op.Redeem? :: op.tid in tids && op.tid in s.threads && op == OpFor(s, envs, op.tid)
  }

  lemma OrderedSnoc(s: State, envs: map<nat, Env>, ops: seq<Op>, tids: set<nat>, tid: nat)
    requires envs.Keys == s.threads.Keys && Ordered(s, envs, ops, tids) && tid in s.threads && tid !in tids
    ensures Ordered(s, envs, ops + [OpFor(s, envs, tid)], tids + {tid})
  {
    var op := OpFor(s, envs, tid);
    var ops' := ops + [op];
    assert forall o :: o in ops' <==> o in ops || o == op;
    forall i, j | 0 <= i < j < |ops'| && ops'[i].Redeem? && ops'[j].Redeem?
      ensures ops'[i].tid != ops'[j].tid
    {
      assert ops'[i] == ops[i] && ops[i] in ops;
      if j < |ops| { assert ops'[j] == ops[j]; }
    }
  }

  lemma OrderedRevoke(s: State, envs: map<nat, Env>, ops: seq<Op>, tids: set<nat>, jti: string)
    requires envs.Keys == s.threads.Keys && Ordered(s, envs, ops, tids)
    ensures Ordered(s, envs, ops + [Revoke(jti)], tids)
  {
    assert forall o :: o in ops + [Revoke(jti)] <==> o in ops || o == Revoke(jti);
  }

  lemma RevocationsSnoc(ops: seq<Op>, op: Op)
    ensures Revocations(ops + [op]) == if op.Revoke? then Revocations(ops) + [op.jti] else Revocations(ops)
  {
    assert (ops + [op])[..|ops|] == ops;
    assert Revocations(ops) + [] == Revocations(ops);
  }

  // These operations are the requests in `tids`, once each, and have made of
  // the store what those requests did.
  ghost predicate Stands(server: Server, s: State, envs: map<nat, Env>, ops: seq<Op>, tids: set<nat>,
                         records: map<string, TokenRecord>, revoked: seq<string>) {
    var done := RunOps(server, ops);
    && envs.Keys == s.threads.Keys
    && Ordered(s, envs, ops, tids) && Revocations(ops) == revoked
    && done.answers.Keys == tids
    && (forall tid | tid in tids :: tid in s.threads
          && (s.threads[tid].stage.Finished? ==> done.answers[tid] == s.threads[tid].stage.outcome))
    && done.store == StoreState(records, KeysOf(server, s, tids))
  }

  lemma OneMore(server: Server, s: State, envs: map<nat, Env>, ops: seq<Op>, tids: set<nat>,
                records: map<string, TokenRecord>, revoked: seq<string>, tid: nat,
                records': map<string, TokenRecord>)
    requires Stands(server, s, envs, ops, tids, records, revoked) && tid in s.threads && tid !in tids
    requires var op := OpFor(s, envs, tid);
             var store := StoreState(records, KeysOf(server, s, tids));
             var (store', answer) := Drive(server, op.env, store, op.req, Received);
             && store' == StoreState(records', KeysOf(server, s, tids + {tid}))
             && (s.threads[tid].stage.Finished? ==> answer == s.threads[tid].stage.outcome)
    ensures Stands(server, s, envs, ops + [OpFor(s, envs, tid)], tids + {tid}, records', revoked)
  {
    var op := OpFor(s, envs, tid);
    RunOpsSnoc(server, ops, op);
    OrderedSnoc(s, envs, ops, tids, tid);
    RevocationsSnoc(ops, op);
  }

  lemma FreshKey(server: Server, s: State, tids: set<nat>, tid: nat)
    requires OneTime.KeysMatch(server, s) && tid in OneTime.Past(s) && tid !in tids
    ensures KeyOf(server, s.threads[tid]) !in KeysOf(server, s, tids)
    ensures KeysOf(server, s, tids + {tid}) == KeysOf(server, s, tids) + {KeyOf(server, s.threads[tid])}
  {
    var keys := OneTime.Keys(server, s);
    forall u | u in tids && u in OneTime.Past(s)
      ensures KeyOf(server, s.threads[u]) != KeyOf(server, s.threads[tid])
    {
      assert u in keys && tid in keys && (keys[u] == keys[tid] ==> u == tid);
    }
  }

  lemma NoKey(server: Server, s: State, tids: set<nat>, tid: nat)
    requires tid !in OneTime.Past(s)
    ensures KeysOf(server, s, tids + {tid}) == KeysOf(server, s, tids)
  {
  }

  lemma AddIssued(server: Server, s: State, envs: map<nat, Env>, ops: seq<Op>, tids: set<nat>,
                  records: map<string, TokenRecord>, revoked: seq<string>, e: Event)
    requires AllDo(server, s, envs) && OneTime.KeysMatch(server, s)
    requires Stands(server, s, envs, ops, tids, records, revoked)
    requires e in s.log && e.Issued? && e.tid in s.threads && e.tid !in tids
    requires s.threads[e.tid].stage == Finished(Ok(e.response))
    ensures Stands(server, s, envs, ops + [OpFor(s, envs, e.tid)], tids + {e.tid},
                   records[e.record.jti := e.record], revoked)
  {
    var thread := s.threads[e.tid];
    FreshKey(server, s, tids, e.tid);
    assert Does(server, s.log, e.tid, thread, envs[e.tid]);
    assert Issues(server, envs[e.tid], thread.req, e.record, e.response);
    OneMore(server, s, envs, ops, tids, records, revoked, e.tid, records[e.record.jti := e.record]);
  }

  lemma AddPending(server: Server, s: State, envs: map<nat, Env>, ops: seq<Op>, tids: set<nat>,
                   records: map<string, TokenRecord>, revoked: seq<string>, tid: nat)
    requires AllDo(server, s, envs) && OneTime.KeysMatch(server, s)
    requires Stands(server, s, envs, ops, tids, records, revoked)
    requires tid in OneTime.Past(s) && tid !in tids && !Answered(s.threads[tid].stage)
    ensures Stands(server, s, envs, ops + [OpFor(s, envs, tid)], tids + {tid}, records, revoked)
  {
    FreshKey(server, s, tids, tid);
    assert Does(server, s.log, tid, s.threads[tid], envs[tid]);
    assert OnlyConsumes(server, envs[tid], s.threads[tid].req);
    OneMore(server, s, envs, ops, tids, records, revoked, tid, records);
  }

  lemma AddRefused(server: Server, s: State, envs: map<nat, Env>, ops: seq<Op>, tids: set<nat>,
                   records: map<string, TokenRecord>, revoked: seq<string>, tid: nat)
    requires AllDo(server, s, envs) && Stands(server, s, envs, ops, tids, records, revoked)
    requires tid in s.threads && tid !in tids && s.threads[tid].stage.Finished? && tid !in OneTime.Past(s)
    requires LostCode(s.threads[tid].stage) ==> KeyOf(server, s.threads[tid]) in KeysOf(server, s, tids)
    ensures Stands(server, s, envs, ops + [OpFor(s, envs, tid)], tids + {tid}, records, revoked)
  {
    NoKey(server, s, tids, tid);
    assert Does(server, s.log, tid, s.threads[tid], envs[tid]);
    assert IsRefused(server, envs[tid], s.threads[tid].req, s.threads[tid].stage);
    OneMore(server, s, envs, ops, tids, records, revoked, tid, records);
  }

  lemma AddRevocation(server: Server, s: State, envs: map<nat, Env>, ops: seq<Op>, tids: set<nat>,
                      records: map<string, TokenRecord>, revoked: seq<string>, jti: string)
    requires Stands(server, s, envs, ops, tids, records, revoked)
    ensures Stands(server, s, envs, ops + [Revoke(jti)], tids, records - {jti}, revoked + [jti])
  {
    var op := Revoke(jti);
    RunOpsSnoc(server, ops, op);
    OrderedRevoke(s, envs, ops, tids, jti);
    RevocationsSnoc(ops, op);
  }

  // ------------------------------------------------- The order of the log

  function RevokedBy(log: seq<Event>): seq<string> {
    if log == [] then []
    else
      var e := log[|log| - 1];
      RevokedBy(log[..|log| - 1]) + if e.Revoked? then [e.jti] else []
  }

  ghost function IssuedTids(log: seq<Event>): set<nat> {
    set i | 0 <= i < |log| && log[i].Issued? :: log[i].tid
  }

  lemma IssuedSnoc(log: seq<Event>, e: Event)
    ensures IssuedTids(log + [e]) == if e.Issued? then IssuedTids(log) + {e.tid} else IssuedTids(log)
  {
    var log' := log + [e];
    forall tid | tid in IssuedTids(log)
      ensures tid in IssuedTids(log')
    {
      var i :| 0 <= i < |log| && log[i].Issued? && log[i].tid == tid;
      assert log'[i] == log[i];
    }
    if e.Issued? {
      assert log'[|log|] == e;
    }
  }

  lemma RevokedSnoc(log: seq<Event>, e: Event)
    ensures RevokedBy(log + [e]) == if e.Revoked? then RevokedBy(log) + [e.jti] else RevokedBy(log)
  {
    assert (log + [e])[..|log|] == log;
    assert RevokedBy(log) + [] == RevokedBy(log);
  }

  lemma NotIssuedYet(server: Server, s: State, k: nat)
    requires OneTime.LogMatches(server, s) && k < |s.log| && s.log[k].Issued?
    ensures s.log[k].tid !in IssuedTids(s.log[..k])
  {
  }

  ghost predicate StandsAt(server: Server, s: State, envs: map<nat, Env>, ops: seq<Op>, log: seq<Event>) {
    Stands(server, s, envs, ops, IssuedTids(log), RecordsAfter(log), RevokedBy(log))
  }

  ghost function RecordsAfter(log: seq<Event>): map<string, TokenRecord> {
    Replay(Records.StoreCalls(log)).records
  }

  lemma RecordsSnoc(log: seq<Event>, e: Event)
    ensures RecordsAfter(log + [e]) ==
            match e
            case Issued(_, record, _) => RecordsAfter(log)[record.jti := record]
            case Revoked(jti, _) => RecordsAfter(log) - {jti}
            case _ => RecordsAfter(log)
  {
    Records.ReplayEvent(log, e);
  }

  lemma NextIssue(server: Server, s: State, envs: map<nat, Env>, ops: seq<Op>, log: seq<Event>, e: Event)
    requires AllDo(server, s, envs) && OneTime.KeysMatch(server, s) && StandsAt(server, s, envs, ops, log)
    requires e in s.log && e.Issued? && e.tid in s.threads && e.tid !in IssuedTids(log)
    requires s.threads[e.tid].stage == Finished(Ok(e.response))
    ensures StandsAt(server, s, envs, ops + [OpFor(s, envs, e.tid)], log + [e])
  {
    IssuedSnoc(log, e);
    RevokedSnoc(log, e);
    RecordsSnoc(log, e);
    AddIssued(server, s, envs, ops, IssuedTids(log), RecordsAfter(log), RevokedBy(log), e);
  }

  lemma NextRevocation(server: Server, s: State, envs: map<nat, Env>, ops: seq<Op>, log: seq<Event>, e: Event)
    requires StandsAt(server, s, envs, ops, log) && e.Revoked?
    ensures StandsAt(server, s, envs, ops + [Revoke(e.jti)], log + [e])
  {
    IssuedSnoc(log, e);
    RevokedSnoc(log, e);
    RecordsSnoc(log, e);
    AddRevocation(server, s, envs, ops, IssuedTids(log), RecordsAfter(log), RevokedBy(log), e.jti);
  }

  lemma NextOther(server: Server, s: State, envs: map<nat, Env>, ops: seq<Op>, log: seq<Event>, e: Event)
    requires StandsAt(server, s, envs, ops, log) && !e.Issued? && !e.Revoked?
    ensures StandsAt(server, s, envs, ops, log + [e])
  {
    IssuedSnoc(log, e);
    RevokedSnoc(log, e);
    RecordsSnoc(log, e);
  }

  lemma OneEventMore(log: seq<Event>, k: nat)
    requires k < |log|
    ensures log[..k + 1] == log[..k] + [log[k]]
  {
  }

  lemma NextEvent(server: Server, s: State, envs: map<nat, Env>, ops: seq<Op>, k: nat) returns (ops': seq<Op>)
    requires AllDo(server, s, envs) && OneTime.KeysMatch(server, s) && OneTime.LogMatches(server, s)
    requires k < |s.log| && StandsAt(server, s, envs, ops, s.log[..k])
    ensures StandsAt(server, s, envs, ops', s.log[..k + 1])
  {
    var e := s.log[k];
    OneEventMore(s.log, k);
    if e.Issued? {
      NotIssuedYet(server, s, k);
      NextIssue(server, s, envs, ops, s.log[..k], e);
      ops' := ops + [OpFor(s, envs, e.tid)];
    } else if e.Revoked? {
      NextRevocation(server, s, envs, ops, s.log[..k], e);
      ops' := ops + [Revoke(e.jti)];
    } else {
      NextOther(server, s, envs, ops, s.log[..k], e);
      ops' := ops;
    }
  }

  lemma NothingYet(server: Server, s: State, envs: map<nat, Env>, log: seq<Event>)
    requires envs.Keys == s.threads.Keys && log == []
    ensures StandsAt(server, s, envs, [], log)
  {
    assert IssuedTids([]) == {} && KeysOf(server, s, {}) == {};
  }

  // The requests that issued, and the revocations, in the order of the log.
  lemma {:induction false} InLogOrder(server: Server, s: State, envs: map<nat, Env>, k: nat) returns (ops: seq<Op>)
    requires AllDo(server, s, envs) && OneTime.KeysMatch(server, s) && OneTime.LogMatches(server, s) && k <= |s.log|
    ensures StandsAt(server, s, envs, ops, s.log[..k])
  {
    if k == 0 {
      ops := [];
      NothingYet(server, s, envs, s.log[..k]);
    } else {
      var before := InLogOrder(server, s, envs, k - 1);
      ops := NextEvent(server, s, envs, before, k - 1);
    }
  }

  // ------------------------------------------------- And those after it

  lemma MoveOne(tids: set<nat>, rest: set<nat>, tid: nat)
    requires tid in rest
    ensures tids + {tid} + (rest - {tid}) == tids + rest && |rest - {tid}| < |rest|
  {
  }

  lemma {:induction false} ThenPending(server: Server, s: State, envs: map<nat, Env>, ops: seq<Op>, tids: set<nat>,
                                       records: map<string, TokenRecord>, revoked: seq<string>, rest: set<nat>)
    returns (ops': seq<Op>)
    requires AllDo(server, s, envs) && OneTime.KeysMatch(server, s)
    requires Stands(server, s, envs, ops, tids, records, revoked)
    requires rest !! tids && forall tid | tid in rest :: tid in OneTime.Past(s) && !Answered(s.threads[tid].stage)
    ensures Stands(server, s, envs, ops', tids + rest, records, revoked)
    decreases |rest|
  {
    if rest == {} {
      ops' := ops;
      assert tids + rest == tids;
    } else {
      var tid :| tid in rest;
      MoveOne(tids, rest, tid);
      AddPending(server, s, envs, ops, tids, records, revoked, tid);
      ops' := ThenPending(server, s, envs, ops + [OpFor(s, envs, tid)], tids + {tid}, records, revoked, rest - {tid});
    }
  }

  ghost predicate LosersKeyed(server: Server, s: State, tids: set<nat>, rest: set<nat>) {
    forall tid | tid in rest :: tid in s.threads
      && (LostCode(s.threads[tid].stage) ==> KeyOf(server, s.threads[tid]) in KeysOf(server, s, tids))
  }

  lemma {:induction false} ThenRefused(server: Server, s: State, envs: map<nat, Env>, ops: seq<Op>, tids: set<nat>,
                                       records: map<string, TokenRecord>, revoked: seq<string>, rest: set<nat>)
    returns (ops': seq<Op>)
    requires AllDo(server, s, envs) && Stands(server, s, envs, ops, tids, records, revoked)
    requires rest !! tids && rest !! OneTime.Past(s) && LosersKeyed(server, s, tids, rest)
    requires forall tid | tid in rest :: s.threads[tid].stage.Finished?
    ensures Stands(server, s, envs, ops', tids + rest, records, revoked)
    decreases |rest|
  {
    if rest == {} {
      ops' := ops;
      assert tids + rest == tids;
    } else {
      var tid :| tid in rest;
      MoveOne(tids, rest, tid);
      AddRefused(server, s, envs, ops, tids, records, revoked, tid);
      LosersStay(server, s, tids, {tid}, rest);
      ops' := ThenRefused(server, s, envs, ops + [OpFor(s, envs, tid)], tids + {tid}, records, revoked, rest - {tid});
    }
  }

  ghost function Refused(s: State): set<nat> {
    set tid | tid in s.threads && s.threads[tid].stage.Finished? && !PastConsumption(s.threads[tid].stage)
  }

  lemma LosersStay(server: Server, s: State, tids: set<nat>, more: set<nat>, rest: set<nat>)
    requires LosersKeyed(server, s, tids, rest)
    ensures forall part | part <= rest :: LosersKeyed(server, s, tids + more, part)
  {
    assert KeysOf(server, s, tids) <= KeysOf(server, s, tids + more);
  }

  // Every request that finished and every one past consumption has its place.
  lemma AllPlaced(server: Server, s: State, envs: map<nat, Env>) returns (ops: seq<Op>)
    requires AllDo(server, s, envs) && OneTime.KeysMatch(server, s) && OneTime.LogMatches(server, s)
    requires IssuedTids(s.log) == OneTime.Completed(s)
    requires LosersKeyed(server, s, OneTime.Past(s), Refused(s))
    ensures Stands(server, s, envs, ops, OneTime.Past(s) + Refused(s), RecordsAfter(s.log),
                   RevokedBy(s.log))
  {
    var issued := InLogOrder(server, s, envs, |s.log|);
    assert s.log[..|s.log|] == s.log;
    var spent := PendingPlaced(server, s, envs, issued);
    ops := ThenRefused(server, s, envs, spent, OneTime.Past(s), RecordsAfter(s.log),
                       RevokedBy(s.log), Refused(s));
  }

  lemma PendingPlaced(server: Server, s: State, envs: map<nat, Env>, issued: seq<Op>) returns (ops: seq<Op>)
    requires AllDo(server, s, envs) && OneTime.KeysMatch(server, s)
    requires IssuedTids(s.log) == OneTime.Completed(s) && StandsAt(server, s, envs, issued, s.log)
    ensures Stands(server, s, envs, ops, OneTime.Past(s), RecordsAfter(s.log), RevokedBy(s.log))
  {
    var done, past := OneTime.Completed(s), OneTime.Past(s);
    CompletedArePast(s);
    ops := ThenPending(server, s, envs, issued, done, RecordsAfter(s.log), RevokedBy(s.log),
                       past - done);
  }

  lemma CompletedArePast(s: State)
    ensures OneTime.Completed(s) + (OneTime.Past(s) - OneTime.Completed(s)) == OneTime.Past(s)
  {
  }

  // ------------------------------------------------------------- Theorems

  function Asked(actions: seq<Action>): seq<string> {
    if actions == [] then []
    else
      var a := actions[|actions| - 1];
      Asked(actions[..|actions| - 1]) + if a.RevokingToken? then [a.jti] else []
  }

  lemma StepRevokes(server: Server, s: State, a: Action)
    ensures RevokedBy(Apply(server, s, a).log) == RevokedBy(s.log) + if a.RevokingToken? then [a.jti] else []
  {
    match a {
      case Authorizing(params, header, codeTime, stampTime) =>
        var grant := Authorize(server, params, header, codeTime, stampTime).0;
        if grant.Some? { RevokedSnoc(s.log, Granted(grant.value)); }
      case Receiving(_, _) =>
      case Advancing(tid, x) => if tid in s.threads { AdvanceRevokesNone(server, s, tid, x); }
      case RevokingToken(jti) => RevokedSnoc(s.log, Revoked(jti, jti in s.store.records));
    }
  }

  lemma AdvanceRevokesNone(server: Server, s: State, tid: nat, x: Env)
    requires tid in s.threads
    ensures RevokedBy(Advance(server, s, tid, x).log) == RevokedBy(s.log)
  {
    var thread := s.threads[tid];
    var events := Happened(server, tid, x, thread, Next(server, x, s.store, thread.req, thread.stage).1);
    EventKinds(server, tid, x, thread, Next(server, x, s.store, thread.req, thread.stage).1);
    if events == [] {
      assert s.log + events == s.log;
    } else {
      assert events == [events[0]] && events[0] in events;
      RevokedSnoc(s.log, events[0]);
    }
  }

  lemma {:induction false} LogRevokes(server: Server, actions: seq<Action>)
    ensures RevokedBy(Run(server, actions).log) == Asked(actions)
  {
    if actions != [] {
      LogRevokes(server, actions[..|actions| - 1]);
      StepRevokes(server, Run(server, actions[..|actions| - 1]), actions[|actions| - 1]);
    }
  }

  lemma LoserKeyed(server: Server, actions: seq<Action>, tid: nat)
    requires tid in Run(server, actions).threads && LostCode(Run(server, actions).threads[tid].stage)
    ensures var s := Run(server, actions); KeyOf(server, s.threads[tid]) in KeysOf(server, s, OneTime.Past(s))
  {
    Isolation.Reachable(server, actions, tid);
    var s := Run(server, actions);
    var c :| Isolation.RefusedBy(server, actions, tid, InvalidGrant(CodeAlreadyUsed), c);
    var u :| Isolation.IsRival(server, s, tid, u);
  }

  lemma IssuedAreCompleted(server: Server, s: State)
    requires OneTime.LogMatches(server, s) && Provenance.Justified(server, s)
    ensures IssuedTids(s.log) == OneTime.Completed(s)
  {
    forall tid | tid in OneTime.Completed(s)
      ensures tid in IssuedTids(s.log)
    {
      var k := Provenance.ResponseIsIssued(server, s, tid);
    }
  }

  lemma ConsumedAreKeys(server: Server, s: State)
    requires OneTime.KeysMatch(server, s)
    ensures KeysOf(server, s, OneTime.Past(s) + Refused(s)) == s.store.consumed
  {
    var keys := OneTime.Keys(server, s);
    forall key | key in s.store.consumed
      ensures key in KeysOf(server, s, OneTime.Past(s) + Refused(s))
    {
      var tid :| tid in keys && keys[tid] == key;
    }
    forall tid | tid in OneTime.Past(s)
      ensures KeyOf(server, s.threads[tid]) in s.store.consumed
    {
      assert tid in keys && keys[tid] in s.store.consumed;
    }
  }

  // What each request, redeemed in one go, reads.
  function EnvsOf(server: Server, actions: seq<Action>): map<nat, Env> {
    var s := Run(server, actions);
    map tid | tid in s.threads :: OpEnv(s.threads[tid], EnvOf(server, actions, tid))
  }

  lemma AllRequestsDo(server: Server, actions: seq<Action>)
    ensures AllDo(server, Run(server, actions), EnvsOf(server, actions))
  {
    var s := Run(server, actions);
    forall tid | tid in s.threads
      ensures Does(server, s.log, tid, s.threads[tid], EnvsOf(server, actions)[tid])
    {
      Reachable(server, actions, tid);
      TracksDoes(server, s.log, tid, s.threads[tid], EnvOf(server, actions, tid));
    }
  }

  // The atomic operations of a run: its revocations, in their order, and once
  // each the requests that finished or got past consumption, with what their
  // steps read. They leave the store of the run, and give each request that
  // finished the answer it got.
  ghost predicate IsSerial(server: Server, actions: seq<Action>, ops: seq<Op>) {
    var s, done := Run(server, actions), RunOps(server, ops);
    && OnceEach(ops) && Revocations(ops) == Asked(actions)
    && (forall op | op in ops && op.Redeem? ::
          op.tid in s.threads && op == OpFor(s, EnvsOf(server, actions), op.tid))
    && done.answers.Keys == OneTime.Past(s) + Refused(s)
    && (forall tid | tid in s.threads && s.threads[tid].stage.Finished? ::
          tid in done.answers && done.answers[tid] == s.threads[tid].stage.outcome)
    && done.store == s.store
  }

  lemma StandsIsSerial(server: Server, actions: seq<Action>, ops: seq<Op>)
    requires var s := Run(server, actions);
             Stands(server, s, EnvsOf(server, actions), ops, OneTime.Past(s) + Refused(s), s.store.records,
                    Asked(actions))
    requires OneTime.KeysMatch(server, Run(server, actions))
    ensures IsSerial(server, actions, ops)
  {
    ConsumedAreKeys(server, Run(server, actions));
  }

  // Every interleaving is serializable: it has such operations.
  lemma Serializable(server: Server, actions: seq<Action>)
    ensures exists ops :: IsSerial(server, actions, ops)
  {
    var s := Run(server, actions);
    OneTime.Reachable(server, actions);
    Provenance.Reachable(server, actions);
    IssuedAreCompleted(server, s);
    AllRequestsDo(server, actions);
    forall tid | tid in Refused(s) && LostCode(s.threads[tid].stage)
      ensures KeyOf(server, s.threads[tid]) in KeysOf(server, s, OneTime.Past(s))
    {
      LoserKeyed(server, actions, tid);
    }
    var ops := AllPlaced(server, s, EnvsOf(server, actions));
    LogRevokes(server, actions);
    Records.StoreIsHistory(server, actions);
    StandsIsSerial(server, actions, ops);
  }

  // The store that a request which lost its code finds: one with its key.
  function Against(server: Server, thread: Thread): StoreState {
    if LostCode(thread.stage) then EMPTY.Consume(ReplayKey(server, thread.req)) else EMPTY
  }

  // So the decision table speaks of every interleaving: a finished request has
  // the answer of the first check that fails on what its steps read, where the
  // code was used before exactly if the request was told so.
  lemma InterleavedIsTable(server: Server, actions: seq<Action>, tid: nat)
    requires tid in Run(server, actions).threads && Run(server, actions).threads[tid].stage.Finished?
    ensures var thread := Run(server, actions).threads[tid];
            var env, store := EnvOf(server, actions, tid), Against(server, thread);
            && (thread.stage.outcome.Ok? <==> forall c :: Passes(server, env, store, thread.req, c))
            && (thread.stage.outcome.Err? <==>
                  exists c :: FailsFirst(server, env, store, thread.req, c)
                    && thread.stage.outcome.error == ErrorOf(server, thread.req, c))
  {
    var thread := Run(server, actions).threads[tid];
    FinishedIsDrive(server, actions, tid);
    RedemptionIsTable(server, EnvOf(server, actions, tid), Against(server, thread), thread.req);
  }

  lemma FinishedIsDrive(server: Server, actions: seq<Action>, tid: nat)
    requires tid in Run(server, actions).threads && Run(server, actions).threads[tid].stage.Finished?
    ensures var thread := Run(server, actions).threads[tid];
            Drive(server, EnvOf(server, actions, tid), Against(server, thread), thread.req, Received).1 ==
            thread.stage.outcome
  {
    var s := Run(server, actions);
    Reachable(server, actions, tid);
    TracksDoes(server, s.log, tid, s.threads[tid], EnvOf(server, actions, tid));
    if Answered(s.threads[tid].stage) {
      Provenance.Reachable(server, actions);
      var k := Provenance.ResponseIsIssued(server, s, tid);
      assert s.log[k] in s.log;
    }
  }
}
