// One-time use and conservation, over every interleaving of any number of
// token requests. Nothing is assumed of the hash, the MAC or the clock.
module OneTime {
  import opened Wrappers
  import opened Storage
  import opened Protocol
  import opened Service

  // -------------------------------------------------------- Threads by stage

  ghost function Past(s: State): set<nat> {
    set tid | tid in s.threads && PastConsumption(s.threads[tid].stage)
  }

  ghost function Completed(s: State): set<nat> {
    set tid | tid in s.threads && s.threads[tid].stage.Finished? && s.threads[tid].stage.outcome.Ok?
  }

  ghost function ServerErrors(s: State): set<nat> {
    set tid | tid in s.threads && s.threads[tid].stage == Finished(Err(ServerError))
  }

  ghost function PastInFlight(s: State): set<nat> {
    set tid | tid in s.threads && PastConsumption(s.threads[tid].stage) && InFlight(s.threads[tid].stage)
  }

  // ------------------------------------------------------------ Invariants

  ghost function Keys(server: Server, s: State): (keys: map<nat, string>)
    ensures keys.Keys == Past(s)
  {
    map tid | tid in Past(s) :: KeyOf(server, s.threads[tid])
  }

  // Every thread has its own key, and these are the consumed keys.
  ghost predicate OneKeyEach(keys: map<nat, string>, consumed: set<string>) {
    && (forall t | t in keys :: keys[t] in consumed)
    && (forall t, u | t in keys && u in keys && keys[t] == keys[u] :: t == u)
    && (forall key | key in consumed :: exists t :: t in keys && keys[t] == key)
    && |consumed| == |keys|
  }

  // The consumed keys are the keys of the requests past consumption, one key
  // to each.
  ghost predicate KeysMatch(server: Server, s: State) {
    OneKeyEach(Keys(server, s), s.store.consumed)
  }

  // What the log says of a thread is where the thread is, and it says so once.
  ghost predicate LogMatches(server: Server, s: State) {
    && (forall i | 0 <= i < |s.log| && s.log[i].ConsumedBy? ::
          s.log[i].tid in Past(s) && s.log[i].key == KeyOf(server, s.threads[s.log[i].tid]))
    && (forall i, j | 0 <= i < j < |s.log| && s.log[i].ConsumedBy? && s.log[j].ConsumedBy? ::
          s.log[i].tid != s.log[j].tid)
    && (forall i | 0 <= i < |s.log| && s.log[i].Issued? ::
          s.log[i].tid in s.threads && s.threads[s.log[i].tid].stage == Finished(Ok(s.log[i].response)))
    && (forall i, j | 0 <= i < j < |s.log| && s.log[i].Issued? && s.log[j].Issued? :: s.log[i].tid != s.log[j].tid)
  }

  function Count(log: seq<Event>, p: Event -> bool): nat {
    if log == [] then 0
    else Count(log[..|log| - 1], p) + if p(log[|log| - 1]) then 1 else 0
  }

  ghost predicate CountsMatch(s: State) {
    && Count(s.log, (e: Event) => e.ConsumedBy?) == |Past(s)|
    && Count(s.log, (e: Event) => e.Issued?) == |Completed(s)|
  }

  ghost predicate Inv(server: Server, s: State) {
    KeysMatch(server, s) && LogMatches(server, s) && CountsMatch(s)
  }

  // ------------------------------------------------------------- One step

  // Where a step can lead. A request gets past consumption only by putting a
  // new key into the consumed set, and nothing else changes that set.
  lemma NextFacts(server: Server, env: Env, store: StoreState, req: AccessTokenRequest, stage: Stage)
    ensures var (store', stage') := Next(server, env, store, req, stage);
            var key := CodeReplayKey(server.prims, req.code);
            && (PastConsumption(stage) ==> PastConsumption(stage'))
            && (!PastConsumption(stage) && PastConsumption(stage') ==>
                  stage.Authenticated? && stage'.Consumed? && key !in store.consumed
                  && store'.consumed == store.consumed + {key})
            && (PastConsumption(stage) == PastConsumption(stage') ==> store'.consumed == store.consumed)
            && (stage.Finished? ==> stage' == stage)
            && (!stage.Finished? && stage'.Finished? && stage'.outcome.Ok? ==> stage.AccessSigned?)
            && (!stage.AccessSigned? ==> store'.records == store.records)
  {
  }

  lemma CountSnoc(log: seq<Event>, e: Event, p: Event -> bool)
    ensures Count(log + [e], p) == Count(log, p) + if p(e) then 1 else 0
  {
    assert (log + [e])[..|log|] == log;
  }

  // Thread tid moves to a stage; the threads keep their requests.
  ghost predicate Moved(s: State, s': State, tid: nat, stage': Stage) {
    && tid in s.threads
    && s'.threads == s.threads[tid := Thread(s.threads[tid].req, stage')]
  }

  // The step that consumes: a new key and a new thread past consumption.

  lemma PastGrows(s: State, s': State, tid: nat, stage': Stage)
    requires Moved(s, s', tid, stage') && !PastConsumption(s.threads[tid].stage) && stage'.Consumed?
    ensures tid !in Past(s) && Past(s') == Past(s) + {tid}
    ensures |Past(s')| == |Past(s)| + 1
  {
  }

  lemma CompletedStays(s: State, s': State, tid: nat, stage': Stage)
    requires Moved(s, s', tid, stage') && !PastConsumption(s.threads[tid].stage) && stage'.Consumed?
    ensures Completed(s') == Completed(s)
  {
  }

  lemma ConsumeKeys(server: Server, s: State, s': State, tid: nat, stage': Stage)
    requires KeysMatch(server, s)
    requires Moved(s, s', tid, stage') && !PastConsumption(s.threads[tid].stage) && stage'.Consumed?
    requires KeyOf(server, s.threads[tid]) !in s.store.consumed
    requires s'.store.consumed == s.store.consumed + {KeyOf(server, s.threads[tid])}
    ensures KeysMatch(server, s')
  {
    KeysGrow(server, s, s', tid, stage');
    NewKey(Keys(server, s), s.store.consumed, tid, KeyOf(server, s.threads[tid]));
  }

  lemma KeysGrow(server: Server, s: State, s': State, tid: nat, stage': Stage)
    requires Moved(s, s', tid, stage') && !PastConsumption(s.threads[tid].stage) && stage'.Consumed?
    ensures tid !in Keys(server, s)
    ensures Keys(server, s') == Keys(server, s)[tid := KeyOf(server, s.threads[tid])]
  {
    PastGrows(s, s', tid, stage');
    forall t | t in s.threads
      ensures t in s'.threads && KeyOf(server, s'.threads[t]) == KeyOf(server, s.threads[t])
    {
      SameKey(server, s, s', tid, stage', t);
    }
    KeysOver(server, s, s', Past(s), tid);
  }

  lemma KeysOver(server: Server, s: State, s': State, past: set<nat>, tid: nat)
    requires past == Past(s) && Past(s') == past + {tid} && tid !in past && tid in s.threads
    requires forall t | t in s.threads :: t in s'.threads && KeyOf(server, s'.threads[t]) == KeyOf(server, s.threads[t])
    ensures Keys(server, s') == Keys(server, s)[tid := KeyOf(server, s.threads[tid])]
  {
    assert tid in s'.threads;
  }

  lemma SameKey(server: Server, s: State, s': State, tid: nat, stage': Stage, t: nat)
    requires Moved(s, s', tid, stage') && t in s.threads
    ensures t in s'.threads && KeyOf(server, s'.threads[t]) == KeyOf(server, s.threads[t])
  {
  }

  lemma NewKey(keys: map<nat, string>, consumed: set<string>, tid: nat, key: string)
    requires OneKeyEach(keys, consumed) && tid !in keys && key !in consumed
    ensures OneKeyEach(keys[tid := key], consumed + {key})
  {
    var keys' := keys[tid := key];
    forall k | k in consumed + {key}
      ensures exists t :: t in keys' && keys'[t] == k
    {
      if k == key {
        assert tid in keys' && keys'[tid] == k;
      } else {
        var t :| t in keys && keys[t] == k;
        assert t in keys' && keys'[t] == k;
      }
    }
  }

  lemma ConsumeLog(server: Server, s: State, s': State, tid: nat, stage': Stage)
    requires LogMatches(server, s)
    requires Moved(s, s', tid, stage') && !PastConsumption(s.threads[tid].stage) && stage'.Consumed?
    requires s'.log == s.log + [ConsumedBy(tid, KeyOf(server, s.threads[tid]))]
    ensures LogMatches(server, s')
  {
    PastGrows(s, s', tid, stage');
    assert forall i | 0 <= i < |s.log| :: s'.log[i] == s.log[i];
  }

  lemma ConsumeCounts(server: Server, s: State, s': State, tid: nat, stage': Stage, e: Event)
    requires CountsMatch(s)
    requires Moved(s, s', tid, stage') && !PastConsumption(s.threads[tid].stage) && stage'.Consumed?
    requires e.ConsumedBy? && s'.log == s.log + [e]
    ensures CountsMatch(s')
  {
    PastGrows(s, s', tid, stage');
    CompletedStays(s, s', tid, stage');
    CountSnoc(s.log, e, (e: Event) => e.ConsumedBy?);
    CountSnoc(s.log, e, (e: Event) => e.Issued?);
  }

  // The step that issues: a thread past consumption completes.
  lemma CompletedGrows(s: State, s': State, tid: nat, stage': Stage)
    requires Moved(s, s', tid, stage') && s.threads[tid].stage.AccessSigned?
    requires stage'.Finished? && stage'.outcome.Ok?
    ensures tid !in Completed(s) && Completed(s') == Completed(s) + {tid} && Past(s') == Past(s)
    ensures |Completed(s')| == |Completed(s)| + 1
  {
  }

  lemma IssueLog(server: Server, s: State, s': State, tid: nat, e: Event)
    requires LogMatches(server, s)
    requires e.Issued? && e.tid == tid && s'.log == s.log + [e]
    requires Moved(s, s', tid, Finished(Ok(e.response))) && s.threads[tid].stage.AccessSigned?
    ensures LogMatches(server, s')
  {
    CompletedGrows(s, s', tid, Finished(Ok(e.response)));
    assert forall i | 0 <= i < |s.log| :: s'.log[i] == s.log[i];
  }

  lemma IssueCounts(s: State, s': State, tid: nat, e: Event)
    requires CountsMatch(s)
    requires e.Issued? && e.tid == tid && s'.log == s.log + [e]
    requires Moved(s, s', tid, Finished(Ok(e.response))) && s.threads[tid].stage.AccessSigned?
    ensures CountsMatch(s')
  {
    CompletedGrows(s, s', tid, Finished(Ok(e.response)));
    CountSnoc(s.log, e, (e: Event) => e.ConsumedBy?);
    CountSnoc(s.log, e, (e: Event) => e.Issued?);
  }

  // Every other step: the sets, the keys and the finished threads stay.

  ghost predicate Kept(s: State, s': State) {
    && Past(s') == Past(s) && Completed(s') == Completed(s)
    && s'.store.consumed == s.store.consumed
    && (forall tid | tid in s.threads :: tid in s'.threads && s'.threads[tid].req == s.threads[tid].req)
    && (forall tid | tid in s.threads && s.threads[tid].stage.Finished? :: s'.threads[tid] == s.threads[tid])
  }

  lemma KeptKeys(server: Server, s: State, s': State)
    requires KeysMatch(server, s) && Past(s') == Past(s) && s'.store.consumed == s.store.consumed
    requires forall tid | tid in s.threads :: tid in s'.threads && s'.threads[tid].req == s.threads[tid].req
    ensures KeysMatch(server, s')
  {
    assert Keys(server, s') == Keys(server, s);
  }

  lemma KeptLog(server: Server, s: State, s': State, events: seq<Event>)
    requires LogMatches(server, s) && Kept(s, s') && |events| <= 1 && s'.log == s.log + events
    requires forall e | e in events :: !e.ConsumedBy? && !e.Issued?
    ensures LogMatches(server, s')
  {
    assert forall i | 0 <= i < |s.log| :: s'.log[i] == s.log[i];
    assert forall i | |s.log| <= i < |s'.log| :: s'.log[i] in events;
  }

  lemma KeptCounts(s: State, s': State, events: seq<Event>)
    requires CountsMatch(s) && Kept(s, s') && |events| <= 1 && s'.log == s.log + events
    requires forall e | e in events :: !e.ConsumedBy? && !e.Issued?
    ensures CountsMatch(s')
  {
    if events == [] {
      assert s'.log == s.log;
    } else {
      assert events == [events[0]] && events[0] in events;
      CountSnoc(s.log, events[0], (e: Event) => e.ConsumedBy?);
      CountSnoc(s.log, events[0], (e: Event) => e.Issued?);
    }
  }

  lemma KeptInv(server: Server, s: State, s': State, events: seq<Event>)
    requires Inv(server, s) && Kept(s, s') && |events| <= 1 && s'.log == s.log + events
    requires forall e | e in events :: !e.ConsumedBy? && !e.Issued?
    ensures Inv(server, s')
  {
    KeptKeys(server, s, s');
    KeptLog(server, s, s', events);
    KeptCounts(s, s', events);
  }

  lemma ConsumeStep(server: Server, s: State, tid: nat, env: Env)
    requires Inv(server, s) && tid in s.threads
    requires !PastConsumption(s.threads[tid].stage)
    requires PastConsumption(Advance(server, s, tid, env).threads[tid].stage)
    ensures Inv(server, Advance(server, s, tid, env))
  {
    var s' := Advance(server, s, tid, env);
    var thread, stage' := s.threads[tid], s'.threads[tid].stage;
    NextFacts(server, env, s.store, thread.req, thread.stage);
    var e := ConsumedBy(tid, KeyOf(server, thread));
    assert s'.log == s.log + [e] && Moved(s, s', tid, stage');
    ConsumeKeys(server, s, s', tid, stage');
    ConsumeLog(server, s, s', tid, stage');
    ConsumeCounts(server, s, s', tid, stage', e);
  }

  lemma IssueInv(server: Server, s: State, s': State, tid: nat, e: Event)
    requires Inv(server, s) && s'.store.consumed == s.store.consumed
    requires e.Issued? && e.tid == tid && s'.log == s.log + [e]
    requires Moved(s, s', tid, Finished(Ok(e.response))) && s.threads[tid].stage.AccessSigned?
    ensures Inv(server, s')
  {
    CompletedGrows(s, s', tid, Finished(Ok(e.response)));
    KeptKeys(server, s, s');
    IssueLog(server, s, s', tid, e);
    IssueCounts(s, s', tid, e);
  }

  lemma IssueStep(server: Server, s: State, tid: nat, env: Env)
    requires Inv(server, s) && tid in s.threads && s.threads[tid].stage.AccessSigned?
    ensures Inv(server, Advance(server, s, tid, env))
  {
    IssueEffect(server, s, tid, env);
    IssueInv(server, s, Advance(server, s, tid, env), tid, IssueEvent(server, tid, env, s.threads[tid]));
  }

  lemma OtherMove(s: State, s': State, tid: nat, stage': Stage)
    requires Moved(s, s', tid, stage') && s'.store.consumed == s.store.consumed
    requires PastConsumption(s.threads[tid].stage) == PastConsumption(stage')
    requires s.threads[tid].stage.Finished? ==> stage' == s.threads[tid].stage
    requires !s.threads[tid].stage.Finished? && stage'.Finished? ==> stage'.outcome.Err?
    ensures Kept(s, s')
  {
  }

  lemma OtherAdvance(server: Server, s: State, tid: nat, env: Env)
    requires Inv(server, s) && tid in s.threads && !s.threads[tid].stage.AccessSigned?
    requires PastConsumption(s.threads[tid].stage) == PastConsumption(Advance(server, s, tid, env).threads[tid].stage)
    ensures Inv(server, Advance(server, s, tid, env))
  {
    var s' := Advance(server, s, tid, env);
    var thread, stage' := s.threads[tid], s'.threads[tid].stage;
    NextFacts(server, env, s.store, thread.req, thread.stage);
    OtherMove(s, s', tid, stage');
    KeptInv(server, s, s', Happened(server, tid, env, thread, stage'));
  }

  lemma GrantKept(server: Server, s: State, grant: Option<Grant>)
    requires Inv(server, s)
    ensures Inv(server, LogGrant(s, grant))
  {
    if grant.Some? { KeptInv(server, s, LogGrant(s, grant), [Granted(grant.value)]); }
  }

  lemma NewThread(s: State, s': State, tid: nat, req: AccessTokenRequest)
    requires tid !in s.threads && s' == s.(threads := s.threads[tid := Thread(req, Received)])
    ensures Kept(s, s')
  {
  }

  lemma ReceivingKeepsInv(server: Server, s: State, a: Action)
    requires Inv(server, s) && a.Receiving?
    ensures Inv(server, Apply(server, s, a))
  {
    if a.tid !in s.threads {
      NewThread(s, Apply(server, s, a), a.tid, a.req);
      assert s.log + [] == s.log;
      KeptInv(server, s, Apply(server, s, a), []);
    }
  }

  lemma RevokingKeepsInv(server: Server, s: State, jti: string)
    requires Inv(server, s)
    ensures Inv(server, RevokeAndLog(s, jti))
  {
    KeptInv(server, s, RevokeAndLog(s, jti), [Revoked(jti, jti in s.store.records)]);
  }

  lemma StepKeepsInv(server: Server, s: State, a: Action)
    requires Inv(server, s)
    ensures Inv(server, Apply(server, s, a))
  {
    match a {
      case Authorizing(params, header, codeTime, stampTime) =>
        GrantKept(server, s, Authorize(server, params, header, codeTime, stampTime).0);
      case Receiving(_, _) => ReceivingKeepsInv(server, s, a);
      case Advancing(tid, env) =>
        if tid in s.threads { AdvanceKeepsInv(server, s, tid, env); }
      case RevokingToken(jti) => RevokingKeepsInv(server, s, jti);
    }
  }

  lemma AdvanceKeepsInv(server: Server, s: State, tid: nat, env: Env)
    requires Inv(server, s) && tid in s.threads
    ensures Inv(server, Advance(server, s, tid, env))
  {
    var stage := s.threads[tid].stage;
    NextFacts(server, env, s.store, s.threads[tid].req, stage);
    if stage.AccessSigned? {
      IssueStep(server, s, tid, env);
    } else if !PastConsumption(stage) && PastConsumption(Advance(server, s, tid, env).threads[tid].stage) {
      ConsumeStep(server, s, tid, env);
    } else {
      OtherAdvance(server, s, tid, env);
    }
  }

  lemma {:induction false} Reachable(server: Server, actions: seq<Action>)
    ensures Inv(server, Run(server, actions))
  {
    if actions == [] {
      assert Past(START) == {} && Completed(START) == {};
    } else {
      Reachable(server, actions[..|actions| - 1]);
      StepKeepsInv(server, Run(server, actions[..|actions| - 1]), actions[|actions| - 1]);
    }
  }

  // ------------------------------------------------------------- Theorems

  // Of the requests that present one code text, at most one is past consumption.
  ghost predicate OncePerText(s: State) {
    forall t, u | t in Past(s) && u in Past(s) && s.threads[t].req.code == s.threads[u].req.code :: t == u
  }

  // For one code text, there is at most one issue call and one response.
  ghost predicate IssuedOncePerText(s: State) {
    forall i, j | 0 <= i < |s.log| && 0 <= j < |s.log| && s.log[i].Issued? && s.log[j].Issued? ::
      && s.log[i].tid in s.threads && s.log[j].tid in s.threads
      && (s.threads[s.log[i].tid].req.code == s.threads[s.log[j].tid].req.code ==> i == j)
  }

  lemma KeysDecide(server: Server, s: State)
    requires KeysMatch(server, s)
    ensures OncePerText(s)
  {
  }

  lemma LogDecides(server: Server, s: State)
    requires LogMatches(server, s) && OncePerText(s)
    ensures IssuedOncePerText(s)
  {
    forall i, j | 0 <= i < |s.log| && 0 <= j < |s.log| && s.log[i].Issued? && s.log[j].Issued?
      ensures s.log[i].tid in s.threads && s.log[j].tid in s.threads
      ensures s.threads[s.log[i].tid].req.code == s.threads[s.log[j].tid].req.code ==> i == j
    {
      assert s.log[i].tid in Past(s) && s.log[j].tid in Past(s);
    }
  }

  lemma OneTimeUse(server: Server, actions: seq<Action>)
    ensures var s := Run(server, actions);
            forall t, u | t in Past(s) && u in Past(s) && s.threads[t].req.code == s.threads[u].req.code :: t == u
    ensures var s := Run(server, actions);
            forall i, j | 0 <= i < |s.log| && 0 <= j < |s.log| && s.log[i].Issued? && s.log[j].Issued? ::
              && s.log[i].tid in s.threads && s.log[j].tid in s.threads
              && (s.threads[s.log[i].tid].req.code == s.threads[s.log[j].tid].req.code ==> i == j)
  {
    Reachable(server, actions);
    KeysDecide(server, Run(server, actions));
    LogDecides(server, Run(server, actions));
  }

  lemma PastPartition(s: State)
    ensures |Past(s)| == |Completed(s)| + |ServerErrors(s)| + |PastInFlight(s)|
  {
    var a, b, c := Completed(s), ServerErrors(s), PastInFlight(s);
    forall tid
      ensures tid in Past(s) <==> tid in a + b + c
    {
      OnePart(s, tid);
    }
    assert a !! b && a + b !! c;
    ThreeParts(Past(s), a, b, c);
  }

  lemma OnePart(s: State, tid: nat)
    ensures tid in Past(s) <==> tid in Completed(s) || tid in ServerErrors(s) || tid in PastInFlight(s)
  {
  }

  lemma ThreeParts(whole: set<nat>, a: set<nat>, b: set<nat>, c: set<nat>)
    requires whole == a + b + c && a !! b && a + b !! c
    ensures |whole| == |a| + |b| + |c|
  {
  }

  // The consumed set has one key for each completed redemption, each server
  // error after consumption and each request in flight past consumption; issue
  // calls are the completed redemptions and never exceed the consumptions.
  lemma Conservation(server: Server, actions: seq<Action>)
    ensures var s := Run(server, actions);
            && |s.store.consumed| == |Completed(s)| + |ServerErrors(s)| + |PastInFlight(s)|
            && |s.store.consumed| == Count(s.log, (e: Event) => e.ConsumedBy?)
            && Count(s.log, (e: Event) => e.Issued?) == |Completed(s)| <= |s.store.consumed|
  {
    Reachable(server, actions);
    PastPartition(Run(server, actions));
  }
}
