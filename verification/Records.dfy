// The token records: the store is its history of calls, and what /userinfo
// answers agrees with the tokens handed out.
module Records {
  import opened Wrappers
  import opened Code
  import opened Token
  import opened Storage
  import opened Protocol
  import opened Service
  import OneTime
  import Provenance

  // -------------------------------------------------- The store's history

  function StoreCall(e: Event): (calls: seq<StoreEvent>)
    ensures |calls| <= 1
  {
    match e
    case ConsumedBy(_, key) => [Consuming(key)]
    case Issued(_, record, _) => [Issuing(record)]
    case Revoked(jti, _) => [Revoking(jti)]
    case _ => []
  }

  // The calls that changed the store, in order.
  function StoreCalls(log: seq<Event>): seq<StoreEvent> {
    if log == [] then [] else StoreCalls(log[..|log| - 1]) + StoreCall(log[|log| - 1])
  }

  lemma ReplayEvent(log: seq<Event>, e: Event)
    ensures Replay(StoreCalls(log + [e])) ==
            if StoreCall(e) == [] then Replay(StoreCalls(log)) else Replay(StoreCalls(log)).After(StoreCall(e)[0])
  {
    assert (log + [e])[..|log|] == log;
    var calls := StoreCalls(log);
    if StoreCall(e) == [] {
      assert calls + [] == calls;
    } else {
      assert StoreCall(e) == [StoreCall(e)[0]];
      assert (calls + StoreCall(e))[..|calls|] == calls;
    }
  }

  // A step changes the store as the event it logs says.
  lemma NextStore(server: Server, tid: nat, env: Env, store: StoreState, thread: Thread)
    ensures var (store', stage') := Next(server, env, store, thread.req, thread.stage);
            var events := Happened(server, tid, env, thread, stage');
            store' == if events == [] || StoreCall(events[0]) == [] then store
                      else store.After(StoreCall(events[0])[0])
  {
    if thread.stage.Authenticated? {
      var key := KeyOf(server, thread);
      if key in store.consumed {
        assert store.consumed + {key} == store.consumed;
      }
    }
  }

  // In every reachable state the store is what its history of calls leaves; so
  // by Storage.LookupIsLatest a lookup finds the latest issue not revoked since.
  lemma {:induction false} StoreIsHistory(server: Server, actions: seq<Action>)
    ensures var s := Run(server, actions); s.store == Replay(StoreCalls(s.log))
  {
    if actions != [] {
      StoreIsHistory(server, actions[..|actions| - 1]);
      StepReplays(server, Run(server, actions[..|actions| - 1]), actions[|actions| - 1]);
    }
  }

  lemma StepReplays(server: Server, s: State, a: Action)
    requires s.store == Replay(StoreCalls(s.log))
    ensures var s' := Apply(server, s, a); s'.store == Replay(StoreCalls(s'.log))
  {
    match a {
      case Authorizing(params, header, codeTime, stampTime) =>
        GrantReplays(s, Authorize(server, params, header, codeTime, stampTime).0);
      case Receiving(_, _) =>
      case Advancing(tid, env) =>
        if tid in s.threads { AdvanceReplays(server, s, tid, env); }
      case RevokingToken(jti) => RevokeReplays(s, jti);
    }
  }

  lemma RevokeReplays(s: State, jti: string)
    requires s.store == Replay(StoreCalls(s.log))
    ensures var s' := RevokeAndLog(s, jti); s'.store == Replay(StoreCalls(s'.log))
  {
    ReplayEvent(s.log, Revoked(jti, jti in s.store.records));
  }

  lemma GrantReplays(s: State, grant: Option<Grant>)
    requires s.store == Replay(StoreCalls(s.log))
    ensures var s' := LogGrant(s, grant); s'.store == Replay(StoreCalls(s'.log))
  {
    if grant.Some? { ReplayEvent(s.log, Granted(grant.value)); }
  }

  lemma AdvanceReplays(server: Server, s: State, tid: nat, env: Env)
    requires tid in s.threads && s.store == Replay(StoreCalls(s.log))
    ensures var s' := Advance(server, s, tid, env); s'.store == Replay(StoreCalls(s'.log))
  {
    var s' := Advance(server, s, tid, env);
    var events := Happened(server, tid, env, s.threads[tid], s'.threads[tid].stage);
    NextStore(server, tid, env, s.store, s.threads[tid]);
    if events == [] {
      assert s'.log == s.log;
    } else {
      assert events == [events[0]];
      ReplayEvent(s.log, events[0]);
    }
  }

  // ------------------------------------------------------ Distinct jtis

  // The hypothesis on the random source: no identifier is drawn twice.
  ghost predicate DistinctDraws(log: seq<Event>) {
    forall i, j | 0 <= i < j < |log| && log[i].Drew? && log[j].Drew? :: log[i].jti != log[j].jti
  }

  lemma DistinctBefore(log: seq<Event>, log': seq<Event>)
    requires log <= log' && DistinctDraws(log')
    ensures DistinctDraws(log)
  {
    assert forall i | 0 <= i < |log| :: log'[i] == log[i];
  }

  ghost predicate RevokedIn(log: seq<Event>, jti: string) {
    Revoked(jti, true) in log
  }

  ghost predicate IssuedIn(log: seq<Event>, e: Event, jti: string) {
    e in log && e.Issued? && e.record.jti == jti
  }

  // Every issued record is in the store until it is revoked, and the store has
  // no other records.
  ghost predicate Tracked(records: map<string, TokenRecord>, log: seq<Event>) {
    && (forall jti | jti in records :: exists e :: IssuedIn(log, e, jti) && e.record == records[jti])
    && (forall e, jti | IssuedIn(log, e, jti) ::
          if RevokedIn(log, jti) then jti !in records else jti in records && records[jti] == e.record)
    && (forall jti | RevokedIn(log, jti) :: exists e :: IssuedIn(log, e, jti))
  }

  ghost predicate Balanced(records: map<string, TokenRecord>, log: seq<Event>) {
    |records| + OneTime.Count(log, (e: Event) => e.Revoked? && e.found) == OneTime.Count(log, (e: Event) => e.Issued?)
  }

  lemma TrackIssue(records: map<string, TokenRecord>, log: seq<Event>, e: Event)
    requires Tracked(records, log) && e.Issued?
    requires forall e' :: !IssuedIn(log, e', e.record.jti)
    ensures Tracked(records[e.record.jti := e.record], log + [e])
  {
    var records', log' := records[e.record.jti := e.record], log + [e];
    assert forall x :: x in log' <==> x in log || x == e;
    assert e.record.jti !in records && !RevokedIn(log, e.record.jti);
    assert IssuedIn(log', e, e.record.jti);
    forall jti | jti in records' && jti != e.record.jti
      ensures exists e' :: IssuedIn(log', e', jti) && e'.record == records'[jti]
    {
      var e' :| IssuedIn(log, e', jti) && e'.record == records[jti];
      assert IssuedIn(log', e', jti);
    }
    forall jti | RevokedIn(log', jti)
      ensures exists e' :: IssuedIn(log', e', jti)
    {
      assert RevokedIn(log, jti);
      var e' :| IssuedIn(log, e', jti);
      assert IssuedIn(log', e', jti);
    }
    forall e', jti | IssuedIn(log', e', jti)
      ensures if RevokedIn(log', jti) then jti !in records' else jti in records' && records'[jti] == e'.record
    {
      if jti != e.record.jti {
        assert IssuedIn(log, e', jti);
      } else {
        assert !IssuedIn(log, e', jti);
      }
    }
  }

  // An event that is no issue and no successful revocation.
  lemma TrackOther(records: map<string, TokenRecord>, log: seq<Event>, e: Event)
    requires Tracked(records, log) && !e.Issued? && !(e.Revoked? && e.found)
    ensures Tracked(records, log + [e])
  {
    var log' := log + [e];
    assert forall x :: x in log' <==> x in log || x == e;
    assert forall e', jti :: IssuedIn(log', e', jti) <==> IssuedIn(log, e', jti);
    assert forall jti :: RevokedIn(log', jti) <==> RevokedIn(log, jti);
  }

  lemma TrackRevoke(records: map<string, TokenRecord>, log: seq<Event>, jti: string)
    requires Tracked(records, log) && jti in records
    ensures Tracked(records - {jti}, log + [Revoked(jti, true)])
  {
    var e := Revoked(jti, true);
    var log' := log + [e];
    assert forall x :: x in log' <==> x in log || x == e;
    assert forall e', j :: IssuedIn(log', e', j) <==> IssuedIn(log, e', j);
    assert forall j :: RevokedIn(log', j) <==> RevokedIn(log, j) || j == jti;
  }

  // With distinct draws, a request about to issue has an identifier no token
  // has been issued with.
  lemma NewJti(server: Server, s: State, tid: nat, e: Event)
    requires Provenance.Justified(server, s) && OneTime.LogMatches(server, s) && DistinctDraws(s.log)
    requires tid in s.threads && s.threads[tid].stage.AccessSigned?
    ensures !IssuedIn(s.log, e, s.threads[tid].stage.jti)
  {
    if IssuedIn(s.log, e, s.threads[tid].stage.jti) {
      var d := ThreadDrew(server, s, tid);
      var d' := IssuedDrew(server, s, e);
    }
  }

  lemma ThreadDrew(server: Server, s: State, tid: nat) returns (d: nat)
    requires Provenance.Justified(server, s) && tid in s.threads && s.threads[tid].stage.AccessSigned?
    ensures d < |s.log| && s.log[d] == Drew(tid, s.threads[tid].stage.jti)
  {
    var thread := s.threads[tid];
    assert Provenance.ThreadJustified(server, s.log, tid, thread);
    var t :| Provenance.DrewAt(server, s.log, t, tid, thread.req, thread.stage.code, thread.stage.jti);
    d := t.drew;
  }

  lemma IssuedDrew(server: Server, s: State, e: Event) returns (d: nat)
    requires Provenance.Justified(server, s) && OneTime.LogMatches(server, s) && e in s.log && e.Issued?
    ensures d < |s.log| && s.log[d] == Drew(e.tid, e.record.jti)
    ensures e.tid in s.threads && s.threads[e.tid].stage.Finished?
  {
    var k: nat :| k < |s.log| && s.log[k] == e;
    assert Provenance.EventJustified(server, s.log[..k], s.log[k]);
    d := DrewBefore(server, s.log, k);
  }

  lemma DrewBefore(server: Server, log: seq<Event>, k: nat) returns (d: nat)
    requires k < |log| && log[k].Issued? && Provenance.EventJustified(server, log[..k], log[k])
    ensures d < k && log[d] == Drew(log[k].tid, log[k].record.jti)
  {
    var e := log[k];
    var req, code :| Provenance.IssuedFrom(server, log[..k], e, req, code);
    var t :| Provenance.DrewAt(server, log[..k], t, e.tid, req, code, e.record.jti);
    d := t.drew;
    assert log[..k][d] == log[d];
  }

  ghost predicate Inv(s: State) {
    Tracked(s.store.records, s.log) && Balanced(s.store.records, s.log)
  }

  lemma CountBoth(log: seq<Event>, e: Event)
    ensures var issued, revoked := (e: Event) => e.Issued?, (e: Event) => e.Revoked? && e.found;
            && OneTime.Count(log + [e], issued) == OneTime.Count(log, issued) + (if e.Issued? then 1 else 0)
            && OneTime.Count(log + [e], revoked) ==
               OneTime.Count(log, revoked) + (if e.Revoked? && e.found then 1 else 0)
  {
    OneTime.CountSnoc(log, e, (e: Event) => e.Issued?);
    OneTime.CountSnoc(log, e, (e: Event) => e.Revoked? && e.found);
  }

  lemma IssueKeeps(server: Server, s: State, tid: nat, env: Env)
    requires Inv(s) && Provenance.Justified(server, s) && OneTime.LogMatches(server, s) && DistinctDraws(s.log)
    requires tid in s.threads && s.threads[tid].stage.AccessSigned?
    ensures Inv(Advance(server, s, tid, env))
  {
    var e := IssueEvent(server, tid, env, s.threads[tid]);
    IssueEffect(server, s, tid, env);
    forall e'
      ensures !IssuedIn(s.log, e', e.record.jti)
    {
      NewJti(server, s, tid, e');
    }
    TrackIssue(s.store.records, s.log, e);
    CountBoth(s.log, e);
  }

  lemma OtherKeeps(s: State, s': State, events: seq<Event>)
    requires Inv(s) && |events| <= 1 && s'.log == s.log + events && s'.store.records == s.store.records
    requires forall e | e in events :: !e.Issued? && !(e.Revoked? && e.found)
    ensures Inv(s')
  {
    if events == [] {
      assert s'.log == s.log;
    } else {
      assert events == [events[0]] && events[0] in events;
      TrackOther(s.store.records, s.log, events[0]);
      CountBoth(s.log, events[0]);
    }
  }

  lemma GrantKeeps(s: State, grant: Option<Grant>)
    requires Inv(s)
    ensures Inv(LogGrant(s, grant))
  {
    if grant.Some? { OtherKeeps(s, LogGrant(s, grant), [Granted(grant.value)]); }
  }

  lemma RevokeKeeps(s: State, jti: string)
    requires Inv(s)
    ensures Inv(RevokeAndLog(s, jti))
  {
    if jti in s.store.records {
      TrackRevoke(s.store.records, s.log, jti);
      BalanceRevoke(s.store.records, s.log, jti);
    } else {
      assert s.store.records - {jti} == s.store.records;
      OtherKeeps(s, RevokeAndLog(s, jti), [Revoked(jti, false)]);
    }
  }

  lemma BalanceRevoke(records: map<string, TokenRecord>, log: seq<Event>, jti: string)
    requires Balanced(records, log) && jti in records
    ensures Balanced(records - {jti}, log + [Revoked(jti, true)])
  {
    CountBoth(log, Revoked(jti, true));
    assert (records - {jti}).Keys == records.Keys - {jti};
  }

  lemma AdvanceKeeps(server: Server, s: State, tid: nat, env: Env)
    requires Inv(s) && Provenance.Justified(server, s) && OneTime.LogMatches(server, s) && DistinctDraws(s.log)
    requires tid in s.threads
    ensures Inv(Advance(server, s, tid, env))
  {
    if s.threads[tid].stage.AccessSigned? {
      IssueKeeps(server, s, tid, env);
    } else {
      QuietAdvance(server, s, tid, env);
    }
  }

  lemma QuietAdvance(server: Server, s: State, tid: nat, env: Env)
    requires Inv(s) && tid in s.threads && !s.threads[tid].stage.AccessSigned?
    ensures Inv(Advance(server, s, tid, env))
  {
    var s', thread := Advance(server, s, tid, env), s.threads[tid];
    OneTime.NextFacts(server, env, s.store, thread.req, thread.stage);
    EventKinds(server, tid, env, thread, s'.threads[tid].stage);
    OtherKeeps(s, s', Happened(server, tid, env, thread, s'.threads[tid].stage));
  }

  lemma LogOnlyGrows(server: Server, s: State, a: Action)
    ensures s.log <= Apply(server, s, a).log
  {
  }

  lemma {:induction false} Reachable(server: Server, actions: seq<Action>)
    requires DistinctDraws(Run(server, actions).log)
    ensures Inv(Run(server, actions))
  {
    if actions != [] {
      var init, a := actions[..|actions| - 1], actions[|actions| - 1];
      var s := Run(server, init);
      LogOnlyGrows(server, s, a);
      DistinctBefore(s.log, Run(server, actions).log);
      Reachable(server, init);
      Provenance.Reachable(server, init);
      OneTime.Reachable(server, init);
      StepKeeps(server, s, a);
    }
  }

  lemma AuthorizingKeeps(server: Server, s: State, a: Action)
    requires Inv(s) && a.Authorizing?
    ensures Inv(Apply(server, s, a))
  {
    var grant := Authorize(server, a.params, a.header, a.codeTime, a.stampTime).0;
    assert Apply(server, s, a) == LogGrant(s, grant);
    GrantKeeps(s, grant);
  }

  lemma ReceivingKeeps(server: Server, s: State, a: Action)
    requires Inv(s) && a.Receiving?
    ensures Inv(Apply(server, s, a))
  {
    var s' := Apply(server, s, a);
    assert s'.log == s.log && s'.store == s.store;
  }

  lemma AdvancingKeeps(server: Server, s: State, a: Action)
    requires Inv(s) && Provenance.Justified(server, s) && OneTime.LogMatches(server, s) && DistinctDraws(s.log)
    requires a.Advancing?
    ensures Inv(Apply(server, s, a))
  {
    if a.tid in s.threads {
      assert Apply(server, s, a) == Advance(server, s, a.tid, a.env);
      AdvanceKeeps(server, s, a.tid, a.env);
    } else {
      assert Apply(server, s, a) == s;
    }
  }

  lemma RevokingKeeps(server: Server, s: State, a: Action)
    requires Inv(s) && a.RevokingToken?
    ensures Inv(Apply(server, s, a))
  {
    assert Apply(server, s, a) == RevokeAndLog(s, a.jti);
    RevokeKeeps(s, a.jti);
  }

  lemma StepKeeps(server: Server, s: State, a: Action)
    requires Inv(s) && Provenance.Justified(server, s) && OneTime.LogMatches(server, s) && DistinctDraws(s.log)
    ensures Inv(Apply(server, s, a))
  {
    if a.Authorizing? {
      AuthorizingKeeps(server, s, a);
    } else if a.Receiving? {
      ReceivingKeeps(server, s, a);
    } else if a.Advancing? {
      AdvancingKeeps(server, s, a);
    } else {
      RevokingKeeps(server, s, a);
    }
  }

  // ------------------------------------------------------------- Theorems

  lemma RunLogSnoc(server: Server, actions: seq<Action>, a: Action)
    ensures Run(server, actions).log <= Run(server, actions + [a]).log
  {
    RunSnoc(server, actions, a);
    LogOnlyGrows(server, Run(server, actions), a);
  }

  lemma {:induction false} RunLogGrows(server: Server, actions: seq<Action>, more: seq<Action>)
    ensures Run(server, actions).log <= Run(server, actions + more).log
    decreases |more|
  {
    if more == [] {
      assert actions + more == actions;
    } else {
      var init, a := more[..|more| - 1], more[|more| - 1];
      RunLogGrows(server, actions, init);
      LastOfMore(actions, more);
      RunLogSnoc(server, actions + init, a);
      PrefixOfPrefix(Run(server, actions).log, Run(server, actions + init).log, Run(server, actions + more).log);
    }
  }

  lemma LastOfMore(actions: seq<Action>, more: seq<Action>)
    requires more != []
    ensures actions + more == actions + more[..|more| - 1] + [more[|more| - 1]]
  {
  }

  lemma PrefixOfPrefix(a: seq<Event>, b: seq<Event>, c: seq<Event>)
    requires a <= b <= c
    ensures a <= c
  {
  }

  lemma {:induction false} CallWasLogged(log: seq<Event>, record: TokenRecord)
    requires Issuing(record) in StoreCalls(log)
    ensures exists k: nat :: k < |log| && log[k].Issued? && log[k].record == record
  {
    var n := |log| - 1;
    if Issuing(record) in StoreCall(log[n]) {
      assert log[n].Issued? && log[n].record == record;
    } else {
      CallWasLogged(log[..n], record);
      var k: nat :| k < n && log[..n][k].Issued? && log[..n][k].record == record;
      assert log[k] == log[..n][k];
    }
  }

  // Every record in the store was issued, and under an ideal MAC its token
  // has an origin.
  lemma RecordHasOrigin(server: Server, actions: seq<Action>, jti: string)
    requires server.prims.CodecLaws() && Provenance.IdealMac(server, Run(server, actions).log)
    requires jti in Run(server, actions).store.records
    ensures var s := Run(server, actions);
            exists i: nat, t, k: nat :: Provenance.Origin(server, s.log, i, t, k)
              && s.log[k].record == s.store.records[jti] && s.log[k].record.jti == jti
  {
    var s := Run(server, actions);
    var record := s.store.records[jti];
    StoreIsHistory(server, actions);
    LookupIsLatest(StoreCalls(s.log), jti, record);
    CallWasLogged(s.log, record);
    var k: nat :| k < |s.log| && s.log[k].Issued? && s.log[k].record == record;
    Provenance.IssuedHasOrigin(server, actions, k);
  }

  // With distinct jtis, the live records and the successful revocations
  // together are the issue calls.
  lemma RecordsConserved(server: Server, actions: seq<Action>)
    requires DistinctDraws(Run(server, actions).log)
    ensures var s := Run(server, actions);
            |s.store.records| + OneTime.Count(s.log, (e: Event) => e.Revoked? && e.found) ==
            OneTime.Count(s.log, (e: Event) => e.Issued?)
  {
    Reachable(server, actions);
  }

  // For every access token that was handed out, in every state from then on,
  // /userinfo answers with the token's own subject, groups, scope and client
  // as long as the token is neither revoked nor expired, and otherwise refuses.
  lemma UserInfoAgrees(server: Server, actions: seq<Action>, e: Event, now: Time)
    requires DistinctDraws(Run(server, actions).log)
    requires e in Run(server, actions).log && e.Issued?
    ensures e.response.accessToken.AccessToken?
    ensures var s := Run(server, actions);
            var claims := e.response.accessToken.access;
            UserInfoFor(server, s.store, e.response.accessToken, now) ==
            if RevokedIn(s.log, claims.jti) || AsSecs(now) > claims.exp + LEEWAY_SECS then None
            else Some(UserInfo(claims.sub, claims.groups, claims.scope, claims.clientId))
  {
    Reachable(server, actions);
    Provenance.Reachable(server, actions);
    IssuedAnswers(server, Run(server, actions), e, now);
  }

  // Nobody has a token this issuer's key signed, but those that were issued.
  ghost predicate GenuineIsIssued(log: seq<Event>, token: Token) {
    token.AccessToken? && token.genuine ==> exists e :: IssuedAs(log, e, token)
  }

  ghost predicate IssuedAs(log: seq<Event>, e: Event, token: Token) {
    e in log && e.Issued? && e.response.accessToken == token
  }

  // So in every run /userinfo answers just the tokens that were issued, not
  // revoked since and not expired, and each with its own claims.
  lemma UserInfoOnlyIssued(server: Server, actions: seq<Action>, token: Token, now: Time)
    requires DistinctDraws(Run(server, actions).log) && GenuineIsIssued(Run(server, actions).log, token)
    ensures var s := Run(server, actions);
            var r := UserInfoFor(server, s.store, token, now);
            && (r.Some? <==>
                  && (exists e :: IssuedAs(s.log, e, token))
                  && token.AccessToken? && !RevokedIn(s.log, token.access.jti)
                  && AsSecs(now) <= token.access.exp + 5)
            && (r.Some? ==> r.value == UserInfo(token.access.sub, token.access.groups, token.access.scope,
                                                token.access.clientId))
  {
    var s := Run(server, actions);
    UserInfoSound(server, s.store, token, now);
    if e :| IssuedAs(s.log, e, token) {
      UserInfoAgrees(server, actions, e, now);
    }
  }

  // The access token of an issue and its record agree.
  ghost predicate TokenAgrees(server: Server, record: TokenRecord, token: Token) {
    && token.AccessToken? && token.genuine && token.access.iss == token.access.aud == server.jwtIssuer.issuer
    && token.access.jti == record.jti && token.access.sub == record.subject
    && token.access.groups == record.groups && token.access.scope == record.scope
    && token.access.clientId == record.clientId
  }

  lemma IssuedIsFaithful(server: Server, s: State, e: Event)
    requires Provenance.Justified(server, s) && e in s.log && e.Issued?
    ensures TokenAgrees(server, e.record, e.response.accessToken)
  {
    var k: nat :| k < |s.log| && s.log[k] == e;
    assert Provenance.EventJustified(server, s.log[..k], s.log[k]);
    var req, code :| Provenance.IssuedFrom(server, s.log[..k], e, req, code);
  }

  lemma TokenAnswers(server: Server, store: StoreState, record: TokenRecord, token: Token, now: Time)
    requires TokenAgrees(server, record, token)
    requires record.jti in store.records ==> store.records[record.jti] == record
    ensures UserInfoFor(server, store, token, now) ==
            if record.jti !in store.records || AsSecs(now) > token.access.exp + LEEWAY_SECS then None
            else Some(UserInfo(token.access.sub, token.access.groups, token.access.scope, token.access.clientId))
  {
  }

  lemma IssuedAnswers(server: Server, s: State, e: Event, now: Time)
    requires Tracked(s.store.records, s.log) && Provenance.Justified(server, s) && e in s.log && e.Issued?
    ensures e.response.accessToken.AccessToken? && e.response.accessToken.access.jti == e.record.jti
    ensures var claims := e.response.accessToken.access;
            UserInfoFor(server, s.store, e.response.accessToken, now) ==
            if RevokedIn(s.log, claims.jti) || AsSecs(now) > claims.exp + LEEWAY_SECS then None
            else Some(UserInfo(claims.sub, claims.groups, claims.scope, claims.clientId))
  {
    IssuedIsFaithful(server, s, e);
    assert IssuedIn(s.log, e, e.record.jti);
    TokenAnswers(server, s.store, e.record, e.response.accessToken, now);
  }

  // After a successful revocation the token is refused in every later state.
  lemma RevokedForGood(server: Server, actions: seq<Action>, more: seq<Action>, e: Event, now: Time)
    requires DistinctDraws(Run(server, actions + more).log)
    requires e in Run(server, actions).log && e.Issued?
    requires RevokedIn(Run(server, actions).log, e.record.jti)
    ensures UserInfoFor(server, Run(server, actions + more).store, e.response.accessToken, now) == None
  {
    RunLogGrows(server, actions, more);
    var s := Run(server, actions + more);
    assert e in s.log && RevokedIn(s.log, e.record.jti);
    Reachable(server, actions + more);
    Provenance.Reachable(server, actions + more);
    IssuedAnswers(server, s, e, now);
  }
}
