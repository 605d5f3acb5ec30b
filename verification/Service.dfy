// src/oidc/router.rs over the shared store: any number of token requests in
// flight at once, with authorizations and revocations between their steps.
module Service {
  import opened Wrappers
  import opened Code
  import opened Client
  import opened Token
  import opened Storage
  import opened Protocol
  import Users

  // --------------------------------------------------------- /authorize

  datatype AuthorizeParams = AuthorizeParams(
    responseType: string,
    clientId: string,
    redirectUri: string,
    scope: Option<string>,
    state: Option<string>,
    codeChallenge: Option<string>,
    codeChallengeMethod: Option<string>,
    nonce: Option<string>)

  // A code that was signed: for which request, header and code, and the time
  // stamped on its container.
  datatype Grant = Grant(params: AuthorizeParams, header: string, code: AuthorizationCode, stampedAt: Time)

  datatype Redirect = Redirect(uri: string, code: string, state: Option<string>)

  // `split_whitespace`; `word` is the word being read.
  function Words(s: string, word: string): seq<string> {
    if s == [] then (if word == [] then [] else [word])
    else if Users.IsWhitespace(s[0]) then (if word == [] then [] else [word]) + Words(s[1..], [])
    else Words(s[1..], word + [s[0]])
  }

  ghost predicate IsWord(w: string) {
    w != [] && forall i | 0 <= i < |w| :: !Users.IsWhitespace(w[i])
  }

  lemma {:induction false} WordsAreWords(s: string, word: string)
    requires word == [] || IsWord(word)
    ensures forall k | 0 <= k < |Words(s, word)| :: IsWord(Words(s, word)[k])
  {
    if s != [] {
      if Users.IsWhitespace(s[0]) {
        WordsAreWords(s[1..], []);
      } else {
        WordsAreWords(s[1..], word + [s[0]]);
      }
    }
  }

  lemma {:induction false} ReadWord(w: string, rest: string, word: string)
    requires forall i | 0 <= i < |w| :: !Users.IsWhitespace(w[i])
    ensures Words(w + rest, word) == Words(rest, word + w)
  {
    if w == [] {
      assert w + rest == rest && word + w == word;
    } else {
      assert (w + rest)[1..] == w[1..] + rest && (w + rest)[0] == w[0];
      ReadWord(w[1..], rest, word + [w[0]]);
      assert word + [w[0]] + w[1..] == word + w;
    }
  }

  lemma {:induction false} WordsOfJoin(words: seq<string>)
    requires forall k | 0 <= k < |words| :: IsWord(words[k])
    ensures Words(JoinSpaces(words), []) == words
  {
    if |words| == 1 {
      ReadWord(words[0], [], []);
      assert words[0] + [] == words[0] && [] + words[0] == words[0];
    } else if |words| > 1 {
      var rest := JoinSpaces(words[1..]);
      WordsOfJoin(words[1..]);
      ReadWord(words[0], " " + rest, []);
      assert words[0] + " " + rest == words[0] + (" " + rest) && [] + words[0] == words[0];
      assert (" " + rest)[1..] == rest && Users.IsWhitespace(' ');
      assert [words[0]] + words[1..] == words;
    }
  }

  // Words with whitespace before, between and after them.
  function Spread(gaps: seq<string>, words: seq<string>): string
    requires |gaps| == |words| + 1
  {
    if words == [] then gaps[0] else gaps[0] + words[0] + Spread(gaps[1..], words[1..])
  }

  ghost predicate IsSpacing(gaps: seq<string>) {
    && (forall k | 0 <= k < |gaps| :: Users.AllSpace(gaps[k]))
    && (forall k | 0 < k < |gaps| - 1 :: gaps[k] != [])
  }

  // The words of a text: it is they, kept apart by whitespace.
  ghost predicate AreWordsOf(text: string, words: seq<string>) {
    && (forall k | 0 <= k < |words| :: IsWord(words[k]))
    && exists gaps :: |gaps| == |words| + 1 && IsSpacing(gaps) && text == Spread(gaps, words)
  }

  lemma {:induction false} SkipSpace(gap: string, rest: string)
    requires Users.AllSpace(gap)
    ensures Words(gap + rest, []) == Words(rest, [])
  {
    if gap == [] {
      assert gap + rest == rest;
    } else {
      assert (gap + rest)[1..] == gap[1..] + rest && Users.IsWhitespace(gap[0]);
      SkipSpace(gap[1..], rest);
    }
  }

  lemma {:induction false} WordsOfSpread(gaps: seq<string>, words: seq<string>)
    requires |gaps| == |words| + 1 && IsSpacing(gaps) && forall k | 0 <= k < |words| :: IsWord(words[k])
    ensures Words(Spread(gaps, words), []) == words
  {
    if words == [] {
      SkipSpace(gaps[0], []);
      assert gaps[0] + [] == gaps[0];
    } else {
      var rest := Spread(gaps[1..], words[1..]);
      SkipSpace(gaps[0], words[0] + rest);
      assert gaps[0] + words[0] + rest == gaps[0] + (words[0] + rest);
      ReadWord(words[0], rest, []);
      assert [] + words[0] == words[0];
      WordsOfSpread(gaps[1..], words[1..]);
      WordEnds(gaps[1..], words[1..], words[0]);
      assert [words[0]] + words[1..] == words;
    }
  }

  // After a word comes whitespace or nothing.
  lemma WordEnds(gaps: seq<string>, words: seq<string>, word: string)
    requires |gaps| == |words| + 1 && Users.AllSpace(gaps[0]) && (words != [] ==> gaps[0] != []) && IsWord(word)
    ensures var rest := Spread(gaps, words); Words(rest, word) == [word] + Words(rest, [])
  {
    var rest := Spread(gaps, words);
    if rest != [] {
      assert rest[0] == gaps[0][0];
    }
  }

  lemma SpreadAfter(c: char, gaps: seq<string>, words: seq<string>) returns (more: seq<string>)
    requires |gaps| == |words| + 1 && IsSpacing(gaps) && Users.IsWhitespace(c)
    ensures |more| == |gaps| && IsSpacing(more) && more[0] != [] && Spread(more, words) == [c] + Spread(gaps, words)
  {
    more := [[c] + gaps[0]] + gaps[1..];
    assert more[1..] == gaps[1..];
    if words != [] {
      assert [c] + gaps[0] + words[0] + Spread(gaps[1..], words[1..]) ==
             [c] + (gaps[0] + words[0] + Spread(gaps[1..], words[1..]));
    }
  }

  lemma SpreadWord(word: string, gaps: seq<string>, words: seq<string>) returns (more: seq<string>)
    requires |gaps| == |words| + 1 && IsSpacing(gaps) && (words != [] ==> gaps[0] != [])
    ensures |more| == |gaps| + 1 && IsSpacing(more) && Spread(more, [word] + words) == word + Spread(gaps, words)
  {
    more := [[]] + gaps;
    assert more[1..] == gaps && ([word] + words)[1..] == words;
    assert [] + word == word;
  }

  // Every text is its words, kept apart by whitespace.
  lemma {:induction false} SpreadOfWords(s: string, word: string) returns (gaps: seq<string>)
    ensures |gaps| == |Words(s, word)| + 1 && IsSpacing(gaps) && Spread(gaps, Words(s, word)) == word + s
  {
    if s == [] {
      gaps := if word == [] then [[]] else [[], []];
      if word != [] {
        assert [word][1..] == [] && gaps[1..] == [[]];
        assert [] + word + Spread([[]], []) == word + s;
      }
    } else if Users.IsWhitespace(s[0]) {
      var rest := SpreadOfWords(s[1..], []);
      assert [] + s[1..] == s[1..];
      var words := Words(s[1..], []);
      gaps := SpreadAfter(s[0], rest, words);
      assert [s[0]] + s[1..] == s;
      if word == [] {
        assert [] + words == words && [] + s == s;
      } else {
        gaps := SpreadWord(word, gaps, words);
      }
    } else {
      gaps := SpreadOfWords(s[1..], word + [s[0]]);
      assert word + [s[0]] + s[1..] == word + s;
    }
  }

  // `Words` finds the words of a text, and there are no others.
  lemma WordsFound(text: string, words: seq<string>)
    ensures AreWordsOf(text, words) <==> words == Words(text, [])
  {
    WordsAreWords(text, []);
    var spacing := SpreadOfWords(text, []);
    assert [] + text == text;
    if AreWordsOf(text, words) {
      var gaps :| |gaps| == |words| + 1 && IsSpacing(gaps) && text == Spread(gaps, words);
      WordsOfSpread(gaps, words);
    }
  }

  // The scope a token response reports, read as a scope again, is the scope
  // that was granted.
  lemma ScopeRoundTrip(requested: string)
    ensures var scope := Words(requested, []); Words(JoinSpaces(scope), []) == scope
  {
    WordsAreWords(requested, []);
    WordsOfJoin(Words(requested, []));
  }

  function ChallengeMethod(name: Option<string>): Option<CodeChallengeMethod> {
    match name
    case None => Some(Plain)
    case Some(n) => if n == "S256" then Some(S256) else if n == "plain" then Some(Plain) else None
  }

  // The grant made, if any, and the answer. The redirect URI is parsed only
  // after the code is signed. The source reads the clock twice.
  function Authorize(server: Server, params: AuthorizeParams, header: Option<string>, codeTime: Time, stampTime: Time):
    (Option<Grant>, Result<Redirect, OIDCError>)
  {
    var p := server.prims;
    if params.responseType != "code" then (None, Err(UnsupportedResponseType))
    else
      match ChallengeMethod(params.codeChallengeMethod)
      case None => (None, Err(InvalidRequest(UnsupportedChallengeMethod)))
      case Some(challengeMethod) =>
        match server.clients.FindById(params.clientId)
        case None => (None, Err(UnauthorizedClient))
        case Some(client) =>
          if !server.clients.ValidateRedirectUri(params.clientId, params.redirectUri)
          then (None, Err(InvalidRequest(RedirectNotRegistered)))
          else
            match header
            case None => (None, Err(AccessDenied))
            case Some(dn) =>
              match Users.Extract(dn, server.dnAttribute, p.upper)
              case Err(_) => (None, Err(AccessDenied))
              case Ok(subject) =>
                var groups := Users.Union(client.groups, server.defaultGroups);
                var scope := if params.scope.Some? then Words(params.scope.value, []) else [];
                var code := AuthorizationCode(params.clientId, params.redirectUri, params.codeChallenge,
                                              challengeMethod, codeTime, subject, params.nonce, groups, scope);
                (Some(Grant(params, dn, code, stampTime)),
                 if p.urlParses(params.redirectUri)
                 then Ok(Redirect(params.redirectUri, Sealed(p, code, server.hmacKey, stampTime), params.state))
                 else Err(ServerError))
  }

  ghost predicate MethodNamed(name: Option<string>, codeMethod: CodeChallengeMethod) {
    match codeMethod
    case Plain => name == None || name == Some("plain")
    case S256 => name == Some("S256")
  }

  ghost predicate ScopeAsked(scope: Option<string>, granted: seq<string>) {
    match scope
    case None => granted == []
    case Some(text) => AreWordsOf(text, granted)
  }

  // The code says what the request and its header asked for.
  ghost predicate CodeFor(server: Server, params: AuthorizeParams, header: string, codeTime: Time,
                          code: AuthorizationCode) {
    var client := server.clients.FindById(params.clientId);
    && client.Some? && code.groups == Users.Union(client.value.groups, server.defaultGroups)
    && code.clientId == params.clientId && code.redirectUri == params.redirectUri
    && code.codeChallenge == params.codeChallenge
    && MethodNamed(params.codeChallengeMethod, code.codeChallengeMethod)
    && code.timestamp == codeTime
    && Users.Extract(header, server.dnAttribute, server.prims.upper) == Ok(code.subject)
    && code.nonce == params.nonce && ScopeAsked(params.scope, code.scope)
  }

  // Everything that must hold for a code to be signed.
  ghost predicate MayGrant(server: Server, params: AuthorizeParams, header: Option<string>) {
    && params.responseType == "code"
    && (exists m :: MethodNamed(params.codeChallengeMethod, m))
    && server.clients.ValidateRedirectUri(params.clientId, params.redirectUri)
    && header.Some? && Users.Extract(header.value, server.dnAttribute, server.prims.upper).Ok?
  }

  // The first condition that fails, in this order, gives the answer.
  ghost predicate AnswerFits(server: Server, params: AuthorizeParams, header: Option<string>,
                             answer: Result<Redirect, OIDCError>) {
    var methodOk := exists m :: MethodNamed(params.codeChallengeMethod, m);
    var clientOk := server.clients.FindById(params.clientId).Some?;
    var redirectOk := server.clients.ValidateRedirectUri(params.clientId, params.redirectUri);
    if params.responseType != "code" then answer == Err(UnsupportedResponseType)
    else if !methodOk then answer == Err(InvalidRequest(UnsupportedChallengeMethod))
    else if !clientOk then answer == Err(UnauthorizedClient)
    else if !redirectOk then answer == Err(InvalidRequest(RedirectNotRegistered))
    else if !MayGrant(server, params, header) then answer == Err(AccessDenied)
    else if !server.prims.urlParses(params.redirectUri) then answer == Err(ServerError)
    else answer.Ok? && answer.value.uri == params.redirectUri && answer.value.state == params.state
  }

  // The redirect hands out a code for this request, stamped at this time.
  ghost predicate HandsOut(server: Server, params: AuthorizeParams, header: string, codeTime: Time, stampTime: Time,
                           encoded: string) {
    exists code :: Opened(server.prims, encoded, server.hmacKey) == Ok(TimestampedContainer(code, stampTime))
                   && CodeFor(server, params, header, codeTime, code)
  }

  lemma MethodsNamed(name: Option<string>)
    ensures forall m :: ChallengeMethod(name) == Some(m) <==> MethodNamed(name, m)
  {
  }

  lemma ScopeFound(scope: Option<string>)
    ensures ScopeAsked(scope, if scope.Some? then Words(scope.value, []) else [])
  {
    if scope.Some? { WordsFound(scope.value, Words(scope.value, [])); }
  }

  lemma GrantMade(server: Server, params: AuthorizeParams, header: Option<string>, codeTime: Time, stampTime: Time)
    ensures Authorize(server, params, header, codeTime, stampTime).0.Some? <==> MayGrant(server, params, header)
  {
    MethodsNamed(params.codeChallengeMethod);
  }

  lemma GrantSays(server: Server, params: AuthorizeParams, header: Option<string>, codeTime: Time, stampTime: Time)
    ensures var grant := Authorize(server, params, header, codeTime, stampTime).0;
            grant.Some? ==>
              && grant.value.params == params && Some(grant.value.header) == header
              && grant.value.stampedAt == stampTime
              && CodeFor(server, params, grant.value.header, codeTime, grant.value.code)
  {
    MethodsNamed(params.codeChallengeMethod);
    ScopeFound(params.scope);
  }

  lemma AnswerGiven(server: Server, params: AuthorizeParams, header: Option<string>, codeTime: Time, stampTime: Time)
    ensures var (grant, answer) := Authorize(server, params, header, codeTime, stampTime);
            && AnswerFits(server, params, header, answer)
            && (answer.Ok? ==>
                  && grant.Some?
                  && answer.value.code == Sealed(server.prims, grant.value.code, server.hmacKey, stampTime))
  {
    MethodsNamed(params.codeChallengeMethod);
  }

  // A grant is made exactly when it may be, and is of this request.
  lemma AuthorizeDecides(server: Server, params: AuthorizeParams, header: Option<string>, codeTime: Time,
                         stampTime: Time)
    ensures var (grant, answer) := Authorize(server, params, header, codeTime, stampTime);
            && (grant.Some? <==> MayGrant(server, params, header))
            && AnswerFits(server, params, header, answer)
            && (grant.Some? ==>
                  && grant.value.params == params && Some(grant.value.header) == header
                  && grant.value.stampedAt == stampTime
                  && CodeFor(server, params, grant.value.header, codeTime, grant.value.code))
            && (answer.Ok? ==>
                  && grant.Some?
                  && answer.value.code == Sealed(server.prims, grant.value.code, server.hmacKey, stampTime))
  {
    GrantMade(server, params, header, codeTime, stampTime);
    GrantSays(server, params, header, codeTime, stampTime);
    AnswerGiven(server, params, header, codeTime, stampTime);
  }

  lemma AuthorizeHandsOut(server: Server, params: AuthorizeParams, header: Option<string>, codeTime: Time,
                          stampTime: Time)
    requires server.prims.CodecLaws() && Authorize(server, params, header, codeTime, stampTime).1.Ok?
    ensures var answer := Authorize(server, params, header, codeTime, stampTime).1;
            header.Some? && HandsOut(server, params, header.value, codeTime, stampTime, answer.value.code)
  {
    AuthorizeDecides(server, params, header, codeTime, stampTime);
    var grant := Authorize(server, params, header, codeTime, stampTime).0.value;
    SealedOpens(server.prims, grant.code, server.hmacKey, stampTime, server.codeMaxAge, stampTime);
  }

  // The handler, with the scanner, the group loop and the encoder it runs.
  method AuthorizeHandler(server: Server, params: AuthorizeParams, header: Option<string>, codeTime: Time,
                          stampTime: Time) returns (r: Result<Redirect, OIDCError>)
    ensures AnswerFits(server, params, header, r)
    ensures r.Ok? && server.prims.CodecLaws() ==>
              header.Some? && HandsOut(server, params, header.value, codeTime, stampTime, r.value.code)
    ensures r == Authorize(server, params, header, codeTime, stampTime).1
  {
    ghost var answer := Authorize(server, params, header, codeTime, stampTime).1;
    AuthorizeDecides(server, params, header, codeTime, stampTime);
    if server.prims.CodecLaws() && answer.Ok? {
      AuthorizeHandsOut(server, params, header, codeTime, stampTime);
    }
    var p := server.prims;
    if params.responseType != "code" {
      return Err(UnsupportedResponseType);
    }
    var challengeMethod := ChallengeMethod(params.codeChallengeMethod);
    if challengeMethod == None {
      return Err(InvalidRequest(UnsupportedChallengeMethod));
    }
    var client := server.clients.FindById(params.clientId);
    if client == None {
      return Err(UnauthorizedClient);
    }
    if !server.clients.ValidateRedirectUri(params.clientId, params.redirectUri) {
      return Err(InvalidRequest(RedirectNotRegistered));
    }
    if header == None {
      return Err(AccessDenied);
    }
    var user := Users.Resolve(server.dnAttribute, header.value, p.upper);
    if user.Err? {
      return Err(AccessDenied);
    }
    var groups := Users.ResolveGroups(client.value.groups, server.defaultGroups);
    var scope := if params.scope.Some? then Words(params.scope.value, []) else [];
    var code := AuthorizationCode(params.clientId, params.redirectUri, params.codeChallenge, challengeMethod.value,
                                  codeTime, user.value.subject, params.nonce, groups, scope);
    var encoded := SignAndEncode(p, code, server.hmacKey, stampTime);
    if !p.urlParses(params.redirectUri) {
      return Err(ServerError);
    }
    return Ok(Redirect(params.redirectUri, encoded, params.state));
  }

  // ----------------------------------------------------------- /userinfo

  datatype UserInfo = UserInfo(sub: string, groups: seq<string>, scope: seq<string>, clientId: string)

  function UserInfoFor(server: Server, store: StoreState, token: Token, now: Time): Option<UserInfo> {
    match server.jwtIssuer.VerifyAccessToken(token, now)
    case Err(_) => None
    case Ok(claims) =>
      match store.Lookup(claims.jti)
      case None => None
      case Some(record) => Some(UserInfo(record.subject, record.groups, record.scope, record.clientId))
  }

  // The token is one this issuer's key signed for itself, at most five seconds
  // past its expiry, and its record is in the store.
  ghost predicate MayRead(server: Server, store: StoreState, token: Token, now: Time) {
    && token.AccessToken? && token.genuine
    && token.access.iss == server.jwtIssuer.issuer && token.access.aud == server.jwtIssuer.issuer
    && AsSecs(now) <= token.access.exp + 5
    && token.access.jti in store.records
  }

  // Only such a token is answered, and with what its record says.
  lemma UserInfoSound(server: Server, store: StoreState, token: Token, now: Time)
    ensures var r := UserInfoFor(server, store, token, now);
            && (r.Some? <==> MayRead(server, store, token, now))
            && (r.Some? ==>
                  var record := store.records[token.access.jti];
                  && r.value.sub == record.subject && r.value.groups == record.groups
                  && r.value.scope == record.scope && r.value.clientId == record.clientId)
  {
  }

  method UserInfoHandler(server: Server, store: InMemoryTokenStore, token: Token, now: Time)
    returns (r: Option<UserInfo>)
    requires store.Valid()
    ensures r.Some? <==> MayRead(server, store.State(), token, now)
    ensures r == UserInfoFor(server, store.State(), token, now)
  {
    var claims := server.jwtIssuer.VerifyAccessToken(token, now);
    if claims.Err? {
      return None;
    }
    var record := store.Lookup(claims.value.jti);
    return if record == None then None
           else Some(UserInfo(record.value.subject, record.value.groups, record.value.scope, record.value.clientId));
  }

  // -------------------------------------------------------------- The run

  // What happened, in order.
  datatype Event =
    | Granted(grant: Grant)
    | Accepted(tid: nat, req: AccessTokenRequest, code: AuthorizationCode, at: Time)
    | ConsumedBy(tid: nat, key: string)
    | Drew(tid: nat, jti: string)
    | Issued(tid: nat, record: TokenRecord, response: TokenResponse)
    | Revoked(jti: string, found: bool)

  datatype Thread = Thread(req: AccessTokenRequest, stage: Stage)

  datatype State = State(store: StoreState, threads: map<nat, Thread>, log: seq<Event>)

  const START := State(EMPTY, map[], [])

  // One atomic step of the service. Clock readings and random fills come with
  // the step, so a run may have any clock.
  datatype Action =
    | Authorizing(params: AuthorizeParams, header: Option<string>, codeTime: Time, stampTime: Time)
    | Receiving(tid: nat, req: AccessTokenRequest)
    | Advancing(tid: nat, env: Env)
    | RevokingToken(jti: string)

  function Happened(server: Server, tid: nat, env: Env, thread: Thread, stage': Stage): (events: seq<Event>)
    ensures |events| <= 1
  {
    match (thread.stage, stage')
    case (Received, Verified(code)) => [Accepted(tid, thread.req, code, env.verifyAt)]
    case (Authenticated(_), Consumed(_)) => [ConsumedBy(tid, CodeReplayKey(server.prims, thread.req.code))]
    case (Consumed(_), Drawn(_, jti)) => [Drew(tid, jti)]
    case (AccessSigned(code, jti, _, _), Finished(Ok(response))) =>
      [Issued(tid, Record(server, thread.req, code, jti, env.recordAt), response)]
    case _ => []
  }

  function Advance(server: Server, s: State, tid: nat, env: Env): State
    requires tid in s.threads
  {
    var thread := s.threads[tid];
    var (store', stage') := Next(server, env, s.store, thread.req, thread.stage);
    State(store', s.threads[tid := Thread(thread.req, stage')],
          s.log + Happened(server, tid, env, thread, stage'))
  }

  function LogGrant(s: State, grant: Option<Grant>): State {
    match grant
    case None => s
    case Some(g) => s.(log := s.log + [Granted(g)])
  }

  function RevokeAndLog(s: State, jti: string): State {
    s.(store := s.store.Revoke(jti), log := s.log + [Revoked(jti, jti in s.store.records)])
  }

  function Apply(server: Server, s: State, a: Action): State {
    match a
    case Authorizing(params, header, codeTime, stampTime) =>
      LogGrant(s, Authorize(server, params, header, codeTime, stampTime).0)
    case Receiving(tid, req) =>
      if tid in s.threads then s else s.(threads := s.threads[tid := Thread(req, Received)])
    case Advancing(tid, env) =>
      if tid in s.threads then Advance(server, s, tid, env) else s
    case RevokingToken(jti) => RevokeAndLog(s, jti)
  }

  // The state after any sequence of steps.
  function Run(server: Server, actions: seq<Action>): State {
    if actions == [] then START
    else Apply(server, Run(server, actions[..|actions| - 1]), actions[|actions| - 1])
  }

  lemma RunSnoc(server: Server, actions: seq<Action>, a: Action)
    ensures Run(server, actions + [a]) == Apply(server, Run(server, actions), a)
  {
    assert (actions + [a])[..|actions|] == actions;
  }

  // The request took its code out of use and was not told it was used before.
  predicate PastConsumption(stage: Stage) {
    match stage
    case Consumed(_) => true
    case Drawn(_, _) => true
    case IdSigned(_, _, _) => true
    case AccessSigned(_, _, _, _) => true
    case Finished(outcome) => outcome.Ok? || outcome.error == ServerError
    case _ => false
  }

  predicate InFlight(stage: Stage) {
    !stage.Finished?
  }

  function KeyOf(server: Server, thread: Thread): string {
    CodeReplayKey(server.prims, thread.req.code)
  }

  // Only the last step logs an issue, and no step of a request a revocation.
  lemma EventKinds(server: Server, tid: nat, env: Env, thread: Thread, stage': Stage)
    ensures forall e | e in Happened(server, tid, env, thread, stage') ::
              !e.Granted? && !e.Revoked? && (e.Issued? ==> thread.stage.AccessSigned?)
  {
  }

  // The event of the step that records the token and answers.
  function IssueEvent(server: Server, tid: nat, env: Env, thread: Thread): Event
    requires thread.stage.AccessSigned?
  {
    var AccessSigned(code, jti, idToken, accessToken) := thread.stage;
    Issued(tid, Record(server, thread.req, code, jti, env.recordAt), Response(server, code, idToken, accessToken))
  }

  lemma IssueEffect(server: Server, s: State, tid: nat, env: Env)
    requires tid in s.threads && s.threads[tid].stage.AccessSigned?
    ensures var e := IssueEvent(server, tid, env, s.threads[tid]);
            Advance(server, s, tid, env) ==
            State(s.store.Issue(e.record), s.threads[tid := Thread(s.threads[tid].req, Finished(Ok(e.response)))],
                  s.log + [e])
  {
  }
}
