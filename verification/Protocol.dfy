// src/oidc/protocol.rs: issuing and redeeming authorization codes.
module Protocol {
  import opened Wrappers
  import Utf8
  import opened Client
  import opened Code
  import opened Token
  import opened Storage
  import Hex

  // The reason stands for the text the source puts in the error.
  datatype OIDCError =
    | InvalidRequest(requestFault: RequestFault)
    | UnauthorizedClient
    | AccessDenied
    | UnsupportedResponseType
    | InvalidGrant(grantFault: GrantFault)
    | InvalidClient
    | ServerError

  datatype RequestFault = UnsupportedChallengeMethod | RedirectNotRegistered

  datatype GrantFault =
    | CodeExpired
    | CodeInvalid
    | CodeMalformed
    | CodeForOtherClient
    | CodeForOtherRedirect
    | PkceFailed
    | RedirectNotAllowed
    | CodeAlreadyUsed

  datatype TokenResponse = TokenResponse(
    accessToken: Token,
    tokenType: string,
    expiresIn: nat,
    idToken: Token,
    scope: Option<string>)

  datatype AccessTokenRequest = AccessTokenRequest(
    clientId: string,
    clientSecret: Option<string>,
    code: string,
    redirectUri: string,
    codeVerifier: Option<string>)

  // The flow, its collaborators and the library functions; fixed for the life
  // of the process.
  datatype Server = Server(
    prims: Primitives,
    codeMaxAge: Duration,
    hmacKey: Bytes,
    clients: ClientRegistry,
    jwtIssuer: JwtIssuer,
    idTokenTtl: Duration,
    accessTokenTtl: Duration,
    dnAttribute: string,
    defaultGroups: seq<string>)

  type Fill = f: seq<bv8> | |f| == 16 witness seq(16, _ => 0)

  // What a redemption takes from outside: four clock readings, the random
  // fill, and whether each signature can be made.
  datatype Env = Env(
    verifyAt: Time,
    idAt: Time,
    accessAt: Time,
    recordAt: Time,
    fill: Fill,
    idSigns: bool,
    accessSigns: bool)

  function CodeReplayKey(p: Primitives, code: string): string {
    (p.base64EncodeNoPad)((p.blake3)(Utf8.Encode(code)))
  }

  // Different texts have different keys, as far as the digest and its text tell
  // things apart.
  lemma ReplayKeyInjective(p: Primitives, a: string, b: string)
    requires p.DigestsInjective()
    ensures CodeReplayKey(p, a) == CodeReplayKey(p, b) <==> a == b
  {
    if CodeReplayKey(p, a) == CodeReplayKey(p, b) {
      Utf8.EncodeInjective(a, b);
    }
  }

  function MapCodeVerificationError(err: VerificationError): OIDCError {
    match err
    case InvalidTimestamp => InvalidGrant(CodeExpired)
    case InvalidSignature => InvalidGrant(CodeInvalid)
    case InvalidBase64Encoding => InvalidGrant(CodeMalformed)
    case InvalidSignedDataContainerEncoding => InvalidGrant(CodeMalformed)
  }

  function MapTokenRequestError(err: TokenRequestError): OIDCError {
    match err
    case InvalidClientId => InvalidGrant(CodeForOtherClient)
    case InvalidRedirectUri => InvalidGrant(CodeForOtherRedirect)
    case InvalidPkce => InvalidGrant(PkceFailed)
  }

  // `join(" ")`.
  function JoinSpaces(words: seq<string>): string {
    if words == [] then []
    else if |words| == 1 then words[0]
    else words[0] + " " + JoinSpaces(words[1..])
  }

  // One space and no more between words.
  lemma {:induction false} JoinConcat(a: seq<string>, b: seq<string>)
    requires a != [] && b != []
    ensures JoinSpaces(a + b) == JoinSpaces(a) + " " + JoinSpaces(b)
    ensures |a| == 1 ==> JoinSpaces(a) == a[0]
  {
    if |a| == 1 {
      assert (a + b)[1..] == b;
    } else {
      assert (a + b)[1..] == a[1..] + b;
      JoinConcat(a[1..], b);
    }
  }

  function Record(server: Server, req: AccessTokenRequest, code: AuthorizationCode, jti: string, now: Time):
    TokenRecord
  {
    TokenRecord(code.subject, req.clientId, code.scope, code.groups, now + server.accessTokenTtl, jti)
  }

  function Response(server: Server, code: AuthorizationCode, idToken: Token, accessToken: Token): TokenResponse {
    TokenResponse(accessToken, "Bearer", AsSecs(server.accessTokenTtl), idToken, Some(JoinSpaces(code.scope)))
  }

  // ------------------------------------------------ Redemption in steps

  // How far a redemption has come, and the local variables it has by then.
  datatype Stage =
    | Received
    | Verified(code: AuthorizationCode)
    | Bound(code: AuthorizationCode)
    | Registered(code: AuthorizationCode)
    | Authenticated(code: AuthorizationCode)
    | Consumed(code: AuthorizationCode)
    | Drawn(code: AuthorizationCode, jti: string)
    | IdSigned(code: AuthorizationCode, jti: string, idToken: Token)
    | AccessSigned(code: AuthorizationCode, jti: string, idToken: Token, accessToken: Token)
    | Finished(outcome: Result<TokenResponse, OIDCError>)

  function StepsLeft(stage: Stage): nat {
    match stage
    case Received => 9
    case Verified(_) => 8
    case Bound(_) => 7
    case Registered(_) => 6
    case Authenticated(_) => 5
    case Consumed(_) => 4
    case Drawn(_, _) => 3
    case IdSigned(_, _, _) => 2
    case AccessSigned(_, _, _, _) => 1
    case Finished(_) => 0
  }

  function Failed(e: OIDCError): Stage {
    Finished(Err(e))
  }

  // One step. The store is read and changed by the step from Authenticated,
  // which consumes the code, and changed by the last, which records the token;
  // each of the two is one call, under one lock.
  function Next(server: Server, env: Env, store: StoreState, req: AccessTokenRequest, stage: Stage):
    (StoreState, Stage)
  {
    var p := server.prims;
    match stage
    case Received =>
      (store,
       match DecodeAndVerify(p, req.code, server.hmacKey, server.codeMaxAge, env.verifyAt)
       case Ok(code) => Verified(code)
       case Err(e) => Failed(MapCodeVerificationError(e)))
    case Verified(code) =>
      (store,
       match ValidateTokenRequest(p, code, req.clientId, req.redirectUri, req.codeVerifier)
       case Ok(_) => Bound(code)
       case Err(e) => Failed(MapTokenRequestError(e)))
    case Bound(code) =>
      (store,
       if server.clients.ValidateRedirectUri(req.clientId, req.redirectUri) then Registered(code)
       else Failed(InvalidGrant(RedirectNotAllowed)))
    case Registered(code) =>
      (store,
       match server.clients.ClientSecretResult(req.clientId, req.clientSecret)
       case Allow => Authenticated(code)
       case Deny => Failed(InvalidClient))
    case Authenticated(code) =>
      var key := CodeReplayKey(p, req.code);
      (store.Consume(key),
       if key !in store.consumed then Consumed(code) else Failed(InvalidGrant(CodeAlreadyUsed)))
    case Consumed(code) =>
      (store, Drawn(code, Hex.Jti(env.fill)))
    case Drawn(code, jti) =>
      (store,
       match server.jwtIssuer.IssueIdToken(code.subject, req.clientId, code.groups, code.nonce,
                                           server.idTokenTtl, env.idAt, env.idSigns)
       case Ok(idToken) => IdSigned(code, jti, idToken)
       case Err(_) => Failed(ServerError))
    case IdSigned(code, jti, idToken) =>
      (store,
       match server.jwtIssuer.IssueAccessToken(code.subject, req.clientId, code.groups, code.scope, jti,
                                               server.accessTokenTtl, env.accessAt, env.accessSigns)
       case Ok(accessToken) => AccessSigned(code, jti, idToken, accessToken)
       case Err(_) => Failed(ServerError))
    case AccessSigned(code, jti, idToken, accessToken) =>
      (store.Issue(Record(server, req, code, jti, env.recordAt)),
       Finished(Ok(Response(server, code, idToken, accessToken))))
    case Finished(_) => (store, stage)
  }

  // The steps of one redemption with no other in between.
  function Drive(server: Server, env: Env, store: StoreState, req: AccessTokenRequest, stage: Stage):
    (StoreState, Result<TokenResponse, OIDCError>)
    decreases StepsLeft(stage)
  {
    match stage
    case Finished(outcome) => (store, outcome)
    case _ =>
      var (store', stage') := Next(server, env, store, req, stage);
      Drive(server, env, store', req, stage')
  }

  // Where one step leads, the rest of the steps lead.
  lemma Reaches(server: Server, env: Env, store: StoreState, req: AccessTokenRequest, stage: Stage)
    requires !stage.Finished?
    ensures var (store', stage') := Next(server, env, store, req, stage);
            && StepsLeft(stage') < StepsLeft(stage)
            && Drive(server, env, store, req, stage) == Drive(server, env, store', req, stage')
            && (stage'.Finished? ==> Drive(server, env, store, req, stage) == (store', stage'.outcome))
  {
  }

  // The source's function, on a store nothing else touches meanwhile.
  method RedeemCode(server: Server, env: Env, store: InMemoryTokenStore, req: AccessTokenRequest)
    returns (r: Result<TokenResponse, OIDCError>)
    requires store.Valid()
    modifies store
    ensures store.Valid()
    ensures (store.State(), r) == Drive(server, env, old(store.State()), req, Received)
  {
    var p := server.prims;
    ghost var before := store.State();
    var decoded := DecodeAndVerify(p, req.code, server.hmacKey, server.codeMaxAge, env.verifyAt);
    if decoded.Err? {
      return Err(MapCodeVerificationError(decoded.error));
    }
    var authCode := decoded.value;
    Reaches(server, env, before, req, Received);

    var matched := ValidateTokenRequest(p, authCode, req.clientId, req.redirectUri, req.codeVerifier);
    if matched.Err? {
      return Err(MapTokenRequestError(matched.error));
    }
    Reaches(server, env, before, req, Verified(authCode));

    if !server.clients.ValidateRedirectUri(req.clientId, req.redirectUri) {
      return Err(InvalidGrant(RedirectNotAllowed));
    }
    Reaches(server, env, before, req, Bound(authCode));

    var auth := server.clients.ValidateClientSecret(req.clientId, req.clientSecret);
    if auth == Deny {
      return Err(InvalidClient);
    }
    Reaches(server, env, before, req, Registered(authCode));

    var codeHash := CodeReplayKey(p, req.code);
    var first := store.ConsumeCode(codeHash);
    Reaches(server, env, before, req, Authenticated(authCode));
    if !first {
      assert store.State() == before;
      return Err(InvalidGrant(CodeAlreadyUsed));
    }
    r := IssueTokens(server, env, store, req, authCode);
  }

  // The part after the code is consumed.
  method IssueTokens(server: Server, env: Env, store: InMemoryTokenStore, req: AccessTokenRequest,
                     authCode: AuthorizationCode) returns (r: Result<TokenResponse, OIDCError>)
    requires store.Valid()
    modifies store
    ensures store.Valid()
    ensures (store.State(), r) == Drive(server, env, old(store.State()), req, Consumed(authCode))
  {
    ghost var before := store.State();
    var jti := Hex.RandomJti(env.fill);
    Reaches(server, env, before, req, Consumed(authCode));

    var idToken := server.jwtIssuer.IssueIdToken(authCode.subject, req.clientId, authCode.groups, authCode.nonce,
                                                 server.idTokenTtl, env.idAt, env.idSigns);
    if idToken.Err? {
      return Err(ServerError);
    }
    Reaches(server, env, before, req, Drawn(authCode, jti));

    var accessToken := server.jwtIssuer.IssueAccessToken(authCode.subject, req.clientId, authCode.groups,
                                                         authCode.scope, jti, server.accessTokenTtl, env.accessAt,
                                                         env.accessSigns);
    if accessToken.Err? {
      return Err(ServerError);
    }
    Reaches(server, env, before, req, IdSigned(authCode, jti, idToken.value));

    store.Issue(jti, authCode.subject, req.clientId, authCode.scope, authCode.groups,
                env.recordAt + server.accessTokenTtl);
    return Ok(TokenResponse(accessToken.value, "Bearer", AsSecs(server.accessTokenTtl), idToken.value,
                            Some(JoinSpaces(authCode.scope))));
  }

  // ---------------------------------------------------- The decision table

  // What a token request must satisfy, in the order in which failures are reported.
  datatype Check =
    | Decoding
    | Freshness
    | ClientMatch
    | RedirectMatch
    | Pkce
    | Registration
    | ClientSecret
    | FirstUse
    | IdSigning
    | AccessSigning

  function Rank(c: Check): nat {
    match c
    case Decoding => 0
    case Freshness => 1
    case ClientMatch => 2
    case RedirectMatch => 3
    case Pkce => 4
    case Registration => 5
    case ClientSecret => 6
    case FirstUse => 7
    case IdSigning => 8
    case AccessSigning => 9
  }

  // The conditions on the request alone, each on its own. Those about the
  // code's content are about a code that decodes.
  ghost predicate RequestPasses(server: Server, req: AccessTokenRequest, c: Check) {
    var p := server.prims;
    var held := Opened(p, req.code, server.hmacKey);
    match c
    case Decoding => held.Ok?
    case ClientMatch => held.Ok? ==> held.value.content.clientId == req.clientId
    case RedirectMatch => held.Ok? ==> held.value.content.redirectUri == req.redirectUri
    case Pkce => held.Ok? ==> PkceHolds(p, held.value.content, req.codeVerifier)
    case Registration => server.clients.ValidateRedirectUri(req.clientId, req.redirectUri)
    case ClientSecret => server.clients.ClientSecretResult(req.clientId, req.clientSecret) == Allow
    case _ => true
  }

  // And those on the clock, the store and the signer.
  ghost predicate Passes(server: Server, env: Env, store: StoreState, req: AccessTokenRequest, c: Check) {
    var held := Opened(server.prims, req.code, server.hmacKey);
    match c
    case Freshness => held.Ok? ==> InWindow(held.value.timestamp, server.codeMaxAge, env.verifyAt)
    case FirstUse => CodeReplayKey(server.prims, req.code) !in store.consumed
    case IdSigning => env.idSigns
    case AccessSigning => env.accessSigns
    case _ => RequestPasses(server, req, c)
  }

  function ErrorOf(server: Server, req: AccessTokenRequest, c: Check): OIDCError {
    match c
    case Decoding =>
      (match Opened(server.prims, req.code, server.hmacKey)
       case Err(InvalidSignature) => InvalidGrant(CodeInvalid)
       case _ => InvalidGrant(CodeMalformed))
    case Freshness => InvalidGrant(CodeExpired)
    case ClientMatch => InvalidGrant(CodeForOtherClient)
    case RedirectMatch => InvalidGrant(CodeForOtherRedirect)
    case Pkce => InvalidGrant(PkceFailed)
    case Registration => InvalidGrant(RedirectNotAllowed)
    case ClientSecret => InvalidClient
    case FirstUse => InvalidGrant(CodeAlreadyUsed)
    case IdSigning => ServerError
    case AccessSigning => ServerError
  }

  ghost predicate PassesUpTo(server: Server, env: Env, store: StoreState, req: AccessTokenRequest, rank: nat) {
    forall c: Check | Rank(c) < rank :: Passes(server, env, store, req, c)
  }

  ghost predicate FailsFirst(server: Server, env: Env, store: StoreState, req: AccessTokenRequest, c: Check) {
    PassesUpTo(server, env, store, req, Rank(c)) && !Passes(server, env, store, req, c)
  }

  // What the token request holds when its code decodes.
  function OpenedCode(server: Server, req: AccessTokenRequest): AuthorizationCode
    requires Opened(server.prims, req.code, server.hmacKey).Ok?
  {
    Opened(server.prims, req.code, server.hmacKey).value.content
  }

  lemma ToVerified(server: Server, env: Env, store: StoreState, req: AccessTokenRequest)
    requires PassesUpTo(server, env, store, req, 2)
    ensures Opened(server.prims, req.code, server.hmacKey).Ok?
    ensures Drive(server, env, store, req, Received) ==
            Drive(server, env, store, req, Verified(OpenedCode(server, req)))
  {
    assert Passes(server, env, store, req, Decoding) && Passes(server, env, store, req, Freshness);
    Reaches(server, env, store, req, Received);
  }

  lemma ToBound(server: Server, env: Env, store: StoreState, req: AccessTokenRequest)
    requires PassesUpTo(server, env, store, req, 5)
    ensures Opened(server.prims, req.code, server.hmacKey).Ok?
    ensures Drive(server, env, store, req, Received) ==
            Drive(server, env, store, req, Bound(OpenedCode(server, req)))
  {
    ToVerified(server, env, store, req);
    assert Passes(server, env, store, req, ClientMatch) && Passes(server, env, store, req, RedirectMatch)
      && Passes(server, env, store, req, Pkce);
    Reaches(server, env, store, req, Verified(OpenedCode(server, req)));
  }

  lemma ToRegistered(server: Server, env: Env, store: StoreState, req: AccessTokenRequest)
    requires PassesUpTo(server, env, store, req, 6)
    ensures Opened(server.prims, req.code, server.hmacKey).Ok?
    ensures Drive(server, env, store, req, Received) ==
            Drive(server, env, store, req, Registered(OpenedCode(server, req)))
  {
    ToBound(server, env, store, req);
    assert Passes(server, env, store, req, Registration);
    Reaches(server, env, store, req, Bound(OpenedCode(server, req)));
  }

  lemma ToAuthenticated(server: Server, env: Env, store: StoreState, req: AccessTokenRequest)
    requires PassesUpTo(server, env, store, req, 7)
    ensures Opened(server.prims, req.code, server.hmacKey).Ok?
    ensures Drive(server, env, store, req, Received) ==
            Drive(server, env, store, req, Authenticated(OpenedCode(server, req)))
  {
    ToRegistered(server, env, store, req);
    assert Passes(server, env, store, req, ClientSecret);
    Reaches(server, env, store, req, Registered(OpenedCode(server, req)));
  }

  lemma ToDrawn(server: Server, env: Env, store: StoreState, req: AccessTokenRequest)
    requires PassesUpTo(server, env, store, req, 8)
    ensures Opened(server.prims, req.code, server.hmacKey).Ok?
    ensures Drive(server, env, store, req, Received) ==
            Drive(server, env, store.Consume(CodeReplayKey(server.prims, req.code)), req,
                  Drawn(OpenedCode(server, req), Hex.Jti(env.fill)))
  {
    ToAuthenticated(server, env, store, req);
    assert Passes(server, env, store, req, FirstUse);
    ConsumeAndDraw(server, env, store, req, OpenedCode(server, req));
  }

  lemma ConsumeAndDraw(server: Server, env: Env, store: StoreState, req: AccessTokenRequest, code: AuthorizationCode)
    requires CodeReplayKey(server.prims, req.code) !in store.consumed
    ensures Drive(server, env, store, req, Authenticated(code)) ==
            Drive(server, env, store.Consume(CodeReplayKey(server.prims, req.code)), req,
                  Drawn(code, Hex.Jti(env.fill)))
  {
    Reaches(server, env, store, req, Authenticated(code));
    Reaches(server, env, store.Consume(CodeReplayKey(server.prims, req.code)), req, Consumed(code));
  }

  // A request that fails some check is answered with the error of the first
  // one it fails. The store keeps a trace of it only if it failed in signing:
  // then its code is consumed.
  lemma TableRejects(server: Server, env: Env, store: StoreState, req: AccessTokenRequest, c: Check)
    requires FailsFirst(server, env, store, req, c)
    ensures Drive(server, env, store, req, Received) ==
            (if Rank(c) <= Rank(FirstUse) then store else store.Consume(CodeReplayKey(server.prims, req.code)),
             Err(ErrorOf(server, req, c)))
  {
    match c {
      case Decoding => Reaches(server, env, store, req, Received);
      case Freshness =>
        assert Passes(server, env, store, req, Decoding);
        Reaches(server, env, store, req, Received);
      case ClientMatch => RejectedByBinding(server, env, store, req, c);
      case RedirectMatch => RejectedByBinding(server, env, store, req, c);
      case Pkce => RejectedByBinding(server, env, store, req, c);
      case Registration =>
        ToBound(server, env, store, req);
        Reaches(server, env, store, req, Bound(OpenedCode(server, req)));
      case ClientSecret =>
        ToRegistered(server, env, store, req);
        Reaches(server, env, store, req, Registered(OpenedCode(server, req)));
      case FirstUse =>
        ToAuthenticated(server, env, store, req);
        Reaches(server, env, store, req, Authenticated(OpenedCode(server, req)));
        var key := CodeReplayKey(server.prims, req.code);
        assert store.consumed + {key} == store.consumed;
      case IdSigning => RejectedBySigning(server, env, store, req, c);
      case AccessSigning => RejectedBySigning(server, env, store, req, c);
    }
  }

  lemma RejectedByBinding(server: Server, env: Env, store: StoreState, req: AccessTokenRequest, c: Check)
    requires FailsFirst(server, env, store, req, c) && (c.ClientMatch? || c.RedirectMatch? || c.Pkce?)
    ensures Drive(server, env, store, req, Received) == (store, Err(ErrorOf(server, req, c)))
  {
    ToVerified(server, env, store, req);
    if !c.ClientMatch? { assert Passes(server, env, store, req, ClientMatch); }
    if c.Pkce? { assert Passes(server, env, store, req, RedirectMatch); }
    Reaches(server, env, store, req, Verified(OpenedCode(server, req)));
  }

  lemma RejectedBySigning(server: Server, env: Env, store: StoreState, req: AccessTokenRequest, c: Check)
    requires FailsFirst(server, env, store, req, c) && (c.IdSigning? || c.AccessSigning?)
    ensures Drive(server, env, store, req, Received) ==
            (store.Consume(CodeReplayKey(server.prims, req.code)), Err(ServerError))
  {
    ToDrawn(server, env, store, req);
    assert Passes(server, env, store, req, IdSigning) <==> c.AccessSigning?;
    SigningFails(server, env, store.Consume(CodeReplayKey(server.prims, req.code)), req, OpenedCode(server, req),
                 Hex.Jti(env.fill));
  }

  lemma SigningFails(server: Server, env: Env, store: StoreState, req: AccessTokenRequest, code: AuthorizationCode,
                     jti: string)
    requires !env.idSigns || !env.accessSigns
    ensures Drive(server, env, store, req, Drawn(code, jti)) == (store, Err(ServerError))
  {
    Reaches(server, env, store, req, Drawn(code, jti));
    if env.idSigns {
      var idToken := server.jwtIssuer.IssueIdToken(code.subject, req.clientId, code.groups, code.nonce,
                                                   server.idTokenTtl, env.idAt, true).value;
      Reaches(server, env, store, req, IdSigned(code, jti, idToken));
    }
  }

  // The tokens carry what the code carries, and the record what the tokens carry.
  ghost predicate Faithful(server: Server, req: AccessTokenRequest, code: AuthorizationCode,
                           record: TokenRecord, response: TokenResponse) {
    && response.idToken.IdToken? && response.idToken.genuine
    && response.accessToken.AccessToken? && response.accessToken.genuine
    && var id, access := response.idToken.id, response.accessToken.access;
       && id.iss == access.iss == access.aud == server.jwtIssuer.issuer
       && id.sub == access.sub == record.subject == code.subject
       && id.aud == access.clientId == record.clientId == req.clientId
       && id.groups == Some(code.groups) && access.groups == record.groups == code.groups
       && access.scope == record.scope == code.scope && response.scope == Some(JoinSpaces(code.scope))
       && id.nonce == code.nonce
       && access.jti == record.jti
       && id.exp == id.iat + AsSecs(server.idTokenTtl)
       && access.exp == access.iat + AsSecs(server.accessTokenTtl)
       && response.tokenType == "Bearer" && response.expiresIn == AsSecs(server.accessTokenTtl)
  }

  // The tokens start at their own clock readings, and the record lasts as long
  // as the access token from its own.
  ghost predicate Timed(server: Server, env: Env, record: TokenRecord, response: TokenResponse)
    requires response.idToken.IdToken? && response.accessToken.AccessToken?
  {
    && response.idToken.id.iat == AsSecs(env.idAt) && response.accessToken.access.iat == AsSecs(env.accessAt)
    && record.expiresAt == env.recordAt + server.accessTokenTtl
  }

  // A request that passes every check gets tokens faithful to its code; the
  // store then holds their record and the code's key, and nothing else changed.
  lemma TableAccepts(server: Server, env: Env, store: StoreState, req: AccessTokenRequest)
    requires PassesUpTo(server, env, store, req, 10)
    ensures Opened(server.prims, req.code, server.hmacKey).Ok?
    ensures var code := OpenedCode(server, req);
            var (store', outcome) := Drive(server, env, store, req, Received);
            var record := Record(server, req, code, Hex.Jti(env.fill), env.recordAt);
            && outcome.Ok? && Faithful(server, req, code, record, outcome.value)
            && Timed(server, env, record, outcome.value)
            && store'.records == store.records[record.jti := record]
            && store'.consumed == store.consumed + {CodeReplayKey(server.prims, req.code)}
  {
    ToDrawn(server, env, store, req);
    assert Passes(server, env, store, req, IdSigning) && Passes(server, env, store, req, AccessSigning);
    SignAndRecord(server, env, store.Consume(CodeReplayKey(server.prims, req.code)), req, OpenedCode(server, req),
                  Hex.Jti(env.fill));
  }

  lemma SignAndRecord(server: Server, env: Env, store: StoreState, req: AccessTokenRequest, code: AuthorizationCode,
                      jti: string)
    requires env.idSigns && env.accessSigns
    ensures var (store', outcome) := Drive(server, env, store, req, Drawn(code, jti));
            var record := Record(server, req, code, jti, env.recordAt);
            && outcome.Ok? && Faithful(server, req, code, record, outcome.value)
            && Timed(server, env, record, outcome.value)
            && store' == store.Issue(record)
  {
    var idToken := server.jwtIssuer.IssueIdToken(code.subject, req.clientId, code.groups, code.nonce,
                                                 server.idTokenTtl, env.idAt, true).value;
    var accessToken := server.jwtIssuer.IssueAccessToken(code.subject, req.clientId, code.groups, code.scope, jti,
                                                         server.accessTokenTtl, env.accessAt, true).value;
    Reaches(server, env, store, req, Drawn(code, jti));
    Reaches(server, env, store, req, IdSigned(code, jti, idToken));
    Reaches(server, env, store, req, AccessSigned(code, jti, idToken, accessToken));
  }

  // Every request is accepted or has a first failing check.
  lemma {:induction false} TableIsComplete(server: Server, env: Env, store: StoreState, req: AccessTokenRequest,
                                          rank: nat)
    requires rank <= 10
    ensures PassesUpTo(server, env, store, req, rank) ||
            exists c :: Rank(c) < rank && FailsFirst(server, env, store, req, c)
  {
    if rank > 0 {
      TableIsComplete(server, env, store, req, rank - 1);
      if PassesUpTo(server, env, store, req, rank - 1) && !PassesUpTo(server, env, store, req, rank) {
        var c: Check :| Rank(c) < rank && !Passes(server, env, store, req, c);
        assert Rank(c) == rank - 1;
        assert FailsFirst(server, env, store, req, c);
      }
    }
  }

  // Redemption succeeds exactly when every check passes, and otherwise answers
  // with the error of the first check that fails.
  lemma RedemptionIsTable(server: Server, env: Env, store: StoreState, req: AccessTokenRequest)
    ensures Drive(server, env, store, req, Received).1.Ok? <==>
              forall c :: Passes(server, env, store, req, c)
    ensures Drive(server, env, store, req, Received).1.Err? <==>
              exists c :: FailsFirst(server, env, store, req, c)
                && Drive(server, env, store, req, Received).1.error == ErrorOf(server, req, c)
  {
    TableIsComplete(server, env, store, req, 10);
    if PassesUpTo(server, env, store, req, 10) {
      TableAccepts(server, env, store, req);
    } else {
      var c :| FailsFirst(server, env, store, req, c);
      TableRejects(server, env, store, req, c);
    }
  }
}
