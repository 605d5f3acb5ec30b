// src/oidc/token.rs: the claims of ID and access tokens and how they are
// checked. A token is its claims and whether this issuer's key signed them.
module Token {
  import opened Wrappers
  import opened Code

  const NANOS_PER_SEC: nat := 1_000_000_000
  const LEEWAY_SECS: nat := 5

  // Whole seconds.
  function AsSecs(t: nat): (secs: nat)
    ensures secs * NANOS_PER_SEC <= t < (secs + 1) * NANOS_PER_SEC
  {
    t / NANOS_PER_SEC
  }

  datatype IdTokenClaims = IdTokenClaims(
    iss: string,
    sub: string,
    aud: string,
    exp: nat,
    iat: nat,
    nonce: Option<string>,
    groups: Option<seq<string>>)

  datatype AccessTokenClaims = AccessTokenClaims(
    iss: string,
    sub: string,
    aud: string,
    exp: nat,
    iat: nat,
    jti: string,
    scope: seq<string>,
    groups: seq<string>,
    clientId: string)

  datatype Token =
    | IdToken(id: IdTokenClaims, genuine: bool)
    | AccessToken(access: AccessTokenClaims, genuine: bool)

  datatype JwtError = SigningFailed | VerificationFailed

  // `signs` says whether the library manages to sign.
  datatype JwtIssuer = JwtIssuer(issuer: string) {

    function IssueIdToken(subject: string, audience: string, groups: seq<string>, nonce: Option<string>,
                          ttl: Duration, now: Time, signs: bool): Result<Token, JwtError>
    {
      var iat := AsSecs(now);
      var claims := IdTokenClaims(issuer, subject, audience, iat + AsSecs(ttl), iat, nonce, Some(groups));
      if signs then Ok(IdToken(claims, true)) else Err(SigningFailed)
    }

    function IssueAccessToken(subject: string, clientId: string, groups: seq<string>, scope: seq<string>,
                              jti: string, ttl: Duration, now: Time, signs: bool): Result<Token, JwtError>
    {
      var iat := AsSecs(now);
      var claims := AccessTokenClaims(issuer, subject, issuer, iat + AsSecs(ttl), iat, jti, scope, groups, clientId);
      if signs then Ok(AccessToken(claims, true)) else Err(SigningFailed)
    }

    // An ID token has no jti, so it does not parse as an access token.
    function VerifyAccessToken(token: Token, now: Time): Result<AccessTokenClaims, JwtError> {
      match token
      case IdToken(_, _) => Err(VerificationFailed)
      case AccessToken(claims, genuine) =>
        if genuine && claims.iss == issuer && claims.aud == issuer && claims.exp + LEEWAY_SECS >= AsSecs(now)
        then Ok(claims)
        else Err(VerificationFailed)
    }

    // An access token verifies, to the claims it was issued with, up to and
    // including the fifth second after its lifetime, counted in whole seconds.
    lemma IssuedTokenVerifies(subject: string, clientId: string, groups: seq<string>, scope: seq<string>,
                              jti: string, ttl: Duration, t0: Time, t1: Time)
      ensures var token := IssueAccessToken(subject, clientId, groups, scope, jti, ttl, t0, true).value;
              var r := VerifyAccessToken(token, t1);
              && (r.Ok? <==> AsSecs(t1) <= AsSecs(t0) + AsSecs(ttl) + 5)
              && (r.Ok? ==> r.value.sub == subject && r.value.clientId == clientId && r.value.groups == groups
                            && r.value.scope == scope && r.value.jti == jti)
    {
    }
  }
}
