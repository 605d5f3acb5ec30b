// src/oidc/code: the signed, timestamped authorization code.
module Code {
  import opened Wrappers
  import opened Bits
  import opened Utf8

  // Nanoseconds since the UNIX epoch, and lengths of time in nanoseconds.
  type Time = nat
  type Duration = nat
  type Bytes = seq<byte>

  datatype CodeChallengeMethod = Plain | S256

  datatype AuthorizationCode = AuthorizationCode(
    clientId: string,
    redirectUri: string,
    codeChallenge: Option<string>,
    codeChallengeMethod: CodeChallengeMethod,
    timestamp: Time,
    subject: string,
    nonce: Option<string>,
    groups: seq<string>,
    scope: seq<string>)

  datatype TimestampedContainer = TimestampedContainer(content: AuthorizationCode, timestamp: Time)

  datatype SignedAuthorizationCode = SignedAuthorizationCode(data: Bytes, signature: Bytes)

  datatype VerificationError =
    | InvalidTimestamp
    | InvalidSignature
    | InvalidBase64Encoding
    | InvalidSignedDataContainerEncoding

  datatype TokenRequestError = InvalidClientId | InvalidRedirectUri | InvalidPkce

  // What the source takes from its libraries: BLAKE3, SHA-256, base64, CBOR,
  // Unicode upper-casing and URL parsing.
  datatype Primitives = Primitives(
    keyedHash: (Bytes, Bytes) -> Bytes,
    blake3: Bytes -> Bytes,
    sha256: Bytes -> Bytes,
    base64Encode: Bytes -> string,
    base64Decode: string -> Option<Bytes>,
    base64EncodeNoPad: Bytes -> string,
    writeContainer: TimestampedContainer -> Bytes,
    readContainer: Bytes -> Option<TimestampedContainer>,
    writeSigned: SignedAuthorizationCode -> Bytes,
    readSigned: Bytes -> Option<SignedAuthorizationCode>,
    upper: string -> string,
    urlParses: string -> bool)
  {
    // What is written can be read back. Nothing is asked of the hashes, and
    // two texts may decode to the same bytes.
    ghost predicate CodecLaws() {
      && (forall b :: base64Decode(base64Encode(b)) == Some(b))
      && (forall c :: readContainer(writeContainer(c)) == Some(c))
      && (forall s :: readSigned(writeSigned(s)) == Some(s))
    }

    // The digests and their text tell everything apart. Asked only where it is
    // named.
    ghost predicate DigestsInjective() {
      && (forall a, b | sha256(a) == sha256(b) :: a == b)
      && (forall a, b | blake3(a) == blake3(b) :: a == b)
      && (forall a, b | base64EncodeNoPad(a) == base64EncodeNoPad(b) :: a == b)
    }

    // Only what is written is read. The source's codecs do not promise it.
    ghost predicate OnlyWrittenIsRead() {
      && (forall text, b | base64Decode(text) == Some(b) :: base64Encode(b) == text)
      && (forall b, c | readContainer(b) == Some(c) :: writeContainer(c) == b)
      && (forall b, s | readSigned(b) == Some(s) :: writeSigned(s) == b)
    }

    // The reader takes one item off the bytes and does not look at what
    // follows it.
    ghost predicate TrailingIsIgnored() {
      forall b, trailing | readSigned(b).Some? :: readSigned(b + trailing) == readSigned(b)
    }
  }

  // ------------------------------------------------------------- Freshness

  // `duration_since` fails for a container stamped later than now.
  function Extract(container: TimestampedContainer, maxAge: Duration, now: Time):
    Result<AuthorizationCode, VerificationError>
  {
    if now >= container.timestamp && now - container.timestamp < maxAge
    then Ok(container.content)
    else Err(InvalidTimestamp)
  }

  ghost predicate InWindow(stamped: Time, maxAge: Duration, now: Time) {
    stamped <= now < stamped + maxAge
  }

  // ----------------------------------------------------- The container

  function Data(p: Primitives, code: AuthorizationCode, now: Time): Bytes {
    (p.writeContainer)(TimestampedContainer(code, now))
  }

  function Sealed(p: Primitives, code: AuthorizationCode, key: Bytes, now: Time): string {
    var data := Data(p, code, now);
    (p.base64Encode)((p.writeSigned)(SignedAuthorizationCode(data, (p.keyedHash)(key, data))))
  }

  method SignAndEncode(p: Primitives, code: AuthorizationCode, key: Bytes, now: Time) returns (encoded: string)
    ensures encoded == Sealed(p, code, key, now)
  {
    var timestamped := TimestampedContainer(code, now);
    var data: Bytes := [];
    data := data + (p.writeContainer)(timestamped);
    assert data == Data(p, code, now);
    var signature := (p.keyedHash)(key, data);
    var signed := SignedAuthorizationCode(data, signature);
    var serialized: Bytes := [];
    serialized := serialized + (p.writeSigned)(signed);
    assert serialized == (p.writeSigned)(signed);
    encoded := (p.base64Encode)(serialized);
  }

  // The data a presented text carries under a signature that verifies.
  function SignedData(p: Primitives, encoded: string, key: Bytes): Result<Bytes, VerificationError> {
    match (p.base64Decode)(encoded)
    case None => Err(InvalidBase64Encoding)
    case Some(serialized) =>
      match (p.readSigned)(serialized)
      case None => Err(InvalidSignedDataContainerEncoding)
      case Some(signed) =>
        if (p.keyedHash)(key, signed.data) == signed.signature then Ok(signed.data)
        else Err(InvalidSignature)
  }

  // The container in it.
  function Opened(p: Primitives, encoded: string, key: Bytes): Result<TimestampedContainer, VerificationError> {
    match SignedData(p, encoded, key)
    case Err(e) => Err(e)
    case Ok(data) =>
      match (p.readContainer)(data)
      case None => Err(InvalidSignedDataContainerEncoding)
      case Some(container) => Ok(container)
  }

  // A text carries this signed value.
  ghost predicate Holds(p: Primitives, encoded: string, signed: SignedAuthorizationCode) {
    exists bytes :: (p.base64Decode)(encoded) == Some(bytes) && (p.readSigned)(bytes) == Some(signed)
  }

  ghost predicate Verifies(p: Primitives, encoded: string, key: Bytes, signed: SignedAuthorizationCode) {
    Holds(p, encoded, signed) && (p.keyedHash)(key, signed.data) == signed.signature
  }

  // What opens is what the text carries under a signature that verifies; and
  // each way not to open has its error.
  lemma OpenedOutcome(p: Primitives, encoded: string, key: Bytes)
    ensures var r := Opened(p, encoded, key);
            && (forall container :: r == Ok(container) <==>
                  exists s :: Verifies(p, encoded, key, s) && (p.readContainer)(s.data) == Some(container))
            && (r == Err(InvalidBase64Encoding) <==> (p.base64Decode)(encoded) == None)
            && (r == Err(InvalidSignature) <==> exists s :: Holds(p, encoded, s) && !Verifies(p, encoded, key, s))
            && r != Err(InvalidTimestamp)
  {
    match (p.base64Decode)(encoded) {
      case None =>
      case Some(bytes) =>
        match (p.readSigned)(bytes) {
          case None =>
          case Some(signed) => assert Holds(p, encoded, signed);
        }
    }
  }

  function DecodeAndVerify(p: Primitives, encoded: string, key: Bytes, maxAge: Duration, now: Time):
    Result<AuthorizationCode, VerificationError>
  {
    match Opened(p, encoded, key)
    case Err(e) => Err(e)
    case Ok(container) => Extract(container, maxAge, now)
  }

  // A sealed code opens, under its key, to itself within its window and to the
  // timestamp error outside it.
  lemma SealedOpens(p: Primitives, code: AuthorizationCode, key: Bytes, t0: Time, maxAge: Duration, t1: Time)
    requires p.CodecLaws()
    ensures SignedData(p, Sealed(p, code, key, t0), key) == Ok(Data(p, code, t0))
    ensures Opened(p, Sealed(p, code, key, t0), key) == Ok(TimestampedContainer(code, t0))
    ensures DecodeAndVerify(p, Sealed(p, code, key, t0), key, maxAge, t1) ==
            if InWindow(t0, maxAge, t1) then Ok(code) else Err(InvalidTimestamp)
  {
  }

  // Under another key it is a bad signature, unless the two keys give its data
  // the same hash.
  lemma SealedUnderOtherKey(p: Primitives, code: AuthorizationCode, key: Bytes, other: Bytes, t0: Time,
                            maxAge: Duration, t1: Time)
    requires p.CodecLaws()
    ensures var data := Data(p, code, t0);
            DecodeAndVerify(p, Sealed(p, code, key, t0), other, maxAge, t1) == Err(InvalidSignature) <==>
            (p.keyedHash)(key, data) != (p.keyedHash)(other, data)
  {
    SealedOpens(p, code, key, t0, maxAge, t1);
  }

  ghost predicate AcceptedDuring(p: Primitives, encoded: string, key: Bytes, maxAge: Duration,
                                 container: TimestampedContainer) {
    forall now: Time :: DecodeAndVerify(p, encoded, key, maxAge, now) ==
                        if InWindow(container.timestamp, maxAge, now) then Ok(container.content)
                        else Err(InvalidTimestamp)
  }

  // Whatever is presented, it is refused for ever with one error or it has one
  // content and one window in which it is accepted.
  lemma OneWindow(p: Primitives, encoded: string, key: Bytes, maxAge: Duration)
    ensures (exists container :: AcceptedDuring(p, encoded, key, maxAge, container))
            || exists e :: e != InvalidTimestamp &&
                 forall now: Time :: DecodeAndVerify(p, encoded, key, maxAge, now) == Err(e)
  {
    match Opened(p, encoded, key) {
      case Ok(container) => assert AcceptedDuring(p, encoded, key, maxAge, container);
      case Err(e) => assert forall now: Time :: DecodeAndVerify(p, encoded, key, maxAge, now) == Err(e);
    }
  }

  // So under a clock that does not go back, a code that was accepted and then
  // refused is never accepted again, and no code is accepted for maxAge or longer.
  lemma ExpiredForGood(p: Primitives, encoded: string, key: Bytes, maxAge: Duration, t1: Time, t2: Time, t3: Time)
    requires t1 <= t2 <= t3
    requires DecodeAndVerify(p, encoded, key, maxAge, t1).Ok?
    ensures DecodeAndVerify(p, encoded, key, maxAge, t3).Ok? ==>
              t3 - t1 < maxAge
              && DecodeAndVerify(p, encoded, key, maxAge, t2) == DecodeAndVerify(p, encoded, key, maxAge, t1)
    ensures DecodeAndVerify(p, encoded, key, maxAge, t2).Err? ==>
              DecodeAndVerify(p, encoded, key, maxAge, t3) == Err(InvalidTimestamp)
  {
  }

  // ------------------------------------------------------------- Binding

  // Sections 4.1 to 4.6 of RFC 7636.
  predicate VerifyPkce(p: Primitives, codeMethod: CodeChallengeMethod, challenge: string, verifier: string) {
    match codeMethod
    case Plain => challenge == verifier
    case S256 => challenge == (p.base64EncodeNoPad)((p.sha256)(Encode(verifier)))
  }

  // What a client computes from its verifier; section 4.2 of RFC 7636.
  function Challenge(p: Primitives, codeMethod: CodeChallengeMethod, verifier: string): string {
    if codeMethod == S256 then (p.base64EncodeNoPad)((p.sha256)(Encode(verifier))) else verifier
  }

  // The verifier a challenge was computed from clears it, and no other does.
  lemma VerifierClears(p: Primitives, codeMethod: CodeChallengeMethod, verifier: string, presented: string)
    ensures VerifyPkce(p, codeMethod, Challenge(p, codeMethod, verifier), verifier)
    ensures p.DigestsInjective() && VerifyPkce(p, codeMethod, Challenge(p, codeMethod, verifier), presented) ==>
              presented == verifier
  {
    if codeMethod == S256 && p.DigestsInjective() && Encode(presented) == Encode(verifier) {
      EncodeInjective(presented, verifier);
    }
  }

  // A code issued with a challenge needs a verifier that matches it.
  predicate PkceHolds(p: Primitives, code: AuthorizationCode, verifier: Option<string>) {
    code.codeChallenge.Some? ==>
      verifier.Some? && VerifyPkce(p, code.codeChallengeMethod, code.codeChallenge.value, verifier.value)
  }

  function ValidateTokenRequest(p: Primitives, code: AuthorizationCode, clientId: string, redirectUri: string,
                                verifier: Option<string>): Result<(), TokenRequestError>
  {
    if code.clientId != clientId then Err(InvalidClientId)
    else if code.redirectUri != redirectUri then Err(InvalidRedirectUri)
    else
      match code.codeChallenge
      case None => Ok(())
      case Some(challenge) =>
        match verifier
        case None => Err(InvalidPkce)
        case Some(v) =>
          if VerifyPkce(p, code.codeChallengeMethod, challenge, v) then Ok(()) else Err(InvalidPkce)
  }
}
