# Verified model of openid-tls-connector

`openid-tls-connector` is an OpenID Connect provider whose users are
authenticated by TLS client certificates. `/authorize` reads the certificate's
distinguished name from a header and hands out a signed, stateless
authorization code; `/token` redeems the code, once, for an ID token and an
access token; `/userinfo` answers for the access token while its record is in
the store. This project models that service in Dafny and proves what it
promises.

| file | models |
|---|---|
| `Bits.dfy`, `Utf8.dfy` | bytes, UTF-8 and the byte-offset view of `str` |
| `Users.dfy` | `src/users/mod.rs`: the DN parser and the group union |
| `Client.dfy` | `src/oidc/client.rs`: the registry and client authentication |
| `Hex.dfy` | the MAC key parser of `src/bin/server/main.rs` and the `jti` of `src/oidc/protocol.rs` |
| `Code.dfy` | `src/oidc/code`: the signed container, its time window, PKCE |
| `Token.dfy` | `src/oidc/token.rs`: claims and their checks |
| `Storage.dfy` | `src/oidc/storage.rs`: the store as a class, with its history of calls |
| `Protocol.dfy` | `src/oidc/protocol.rs`: redemption in steps, in one go, and as a decision table |
| `Service.dfy` | `src/oidc/router.rs`: the handlers, and the service as a transition system |
| `Flow.dfy` | the two endpoints together: a code asked for and redeemed |
| `OneTime.dfy`, `PerCode.dfy`, `Provenance.dfy`, `Records.dfy`, `Isolation.dfy`, `Progress.dfy`, `Serial.dfy` | invariants and theorems over every run of it |

A run is any sequence of atomic steps: an authorization, the arrival of a token
request, one step of a request in flight, or a revocation. A request has nine
steps; the two that touch the store are one locked call each. Any number of
requests can be in flight, and every step brings its own clock readings, random
fill and signing outcomes. `Service.Run` gives the state after a run and its log
of events, and the theorems speak of all runs.

The libraries (BLAKE3, SHA-256, base64, CBOR, Unicode upper-casing, URL parsing)
are the fields of `Code.Primitives`: arbitrary functions, of which theorems assume
only what their `requires` names.

- `Code.Primitives.CodecLaws`: what the encoders write, the decoders read back.
  Several texts may decode to the same bytes.
- `Code.Primitives.DigestsInjective`: SHA-256, BLAKE3 and the text of a digest tell
  their arguments apart. Assumed where a theorem speaks of different verifiers or
  different texts.
- `Records.GenuineIsIssued`: nobody has a token the issuer's key signed, but those
  that were issued.
- `Provenance.IdealMac`: a text that verifies carries data that an earlier
  authorization signed.
- `Records.DistinctDraws`: no `jti` is drawn twice. `Hex.JtiCollides` says what that
  asks of the random source.
- `Isolation.Unused`: no request past consumption has the replay key of this text
  (assumed only by `Isolation.FreshCodeRedeems`; `Progress.GrantedCodeRedeems` says
  what happens otherwise).
- `Code.Primitives.TrailingIsIgnored`: reading takes one item off the bytes and does
  not look at what follows it. `Code.Primitives.OnlyWrittenIsRead` is the opposite.
  They are compared in `PerCode.dfy` and assumed nowhere else.

One-time use, conservation of consumed codes, serializability, erasure of failed
requests and the reasons of refusals assume none of these.

Verify with `dafny verify dfyconfig.toml`.

## Where code and documentation differ

- `src/bin/server/main.rs:26` asks for 64 hexadecimal characters. The parser also
  takes a plus sign for a zero that is the first digit of a pair (`Hex.PlusForZero`;
  by `Hex.PlusIsTheException` it takes nothing else that is not a digit),
  and it panics exactly when a pair of bytes ends inside a character
  (`Hex.HexTo32Bytes`, `Hex.PanicsAtSplit`, `Hex.PanicExample`).
- `src/oidc/protocol.rs:238-240` speaks of consuming the code; what is consumed is
  the key of the text presented. One-time use is proved per text. Per code, over the
  runs an ideal MAC allows, it holds exactly when the texts that carry the code's
  signed data have one key (`PerCode.OncePerGrantIff`), and it fails for the
  repository's reader: `src/oidc/code/signature.rs:72` takes one CBOR item from the
  slice and does not test that the slice is used up, so a code with bytes after it is
  another text of the same code (`PerCode.TrailingBytesRedeemTwice`). With a reader
  of only what is written it holds for every code (`PerCode.StrictReaderRedeemsOnce`).
- `src/users/mod.rs:66-67` says a backslash escapes the next character. It stays in
  the value (`Users.PrintThenExtract`), and at the end of a name it escapes nothing.
  A comma put after a name cuts exactly when there is no such backslash
  (`Users.CommaCutsIff`); otherwise it is swallowed with the part after it
  (`Users.DanglingSwallows`).
- `src/users/mod.rs:88-91` promises a de-duplicated union. Repeats within the
  defaults stay: the result repeats a group exactly when the defaults do
  (`Users.UnionRepeatsIff`).
- An access token is accepted for five seconds after its `exp`
  (`Token.JwtIssuer.IssuedTokenVerifies`).

## Model

| member | source | states |
|---|---|---|
| Serial.Serializable | src/oidc/protocol.rs:202-291 | Every interleaving is serializable: there is a sequence of atomic operations, namely the revocations of the run in their order and, once each, the requests that finished or got past consumption, each redeemed in one go with what its own steps read, that leaves the same store and gives each finished request the answer it got |
| Serial.InterleavedIsTable | src/oidc/protocol.rs:207-290 | So in every interleaving a finished request has the answer of the decision table on what its steps read: tokens exactly when every check passes, and otherwise the error of the first that fails |
| Serial.Reachable | src/oidc/protocol.rs:202-291 | The inductive invariant behind both: what a request has read makes the redemption in one go come to where the request is, on any store that fits |
| OneTime.OneTimeUse | src/oidc/protocol.rs:238-288 | In every run, of all token requests presenting one code text at most one ever gets past consumption, and at most one issue call exists for it; section 4.1.2 of RFC 6749, with nothing assumed of the hash |
| OneTime.Conservation | src/oidc/protocol.rs:238-280 | In every reachable state the consumed set is as large as completed redemptions, server errors after consumption and requests in flight past consumption together; issue calls are exactly the completed redemptions and never exceed consumptions |
| OneTime.Reachable | src/oidc/storage.rs:105-109 | The inductive invariant behind both: consumed keys and requests past consumption correspond one to one, and the log names each consumption and issue once |
| OneTime.NextFacts | src/oidc/protocol.rs:209-280 | A request gets past consumption only by adding a new key, never goes back, and no other step changes the consumed set |
| PerCode.OncePerGrantIff | src/oidc/protocol.rs:238-246 | For every code an authorization grants, over the runs an ideal MAC allows: at most one request ever gets tokens for it, if and only if no request can redeem it or all texts that carry its signed data have one replay key |
| PerCode.OncePerCodeIff | src/oidc/protocol.rs:238-246 | The same of any container and of all runs, with no hypothesis on the MAC or the codecs: if and only if no request can redeem it or all texts that open to it have one replay key |
| PerCode.TwoKeysRedeemTwice | src/oidc/protocol.rs:238-246 | From every reachable state in which their keys are unused, two requests that can each redeem a code can both get tokens in some continuation exactly when the keys of the texts they present differ |
| PerCode.TrailingBytesRedeemTwice | src/oidc/code/signature.rs:63-84 | With a reader that ignores what follows the item it reads, as the repository's, every run that granted a code has a continuation in which the text as given and the text with bytes after it both get tokens, when their keys differ and are unused; and if an ideal MAC allows the run, it allows the continuation |
| PerCode.StrictReaderRedeemsOnce | src/oidc/code/signature.rs:63-84 | With codecs that read only what is written, every code is redeemed at most once in every run, with nothing assumed of the hashes |
| PerCode.TwoGrantsRedeem | src/oidc/protocol.rs:238-290 | Every run that granted two different codes whose texts are unused has a continuation in which both are redeemed |
| PerCode.Reachable | src/oidc/protocol.rs:209-241 | In every run, a request past consumption presented a text that opened, within a window of positive length, and passed every check on the request |
| Provenance.IssuedHasOrigin | src/oidc/protocol.rs:209-280 | With an ideal MAC, every issued pair of tokens traces through draw, consumption and acceptance, in that order in the log, to one earlier authorization with the same client, subject, groups, scope and nonce, a registered redirect URI, the subject its header names, and an age at acceptance from zero to below the maximum |
| Provenance.ResponseHasOrigin | src/oidc/protocol.rs:282-288 | So does every successful response of every request |
| Records.RecordHasOrigin | src/oidc/protocol.rs:273-280 | So does every record in the store |
| Provenance.Reachable | src/oidc/protocol.rs:202-291 | The inductive invariant: every event is justified by the log before it and every request in flight by the checks it passed |
| Provenance.GrantIsOk | src/oidc/router.rs:167-212 | A code is signed only for a registered client and redirect URI, and says what was asked and what the header names, with the union of groups |
| Provenance.GrantWasAsked | src/oidc/protocol.rs:172-190 | In every run, each signed code says what an authorization of that run and its header asked for: client, redirect URI, challenge, method, subject, nonce, groups, scope, and both clock readings |
| Provenance.AcceptedIsGranted | src/oidc/code/signature.rs:63-84 | An accepted code is one granted earlier, within its window |
| Isolation.ErasureIsInvisible | src/oidc/protocol.rs:209-246 | Deleting from any run the steps of requests that never got past consumption leaves the store and all other requests and events exactly as they were |
| Isolation.RefusedLeaveNoTrace | src/oidc/protocol.rs:209-246 | In particular requests answered InvalidGrant or InvalidClient: both maps and every other response are as if they had never been made |
| Isolation.Reachable | src/oidc/protocol.rs:209-271 | In every run, each refused request did fail, at a step of its own and with the clock, store and signer of that step, the check its answer names, which is the first that step makes to fail; and one told its code was used lost it to another request past consumption with the same key |
| Isolation.GoodRequestAnswers | src/oidc/protocol.rs:207-290 | In any interleaving a request that passes the checks on itself ends with tokens, or a step of it read its code outside the window or met a signer that failed, or another request with its key has the code; nothing else |
| Progress.GoodRequestSucceeds | src/oidc/protocol.rs:207-290 | In any interleaving a good request, whose verifying step is in the window and whose signing steps have working signers, ends with tokens if and only if no other request has used up its replay key, and otherwise is told the code was used |
| Progress.StepsBringNearer | src/oidc/protocol.rs:202-291 | In any interleaving each step of a request brings it nearer its end and nothing sets it back, so nine steps end it |
| Progress.GrantedCodeRedeems | src/oidc/protocol.rs:207-290 | In any interleaving a request that presents a granted code as given, with nine steps of its own that meet a fresh code and working signers, ends; with tokens, logged and carrying the grant, if and only if no other request has used up its replay key |
| Progress.GrantedTextRedeems | src/oidc/protocol.rs:238-290 | Where digests tell texts apart, such a request ends with tokens if and only if no other request past consumption presented the same text: no other code stands in its way |
| Isolation.FreshCodeRedeems | src/oidc/protocol.rs:207-290 | In particular, from every reachable state a matching request for a granted, fresh, unused code that takes its nine steps with no others between succeeds, and then its record is in the store |
| Isolation.SoloIsDrive | src/oidc/protocol.rs:202-291 | The steps of a request that runs alone are the sequential redemption |
| Records.StoreIsHistory | src/oidc/storage.rs:94-109 | In every reachable state of the concurrent service the two maps are what the logged calls leave |
| Records.UserInfoAgrees | src/oidc/router.rs:309-321 | With distinct jtis, for every access token handed out /userinfo yields the token's own subject, client, scope and groups exactly while it is neither revoked nor expired, in every state |
| Records.UserInfoOnlyIssued | src/oidc/router.rs:309-321 | In every run, with distinct jtis and when nobody has a genuine token but those issued, /userinfo answers a token if and only if the log issued it, no revocation of it succeeded and it has not expired; and with its own claims |
| Records.RevokedForGood | src/oidc/storage.rs:101-103 | After a successful revocation /userinfo refuses the token in every later state |
| Records.RecordsConserved | src/oidc/storage.rs:94-103 | With distinct jtis, live records plus successful revocations are the issue calls |
| Records.NewJti | src/oidc/protocol.rs:248-280 | With distinct draws, no token was issued before under the jti of a request about to issue |
| Storage.LookupIsLatest | src/oidc/storage.rs:77-109 | After any calls, lookup gives a record exactly when it is that of the latest issue of the jti with no later revoke; a key is consumed exactly when some call consumed it |
| Storage.InMemoryTokenStore.constructor | src/oidc/storage.rs:61-68 | A new store is empty with an empty history |
| Storage.InMemoryTokenStore.Issue | src/oidc/storage.rs:77-95 | Records the token under its jti, replacing one there, and changes nothing else |
| Storage.InMemoryTokenStore.Lookup | src/oidc/storage.rs:97-99 | Finds the latest issue not revoked since, and nothing when there is none |
| Storage.InMemoryTokenStore.Revoke | src/oidc/storage.rs:101-103 | Removes the record; true exactly when there was one |
| Storage.InMemoryTokenStore.ConsumeCode | src/oidc/storage.rs:105-109 | True exactly when no earlier call in the history consumed the key, which is consumed afterwards |
| Protocol.RedeemCode | src/oidc/protocol.rs:202-291 | The source's function on a store object: new store and answer are those of the nine steps run in order |
| Protocol.IssueTokens | src/oidc/protocol.rs:248-288 | Its part after consumption |
| Protocol.RedemptionIsTable | src/oidc/protocol.rs:207-290 | Redemption succeeds exactly when decoding, freshness, client, redirect, PKCE, registration, secret, first use and both signatures all hold, and otherwise reports the first that fails in this order; section 4.6 of RFC 7636, section 5.2 of RFC 6749 |
| Protocol.TableRejects | src/oidc/protocol.rs:207-271 | The error of each first failing check, and that the store is then untouched unless the failure is in signing, when just the key was consumed |
| Protocol.TableAccepts | src/oidc/protocol.rs:241-288 | On success the ID token, access token, record and response agree field by field with the code and request, with their lifetimes and clock readings, and the store gains exactly the record and the key |
| Protocol.ReplayKeyInjective | src/oidc/protocol.rs:316-320 | Where digests tell texts apart, two texts have one replay key exactly when they are one text |
| Protocol.JoinConcat | src/oidc/protocol.rs:287 | Words are joined with one space between and nothing else |
| Service.AuthorizeHandler | src/oidc/router.rs:142-225 | The handler, with the byte scanner, the group loop and the encoder, gives each failure its own answer in order; its redirect goes to the URI asked for with the state, and its code opens under the server key to a container stamped then, whose client, redirect URI, challenge, method, nonce and scope are those asked for and whose subject and groups are those of the header and client |
| Service.AuthorizeDecides | src/oidc/router.rs:142-225 | A code is granted exactly when response type, method, redirect URI, header and DN are all good, and the grant records the request it was made for |
| Flow.AuthorizeThenRedeem | src/oidc/protocol.rs:172-290 | The code of any redirect, returned in time by its client with nothing else amiss, is redeemed if and only if the challenge sent to /authorize is the one computed from the verifier presented, or none was sent; otherwise the answer is PkceFailed. The tokens are for the subject the header names, with the nonce, groups and scope asked for |
| Flow.WrongVerifierFails | src/oidc/code/authorization_code.rs:68-77 | A wrong verifier, or none where a challenge was sent, is answered PkceFailed and uses nothing up |
| Flow.WrongVerifierInRuns | src/oidc/code/authorization_code.rs:68-77 | In any interleaving, a finished request that returned a granted code so was answered PkceFailed, or that the code was not fresh when it was read |
| Flow.OnlyThatVerifier | src/oidc/code/pkce.rs:22-36 | Where digests tell texts apart, a challenge computed from a verifier is met by that verifier alone |
| Service.UserInfoHandler | src/oidc/router.rs:305-322 | The handler on the store object answers exactly an access token that this issuer's key signed for itself, at most five seconds past its expiry, whose record is in the store |
| Service.UserInfoSound | src/oidc/token.rs:226-241 | And with the subject, groups, scope and client of that record |
| Service.ScopeRoundTrip | src/oidc/router.rs:197-201 | The scope a token response reports, split again, is the scope that was granted, for every requested scope text |
| Service.WordsFound | src/oidc/router.rs:197-201 | The scope found in a text is the one list of words free of whitespace of which, kept apart by whitespace, the text consists |
| Code.SealedOpens | src/oidc/code/signature.rs:40-84 | Decoding a signed code under its key returns that code exactly when t0 <= t1 < t0 + max_age, and the timestamp error otherwise |
| Code.SealedUnderOtherKey | src/oidc/code/signature.rs:75-83 | Under another key it is an invalid signature exactly when the keys hash its data differently |
| Code.OneWindow | src/oidc/code/signature.rs:63-84 | Any presented text has one content and one window of acceptance, or is refused at all times with one error |
| Code.OpenedOutcome | src/oidc/code/signature.rs:63-84 | A text opens to a container exactly when it carries data that the container is read from under a MAC that verifies; each way not to open has its error |
| Code.VerifierClears | src/oidc/code/pkce.rs:22-36 | The challenge a client computes from its verifier, by section 4.2 of RFC 7636, is cleared by that verifier, and where digests tell texts apart by no other |
| Code.ExpiredForGood | src/oidc/code/timestamp.rs:31-47 | Under a non-decreasing clock, a code once accepted and then refused is never accepted again, and two acceptances lie less than max_age apart |
| Code.SignAndEncode | src/oidc/code/signature.rs:40-59 | The encoder that fills the two buffers yields the sealed code |
| Token.JwtIssuer.IssuedTokenVerifies | src/oidc/token.rs:199-241 | An issued access token verifies, to the claims it was issued with, exactly up to five seconds past its lifetime in whole seconds |
| Client.ClientRegistry.New | src/oidc/client.rs:37-47 | Accepts exactly the lists with pairwise distinct ids; the error names the first id repeated |
| Client.FindIsMember | src/oidc/client.rs:49-51 | With distinct ids, lookup is membership: the registry is a map |
| Client.ClientRegistry.OrderIrrelevant | src/oidc/client.rs:49-84 | Every permutation of an accepted list is accepted and answers all id, redirect and secret queries identically |
| Client.ClientRegistry.ValidateClientSecret | src/oidc/client.rs:65-85 | Authentication through the byte loop is comparison of the secrets as strings |
| Client.ClientRegistry.SecretAllows | src/oidc/client.rs:60-84 | A client is allowed exactly when it is registered and is public or presents its stored secret |
| Client.ClientRegistry.RedirectAllows | src/oidc/client.rs:54-58 | A redirect URI is accepted exactly when it is any of those registered for the client |
| Client.ConstantTimeEq | src/oidc/client.rs:88-97 | The OR of the XORs is zero exactly when the byte strings are equal, for all lengths |
| Utf8.EncodeInjective | src/oidc/client.rs:76 | Two strings with the same UTF-8 bytes are the same string, so comparing bytes compares secrets |
| Utf8.Slice | src/users/mod.rs:79-84 | Slicing between character boundaries yields the string with exactly those bytes |
| Users.SplitRdns | src/users/mod.rs:68-86 | The byte scanner terminates, slices only at character boundaries and gives the parts of the character-level splitter, for every string; section 3 of RFC 3629 |
| Users.SplitIsLossless | src/users/mod.rs:68-86 | Joining the parts with commas gives the name back, no part has an unescaped comma, and only the last may end in a dangling backslash |
| Users.SplitUndoesJoin | src/users/mod.rs:68-86 | Every nonempty list with those two properties is what splitting its join gives, so the decomposition is unique |
| Users.SplitAppend | src/users/mod.rs:68-86 | Past text with no dangling backslash a comma always cuts: the parts are those of the two texts |
| Users.CommaCutsIff | src/users/mod.rs:68-86 | For every two texts, a comma between them cuts if and only if the first ends in no dangling backslash |
| Users.ExtractDnAttribute | src/users/mod.rs:52-64 | The early-return loop over the scanner's parts computes the extraction the theorems are about |
| Users.TrimCuts | src/users/mod.rs:55-60 | Trimming takes whitespace off both ends and leaves none there |
| Users.TrimPast | src/users/mod.rs:55-60 | Text with no whitespace at its ends is what trimming gives back, whatever whitespace is put around it |
| Users.Resolve | src/users/mod.rs:43-49 | Resolving succeeds exactly when extraction does, with its value and the raw header |
| Users.SearchStops | src/users/mod.rs:52-64 | The answer is that of the first part that is malformed or matches; the attribute is missing exactly when there is none |
| Users.ExtractOutcome | src/users/mod.rs:52-64 | Ok exactly when a matching part exists with an equals sign in every earlier part; InvalidDn exactly when a part without one comes before any match |
| Users.ExtractPrefix | src/users/mod.rs:52-86 | On a name with no dangling backslash, appending a comma and any text changes neither outcome, and a missing attribute is then sought in that text |
| Users.ExtractPrefixIff | src/users/mod.rs:52-86 | A name with an outcome keeps it under every appended text if and only if it ends in no dangling backslash or a part before the last gave the outcome |
| Users.DanglingSwallows | src/users/mod.rs:68-86 | After any text with a dangling backslash, the comma and the first part of what follows become part of the last part, and every other part is as it was |
| Users.PrintThenExtract | src/users/mod.rs:52-86 | Printing any nonempty list of plain keys and values, with any whitespace around keys and values, and extracting gives the still-escaped value of the first pair with the key, or reports it missing; sections 2.3 and 2.4 of RFC 4514 |
| Users.ResolveGroups | src/users/mod.rs:92-100 | The loop that pushes new groups computes the union the laws are about |
| Users.UnionLaws | src/users/mod.rs:88-100 | Defaults are a prefix, membership is the union, and the rest is new, without repetition, in first-occurrence order |
| Users.UnionConcat | src/users/mod.rs:92-100 | Resolving two client lists one after the other is resolving their concatenation |
| Users.UnionIdempotent | src/users/mod.rs:92-100 | Resolving twice is resolving once |
| Users.UnionRepeatsIff | src/users/mod.rs:88-100 | The result repeats a group if and only if the defaults do |
| Hex.HexTo32Bytes | src/bin/server/main.rs:76-85 | The loop returns a key exactly for 64 characters made of 32 readable pairs, and panics exactly when after some readable pairs the next two bytes end inside a character |
| Hex.KeyRoundTrip | src/bin/server/main.rs:76-85 | Every 32-byte key written in lower-case digits parses back to itself |
| Hex.DigitsRoundTrip | src/bin/server/main.rs:76-85 | Every text of 64 digits is a key whose digits are that text in lower case |
| Hex.PanicsAtSplit | src/bin/server/main.rs:80-83 | The panic comes exactly at the pair where, all pairs before being read, a character of three bytes or more starts, or one of one byte stands before one of more |
| Hex.PanicExample | src/bin/server/main.rs:80-83 | A digit, a character of two bytes and 61 digits, 64 bytes in all, make the parser panic |
| Hex.PlusForZero | src/bin/server/main.rs:80-83 | In any key of 64 digits a zero that is the first digit of its pair may be a plus sign: the text is then not hexadecimal and parses to the same key |
| Hex.PlusIsTheException | src/bin/server/main.rs:76-85 | A text that parses to a key is 64 digits if and only if it has no plus sign, and with a zero for each plus sign it is 64 digits that parse to the same key |
| Hex.RandomJti | src/oidc/protocol.rs:323-339 | Masking the array in place and formatting it gives the identifier the lemmas are about |
| Hex.JtiLayout | src/oidc/protocol.rs:328-338 | Every identifier has 36 characters, hyphens at 8, 13, 18 and 23, 4 at 14 and one of 8, 9, a, b at 19; section 4.4 of RFC 4122 |
| Hex.JtiIsDigits | src/oidc/protocol.rs:331-338 | Without its hyphens the identifier is the digits of the sixteen stamped bytes in order |
| Hex.StampBits | src/oidc/protocol.rs:326-330 | Stamping sets the version and variant bits and keeps all others |
| Hex.JtiCollides | src/oidc/protocol.rs:326-338 | Two fills give one identifier exactly when they agree on the 122 bits that are kept |

## Left out

- Routing, extractors, JSON bodies and HTTP status codes: plumbing over libraries; the handlers' decisions are kept.
- Grant type and client id of the form, and the precedence of Basic credentials over it (`src/oidc/router.rs:232-255`, `277-303`): short branches before the flow; a modelled request holds the pair chosen.
- Building the redirect URL, `canonicalize_issuer`, discovery and JWKS: they depend on libraries and are otherwise constants. A redirect is its URI, code and state.
- RSA, JWT encoding, PEM and DER: a token is its claims and whether this issuer's key signed them; signing may fail.
- The texts of error messages: each is a constructor. Errors of DN resolution are one refusal at the handler, as in its status.
- Clock readings before 1970 (where serialising the code panics) and overflow of expiry times under enormous lifetimes.
- Serial.Serializable: not in the order of time: a refused request may answer before the winner it lost to has issued, and counts after it.
- Timing of the secret comparison, lock poisoning, and loss of the store at restart.
- Unicode case mapping: `str::to_uppercase` is an arbitrary function.
- Provenance.IssuedHasOrigin: assumes the ideal MAC and the codec laws as hypotheses; nothing is proved of BLAKE3 or CBOR.
- Records.UserInfoAgrees: assumes distinct jtis, since two tokens with one jti would share a record.
- OneTime.OneTimeUse: per presented text, because the replay key is taken from the text; `PerCode.OncePerGrantIff` says exactly when it holds per code.
- Protocol.Next and Service.Authorize: values, not objects; the source's only shared mutable object is the store, which is a class.
- PerCode.TrailingBytesRedeemTwice: that the CBOR reader ignores trailing bytes is a hypothesis about the library, which is not part of this model.
