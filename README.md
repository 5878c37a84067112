# cf_access_auth in Dafny

A model of a small authorisation service that checks Cloudflare Access
tokens. A background task keeps one trusted RSA public key in a shared cell.
Each request to `GET /verify/{aud}` reads that cell and verifies the
`Cf-Access-Jwt-Assertion` header against it. The verdict is either 200 with the
token's claims or 401 with an empty body.

Modules, one per source file plus two helpers:

- `Wrappers` (wrappers.dfy): `Option` and `Result`.
- `Json` (json.dfy): an abstract `serde_json::Value`, with `v[key]` and `as_str`.
- `KeyRotator` (key_rotator.dfy): `JwksData` and its 3-day expiry, extracting
  the certificate from the certs document, `fetch_jwks`, and the `KEY` cell.
  The cell is a class, `KeyCell`, whose field `slot` holds the
  `Option<JwksData>`. One iteration of the rotation loop is the method
  `RotateStep`, and a finite run of iterations is `RotateFor`. Lemmas about
  the pure trace functions `SlotAfter`, `TotalDelay`, `Installs` and
  `LastInstalled` state what any run does to the cell.
- `Validator` (validator.dfy): the fixed `jsonwebtoken::Validation` policy,
  the part of `jsonwebtoken::decode` it drives, and `validate_jwt`.
  `Acceptable` defines acceptance directly and independently of the staged
  checks, and `ValidateJwt` is proved to succeed exactly when it holds.
- `Server` (server.dfy): the `verify` handler. It covers
  `HeaderValue::to_str` and the mapping to 200 or 401.

Time is measured in whole seconds. Two clocks appear. The monotonic clock of
`std::time::Instant` is `now`, and it stamps and ages key records. The wall
clock that `jsonwebtoken` compares `exp` with is `unixNow`. The decoding key is
a type parameter `K`. Several pieces are foreign code, and each becomes a
parameter:

- the HTTP fetch with its JSON parse: `response`;
- PEM decoding: `fromRsaPem`;
- token parsing and the RS256 signature check (RSASSA-PKCS1-v1_5 with SHA-256,
  section 3.3 of RFC 7518): `Library.parse` and `Library.signatureValid`;
- the library's default `exp` leeway: `Library.defaultLeeway`;
- matching an array-valued `aud` (section 4.1.3 of RFC 7519):
  `Library.audienceListMatches`.

The team domain is a parameter `teamDomain`.

Two behaviours of the code worth noting:

- `validate_jwt` checks only that a key is present. It never calls `get_key`,
  so `ValidateJwt` uses a record whatever its age. A variant that does call
  `get_key` is modelled separately as `ValidateJwtEnforcingExpiry`.
- A header value that is not visible ASCII is refused exactly like a missing
  header.

## Model

| member | source | states |
|---|---|---|
| `Json.Index` | src/key_rotator.rs:39 | indexing yields the object's member when there is one, otherwise `Null` |
| `Json.AsStr` | src/key_rotator.rs:40 | yields text exactly for a JSON string, and that string's text |
| `KeyRotator.IsExpired` | src/key_rotator.rs:23-25 | expired iff the clock reads at least `fetchedAt + 259200`; elapsed time saturates at zero |
| `KeyRotator.GetKey` | src/key_rotator.rs:27-32 | fails iff three days have elapsed since the fetch; otherwise returns the stored key unchanged |
| `KeyRotator.ExpiryIsPermanent` | src/key_rotator.rs:23-32 | an expired record stays expired at every later instant |
| `KeyRotator.CertOf` | src/key_rotator.rs:39-41 | succeeds iff the document is an object whose `public_cert` is an object whose `cert` is a string; then returns that string; otherwise `CertMissing` |
| `KeyRotator.CertOfCertsDocument` | src/key_rotator.rs:39-41 | any certs document carrying `cert` under `public_cert` yields exactly that `cert` |
| `KeyRotator.FetchJwks` | src/key_rotator.rs:35-50 | a failed request propagates its error; the fetch succeeds iff the response, cert extraction and PEM decoding all succeed; the record is `(decoded key, now)` and is not expired at `now` |
| `KeyRotator.KeyCell.constructor` | src/key_rotator.rs:14-15 | the cell starts empty |
| `KeyRotator.KeyCell.Replace` | src/key_rotator.rs:65-67 | the cell holds exactly the new record; the previous contents are handed back and dropped |
| `KeyRotator.RotateStep` | src/key_rotator.rs:56-69 | on fetch failure the cell is unchanged and the sleep is 0 (immediate retry); on success the cell is replaced wholesale by the new record stamped `now`, then the task sleeps 86400 s |
| `KeyRotator.RotateFor` | src/key_rotator.rs:52-71 | after any finite run of loop iterations, the cell and total sleep equal the trace functions `SlotAfter` and `TotalDelay` of the fetch outcomes |
| `KeyRotator.SlotNeverCleared` | src/key_rotator.rs:56-70 | once the cell holds a record, no run of iterations sets it back to empty |
| `KeyRotator.SlotIsLastInstalled` | src/key_rotator.rs:65-66 | after a run, the cell holds exactly the last successfully fetched record, and earlier ones are discarded; without a success it is unchanged |
| `KeyRotator.SleepOnlyAfterInstall` | src/key_rotator.rs:57-69 | the total sleep is 86400 s times the number of successful fetches, so failures never sleep |
| `KeyRotator.NoInstallNoRecord` | src/key_rotator.rs:14-15 | from the initial empty cell, a run without any successful fetch leaves the cell empty |
| `KeyRotator.InstalledRecordStamped` | src/key_rotator.rs:44-47 | the installed record's `fetchedAt` is the clock reading of one of the fetch attempts |
| `Validator.Policy` | src/validator.rs:8-11 | the policy allows only RS256, with audience exactly `{aud}`, issuer exactly `{teamDomain}`, required claims `aud`, `iss` and `exp`, and `exp` checked with the library leeway |
| `Validator.Decode` | src/validator.rs:17 | a malformed token gives `MalformedToken`; success implies the header algorithm is allowed, the signature verifies under the key, the required claims parse, and the result is the decoded claims |
| `Validator.PolicyClaims` | src/validator.rs:8-17 | under the fixed policy, the claim checks pass iff `iss` is the team domain, `aud` matches the requested audience, and `exp` is a timestamp not passed beyond the leeway |
| `Validator.ValidateJwt` | src/validator.rs:7-25 | an empty cell gives `KeyUnavailable`; success iff the cell holds a key and the token is `Acceptable` (RS256 header, valid signature under the cached key, `iss`, `aud`, and an `exp` that is a `u64` not passed beyond the leeway); on success the value is exactly the decoded claim object |
| `Validator.ValidateAgainstCell` | src/validator.rs:13-17 | validation against the shared cell equals `ValidateJwt` of its current contents and modifies nothing |
| `Validator.ValidateJwtEnforcingExpiry` | src/key_rotator.rs:27-32 | the expiry-enforcing variant: an expired record gives `KeyExpired`; otherwise it agrees with `ValidateJwt` |
| `Validator.AcceptsConformingToken` | src/validator.rs:17-20 | a token signed under the cached key with RS256, the requested `aud`, the team-domain `iss` and a `u64` `exp` not passed beyond the leeway is accepted with its claims unaltered |
| `Validator.RejectsForeignSignature` | src/validator.rs:17 | a token whose RS256 signature does not verify under the cached key is rejected |
| `Validator.RejectsOtherAlgorithm` | src/validator.rs:8-17 | a token whose header names any algorithm other than RS256 is rejected |
| `Validator.RejectsOtherAudience` | src/validator.rs:9-24 | a string `aud` different from the requested audience is rejected |
| `Validator.RejectsOtherIssuer` | src/validator.rs:10-24 | an `iss` other than the team domain is rejected |
| `Validator.RejectsUnparsableExp` | src/validator.rs:11-24 | an `exp` that is not a `u64` (negative, or 2^64 and above) does not parse, so the token is rejected |
| `Validator.RejectsMissingClaim` | src/validator.rs:11-24 | a token lacking any of `aud`, `iss` or `exp` is rejected |
| `Validator.RejectsExpiredToken` | src/validator.rs:17-24 | a token whose `exp` is further in the past than the leeway is rejected |
| `Validator.StaleKeyRejectsAll` | src/key_rotator.rs:23-32 | in the enforcing variant, a record at least three days old rejects every token |
| `Server.ToStr` | src/main.rs:32-35 | text is produced iff every byte is visible ASCII or a tab; it is then the same bytes as characters |
| `Server.ToStrOfHeaderBytes` | src/main.rs:32-35 | visible-ASCII text survives the trip through a header value unchanged |
| `Server.Verify` | src/main.rs:30-45 | every response is 200 or 401, and 401 iff the body is empty; a missing header or one that is not text gives 401; 200 iff the validator, called with the path audience and the header text unchanged, succeeds, and the body is then exactly its value |
| `Server.NoAssertionNoValidation` | src/main.rs:37-39 | without a usable header, the response does not depend on the validator: it is never consulted |
| `Server.MissingHeaderRefused` | src/main.rs:31-39 | no assertion header gives 401 with an empty body, whatever the cell holds |
| `Server.EmptyCellRefusesAll` | src/validator.rs:13-16 | before any key has been installed, every request gets 401 |
| `Server.ConformingRequestAccepted` | src/main.rs:41-42 | a conforming token in the header gives 200 whose body is exactly the token's claims |
| `Server.OtherAudienceRefused` | src/main.rs:41-44 | a token issued for one audience and presented on another audience's path gives 401 |
| `Server.ExpiredTokenRefused` | src/main.rs:41-44 | a token whose `exp` has passed beyond the leeway gives 401 |

## Left out

- The network fetch and the JSON parse of its body (`reqwest::get`, `resp.json()`) are I/O. Their outcome is the input `response`.
- `DecodingKey::from_rsa_pem` and the RSA/SHA-256 arithmetic inside `jsonwebtoken::decode` are foreign code. They are the parameters `fromRsaPem` and `Library.signatureValid`. The library's key-family check is not modelled, because a key built from an RSA PEM always matches RS256.
- Base64url splitting and decoding of the token are foreign code (`Library.parse`). The model checks a malformed token first, whereas the library checks some of its parts after the algorithm. The error kinds may therefore differ from the library's, but acceptance does not.
- Validator.ValidateJwt: reads `record.key` from the cell's record. The source (src/validator.rs:14-17) passes the whole `&JwksData` to `jsonwebtoken::decode`, which takes a `&DecodingKey`. `JwksData` (src/key_rotator.rs:17-20) has no conversion to a key, and its `key` field is private to the key-rotator module. That line therefore does not type-check as written. From the validator, the only way to reach the key is `get_key` (src/key_rotator.rs:27), which enforces expiry; that is the behaviour of `ValidateJwtEnforcingExpiry`. `ValidateJwt` models the presence-only check the code spells out.
- Validator.CheckClaims: the `exp` leeway is a parameter, because the library's default is not visible in the source. The comparison `exp + leeway < now` does not model `u64` wrap-around when the leeway exceeds the clock.
- Validator.AudienceMatches: an array-valued `aud` is decided by the parameter `audienceListMatches`, because the library's rule is not visible in the source. An array-valued `iss` counts as not parsed, so the model rejects it.
- `nbf`, `sub` and `reject_tokens_expiring_in_less_than` are not checked under this policy and are not modelled beyond recognising `nbf`/`sub` as registered claims.
- JSON numbers are integers. A floating-point `exp` is not modelled.
- `tokio::spawn`, the `Mutex`, `tokio::select!` and the real `sleep` relate to concurrency and timing. A read or write of `KeyCell.slot` stands for one critical section, and a sleep is the delay `RotateStep` returns. Interleavings of readers with the rotator are not modelled.
- The rotation loop runs forever. `RotateFor` models any finite prefix of it.
- Sub-second precision of `Instant`: instants are whole seconds, so `as_secs` truncation has no effect in the model.
- Reading `CF_TEAM_DOMAIN` from the environment, and the panic when it is unset, are startup configuration. The domain is the parameter `teamDomain`.
- `main()` (server construction, binding 127.0.0.1:8080) and all logging are bootstrap and I/O.
- Header lookup by name in the request (`req.headers().get`) is framework code. `Verify` receives the header's raw value, if the request has the header.
