/**
 * `validate_jwt` (src/validator.rs) and the part of `jsonwebtoken::decode`
 * it configures.
 *
 * The signature algorithm is RS256 (RSASSA-PKCS1-v1_5 with SHA-256,
 * section 3.3 of RFC 7518); the claims checked are `iss`, `aud` and `exp`
 * (sections 4.1.1, 4.1.3 and 4.1.4 of RFC 7519). Splitting and base64url
 * decoding the token, and the RSA arithmetic, belong to the library and are
 * the parameters `parse` and `signatureValid` of a `Library`.
 */
module Validator {
  import opened Wrappers
  import opened Json
  import opened KeyRotator

  /** `jsonwebtoken::Algorithm`. */
  datatype Algorithm =
    HS256 | HS384 | HS512 | ES256 | ES384 | RS256 | RS384 | RS512 | PS256 | PS384 | PS512 | EdDSA

  /** A token's header algorithm and its decoded claim object. */
  datatype TokenParts = TokenParts(alg: Algorithm, claims: map<string, Value>)

  /**
   * What the token library does that the source does not show:
   * `parse` decodes header and payload (None for a malformed token),
   * `signatureValid(token, key, alg)` checks the signature over the token,
   * `defaultLeeway` is the clock skew `Validation::new` allows on `exp`, and
   * `audienceListMatches(claimed, expected)` decides an array-valued `aud`.
   */
  datatype Library<!K> = Library(
    parse: string -> Option<TokenParts>,
    signatureValid: (string, K, Algorithm) -> bool,
    defaultLeeway: nat,
    audienceListMatches: (set<string>, set<string>) -> bool)

  /** The reasons for rejection. The caller only sees that validation failed. */
  datatype ValidationError =
    | KeyUnavailable
    | KeyExpired
    | MalformedToken
    | InvalidAlgorithm
    | InvalidSignature
    | MissingRequiredClaim
    | ExpiredSignature
    | InvalidIssuer
    | InvalidAudience

  /**
   * `jsonwebtoken::Validation`, the fields this model reads. The setters are
   * functional updates of the value the source mutates in place.
   */
  datatype Validation = Validation(
    algorithms: seq<Algorithm>,
    aud: Option<set<string>>,
    iss: Option<set<string>>,
    requiredSpecClaims: set<string>,
    leeway: nat,
    validateExp: bool)
  {
    function SetAudience(items: seq<string>): Validation
    {
      this.(aud := Some(ItemSet(items)))
    }

    function SetIssuer(items: seq<string>): Validation
    {
      this.(iss := Some(ItemSet(items)))
    }

    function SetRequiredSpecClaims(items: seq<string>): Validation
    {
      this.(requiredSpecClaims := ItemSet(items))
    }
  }

  /** The set a setter collects from its slice argument. */
  function ItemSet(items: seq<string>): set<string>
  {
    set x | x in items
  }

  /** `Validation::new(alg)`: only `exp` required and checked, no audience or issuer. */
  function NewValidation(alg: Algorithm, leeway: nat): Validation
  {
    Validation([alg], None, None, {"exp"}, leeway, true)
  }

  /** The fixed policy `validate_jwt` builds for the audience `aud`. */
  function Policy(aud: string, teamDomain: string, leeway: nat): (v: Validation)
    ensures v.algorithms == [RS256]
    ensures v.aud == Some({aud}) && v.iss == Some({teamDomain})
    ensures v.requiredSpecClaims == {"aud", "iss", "exp"}
    ensures v.leeway == leeway && v.validateExp
  {
    var v := NewValidation(RS256, leeway)
      .SetAudience([aud])
      .SetIssuer([teamDomain])
      .SetRequiredSpecClaims(["aud", "iss", "exp"]);
    assert ItemSet([aud]) == {aud} && ItemSet([teamDomain]) == {teamDomain};
    v
  }

  /** One more than the largest `u64`. */
  const U64_LIMIT: int := 0x1_0000_0000_0000_0000

  /** A claim that parses as a `u64` timestamp. */
  predicate NumericClaim(claims: map<string, Value>, name: string)
  {
    name in claims && claims[name].JNumber? && 0 <= claims[name].n < U64_LIMIT
  }

  /** A claim that parses as a single string. */
  predicate StringClaim(claims: map<string, Value>, name: string)
  {
    name in claims && claims[name].JString?
  }

  /** Every element of an array is a string. */
  predicate AllStrings(items: seq<Value>)
  {
    forall i :: 0 <= i < |items| ==> items[i].JString?
  }

  /** The strings of an all-string array. */
  function Strings(items: seq<Value>): set<string>
    requires AllStrings(items)
  {
    set i | 0 <= i < |items| :: items[i].s
  }

  /** An `aud` claim that parses: one string or an array of strings. */
  predicate AudienceClaim(claims: map<string, Value>)
  {
    "aud" in claims && (claims["aud"].JString? || (claims["aud"].JArray? && AllStrings(claims["aud"].items)))
  }

  /** A registered claim `name` is present in a form the library can parse. */
  predicate ClaimParsed(claims: map<string, Value>, name: string)
  {
    if name == "exp" || name == "nbf" then NumericClaim(claims, name)
    else if name == "iss" || name == "sub" then StringClaim(claims, name)
    else if name == "aud" then AudienceClaim(claims)
    else true
  }

  predicate RequiredClaimsPresent(claims: map<string, Value>, v: Validation)
  {
    forall name :: name in v.requiredSpecClaims ==> ClaimParsed(claims, name)
  }

  /** An expected audience matches the parsed `aud` claim. */
  predicate AudienceMatches<K>(claim: Value, expected: set<string>, lib: Library<K>)
  {
    match claim
    case JString(s) => s in expected
    case JArray(items) => AllStrings(items) && lib.audienceListMatches(Strings(items), expected)
    case _ => false
  }

  /** The claim checks of `jsonwebtoken::validate`; `None` when they all pass. */
  function CheckClaims<K>(claims: map<string, Value>, v: Validation, lib: Library<K>, unixNow: nat): Option<ValidationError>
  {
    if !RequiredClaimsPresent(claims, v) then Some(MissingRequiredClaim)
    else if v.validateExp && NumericClaim(claims, "exp") && claims["exp"].n + v.leeway < unixNow then Some(ExpiredSignature)
    else if v.iss.Some? && !StringClaim(claims, "iss") then Some(MissingRequiredClaim)
    else if v.iss.Some? && claims["iss"].s !in v.iss.value then Some(InvalidIssuer)
    else if v.aud.Some? && !AudienceClaim(claims) then Some(MissingRequiredClaim)
    else if v.aud.Some? && !AudienceMatches(claims["aud"], v.aud.value, lib) then Some(InvalidAudience)
    else None
  }

  /**
   * `jsonwebtoken::decode`: header algorithm allowed, signature valid under
   * `key`, claims pass; the result is the decoded claims.
   */
  function Decode<K>(token: string, key: K, v: Validation, lib: Library<K>, unixNow: nat)
    : (r: Result<map<string, Value>, ValidationError>)
    ensures lib.parse(token).None? ==> r == Err(MalformedToken)
    ensures r.Ok? ==>
      && lib.parse(token).Some?
      && lib.parse(token).value.alg in v.algorithms
      && lib.signatureValid(token, key, lib.parse(token).value.alg)
      && RequiredClaimsPresent(lib.parse(token).value.claims, v)
      && r.value == lib.parse(token).value.claims
  {
    match lib.parse(token)
    case None => Err(MalformedToken)
    case Some(t) =>
      if t.alg !in v.algorithms then Err(InvalidAlgorithm)
      else if !lib.signatureValid(token, key, t.alg) then Err(InvalidSignature)
      else match CheckClaims(t.claims, v, lib, unixNow)
        case Some(e) => Err(e)
        case None => Ok(t.claims)
  }

  /**
   * When a token is acceptable for audience `aud`, stated directly: an RS256
   * header, a valid RS256 signature under `key`, `iss` equal to the team
   * domain, `aud` naming `aud`, and an `exp` that has not passed (allowing
   * the library's leeway).
   */
  ghost predicate Acceptable<K>(aud: string, token: string, key: K, teamDomain: string, unixNow: nat, lib: Library<K>)
  {
    && lib.parse(token).Some?
    && var t := lib.parse(token).value;
    && t.alg == RS256
    && lib.signatureValid(token, key, RS256)
    && "iss" in t.claims && t.claims["iss"] == JString(teamDomain)
    && "aud" in t.claims && AudienceMatches(t.claims["aud"], {aud}, lib)
    && NumericClaim(t.claims, "exp") && unixNow <= t.claims["exp"].n + lib.defaultLeeway
  }

  /** The policy's claim checks pass exactly on the conditions of `Acceptable`. */
  lemma PolicyClaims<K>(claims: map<string, Value>, aud: string, teamDomain: string, unixNow: nat, lib: Library<K>)
    ensures CheckClaims(claims, Policy(aud, teamDomain, lib.defaultLeeway), lib, unixNow).None? <==>
      && "iss" in claims && claims["iss"] == JString(teamDomain)
      && "aud" in claims && AudienceMatches(claims["aud"], {aud}, lib)
      && NumericClaim(claims, "exp") && unixNow <= claims["exp"].n + lib.defaultLeeway
  {
  }

  /**
   * `validate_jwt(aud, token)` over the cell's contents `cell`: no key, no
   * decoding; otherwise the decoded claims under the fixed policy, or an error.
   * The record's expiry is not consulted.
   */
  function ValidateJwt<K>(aud: string, token: string, cell: Option<JwksData<K>>, teamDomain: string, unixNow: nat, lib: Library<K>)
    : (r: Result<Value, ValidationError>)
    ensures cell.None? ==> r == Err(KeyUnavailable)
    ensures r.Ok? <==> cell.Some? && Acceptable(aud, token, cell.value.key, teamDomain, unixNow, lib)
    ensures r.Ok? ==> r.value == JObject(lib.parse(token).value.claims)
  {
    match cell
    case None => Err(KeyUnavailable)
    case Some(record) =>
      var decoded := Decode(token, record.key, Policy(aud, teamDomain, lib.defaultLeeway), lib, unixNow);
      assert decoded.Ok? <==> Acceptable(aud, token, record.key, teamDomain, unixNow, lib) by {
        if lib.parse(token).Some? {
          PolicyClaims(lib.parse(token).value.claims, aud, teamDomain, unixNow, lib);
        }
      }
      match decoded
      case Ok(claims) => Ok(JObject(claims))
      case Err(e) => Err(e)
  }

  /**
   * `validate_jwt` as the request path runs it against the shared cell:
   * it reads the cell and changes nothing.
   */
  method ValidateAgainstCell<K>(cell: KeyCell<K>, aud: string, token: string, teamDomain: string, unixNow: nat, lib: Library<K>)
    returns (r: Result<Value, ValidationError>)
    ensures r == ValidateJwt(aud, token, cell.slot, teamDomain, unixNow, lib)
  {
    var current := cell.slot;
    r := ValidateJwt(aud, token, current, teamDomain, unixNow, lib);
  }

  /**
   * The variant that enforces the key's validity window through `get_key`:
   * a stale record is rejected like a missing one. `now` is the monotonic
   * clock, `unixNow` the wall clock the `exp` claim is compared with.
   */
  function ValidateJwtEnforcingExpiry<K>(aud: string, token: string, cell: Option<JwksData<K>>, teamDomain: string,
                                         now: nat, unixNow: nat, lib: Library<K>)
    : (r: Result<Value, ValidationError>)
    ensures cell.Some? && IsExpired(cell.value, now) ==> r == Err(KeyExpired)
    ensures cell.None? || !IsExpired(cell.value, now) ==> r == ValidateJwt(aud, token, cell, teamDomain, unixNow, lib)
  {
    match cell
    case None => Err(KeyUnavailable)
    case Some(record) =>
      match GetKey(record, now)
      case Err(_) => Err(KeyExpired)
      case Ok(key) =>
        match Decode(token, key, Policy(aud, teamDomain, lib.defaultLeeway), lib, unixNow)
        case Ok(claims) => Ok(JObject(claims))
        case Err(e) => Err(e)
  }

  /** A well-signed, RS256 token with the right `aud`, `iss` and a live `exp` is accepted, claims unaltered. */
  lemma AcceptsConformingToken<K>(aud: string, token: string, record: JwksData<K>, teamDomain: string, unixNow: nat,
                                  lib: Library<K>, claims: map<string, Value>, exp: nat)
    requires lib.parse(token) == Some(TokenParts(RS256, claims))
    requires lib.signatureValid(token, record.key, RS256)
    requires "aud" in claims && claims["aud"] == JString(aud)
    requires "iss" in claims && claims["iss"] == JString(teamDomain)
    requires "exp" in claims && claims["exp"] == JNumber(exp) && exp < U64_LIMIT && unixNow <= exp + lib.defaultLeeway
    ensures ValidateJwt(aud, token, Some(record), teamDomain, unixNow, lib) == Ok(JObject(claims))
  {
  }

  /** A token whose signature does not verify under the cached key is rejected. */
  lemma RejectsForeignSignature<K>(aud: string, token: string, record: JwksData<K>, teamDomain: string, unixNow: nat, lib: Library<K>)
    requires !lib.signatureValid(token, record.key, RS256)
    ensures ValidateJwt(aud, token, Some(record), teamDomain, unixNow, lib).Err?
  {
  }

  /** A token whose header names any algorithm but RS256 is rejected. */
  lemma RejectsOtherAlgorithm<K>(aud: string, token: string, cell: Option<JwksData<K>>, teamDomain: string, unixNow: nat, lib: Library<K>)
    requires lib.parse(token).Some? && lib.parse(token).value.alg != RS256
    ensures ValidateJwt(aud, token, cell, teamDomain, unixNow, lib).Err?
  {
  }

  /** A single-string `aud` other than the requested audience is rejected. */
  lemma RejectsOtherAudience<K>(aud: string, token: string, cell: Option<JwksData<K>>, teamDomain: string, unixNow: nat,
                                lib: Library<K>, other: string)
    requires lib.parse(token).Some? && "aud" in lib.parse(token).value.claims
    requires lib.parse(token).value.claims["aud"] == JString(other) && other != aud
    ensures ValidateJwt(aud, token, cell, teamDomain, unixNow, lib).Err?
  {
  }

  /** An `iss` other than the team domain is rejected. */
  lemma RejectsOtherIssuer<K>(aud: string, token: string, cell: Option<JwksData<K>>, teamDomain: string, unixNow: nat, lib: Library<K>)
    requires lib.parse(token).Some? && "iss" in lib.parse(token).value.claims
    requires lib.parse(token).value.claims["iss"] != JString(teamDomain)
    ensures ValidateJwt(aud, token, cell, teamDomain, unixNow, lib).Err?
  {
  }

  /** An `exp` outside the `u64` range does not parse, so the token is rejected. */
  lemma RejectsUnparsableExp<K>(aud: string, token: string, cell: Option<JwksData<K>>, teamDomain: string, unixNow: nat,
                                lib: Library<K>, exp: int)
    requires lib.parse(token).Some? && "exp" in lib.parse(token).value.claims
    requires lib.parse(token).value.claims["exp"] == JNumber(exp) && (exp < 0 || exp >= U64_LIMIT)
    ensures ValidateJwt(aud, token, cell, teamDomain, unixNow, lib).Err?
  {
  }

  /** A token lacking any of `aud`, `iss` or `exp` is rejected. */
  lemma RejectsMissingClaim<K>(aud: string, token: string, cell: Option<JwksData<K>>, teamDomain: string, unixNow: nat,
                               lib: Library<K>, name: string)
    requires name in {"aud", "iss", "exp"}
    requires lib.parse(token).Some? && name !in lib.parse(token).value.claims
    ensures ValidateJwt(aud, token, cell, teamDomain, unixNow, lib).Err?
  {
  }

  /** A token whose `exp` lies further in the past than the leeway is rejected. */
  lemma RejectsExpiredToken<K>(aud: string, token: string, cell: Option<JwksData<K>>, teamDomain: string, unixNow: nat,
                               lib: Library<K>, exp: int)
    requires lib.parse(token).Some? && "exp" in lib.parse(token).value.claims
    requires lib.parse(token).value.claims["exp"] == JNumber(exp) && exp + lib.defaultLeeway < unixNow
    ensures ValidateJwt(aud, token, cell, teamDomain, unixNow, lib).Err?
  {
  }

  /** With the expiry-enforcing variant, a record three days old rejects every token. */
  lemma StaleKeyRejectsAll<K>(aud: string, token: string, record: JwksData<K>, teamDomain: string, now: nat, unixNow: nat, lib: Library<K>)
    requires now >= record.fetchedAt + KEY_EXPIRY_SECS
    ensures ValidateJwtEnforcingExpiry(aud, token, Some(record), teamDomain, now, unixNow, lib) == Err(KeyExpired)
  {
  }
}
