/**
 * The `verify` handler of src/main.rs: `GET /verify/{aud}` with the token in
 * the `Cf-Access-Jwt-Assertion` header, answered 200 with the claims or 401.
 */
module Server {
  import opened Wrappers
  import opened Json
  import opened KeyRotator
  import opened Validator

  newtype byte = x: int | 0 <= x < 256

  /** The bytes `HeaderValue::to_str` admits: visible ASCII and horizontal tab. */
  predicate IsVisibleAscii(b: byte)
  {
    (32 <= b < 127) || b == 9
  }

  /** `HeaderValue::to_str`: the value as text, or nothing if any byte is not visible ASCII. */
  function ToStr(value: seq<byte>): (r: Option<string>)
    ensures r.Some? <==> forall i :: 0 <= i < |value| ==> IsVisibleAscii(value[i])
    ensures r.Some? ==> |r.value| == |value| && forall i :: 0 <= i < |value| ==> r.value[i] as int == value[i] as int
  {
    if forall i :: 0 <= i < |value| ==> IsVisibleAscii(value[i])
    then Some(seq(|value|, i requires 0 <= i < |value| => (value[i] as int) as char))
    else None
  }

  /** The header bytes that carry the text `s`, one byte per character. */
  function HeaderBytes(s: string): (value: seq<byte>)
    requires forall i :: 0 <= i < |s| ==> s[i] as int < 256
  {
    seq(|s|, i requires 0 <= i < |s| => (s[i] as int) as byte)
  }

  /** Text of visible ASCII survives the trip through a header value. */
  lemma ToStrOfHeaderBytes(s: string)
    requires forall i :: 0 <= i < |s| ==> (32 <= s[i] as int < 127 || s[i] == '\t')
    ensures ToStr(HeaderBytes(s)) == Some(s)
  {
    var value := HeaderBytes(s);
    assert forall i :: 0 <= i < |value| ==> IsVisibleAscii(value[i]);
    var t := ToStr(value).value;
    assert |t| == |s| && forall i :: 0 <= i < |s| ==> t[i] == s[i] by {
      forall i | 0 <= i < |s| ensures t[i] == s[i] {
        assert t[i] as int == value[i] as int == s[i] as int;
      }
    }
    assert t == s;
  }

  datatype Body = Empty | JsonBody(json: Value)

  datatype HttpResponse = HttpResponse(status: nat, body: Body)

  /** `HttpResponse::Unauthorized().finish()`. */
  const UNAUTHORIZED: HttpResponse := HttpResponse(401, Empty)

  /**
   * `verify(aud, req)`, given the raw value of the assertion header (if the
   * request has one) and `validate_jwt` as `validate`.
   */
  function Verify(aud: string, header: Option<seq<byte>>, validate: (string, string) -> Result<Value, ValidationError>)
    : (r: HttpResponse)
    ensures r.status == 200 || r.status == 401
    ensures r.status == 401 <==> r.body == Empty
    ensures header.None? || ToStr(header.value).None? ==> r == UNAUTHORIZED
    ensures r.status == 200 <==>
      header.Some? && ToStr(header.value).Some? && validate(aud, ToStr(header.value).value).Ok?
    ensures r.status == 200 ==> r.body == JsonBody(validate(aud, ToStr(header.value).value).value)
  {
    var assertion := if header.Some? then ToStr(header.value) else None;
    match assertion
    case None => UNAUTHORIZED
    case Some(token) =>
      match validate(aud, token)
      case Ok(data) => HttpResponse(200, JsonBody(data))
      case Err(_) => UNAUTHORIZED
  }

  /** The request path's `validate_jwt`, over the cell's current contents. */
  function ValidatorOver<K>(cell: Option<JwksData<K>>, teamDomain: string, unixNow: nat, lib: Library<K>)
    : (string, string) -> Result<Value, ValidationError>
  {
    (aud, token) => ValidateJwt(aud, token, cell, teamDomain, unixNow, lib)
  }

  /** Without the header, or with one that is not text, the answer does not depend on the validator. */
  lemma NoAssertionNoValidation(aud: string, header: Option<seq<byte>>,
                                v1: (string, string) -> Result<Value, ValidationError>,
                                v2: (string, string) -> Result<Value, ValidationError>)
    requires header.None? || ToStr(header.value).None?
    ensures Verify(aud, header, v1) == Verify(aud, header, v2) == UNAUTHORIZED
  {
  }

  /** A request with no assertion header is refused whatever the cell holds. */
  lemma MissingHeaderRefused<K>(aud: string, cell: Option<JwksData<K>>, teamDomain: string, unixNow: nat, lib: Library<K>)
    ensures Verify(aud, None, ValidatorOver(cell, teamDomain, unixNow, lib)) == UNAUTHORIZED
  {
  }

  /** Before the first successful fetch every request is refused. */
  lemma EmptyCellRefusesAll<K>(aud: string, header: Option<seq<byte>>, teamDomain: string, unixNow: nat, lib: Library<K>)
    ensures Verify(aud, header, ValidatorOver(None, teamDomain, unixNow, lib)) == UNAUTHORIZED
  {
  }

  /**
   * End to end: a conforming token for audience `aud` signed under the
   * cached key yields 200 and exactly its claims.
   */
  lemma ConformingRequestAccepted<K>(aud: string, token: string, record: JwksData<K>, teamDomain: string, unixNow: nat,
                                     lib: Library<K>, claims: map<string, Value>, exp: nat)
    requires forall i :: 0 <= i < |token| ==> (32 <= token[i] as int < 127 || token[i] == '\t')
    requires lib.parse(token) == Some(TokenParts(RS256, claims))
    requires lib.signatureValid(token, record.key, RS256)
    requires "aud" in claims && claims["aud"] == JString(aud)
    requires "iss" in claims && claims["iss"] == JString(teamDomain)
    requires "exp" in claims && claims["exp"] == JNumber(exp) && exp < U64_LIMIT && unixNow <= exp + lib.defaultLeeway
    ensures Verify(aud, Some(HeaderBytes(token)), ValidatorOver(Some(record), teamDomain, unixNow, lib))
      == HttpResponse(200, JsonBody(JObject(claims)))
  {
    ToStrOfHeaderBytes(token);
    AcceptsConformingToken(aud, token, record, teamDomain, unixNow, lib, claims, exp);
  }

  /** End to end: a token issued for `aud`, presented for another audience, is refused. */
  lemma OtherAudienceRefused<K>(aud: string, other: string, value: seq<byte>, record: JwksData<K>, teamDomain: string,
                                unixNow: nat, lib: Library<K>, claims: map<string, Value>)
    requires other != aud
    requires ToStr(value).Some? && lib.parse(ToStr(value).value).Some?
    requires lib.parse(ToStr(value).value).value.claims == claims
    requires "aud" in claims && claims["aud"] == JString(aud)
    ensures Verify(other, Some(value), ValidatorOver(Some(record), teamDomain, unixNow, lib)) == UNAUTHORIZED
  {
    RejectsOtherAudience(other, ToStr(value).value, Some(record), teamDomain, unixNow, lib, aud);
  }

  /** End to end: a token whose `exp` has passed (beyond the leeway) is refused. */
  lemma ExpiredTokenRefused<K>(aud: string, token: string, cell: Option<JwksData<K>>, teamDomain: string,
                               unixNow: nat, lib: Library<K>, claims: map<string, Value>, exp: int)
    requires lib.parse(token).Some? && lib.parse(token).value.claims == claims
    requires "exp" in claims && claims["exp"] == JNumber(exp) && exp + lib.defaultLeeway < unixNow
    requires forall i :: 0 <= i < |token| ==> (32 <= token[i] as int < 127 || token[i] == '\t')
    ensures Verify(aud, Some(HeaderBytes(token)), ValidatorOver(cell, teamDomain, unixNow, lib)) == UNAUTHORIZED
  {
    ToStrOfHeaderBytes(token);
    RejectsExpiredToken(aud, token, cell, teamDomain, unixNow, lib, exp);
  }
}
