/** The access-token codec (JwtUtils.java): a JWT (RFC 7519) signed with
    HS512 (section 3.2 of RFC 7518) whose JWS "kid" header (section 4.1.4 of
    RFC 7515) carries the user id as decimal text and whose "exp" claim
    (section 4.1.4 of RFC 7519) lies five minutes after issue. */
module JwtUtils {
  import opened Outcomes
  import JavaLong

  /** Access-token lifetime in milliseconds. */
  const LIFETIME_MS := 300_000

  /** The parts of a token this code writes or reads: the kid header, the exp
      claim (an instant in milliseconds) and the signature over both. */
  datatype Jwt = Jwt(kid: Option<string>, exp: Option<int>, signature: string)

  /** What the auth0 library does below its API, for the configured secret:
      `sign` is HMAC-SHA512 over header and payload, `serialize` and `parse`
      are the compact serialisation (base64url of JSON, dot separated). */
  datatype Algorithm = Algorithm(
    sign: (Option<string>, Option<int>) -> string,
    serialize: Jwt -> string,
    parse: string -> Option<Jwt>)

  /** The serialisation can be read back, and a serialised token begins with
      'e' (every compact JWT starts with "eyJ", the base64url of the header's
      opening brace and quote). Nothing is assumed about the MAC. */
  ghost predicate Sound(algo: Algorithm)
  {
    && (forall j :: algo.parse(algo.serialize(j)) == Some(j))
    && (forall j :: |algo.serialize(j)| > 0 && algo.serialize(j)[0] == 'e')
  }

  /** The signature check JWTVerifier.verify performs. */
  predicate SignatureValid(algo: Algorithm, j: Jwt)
  {
    j.signature == algo.sign(j.kid, j.exp)
  }

  /** encode(userId), issued at `now`. */
  function Encode(algo: Algorithm, userId: int, now: int): string
  {
    var kid := Some(JavaLong.ValueOf(userId));
    var exp := Some(now + LIFETIME_MS);
    algo.serialize(Jwt(kid, exp, algo.sign(kid, exp)))
  }

  /** Why the try block of decode threw; the distinction stays internal. */
  datatype Rejection =
    | Malformed       // the string is not a compact JWT
    | BadSignature    // the MAC does not match
    | NoExpiry        // getExpiresAt() is null, so Date.after throws
    | Expired         // "Token expired": now is after exp
    | BadKeyId        // kid is null or not a decimal long

  datatype Inspection = Accepted(userId: int) | Rejected(reason: Rejection)

  /** The try block of decode, step by step. The library's own exp check uses
      the same boundary as line 61 and is folded into it. */
  function Inspect(algo: Algorithm, raw: string, now: int): (v: Inspection)
    ensures v.Accepted? ==> JavaLong.InRange(v.userId)
  {
    match algo.parse(raw)
    case None => Rejected(Malformed)
    case Some(j) =>
      if !SignatureValid(algo, j) then Rejected(BadSignature)
      else if j.exp.None? then Rejected(NoExpiry)
      else if now > j.exp.value then Rejected(Expired)
      else if j.kid.None? then Rejected(BadKeyId)
      else match JavaLong.ParseLong(j.kid.value)
        case None => Rejected(BadKeyId)
        case Some(id) => Accepted(id)
  }

  const INVALID := ResponseStatus(UNAUTHORIZED, "Token is invalid")

  /** decode(jwt): the catch-all turns every rejection into one 401. */
  function Decode(algo: Algorithm, raw: string, now: int): (r: Result<int>)
    ensures r.Err? ==> r.failure == ResponseStatus(401, "Token is invalid")
    ensures r.Ok? <==> Inspect(algo, raw, now).Accepted?
  {
    match Inspect(algo, raw, now)
    case Accepted(id) => Ok(id)
    case Rejected(_) => Err(INVALID)
  }

  /** What encode writes: the id as decimal kid, exp five minutes on, a valid MAC. */
  lemma EncodeClaims(algo: Algorithm, userId: int, now: int)
    requires Sound(algo)
    ensures algo.parse(Encode(algo, userId, now)).Some?
    ensures var j := algo.parse(Encode(algo, userId, now)).value;
      && j.kid == Some(JavaLong.ValueOf(userId))
      && j.exp == Some(now + 300_000)
      && SignatureValid(algo, j)
  {
    var kid := Some(JavaLong.ValueOf(userId));
    var exp := Some(now + LIFETIME_MS);
    assert algo.parse(algo.serialize(Jwt(kid, exp, algo.sign(kid, exp)))) == Some(Jwt(kid, exp, algo.sign(kid, exp)));
  }

  /** decode(encode(id)) == id up to and including the exp instant. */
  lemma DecodeEncode(algo: Algorithm, userId: int, issued: int, now: int)
    requires Sound(algo) && JavaLong.InRange(userId)
    requires now <= issued + LIFETIME_MS
    ensures Decode(algo, Encode(algo, userId, issued), now) == Ok(userId)
  {
    EncodeClaims(algo, userId, issued);
    JavaLong.ParseValueOf(userId);
  }

  /** After exp the same token is refused with the uniform 401. */
  lemma DecodeAfterExpiry(algo: Algorithm, userId: int, issued: int, now: int)
    requires Sound(algo)
    requires now > issued + LIFETIME_MS
    ensures Inspect(algo, Encode(algo, userId, issued), now) == Rejected(Expired)
    ensures Decode(algo, Encode(algo, userId, issued), now) == Err(ResponseStatus(401, "Token is invalid"))
  {
    EncodeClaims(algo, userId, issued);
  }

  /** Success means: well formed, correctly signed, not past exp, and the kid
      is the decimal text of the returned id. */
  lemma DecodeAcceptsOnlyValid(algo: Algorithm, raw: string, now: int, id: int)
    requires Decode(algo, raw, now) == Ok(id)
    ensures algo.parse(raw).Some?
    ensures var j := algo.parse(raw).value;
      && SignatureValid(algo, j)
      && j.exp.Some? && now <= j.exp.value
      && j.kid.Some? && JavaLong.ParseLong(j.kid.value) == Some(id)
  {
  }

  /** A kid that Long.parseLong refuses makes decode fail with the uniform 401. */
  lemma NonDecimalKeyIdRejected(algo: Algorithm, raw: string, now: int)
    requires algo.parse(raw).Some?
    requires var j := algo.parse(raw).value;
      j.kid.None? || JavaLong.ParseLong(j.kid.value).None?
    ensures Decode(algo, raw, now) == Err(ResponseStatus(401, "Token is invalid"))
  {
  }
}
