/**
 * Registration against a shared secret, token issuance and bearer-token
 * validation.
 *
 * JSON Web Token signing is symbolic: a token is its algorithm, its claims
 * and a signature term `Mac(alg, key, claims)` that only the holder of `key`
 * can produce, and that differs whenever the key, the algorithm or the
 * claims differ.  Times are seconds since the Unix epoch, passed in.
 */
module Auth {
  import opened Wrappers
  import Http

  /** The fixed issuer written into every token. */
  const Issuer := "recipe-server.po8.org"
  /** Tokens expire one day after issuance. */
  const SecondsPerDay := 86400
  /** The clock skew jsonwebtoken's default validation tolerates on expiry. */
  const Leeway := 60
  /** The token type label sent back with a token. */
  const TokenType := "Bearer"

  datatype Algorithm = HS256 | HS384 | HS512 | RS256 | ES256

  /** The kind of key an algorithm signs with. */
  datatype KeyFamily = Hmac | Rsa | Ec

  function Family(alg: Algorithm): KeyFamily
  {
    match alg
    case HS256 | HS384 | HS512 => Hmac
    case RS256 => Rsa
    case ES256 => Ec
  }

  datatype EncodingKey = EncodingKey(family: KeyFamily, material: seq<bv8>)
  datatype DecodingKey = DecodingKey(family: KeyFamily, material: seq<bv8>)

  /** A token produced with the encoding key can be checked with the decoding key. */
  predicate Paired(encoding: EncodingKey, decoding: DecodingKey)
  {
    encoding.family == decoding.family && encoding.material == decoding.material
  }

  datatype JwtKeys = JwtKeys(encoding: EncodingKey, decoding: DecodingKey)
  {
    /** `JwtKeys::new`: both keys are HMAC keys made from the one secret. */
    static function New(secret: seq<bv8>): (k: JwtKeys)
      ensures Paired(k.encoding, k.decoding)
      ensures k.encoding.family == Hmac && k.decoding.material == secret
    {
      JwtKeys(EncodingKey(Hmac, secret), DecodingKey(Hmac, secret))
    }
  }

  /** The signed payload. `exp` is a `u64` in the source. */
  datatype Claims = Claims(iss: string, sub: string, exp: nat)

  datatype Registration = Registration(fullName: string, email: string, password: string)

  /** The symbolic message authentication code of a token. */
  datatype Signature = Mac(alg: Algorithm, key: seq<bv8>, claims: Claims)

  datatype Token = Token(alg: Algorithm, claims: Claims, signature: Signature)

  /** What follows `Bearer ` in the header: a well-formed token, or text that does not parse as one. */
  datatype Credentials = Jwt(token: Token) | NotAJwt(text: string)

  /** An `Authorization` header that is a bearer credential, or one of some other shape. */
  datatype AuthHeader = BearerHeader(credentials: Credentials) | OtherHeader(raw: string)

  /** The registration response body. */
  datatype AuthBody = AuthBody(accessToken: Token, tokenType: string)
  {
    static function New(accessToken: Token): (r: AuthBody)
      ensures r.accessToken == accessToken && r.tokenType == "Bearer"
    {
      AuthBody(accessToken, TokenType)
    }
  }

  datatype AuthError = InvalidToken | TokenCreation | Registration

  /** The failures of the token library that this model distinguishes. */
  datatype JwtError = MalformedToken | WrongAlgorithm | BadSignature | Expired

  function Sign(alg: Algorithm, key: seq<bv8>, claims: Claims): Signature
  {
    Mac(alg, key, claims)
  }

  /** Signing fails when the key is not of the algorithm's family. */
  function Encode(alg: Algorithm, claims: Claims, key: EncodingKey): Result<Token, JwtError>
  {
    if Family(alg) != key.family then Err(WrongAlgorithm)
    else Ok(Token(alg, claims, Sign(alg, key.material, claims)))
  }

  /**
   * Decoding with a validation that admits HS512 only: the token must be
   * well formed, use HS512 with a key of the HMAC family, carry the
   * signature of its claims under the key, and not be past its expiry by
   * more than the leeway.
   */
  function Decode(credentials: Credentials, key: DecodingKey, now: int): Result<Claims, JwtError>
  {
    match credentials
    case NotAJwt(_) => Err(MalformedToken)
    case Jwt(t) =>
      if t.alg != HS512 || Family(t.alg) != key.family then Err(WrongAlgorithm)
      else if t.signature != Sign(t.alg, key.material, t.claims) then Err(BadSignature)
      else if t.claims.exp + Leeway < now then Err(Expired)
      else Ok(t.claims)
  }

  /** The subject of a registrant's token: `"<name> <<email>>"`. */
  function Subject(registration: Registration): string
  {
    registration.fullName + " <" + registration.email + ">"
  }

  /**
   * `make_jwt_token`: refuse a wrong password; otherwise sign claims for the
   * registrant that expire a day from `now`.  The source panics when that
   * expiry is before the epoch, hence the precondition; a wrong password is
   * refused before the clock is read.
   */
  function MakeJwtToken(keys: JwtKeys, regKey: string, registration: Registration, now: int): (r: Result<AuthBody, AuthError>)
    requires registration.password == regKey ==> now + SecondsPerDay >= 0
    ensures r.Ok? <==> registration.password == regKey && keys.encoding.family == Hmac
    ensures r == Err(AuthError.Registration) <==> registration.password != regKey
    ensures r == Err(TokenCreation) <==> registration.password == regKey && keys.encoding.family != Hmac
    ensures r.Ok? ==> r.value.tokenType == "Bearer"
    ensures r.Ok? ==> r.value.accessToken.claims == Claims(Issuer, Subject(registration), now + SecondsPerDay)
    ensures r.Ok? ==> r.value.accessToken.signature == Mac(HS512, keys.encoding.material, r.value.accessToken.claims)
  {
    if registration.password != regKey then Err(AuthError.Registration)
    else
      var claims := Claims(Issuer, Subject(registration), now + SecondsPerDay);
      match Encode(HS512, claims, keys.encoding)
      case Err(_) => Err(TokenCreation)
      case Ok(token) => Ok(AuthBody.New(token))
  }

  /**
   * The `Claims` extractor: a missing or non-bearer header is
   * `InvalidToken`; any decoding failure, expiry included, is `Registration`.
   */
  function Validate(header: Option<AuthHeader>, keys: JwtKeys, now: int): (r: Result<Claims, AuthError>)
    ensures r == Err(InvalidToken) <==> !(header.Some? && header.value.BearerHeader?)
    ensures r.Err? ==> r.error != TokenCreation
    ensures r.Ok? ==> header.Some? && header.value.BearerHeader? && header.value.credentials.Jwt?
    ensures r.Ok? ==> var t := header.value.credentials.token;
                      && r.value == t.claims && t.alg == HS512
                      && t.signature == Mac(HS512, keys.decoding.material, t.claims)
                      && keys.decoding.family == Hmac
                      && now <= t.claims.exp + Leeway
    ensures header.Some? && header.value.BearerHeader? && header.value.credentials.Jwt? ==>
              var t := header.value.credentials.token;
              (t.alg == HS512 && t.signature == Mac(HS512, keys.decoding.material, t.claims)
               && keys.decoding.family == Hmac && now <= t.claims.exp + Leeway) ==> r == Ok(t.claims)
  {
    match header
    case None => Err(InvalidToken)
    case Some(OtherHeader(_)) => Err(InvalidToken)
    case Some(BearerHeader(credentials)) =>
      match Decode(credentials, keys.decoding, now)
      case Err(_) => Err(AuthError.Registration)
      case Ok(claims) => Ok(claims)
  }

  /** The response of an `AuthError`: a status code and a JSON body repeating it with a message. */
  datatype ErrorReply = ErrorReply(status: nat, message: string)

  /** Failing to make a token is the server's fault (500); the others are the caller's (401). */
  function IntoResponse(e: AuthError): (r: ErrorReply)
    ensures r.status == Http.INTERNAL_SERVER_ERROR <==> e == TokenCreation
    ensures r.status != Http.INTERNAL_SERVER_ERROR ==> r.status == Http.UNAUTHORIZED
  {
    if e.Registration? then ErrorReply(Http.UNAUTHORIZED, "Invalid registration")
    else if e.TokenCreation? then ErrorReply(Http.INTERNAL_SERVER_ERROR, "Token creation error")
    else ErrorReply(Http.UNAUTHORIZED, "Invalid token")
  }

  /** A token issued under keys made from one secret validates under the same keys until it expires. */
  lemma IssueThenValidate(secret: seq<bv8>, regKey: string, registration: Registration, now: int, later: int)
    requires now + SecondsPerDay >= 0
    requires registration.password == regKey
    requires later <= now + SecondsPerDay + Leeway
    ensures var keys := JwtKeys.New(secret);
            var r := MakeJwtToken(keys, regKey, registration, now);
            && r.Ok?
            && Validate(Some(BearerHeader(Jwt(r.value.accessToken))), keys, later)
               == Ok(Claims(Issuer, Subject(registration), now + SecondsPerDay))
  {
  }

  /** Once past its expiry and the leeway, the same token is refused as a failed registration. */
  lemma ExpiredTokenRejected(secret: seq<bv8>, regKey: string, registration: Registration, now: int, later: int)
    requires now + SecondsPerDay >= 0
    requires registration.password == regKey
    requires later > now + SecondsPerDay + Leeway
    ensures var keys := JwtKeys.New(secret);
            var r := MakeJwtToken(keys, regKey, registration, now);
            && r.Ok?
            && Validate(Some(BearerHeader(Jwt(r.value.accessToken))), keys, later) == Err(AuthError.Registration)
  {
  }

  /** A token issued under one secret is refused by keys made from another. */
  lemma ForeignTokenRejected(secret: seq<bv8>, other: seq<bv8>, regKey: string, registration: Registration, now: int, later: int)
    requires now + SecondsPerDay >= 0
    requires registration.password == regKey
    requires secret != other
    ensures var r := MakeJwtToken(JwtKeys.New(secret), regKey, registration, now);
            && r.Ok?
            && Validate(Some(BearerHeader(Jwt(r.value.accessToken))), JwtKeys.New(other), later) == Err(AuthError.Registration)
  {
  }
}
