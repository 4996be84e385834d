/** Access tokens and refresh-token strings (internal/auth/jwt.go).

    The clock is a parameter (whole seconds; a NumericDate keeps whole
    seconds): `ValidateJWT` reads it twice, once inside the library and once
    itself, so it takes both readings, the HMAC is the parameter `hmac`, and the 32 random bytes of a
    refresh token are the parameter `random`. */
module Jwt {
  import opened Results
  import opened Base16
  import opened Uuids
  import opened Jose
  import Text

  const Issuer := "chirpy"

  /** `time.Hour`, in seconds. */
  const AccessTokenTtl := 3600

  /** The claims `MakeJWT` signs. */
  function AccessClaims(userId: Uuid, expiresIn: int, now: int): (claims: Claims)
  {
    Claims(Issuer, ToString(userId), Some(now), Some(now + expiresIn))
  }

  /** `MakeJWT`: a token whose claim segment reads back as issuer "chirpy",
      subject the user's canonical UUID string, issued now and expiring
      `expiresIn` seconds later. It holds no space, so it fits a bearer header. */
  function MakeJWT(hmac: Mac, userId: Uuid, tokenSecret: string, expiresIn: int, now: int): (token: string)
    ensures |Text.Split(token, '.')| == 3
    ensures DecodeClaims(Text.Split(token, '.')[1]) ==
              Some(Claims("chirpy", ToString(userId), Some(now), Some(now + expiresIn)))
    ensures ' ' !in token
  {
    var claims := AccessClaims(userId, expiresIn, now);
    DecodeClaimsEncode(claims);
    SignSegments(hmac, tokenSecret, claims);
    Sign(hmac, tokenSecret, claims)
  }

  /** `MakeAccessToken`: a token that expires exactly one hour after `now`. */
  function MakeAccessToken(hmac: Mac, userId: Uuid, tokenSecret: string, now: int): (token: string)
    ensures |Text.Split(token, '.')| == 3
    ensures DecodeClaims(Text.Split(token, '.')[1]).Some?
    ensures DecodeClaims(Text.Split(token, '.')[1]).value.expiresAt == Some(now + 3600)
    ensures ' ' !in token
  {
    MakeJWT(hmac, userId, tokenSecret, AccessTokenTtl, now)
  }

  datatype JwtError =
    | ParseFailed(cause: ParseError)   // "failed to parse token: ..."
    | InvalidIssuer                     // "invalid issuer"
    | TokenExpired                      // "token expired"
    | InvalidSubject                    // "failed to parse subject into uuid: ..."

  /** `ValidateJWT`: parse and verify with the secret (the library reads the
      clock, `libraryNow`, and rejects a token whose `exp` is not after it),
      then check the issuer, then the expiry again against a second reading of
      the clock, `now` (a missing `exp` is a nil `*NumericDate` whose `Before`
      dereferences nil and panics), then parse the subject as a UUID.

      An accepted token verified under the secret, names "chirpy", expires
      after the library's reading and not before the second one, and its
      subject reads as the UUID returned. The second expiry check fires
      exactly when the token is otherwise good and its `exp` falls strictly
      between the two readings; with equal readings it never fires. */
  function ValidateJWT(hmac: Mac, tokenString: string, tokenSecret: string, libraryNow: int, now: int): (r: Result<Uuid, JwtError>)
    ensures r.Ok? ==>
              var parsed := ParseWithClaims(hmac, tokenString, tokenSecret, libraryNow);
              && parsed.Ok?
              && parsed.value.issuer == "chirpy"
              && parsed.value.expiresAt.Some?
              && libraryNow < parsed.value.expiresAt.value
              && now <= parsed.value.expiresAt.value
              && Parse(parsed.value.subject) == Some(r.value)
    ensures r == Err(TokenExpired) <==>
              var parsed := ParseWithClaims(hmac, tokenString, tokenSecret, libraryNow);
              && parsed.Ok?
              && parsed.value.issuer == "chirpy"
              && parsed.value.expiresAt.Some?
              && libraryNow < parsed.value.expiresAt.value < now
  {
    var parsed := ParseWithClaims(hmac, tokenString, tokenSecret, libraryNow);
    if !parsed.Ok? then Err(ParseFailed(parsed.error))
    else
      var claims := parsed.value;
      if claims.issuer != Issuer then Err(InvalidIssuer)
      else if claims.expiresAt.None? then Panic
      else if claims.expiresAt.value < now then Err(TokenExpired)
      else match Parse(claims.subject)
        case None => Err(InvalidSubject)
        case Some(id) => Ok(id)
  }

  /** The checks of a token signed with the secret, in the order they apply:
      expiry inside the library, issuer, presence of `exp`, expiry again,
      subject. */
  lemma SignedTokenCheckOrder(hmac: Mac, tokenSecret: string, claims: Claims, libraryNow: int, now: int)
    ensures ValidateJWT(hmac, Sign(hmac, tokenSecret, claims), tokenSecret, libraryNow, now) ==
              if claims.expiresAt.Some? && libraryNow >= claims.expiresAt.value then Err(ParseFailed(Expired))
              else if claims.issuer != "chirpy" then Err(InvalidIssuer)
              else if claims.expiresAt.None? then Panic
              else if claims.expiresAt.value < now then Err(TokenExpired)
              else if Parse(claims.subject).None? then Err(InvalidSubject)
              else Ok(Parse(claims.subject).value)
  {
    SignedTokenParses(hmac, tokenSecret, claims, libraryNow);
  }

  /** The fate of a token made for a user, validated under the same secret:
      it validates to that user while neither reading of the clock is past its
      expiry, is refused by the library once the library's reading is, and
      fails the second check exactly when the expiry falls between the two. */
  lemma MadeTokenLifetime(hmac: Mac, userId: Uuid, tokenSecret: string, expiresIn: int, issuedAt: int,
                          libraryNow: int, now: int)
    ensures var r := ValidateJWT(hmac, MakeJWT(hmac, userId, tokenSecret, expiresIn, issuedAt), tokenSecret, libraryNow, now);
            var exp := issuedAt + expiresIn;
            (r == Ok(userId) <==> libraryNow < exp && now <= exp) &&
            (r == Err(ParseFailed(Expired)) <==> libraryNow >= exp) &&
            (r == Err(TokenExpired) <==> libraryNow < exp < now)
  {
    SignedTokenCheckOrder(hmac, tokenSecret, AccessClaims(userId, expiresIn, issuedAt), libraryNow, now);
    ParseToString(userId);
  }

  /** Round trip: before its expiry a token made for a user validates, under the
      same secret, to that user. */
  lemma ValidateMakeJWT(hmac: Mac, userId: Uuid, tokenSecret: string, expiresIn: int, issuedAt: int,
                        libraryNow: int, now: int)
    requires libraryNow < issuedAt + expiresIn && now <= issuedAt + expiresIn
    ensures ValidateJWT(hmac, MakeJWT(hmac, userId, tokenSecret, expiresIn, issuedAt), tokenSecret, libraryNow, now) ==
              Ok(userId)
  {
    MadeTokenLifetime(hmac, userId, tokenSecret, expiresIn, issuedAt, libraryNow, now);
  }

  /** Once the library's reading of the clock has reached the expiry, the token
      is refused as expired ("token is expired"). */
  lemma ExpiredJWTRejected(hmac: Mac, userId: Uuid, tokenSecret: string, expiresIn: int, issuedAt: int,
                           libraryNow: int, now: int)
    requires libraryNow >= issuedAt + expiresIn
    ensures ValidateJWT(hmac, MakeJWT(hmac, userId, tokenSecret, expiresIn, issuedAt), tokenSecret, libraryNow, now) ==
              Err(ParseFailed(Expired))
  {
    MadeTokenLifetime(hmac, userId, tokenSecret, expiresIn, issuedAt, libraryNow, now);
  }

  /** An access token validates during the hour after it was made, and is
      expired from then on: by the library, or by the second check when the
      hour ends between the two readings. */
  lemma AccessTokenLifetime(hmac: Mac, userId: Uuid, tokenSecret: string, issuedAt: int, libraryNow: int, now: int)
    ensures var r := ValidateJWT(hmac, MakeAccessToken(hmac, userId, tokenSecret, issuedAt), tokenSecret, libraryNow, now);
            var exp := issuedAt + 3600;
            (r == Ok(userId) <==> libraryNow < exp && now <= exp) &&
            (r == Err(ParseFailed(Expired)) <==> libraryNow >= exp) &&
            (r == Err(TokenExpired) <==> libraryNow < exp < now)
  {
    MadeTokenLifetime(hmac, userId, tokenSecret, AccessTokenTtl, issuedAt, libraryNow, now);
  }

  /** Validating under another secret fails at the signature check ("signature is
      invalid"), provided the HMAC gives the two secrets different tags for this
      token's signing input, as a MAC must. */
  lemma OtherSecretRejected(hmac: Mac, userId: Uuid, tokenSecret: string, otherSecret: string,
                            expiresIn: int, issuedAt: int, libraryNow: int, now: int)
    requires var input := SigningInput(EncodeText(Hs256), EncodeClaims(AccessClaims(userId, expiresIn, issuedAt)));
             hmac(otherSecret, input) != hmac(tokenSecret, input)
    ensures ValidateJWT(hmac, MakeJWT(hmac, userId, tokenSecret, expiresIn, issuedAt), otherSecret, libraryNow, now) ==
              Err(ParseFailed(SignatureInvalid))
  {
    OtherKeyRejected(hmac, tokenSecret, otherSecret, AccessClaims(userId, expiresIn, issuedAt), libraryNow);
  }

  /** A token with anything appended ("Bearer " + token + "123") does not validate. */
  lemma AppendedTokenRejected(hmac: Mac, userId: Uuid, tokenSecret: string, expiresIn: int, issuedAt: int,
                              extra: string, libraryNow: int, now: int)
    requires extra != ""
    ensures ValidateJWT(hmac, MakeJWT(hmac, userId, tokenSecret, expiresIn, issuedAt) + extra, tokenSecret, libraryNow, now) in
              {Err(ParseFailed(Malformed)), Err(ParseFailed(SignatureInvalid))}
  {
    AppendedRejected(hmac, tokenSecret, AccessClaims(userId, expiresIn, issuedAt), extra, libraryNow);
  }

  /** `MakeRefreshToken` given the 32 bytes `rand.Read` fills: 64 lower-case hex
      digits that decode back to those bytes. */
  function MakeRefreshToken(random: seq<byte>): (token: string)
    requires |random| == 32
    ensures |token| == 64
    ensures forall i :: 0 <= i < |token| ==> IsLowerHexDigit(token[i])
    ensures Decode(token) == Some(random)
  {
    DecodeEncode(random);
    Encode(random)
  }
}
