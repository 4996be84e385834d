/** Sessions (authentication.go): access-token authentication of a request,
    the refresh-token store and its states, and the credential check of a
    login. The store is the `refresh_tokens` table, keyed by token string. */
module Sessions {
  import opened Results
  import opened Uuids
  import opened Models
  import Auth
  import Jose
  import Jwt

  /** `60 * 24 * time.Hour`, in seconds. */
  const RefreshTokenTtl := 60 * 24 * 60 * 60

  type Store = map<string, RefreshRecord>

  /** The two failures of `authenticateRequest`. */
  datatype AccessError = AccessTokenNotFound | InvalidAccessToken

  function AccessMessage(e: AccessError): (text: string)
  {
    match e
    case AccessTokenNotFound => "access token not found"
    case InvalidAccessToken => "invalid access token"
  }

  /** `authenticateRequest`: the bearer token of the header, validated as an
      access token under the server's secret. Whatever the header parser
      reports becomes "access token not found", whatever the validator reports
      becomes "invalid access token"; a panic in either reaches the caller. */
  function AuthenticateRequest(hmac: Jose.Mac, secretKey: string, header: string, libraryNow: int, now: int)
    : (r: Result<Uuid, AccessError>)
    ensures Auth.GetBearerToken(header).Err? <==> r == Err(AccessTokenNotFound)
    ensures r.Ok? <==> Auth.GetBearerToken(header).Ok? &&
                       Jwt.ValidateJWT(hmac, Auth.GetBearerToken(header).value, secretKey, libraryNow, now).Ok?
    ensures r.Ok? ==> r.value == Jwt.ValidateJWT(hmac, Auth.GetBearerToken(header).value, secretKey, libraryNow, now).value
    ensures r == Err(InvalidAccessToken) <==>
              Auth.GetBearerToken(header).Ok? &&
              Jwt.ValidateJWT(hmac, Auth.GetBearerToken(header).value, secretKey, libraryNow, now).Err?
  {
    match Auth.GetBearerToken(header)
    case Err(_) => Err(AccessTokenNotFound)
    case Panic => Panic
    case Ok(token) =>
      match Jwt.ValidateJWT(hmac, token, secretKey, libraryNow, now)
      case Err(_) => Err(InvalidAccessToken)
      case Panic => Panic
      case Ok(userId) => Ok(userId)
  }

  /** A request that carries `"Bearer " + t`, for an access token `t` issued to
      a user, authenticates as that user while neither reading of the clock is
      more than an hour after issue, and is an "invalid access token" once
      either is. */
  lemma AccessTokenAuthenticates(hmac: Jose.Mac, userId: Uuid, secretKey: string, issuedAt: int,
                                 libraryNow: int, now: int)
    ensures var r := AuthenticateRequest(hmac, secretKey,
                       "Bearer " + Jwt.MakeAccessToken(hmac, userId, secretKey, issuedAt), libraryNow, now);
            var exp := issuedAt + 3600;
            (r == Ok(userId) <==> libraryNow < exp && now <= exp) &&
            (r == Err(InvalidAccessToken) <==> !(libraryNow < exp && now <= exp))
  {
    var token := Jwt.MakeAccessToken(hmac, userId, secretKey, issuedAt);
    Auth.BearerRoundTrip(token);
    Jwt.AccessTokenLifetime(hmac, userId, secretKey, issuedAt, libraryNow, now);
  }

  /** The three failures of `authenticateRefresh`. */
  datatype RefreshError = RefreshHeaderInvalid | RefreshTokenNotFound | RefreshTokenExpired

  function RefreshMessage(e: RefreshError): (text: string)
  {
    match e
    case RefreshHeaderInvalid => "invalid authorization header"
    case RefreshTokenNotFound => "refresh token not found"
    case RefreshTokenExpired => "refresh token expired"
  }

  /** A record is usable while its expiry is not before `now` (so still at the
      expiry instant itself) and it has not been revoked. Expired and revoked
      records are told apart by nobody. */
  predicate Usable(rec: RefreshRecord, now: int)
  {
    !(rec.expiresAt < now) && rec.revokedAt.None?
  }

  /** `authenticateRefresh`: the stored token and its user, for a bearer token
      that names a usable record. */
  function AuthenticateRefresh(store: Store, header: string, now: int): (r: Result<(string, Uuid), RefreshError>)
    ensures r.Ok? <==> Auth.GetBearerToken(header).Ok? && Auth.GetBearerToken(header).value in store &&
                       Usable(store[Auth.GetBearerToken(header).value], now)
    ensures r.Ok? ==> var rec := store[Auth.GetBearerToken(header).value];
                      r.value == (rec.token, rec.userId)
    ensures r == Err(RefreshHeaderInvalid) <==> Auth.GetBearerToken(header).Err?
    ensures r == Err(RefreshTokenNotFound) <==>
              Auth.GetBearerToken(header).Ok? && Auth.GetBearerToken(header).value !in store
    ensures r.Panic? <==> Auth.GetBearerToken(header).Panic?
  {
    match Auth.GetBearerToken(header)
    case Err(_) => Err(RefreshHeaderInvalid)
    case Panic => Panic
    case Ok(token) =>
      if token !in store then Err(RefreshTokenNotFound)
      else
        var rec := store[token];
        if rec.expiresAt < now || rec.revokedAt.Some? then Err(RefreshTokenExpired)
        else Ok((rec.token, rec.userId))
  }

  /** The row `handlerLogin` stores: issued now, valid for sixty days, not
      revoked. */
  function NewRefreshRecord(token: string, userId: Uuid, now: int): (rec: RefreshRecord)
  {
    RefreshRecord(token, now, now, userId, now + RefreshTokenTtl, None)
  }

  /** The store after `RevokeRefreshToken` has set the record's `revoked_at`:
      the same tokens, the target revoked at `now` with its other columns as
      they were, every other record untouched. */
  function Revoked(store: Store, token: string, now: int): (s: Store)
    requires token in store
    ensures s.Keys == store.Keys
    ensures s[token].revokedAt == Some(now)
    ensures var before := store[token];
            var after := s[token];
            after.token == before.token && after.userId == before.userId && after.createdAt == before.createdAt &&
            after.updatedAt == before.updatedAt && after.expiresAt == before.expiresAt
    ensures forall t :: t in store && t != token ==> s[t] == store[t]
  {
    store[token := store[token].(revokedAt := Some(now))]
  }

  /** The expiry instant is inclusive: an unrevoked token is accepted at the
      very second its record expires and refused as expired one second later. */
  lemma AcceptedAtExpiryInstant(store: Store, token: string, now: int)
    requires ' ' !in token && token in store
    requires store[token].expiresAt == now && store[token].revokedAt.None?
    ensures AuthenticateRefresh(store, "Bearer " + token, now) == Ok((store[token].token, store[token].userId))
    ensures AuthenticateRefresh(store, "Bearer " + token, now + 1) == Err(RefreshTokenExpired)
  {
    Auth.BearerRoundTrip(token);
  }

  /** A refresh token stored at login authenticates as its user up to and
      including sixty days later, and is "refresh token expired" after that. */
  lemma RefreshTokenLifetime(store: Store, token: string, userId: Uuid, createdAt: int, now: int)
    requires ' ' !in token
    ensures var r := AuthenticateRefresh(store[token := NewRefreshRecord(token, userId, createdAt)],
                                         "Bearer " + token, now);
            (r == Ok((token, userId)) <==> now <= createdAt + RefreshTokenTtl) &&
            (r == Err(RefreshTokenExpired) <==> now > createdAt + RefreshTokenTtl)
  {
    Auth.BearerRoundTrip(token);
  }

  /** Once revoked, a token never authenticates again, at any time. */
  lemma RevokedNeverAuthenticates(store: Store, token: string, revokedAt: int, header: string, now: int)
    requires token in store
    requires Auth.GetBearerToken(header) == Ok(token)
    ensures AuthenticateRefresh(Revoked(store, token, revokedAt), header, now) == Err(RefreshTokenExpired)
  {
  }

  /** Revoking one token changes the outcome for no header that names another. */
  lemma RevokeTouchesOnlyTarget(store: Store, token: string, revokedAt: int, header: string, now: int)
    requires token in store
    requires Auth.GetBearerToken(header) != Ok(token)
    ensures AuthenticateRefresh(Revoked(store, token, revokedAt), header, now) ==
            AuthenticateRefresh(store, header, now)
  {
  }

  /** A record that is not usable stays unusable: expiry only moves closer and
      revocation is never undone. */
  lemma UnusableStaysUnusable(rec: RefreshRecord, now: int, later: int)
    requires !Usable(rec, now) && now <= later
    ensures !Usable(rec, later)
  {
  }

  /** A failure of `authenticateRefresh` on a store is a failure at every later
      time on the same store. */
  lemma FailureIsPermanent(store: Store, header: string, now: int, later: int)
    requires AuthenticateRefresh(store, header, now).Err? && now <= later
    ensures AuthenticateRefresh(store, header, later).Err?
  {
    if Auth.GetBearerToken(header).Ok? && Auth.GetBearerToken(header).value in store {
      UnusableStaysUnusable(store[Auth.GetBearerToken(header).value], now, later);
    }
  }

  /** `GetUserByEmail`: the user with that email, if there is one. */
  ghost function UserByEmail(users: map<Uuid, User>, email: string): (r: Option<User>)
    requires UsersConsistent(users)
    ensures r.Some? ==> r.value.id in users && users[r.value.id] == r.value && r.value.email == email
    ensures r.None? <==> forall id :: id in users ==> users[id].email != email
  {
    if exists id :: id in users && users[id].email == email then
      var id :| id in users && users[id].email == email;
      Some(users[id])
    else None
  }

  /** The credential check of `handlerLogin`: the user is found by email and the
      password must match its hash. `checkPassword(password, hash)` stands for
      bcrypt's comparison. */
  ghost function CheckLogin(users: map<Uuid, User>, email: string, password: string,
                            checkPassword: (string, string) -> bool): (r: Option<User>)
    requires UsersConsistent(users)
    ensures r.Some? ==> r.value.id in users && users[r.value.id] == r.value && r.value.email == email &&
                        checkPassword(password, r.value.hashedPassword)
    ensures r.None? <==> (forall id :: id in users ==> users[id].email != email) ||
                         (exists id :: id in users && users[id].email == email &&
                                       !checkPassword(password, users[id].hashedPassword))
  {
    match UserByEmail(users, email)
    case None => None
    case Some(user) => if checkPassword(password, user.hashedPassword) then Some(user) else None
  }

  /** With emails unique, the check is decided by the one user holding the email. */
  lemma CheckLoginOf(users: map<Uuid, User>, id: Uuid, email: string, password: string,
                     checkPassword: (string, string) -> bool)
    requires UsersConsistent(users) && id in users && users[id].email == email
    ensures CheckLogin(users, email, password, checkPassword) ==
              if checkPassword(password, users[id].hashedPassword) then Some(users[id]) else None
  {
    assert UserByEmail(users, email) == Some(users[id]);
  }
}
