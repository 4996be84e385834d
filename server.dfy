/** The server's state and its state-changing handlers: `apiConfig` with the
    three tables it reaches through the database, kept as maps the handlers
    update. The secret, the Polka key, the platform and the HMAC are fixed at
    start-up. */
module Server {
  import opened Results
  import opened Uuids
  import opened Models
  import Base16
  import Text
  import Jose
  import Jwt
  import Chirps
  import Sessions
  import Webhooks
  import Admin

  /** The 64 hex digits of a refresh token hold no space, so the token can be
      sent back as a bearer header. */
  lemma RefreshTokenHasNoSpace(random: seq<Base16.byte>)
    requires |random| == 32
    ensures ' ' !in Jwt.MakeRefreshToken(random)
  {
  }

  class ApiConfig {
    const hmac: Jose.Mac
    const secretKey: string
    const polkaKey: string
    const platform: string
    var users: map<Uuid, User>
    var refreshTokens: Sessions.Store
    var chirps: map<Uuid, DbChirp>

    /** Every table is keyed by its primary key; emails are unique. */
    ghost predicate Valid()
      reads this
    {
      UsersConsistent(users) &&
      (forall t :: t in refreshTokens ==> refreshTokens[t].token == t) &&
      (forall id :: id in chirps ==> chirps[id].id == id)
    }

    /** A server over an existing `users` table, with no sessions and no chirps. */
    constructor(hmac: Jose.Mac, secretKey: string, polkaKey: string, platform: string, users: map<Uuid, User>)
      requires UsersConsistent(users)
      ensures Valid()
      ensures this.hmac == hmac && this.secretKey == secretKey && this.polkaKey == polkaKey
      ensures this.platform == platform
      ensures this.users == users && refreshTokens == map[] && chirps == map[]
    {
      this.hmac := hmac;
      this.secretKey := secretKey;
      this.polkaKey := polkaKey;
      this.platform := platform;
      this.users := users;
      refreshTokens := map[];
      chirps := map[];
    }

    /** The credential check of `handlerLogin`: `GetUserByEmail`, then the
        password against the stored hash. */
    method CheckCredentials(email: string, password: string, checkPassword: (string, string) -> bool)
      returns (found: Option<User>)
      requires Valid()
      ensures found == Sessions.CheckLogin(users, email, password, checkPassword)
    {
      if !(exists id :: id in users && users[id].email == email) {
        return None;
      }
      var id :| id in users && users[id].email == email;
      Sessions.CheckLoginOf(users, id, email, password, checkPassword);
      if !checkPassword(password, users[id].hashedPassword) {
        return None;
      }
      return Some(users[id]);
    }

    /** `handlerLogin`. An unknown email and a wrong password get the same 401.
        Otherwise a session is issued, as `Issued` describes. */
    method Login(email: string, password: string, checkPassword: (string, string) -> bool,
                 random: seq<Base16.byte>, now: int) returns (resp: Response)
      requires Valid() && |random| == 32
      modifies this
      ensures Valid() && users == old(users) && chirps == old(chirps)
      ensures Sessions.CheckLogin(old(users), email, password, checkPassword).None? ==>
                resp == Failure(401, "Incorrect email or password") && refreshTokens == old(refreshTokens)
      ensures Sessions.CheckLogin(old(users), email, password, checkPassword).Some? ==>
                Issued(Sessions.CheckLogin(old(users), email, password, checkPassword).value, random, now,
                       old(refreshTokens), refreshTokens, resp)
    {
      var found := CheckCredentials(email, password, checkPassword);
      if found.None? {
        return Failure(401, "Incorrect email or password");
      }
      var user := found.value;
      var accessToken := Jwt.MakeAccessToken(hmac, user.id, secretKey, now);
      var token := Jwt.MakeRefreshToken(random);
      var rec := Sessions.NewRefreshRecord(token, user.id, now);
      var stored := StoreRefreshToken(rec);
      if !stored {
        return Failure(500, "Error storing refresh token");
      }
      resp := Response(200, [LoginBody(ViewOf(user), accessToken, rec.token)]);
    }

    /** What issuing a session for `user` does to the refresh store and answers:
        an access token for one hour and a new refresh record for sixty days,
        the refresh token being the hex of `random`; a token already stored is
        an insert error. */
    ghost predicate Issued(user: User, random: seq<Base16.byte>, now: int,
                           before: Sessions.Store, after: Sessions.Store, resp: Response)
      requires |random| == 32
    {
      var token := Jwt.MakeRefreshToken(random);
      if token in before then
        resp == Failure(500, "Error storing refresh token") && after == before
      else
        after == before[token := Sessions.NewRefreshRecord(token, user.id, now)] &&
        resp == Response(200, [LoginBody(ViewOf(user), Jwt.MakeAccessToken(hmac, user.id, secretKey, now), token)])
    }

    /** The refresh token a successful login answers with authenticates as the
        logged-in user for sixty days, and is expired after that. */
    lemma IssuedTokenAuthenticates(user: User, random: seq<Base16.byte>, now: int, later: int,
                                   before: Sessions.Store, after: Sessions.Store, resp: Response)
      requires |random| == 32
      ensures Issued(user, random, now, before, after, resp) && resp.Response? && resp.status == 200 ==>
                resp.bodies[0].refreshToken == Jwt.MakeRefreshToken(random) &&
                var token := resp.bodies[0].refreshToken;
                var r := Sessions.AuthenticateRefresh(after, "Bearer " + token, later);
                (r == Ok((token, user.id)) <==> later <= now + Sessions.RefreshTokenTtl) &&
                (r == Err(Sessions.RefreshTokenExpired) <==> later > now + Sessions.RefreshTokenTtl)
    {
      RefreshTokenHasNoSpace(random);
      Sessions.RefreshTokenLifetime(before, Jwt.MakeRefreshToken(random), user.id, now, later);
    }

    /** `StoreRefreshToken`: the insert fails when the token is already a key
        of the table. */
    method StoreRefreshToken(rec: RefreshRecord) returns (stored: bool)
      requires Valid()
      modifies this
      ensures Valid() && users == old(users) && chirps == old(chirps)
      ensures stored <==> rec.token !in old(refreshTokens)
      ensures refreshTokens == if stored then old(refreshTokens)[rec.token := rec] else old(refreshTokens)
    {
      if rec.token in refreshTokens {
        return false;
      }
      refreshTokens := refreshTokens[rec.token := rec];
      return true;
    }

    /** `handlerRefresh`: a new access token for the user of a usable refresh
        token, and 401 for anything else. It changes nothing. */
    function Refresh(header: string, now: int): (resp: Response)
      reads this
      ensures Sessions.AuthenticateRefresh(refreshTokens, header, now).Err? <==>
                resp == Failure(401, "Invalid refresh token")
      ensures Sessions.AuthenticateRefresh(refreshTokens, header, now).Ok? ==>
                var userId := Sessions.AuthenticateRefresh(refreshTokens, header, now).value.1;
                resp == Response(200, [TokenBody(Jwt.MakeAccessToken(hmac, userId, secretKey, now))])
      ensures Sessions.AuthenticateRefresh(refreshTokens, header, now).Panic? <==> resp == Aborted
    {
      match Sessions.AuthenticateRefresh(refreshTokens, header, now)
      case Err(_) => Failure(401, "Invalid refresh token")
      case Panic => Aborted
      case Ok((_, userId)) => Response(200, [TokenBody(Jwt.MakeAccessToken(hmac, userId, secretKey, now))])
    }

    /** The access token a refresh hands out authenticates, as the user of the
        refresh record, every request of the following hour and none after.
        `libraryLater` and `later` are the two readings of the clock when the
        token is validated. */
    lemma RefreshedTokenAuthenticates(header: string, now: int, libraryLater: int, later: int)
      requires Sessions.AuthenticateRefresh(refreshTokens, header, now).Ok?
      ensures Refresh(header, now).Response? && Refresh(header, now).status == 200
      ensures var userId := Sessions.AuthenticateRefresh(refreshTokens, header, now).value.1;
              var token := Refresh(header, now).bodies[0].token;
              var r := Sessions.AuthenticateRequest(hmac, secretKey, "Bearer " + token, libraryLater, later);
              (r == Ok(userId) <==> libraryLater < now + 3600 && later <= now + 3600) &&
              (r == Err(Sessions.InvalidAccessToken) <==> !(libraryLater < now + 3600 && later <= now + 3600))
    {
      var userId := Sessions.AuthenticateRefresh(refreshTokens, header, now).value.1;
      Sessions.AccessTokenAuthenticates(hmac, userId, secretKey, now, libraryLater, later);
    }

    /** `handlerRevoke`: a usable refresh token is revoked (204); any failure
        of `authenticateRefresh`, including a token already revoked, is a 404
        and changes nothing. */
    method Revoke(header: string, now: int) returns (resp: Response)
      requires Valid()
      modifies this
      ensures Valid() && users == old(users) && chirps == old(chirps)
      ensures var auth := Sessions.AuthenticateRefresh(old(refreshTokens), header, now);
              (auth.Ok? ==> auth.value.0 in old(refreshTokens) &&
                            refreshTokens == Sessions.Revoked(old(refreshTokens), auth.value.0, now) &&
                            resp == NoContent) &&
              (auth.Err? ==> refreshTokens == old(refreshTokens) && resp == Failure(404, "Invalid refresh token")) &&
              (auth.Panic? ==> refreshTokens == old(refreshTokens) && resp == Aborted)
      ensures resp == NoContent ==>
                forall later :: Sessions.AuthenticateRefresh(refreshTokens, header, later) == Err(Sessions.RefreshTokenExpired)
    {
      var auth := Sessions.AuthenticateRefresh(refreshTokens, header, now);
      match auth {
        case Err(_) =>
          return Failure(404, "Invalid refresh token");
        case Panic =>
          return Aborted;
        case Ok((token, _)) =>
          refreshTokens := Sessions.Revoked(refreshTokens, token, now);
          resp := NoContent;
          forall later ensures Sessions.AuthenticateRefresh(refreshTokens, header, later) == Err(Sessions.RefreshTokenExpired) {
            Sessions.RevokedNeverAuthenticates(old(refreshTokens), token, now, header, later);
          }
      }
    }

    /** `handlerNewChirp`: the author must exist, then the body must fit; the
        row is stored with the body as sent, not cleaned. `chirpId` is the
        `uuid.New()` of the call. */
    method NewChirp(body: string, userId: Uuid, chirpId: Uuid, now: int) returns (resp: Response)
      requires Valid()
      modifies this
      ensures Valid() && users == old(users) && refreshTokens == old(refreshTokens)
      ensures var rejection := Chirps.NewChirpRejection(userId in old(users), body);
              (rejection.Some? ==> resp == Failure(400, rejection.value) && chirps == old(chirps)) &&
              (rejection.None? && chirpId in old(chirps) ==>
                 resp == Failure(500, "Unable to create chirp") && chirps == old(chirps)) &&
              (rejection.None? && chirpId !in old(chirps) ==>
                 chirps == old(chirps)[chirpId := DbChirp(chirpId, now, now, body, userId)] &&
                 resp == Response(201, [ChirpBody(Chirp(chirpId, now, now, body, userId))]))
    {
      if userId !in users {
        return Failure(400, "User does not exist");
      }
      var user := users[userId];
      if Text.Utf8Length(body) > Chirps.MaxChirpLength {
        return Failure(400, "Chirp is too long");
      }
      if chirpId in chirps {
        return Failure(500, "Unable to create chirp");
      }
      var row := DbChirp(chirpId, now, now, body, user.id);
      chirps := chirps[chirpId := row];
      resp := Response(201, [ChirpBody(Chirps.DbChirpToChirp(row))]);
    }

    /** `handlerWebhookPolkaUpgraded`. `event` and `userId` are the decoded
        request body. */
    method WebhookPolkaUpgraded(header: string, event: string, userId: Uuid) returns (resp: Response)
      requires Valid()
      modifies this
      ensures Valid() && refreshTokens == old(refreshTokens) && chirps == old(chirps)
      ensures var gate := Webhooks.WebhookGate(header, polkaKey, event);
              (gate == Webhooks.Unauthenticated ==>
                 resp == Failure(401, "Request not authenticated") && users == old(users)) &&
              (gate == Webhooks.Ignored ==> resp == NoContent && users == old(users)) &&
              (gate == Webhooks.GateAborted ==> resp == Aborted && users == old(users)) &&
              (gate == Webhooks.ApplyUpgrade && userId !in old(users) ==>
                 resp == Failure(404, "User not found") && users == old(users)) &&
              (gate == Webhooks.ApplyUpgrade && userId in old(users) ==>
                 resp == NoContent && users == Webhooks.Upgraded(old(users), userId))
    {
      match Webhooks.WebhookGate(header, polkaKey, event) {
        case Unauthenticated =>
          return Failure(401, "Request not authenticated");
        case GateAborted =>
          return Aborted;
        case Ignored =>
          return NoContent;
        case ApplyUpgrade =>
          if userId !in users {
            return Failure(404, "User not found");
          }
          Webhooks.UpgradeKeepsConsistency(users, userId);
          users := Webhooks.Upgraded(users, userId);
          resp := NoContent;
      }
    }

    /** `handlerResetUsers`, with the missing `return` after a failed delete
        supplied. `deleteFails` is whether `DeleteAllUsers` reports an error. */
    method ResetUsers(deleteFails: bool) returns (resp: Response)
      requires Valid()
      modifies this
      ensures Valid() && refreshTokens == old(refreshTokens) && chirps == old(chirps)
      ensures resp == Admin.ResetUsersReply(platform, deleteFails)
      ensures users == if platform == "dev" && !deleteFails then map[] else old(users)
    {
      resp := Admin.ResetUsersReply(platform, deleteFails);
      if platform == Admin.DevPlatform && !deleteFails {
        users := map[];
      }
    }
  }

  /** A token can be revoked once: whatever the first attempt did, a second one
      with the same header does not succeed, and after a successful first
      attempt it is a 404. This is a scenario, not a handler: it has no
      counterpart in the source and is a method only because it calls
      `handlerRevoke`'s model twice, one request after the other. */
  method RevokeTwice(cfg: ApiConfig, header: string, now: int, later: int) returns (first: Response, second: Response)
    requires cfg.Valid() && now <= later
    modifies cfg
    ensures cfg.Valid()
    ensures first == NoContent ==> second == Failure(404, "Invalid refresh token")
    ensures second != NoContent
  {
    ghost var before := cfg.refreshTokens;
    first := cfg.Revoke(header, now);
    if Sessions.AuthenticateRefresh(before, header, now).Err? {
      Sessions.FailureIsPermanent(before, header, now, later);
    }
    second := cfg.Revoke(header, later);
  }
}
