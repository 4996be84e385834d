/** The Polka payment webhook (webhooks.go): an API-key gate, an event filter
    and the subscription flag it sets on one user. */
module Webhooks {
  import opened Results
  import opened Uuids
  import opened Models
  import Auth

  const UserUpgraded := "user.upgraded"

  /** What the handler decides before it touches the `users` table. */
  datatype Gate = Unauthenticated | Ignored | ApplyUpgrade | GateAborted

  /** The key is checked first: a header error or a key other than the
      configured one refuses the request whatever its event; then every event
      but "user.upgraded" is acknowledged and ignored. */
  function WebhookGate(header: string, polkaKey: string, event: string): (g: Gate)
    ensures g == Unauthenticated <==>
              Auth.GetAPIKey(header).Err? || (Auth.GetAPIKey(header).Ok? && Auth.GetAPIKey(header).value != polkaKey)
    ensures g == Ignored <==> Auth.GetAPIKey(header) == Ok(polkaKey) && event != UserUpgraded
    ensures g == ApplyUpgrade <==> Auth.GetAPIKey(header) == Ok(polkaKey) && event == UserUpgraded
    ensures g == GateAborted <==> Auth.GetAPIKey(header).Panic?
  {
    match Auth.GetAPIKey(header)
    case Panic => GateAborted
    case Err(_) => Unauthenticated
    case Ok(apiKey) =>
      if apiKey != polkaKey then Unauthenticated
      else if event != UserUpgraded then Ignored
      else ApplyUpgrade
  }

  /** The configured key under its own scheme passes the gate. */
  lemma ApiKeyHeaderPasses(polkaKey: string, event: string)
    requires ' ' !in polkaKey
    ensures WebhookGate("ApiKey " + polkaKey, polkaKey, event) ==
              if event == "user.upgraded" then ApplyUpgrade else Ignored
  {
    Auth.ApiKeyRoundTrip(polkaKey);
  }

  /** Because the scheme of a two-part header is never checked, the configured
      key passes under any scheme word, "Bearer" included. */
  lemma AnySchemePasses(scheme: string, polkaKey: string, event: string)
    requires ' ' !in scheme && ' ' !in polkaKey
    ensures WebhookGate(scheme + " " + polkaKey, polkaKey, event) != Unauthenticated
  {
    Auth.TwoPartsAccepted(scheme, polkaKey, Auth.ApiKeyScheme, Auth.InvalidApiKeyHeader);
  }

  /** `SetUserSubscription` with `IsChirpyRed: true` on an existing user: that
      user's flag is set, every other field and every other user is kept. */
  function Upgraded(users: map<Uuid, User>, id: Uuid): (r: map<Uuid, User>)
    requires id in users
    ensures r.Keys == users.Keys
    ensures r[id].isChirpyRed
    ensures r[id].(isChirpyRed := users[id].isChirpyRed) == users[id]
    ensures forall other :: other in users && other != id ==> r[other] == users[other]
  {
    users[id := users[id].(isChirpyRed := true)]
  }

  /** Upgrading twice is upgrading once, and a user already on Chirpy Red is
      left as it is. */
  lemma UpgradeIdempotent(users: map<Uuid, User>, id: Uuid)
    requires id in users
    ensures Upgraded(Upgraded(users, id), id) == Upgraded(users, id)
    ensures users[id].isChirpyRed ==> Upgraded(users, id) == users
  {
    assert Upgraded(Upgraded(users, id), id)[id] == Upgraded(users, id)[id];
  }

  /** The upgrade keeps the table keyed by id with unique emails. */
  lemma UpgradeKeepsConsistency(users: map<Uuid, User>, id: Uuid)
    requires id in users && UsersConsistent(users)
    ensures UsersConsistent(Upgraded(users, id))
  {
  }
}
