/** Rows of the database (internal/database, which stands behind the handlers)
    and the values the handlers answer with. Times are whole seconds. */
module Models {
  import opened Results
  import opened Uuids

  /** A row of `users`. */
  datatype User = User(id: Uuid, createdAt: int, updatedAt: int, email: string,
                       hashedPassword: string, isChirpyRed: bool)

  /** A row of `chirps`. */
  datatype DbChirp = DbChirp(id: Uuid, createdAt: int, updatedAt: int, body: string, userId: Uuid)

  /** A row of `refresh_tokens`; `revokedAt` is the nullable `revoked_at`. */
  datatype RefreshRecord = RefreshRecord(token: string, createdAt: int, updatedAt: int, userId: Uuid,
                                         expiresAt: int, revokedAt: Option<int>)

  /** The `users` table: keyed by id, and no two users share an email. */
  ghost predicate UsersConsistent(users: map<Uuid, User>)
  {
    (forall id :: id in users ==> users[id].id == id) &&
    (forall a, b :: a in users && b in users && users[a].email == users[b].email ==> a == b)
  }

  /** The `User` the API shows: no password hash (and no subscription flag). */
  datatype UserView = UserView(id: Uuid, createdAt: int, updatedAt: int, email: string)

  /** The `Chirp` the API shows. */
  datatype Chirp = Chirp(id: Uuid, createdAt: int, updatedAt: int, body: string, userId: Uuid)

  /** `dbUserToUser`. */
  function ViewOf(u: User): (view: UserView)
  {
    UserView(u.id, u.createdAt, u.updatedAt, u.email)
  }

  /** One JSON document written to the response. An error document carries the
      description the handler passes to `ResponseError`. */
  datatype Body =
    | ErrorBody(description: string)
    | LoginBody(user: UserView, token: string, refreshToken: string)
    | TokenBody(token: string)
    | ChirpBody(chirp: Chirp)
    | CleanedBody(cleanedBody: string)
    | DeletedBody(deleted: bool)

  /** What the client receives: the status of the first `WriteHeader` and the
      documents written, in order. `Aborted` is a handler that panicked: the
      server recovers and drops the connection without an answer. */
  datatype Response = Response(status: int, bodies: seq<Body>) | Aborted

  function Failure(status: int, description: string): (resp: Response)
  {
    Response(status, [ErrorBody(description)])
  }

  const NoContent := Response(204, [])
}
