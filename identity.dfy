/** Users and session tokens: the `users` and `sessions` tables, the lookup of a user by
    name, and the lazy expiry of sessions performed by `_load_session`. */
module Identity {
  import opened Responses

  /** A row of `users`. The password hash is whatever the hashing collaborator returned. */
  datatype User = User(username: string, passwordHash: string, joinedAt: int)

  /** A row of `sessions`, keyed by its token. Times are seconds on the server clock. */
  datatype Session = Session(userId: nat, createdAt: int, expiresAt: int)

  const SecondsPerDay := 24 * 3600
  /** Default of the `SESSION_TTL_DAYS` setting. */
  const DefaultSessionTtlDays := 7

  /** The 409 test of `register`: some user already carries `name`. */
  function NameTaken(users: map<nat, User>, name: string): (b: bool)
    ensures b <==> exists u :: u in users.Values && u.username == name
  {
    exists id :: id in users && users[id].username == name
  }

  /** The unique index on `users.username`. */
  ghost function UniqueNames(users: map<nat, User>): (b: bool)
    ensures b ==> forall i :: i in users ==> !NameTaken(users - {i}, users[i].username)
  {
    forall i, j :: i in users && j in users && users[i].username == users[j].username ==> i == j
  }

  /** `query(User).filter(User.username == name).first()`, scanning the ids `lo..hi` in
      primary-key order: the first user so named, or none when no user in the range is. */
  function FindUser(users: map<nat, User>, name: string, lo: nat, hi: nat): (r: Option<nat>)
    decreases hi - lo
    ensures r.Some? ==> lo <= r.value < hi && r.value in users && users[r.value].username == name
    ensures r.None? ==> forall id :: lo <= id < hi && id in users ==> users[id].username != name
  {
    if lo >= hi then None
    else if lo in users && users[lo].username == name then Some(lo)
    else FindUser(users, name, lo + 1, hi)
  }

  /** With every id below `bound` and names unique, the lookup finds exactly the user that
      carries the name, and finds nothing exactly when the name is free. */
  lemma FindUserExact(users: map<nat, User>, name: string, bound: nat, id: nat)
    requires forall k :: k in users ==> k < bound
    requires UniqueNames(users)
    ensures FindUser(users, name, 0, bound) == Some(id) <==> id in users && users[id].username == name
    ensures FindUser(users, name, 0, bound) == None <==> !NameTaken(users, name)
  {
  }

  /** The session `_load_session` trusts for `token` at time `now`: none for an empty or
      unknown token or for one whose expiry lies before `now`, otherwise the stored row. */
  function Trusted(sessions: map<string, Session>, token: string, now: int): (r: Option<Session>)
    ensures r.Some? ==> token != "" && token in sessions && r.value == sessions[token]
    ensures r.Some? ==> now <= r.value.expiresAt
    ensures r.None? <==> token == "" || token !in sessions || sessions[token].expiresAt < now
  {
    if token == "" || token !in sessions then None
    else if sessions[token].expiresAt < now then None
    else Some(sessions[token])
  }

  /** The `sessions` table after `_load_session(token)` at `now`: an expired row is deleted. */
  function AfterLoad(sessions: map<string, Session>, token: string, now: int): (r: map<string, Session>)
    ensures forall t :: t in r ==> t in sessions && r[t] == sessions[t]
    ensures forall t :: t != token ==> (t in r <==> t in sessions)
    ensures token in r <==> token in sessions && (token == "" || now <= sessions[token].expiresAt)
  {
    if token != "" && token in sessions && sessions[token].expiresAt < now then sessions - {token}
    else sessions
  }

  /** `get_current_user`: the id of the trusted session's user, or 401 when there is no
      trusted session or its user no longer exists. */
  function CurrentUser(users: map<nat, User>, sessions: map<string, Session>, token: string, now: int): (r: Result<nat>)
    ensures r.Ok? ==> r.value in users && Trusted(sessions, token, now).Some?
    ensures r.Ok? ==> Trusted(sessions, token, now).value.userId == r.value
    ensures r.Err? ==> r.status == Unauthorized
    ensures r.Ok? <==> Trusted(sessions, token, now).Some? && Trusted(sessions, token, now).value.userId in users
  {
    match Trusted(sessions, token, now)
    case None => Err(Unauthorized)
    case Some(s) => if s.userId in users then Ok(s.userId) else Err(Unauthorized)
  }

  /** A token that is expired when it is presented yields 401, its row is gone afterwards
      (and no other row), so it is not trusted at any later time either. */
  lemma ExpiredTokenRejectedAndPruned(users: map<nat, User>, sessions: map<string, Session>, token: string, now: int, later: int)
    requires token != "" && token in sessions && sessions[token].expiresAt < now
    ensures CurrentUser(users, sessions, token, now) == Err(Unauthorized)
    ensures AfterLoad(sessions, token, now) == sessions - {token}
    ensures CurrentUser(users, AfterLoad(sessions, token, now), token, later) == Err(Unauthorized)
  {
  }

  /** A lookup never deletes a session it trusts, nor any session but the one presented. */
  lemma LoadKeepsOthers(sessions: map<string, Session>, token: string, now: int)
    ensures Trusted(sessions, token, now).Some? ==> AfterLoad(sessions, token, now) == sessions
    ensures forall t :: t != token ==> (t in AfterLoad(sessions, token, now) <==> t in sessions)
  {
  }

  /** The row `login` adds: issued at `now`, expiring `ttlDays` days later. */
  function Issue(userId: nat, now: int, ttlDays: int): (s: Session)
    ensures s.userId == userId && s.createdAt == now
    ensures s.expiresAt - s.createdAt == ttlDays * SecondsPerDay
  {
    Session(userId, now, now + ttlDays * SecondsPerDay)
  }

  /** A freshly issued token authenticates its user at every time up to and including its
      expiry, and at no time after it. */
  lemma IssuedTokenLifetime(users: map<nat, User>, sessions: map<string, Session>, token: string,
                            userId: nat, now: int, ttlDays: int, t: int)
    requires token != "" && userId in users
    ensures CurrentUser(users, sessions[token := Issue(userId, now, ttlDays)], token, t)
            == if t <= now + ttlDays * SecondsPerDay then Ok(userId) else Err(Unauthorized)
  {
  }
}
