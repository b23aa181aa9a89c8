/** The in-memory user and session store of the web interface: two maps
    that CreateUser, CreateSession, GetSession and DeleteSession update.
    bcrypt, crypto/rand and the clock are parameters; times are
    nanoseconds. Operations run one at a time, as under the store's lock. */
module AuthStore {
  import opened Results

  const Hour: int := 3_600_000_000_000
  const SessionLifetime: int := 24 * Hour

  datatype User = User(id: int, username: string, passwordHash: string, role: string, createdAt: int)

  datatype Session = Session(id: string, userId: int, createdAt: int, expiresAt: int)

  datatype AuthError =
    | UserExists          // "user already exists"
    | HashFailed          // bcrypt.GenerateFromPassword failed
    | InvalidCredentials  // "invalid username or password"
    | RandomFailed        // crypto/rand failed
    | SessionNotFound     // "session not found"
    | SessionExpired      // "session expired"
    | UserNotFound        // "user not found"

  /** `time.Now().After(expiresAt)`. */
  predicate IsExpired(s: Session, now: int) {
    now > s.expiresAt
  }

  /** The admin check of RequireAdmin: a user is present and is an admin. */
  predicate RequireAdmin(user: Option<User>) {
    user.Some? && user.value.role == "admin"
  }

  class Auth {
    var users: map<string, User>
    var sessions: map<string, Session>
    /** The usernames in the order they were created. */
    ghost var order: seq<string>

    /** Users are stored under their names and numbered 1..n in creation
        order; sessions are stored under their IDs. */
    ghost predicate Valid()
      reads this
    {
      && |order| == |users|
      && (forall i :: 0 <= i < |order| ==> order[i] in users && users[order[i]].id == i + 1)
      && (forall i, j :: 0 <= i < j < |order| ==> order[i] != order[j])
      && (forall u :: u in users ==> u in order && users[u].username == u)
      && (forall k :: k in sessions ==> sessions[k].id == k)
    }

    /** New: both maps empty. */
    constructor ()
      ensures Valid()
      ensures users == map[] && sessions == map[]
    {
      users := map[];
      sessions := map[];
      order := [];
    }

    /** A user with the given ID is stored. */
    predicate HasUserId(id: int)
      reads this
    {
      exists u :: u in users && users[u].id == id
    }

    /** The IDs in use are exactly 1..n, each used once. */
    lemma UserIdsAreOneToN(id: int)
      requires Valid()
      ensures HasUserId(id) <==> 1 <= id <= |users|
      ensures forall u, v :: u in users && v in users && users[u].id == users[v].id ==> u == v
    {
      if 1 <= id <= |users| {
        assert users[order[id - 1]].id == id;
      }
      forall u, v | u in users && v in users && users[u].id == users[v].id
        ensures u == v
      {
        var i :| 0 <= i < |order| && order[i] == u;
        var j :| 0 <= j < |order| && order[j] == v;
        assert users[order[i]].id == i + 1 && users[order[j]].id == j + 1;
      }
      if HasUserId(id) {
        var u :| u in users && users[u].id == id;
        var i :| 0 <= i < |order| && order[i] == u;
      }
    }

    /** CreateUser: an existing name is refused; otherwise the password is
        hashed and the user is stored with ID = number of users + 1. */
    method CreateUser(username: string, password: string, role: string,
                      hash: string -> Option<string>, now: int)
      returns (r: Result<User, AuthError>)
      requires Valid()
      modifies this
      ensures Valid()
      ensures sessions == old(sessions)
      ensures username in old(users) ==> r == Err(UserExists) && users == old(users)
      ensures username !in old(users) && hash(password).None? ==>
        r == Err(HashFailed) && users == old(users)
      ensures username !in old(users) && hash(password).Some? ==>
        && r == Ok(User(|old(users)| + 1, username, hash(password).value, role, now))
        && users == old(users)[username := r.value]
        && |users| == |old(users)| + 1
    {
      if username in users {
        return Err(UserExists);
      }
      var hashed := hash(password);
      if hashed.None? {
        return Err(HashFailed);
      }
      var user := User(|users| + 1, username, hashed.value, role, now);
      users := users[username := user];
      order := order + [username];
      r := Ok(user);
    }

    /** Authenticate: the user stored under the name, if the abstract
        bcrypt comparison accepts the password against its hash. */
    method Authenticate(username: string, password: string, check: (string, string) -> bool)
      returns (r: Result<User, AuthError>)
      ensures r.Ok? <==> username in users && check(users[username].passwordHash, password)
      ensures r.Ok? ==> r.value == users[username]
      ensures Valid() && r.Ok? ==> r.value.username == username
      ensures r.Err? ==> r.error == InvalidCredentials
    {
      if username !in users {
        return Err(InvalidCredentials);
      }
      var user := users[username];
      if !check(user.passwordHash, password) {
        return Err(InvalidCredentials);
      }
      return Ok(user);
    }

    /** CreateSession: `sessionId` is the encoded random ID, None when
        crypto/rand fails; the clock is read twice, for the creation time
        and for the expiry 24 hours on. */
    method CreateSession(userId: int, sessionId: Option<string>, createdAt: int, expiryClock: int)
      returns (r: Result<Session, AuthError>)
      requires Valid()
      requires createdAt <= expiryClock
      modifies this
      ensures Valid()
      ensures users == old(users)
      ensures sessionId.None? ==> r == Err(RandomFailed) && sessions == old(sessions)
      ensures sessionId.Some? ==>
        && r == Ok(Session(sessionId.value, userId, createdAt, expiryClock + SessionLifetime))
        && sessions == old(sessions)[sessionId.value := r.value]
        && r.value.expiresAt >= r.value.createdAt + SessionLifetime
    {
      if sessionId.None? {
        return Err(RandomFailed);
      }
      var session := Session(sessionId.value, userId, createdAt, expiryClock + SessionLifetime);
      sessions := sessions[sessionId.value := session];
      r := Ok(session);
    }

    /** GetSession: not found, expired (and then evicted), or found. */
    method GetSession(sessionId: string, now: int) returns (r: Result<Session, AuthError>)
      requires Valid()
      modifies this
      ensures Valid()
      ensures users == old(users)
      ensures sessionId !in old(sessions) ==> r == Err(SessionNotFound) && sessions == old(sessions)
      ensures sessionId in old(sessions) && IsExpired(old(sessions)[sessionId], now) ==>
        r == Err(SessionExpired) && sessions == old(sessions) - {sessionId}
      ensures sessionId in old(sessions) && !IsExpired(old(sessions)[sessionId], now) ==>
        r == Ok(old(sessions)[sessionId]) && r.value.id == sessionId && sessions == old(sessions)
    {
      if sessionId !in sessions {
        return Err(SessionNotFound);
      }
      var session := sessions[sessionId];
      if IsExpired(session, now) {
        sessions := sessions - {sessionId};
        return Err(SessionExpired);
      }
      return Ok(session);
    }

    /** GetUserByID: a search over the users in unspecified (map) order. */
    method GetUserByID(userId: int) returns (r: Result<User, AuthError>)
      requires Valid()
      ensures r.Ok? <==> 1 <= userId <= |users|
      ensures r.Ok? ==> r.value.id == userId && r.value.username in users && users[r.value.username] == r.value
      ensures r.Err? ==> r.error == UserNotFound
    {
      var remaining := users.Keys;
      while remaining != {}
        invariant remaining <= users.Keys
        invariant forall u :: u in users && u !in remaining ==> users[u].id != userId
        decreases |remaining|
      {
        var name :| name in remaining;
        if users[name].id == userId {
          UserIdsAreOneToN(userId);
          return Ok(users[name]);
        }
        remaining := remaining - {name};
      }
      UserIdsAreOneToN(userId);
      return Err(UserNotFound);
    }

    /** DeleteSession: removes the key, present or not. */
    method DeleteSession(sessionId: string)
      requires Valid()
      modifies this
      ensures Valid()
      ensures users == old(users)
      ensures sessions == old(sessions) - {sessionId}
      ensures sessionId !in sessions
      ensures forall k :: k != sessionId ==> (k in sessions <==> k in old(sessions))
    {
      sessions := sessions - {sessionId};
    }

    /** InitializeDefaultUsers: create admin/admin123 with role "admin"
        unless a user named "admin" exists. */
    method InitializeDefaultUsers(hash: string -> Option<string>, now: int)
      requires Valid()
      modifies this
      ensures Valid()
      ensures sessions == old(sessions)
      ensures "admin" in old(users) ==> users == old(users)
      ensures "admin" !in old(users) && hash("admin123").Some? ==>
        && users == old(users)["admin" := User(|old(users)| + 1, "admin", hash("admin123").value, "admin", now)]
        && RequireAdmin(Some(users["admin"]))
      ensures "admin" !in old(users) && hash("admin123").None? ==> users == old(users)
      ensures "admin" in users <==> "admin" in old(users) || hash("admin123").Some?
    {
      if "admin" !in users {
        var _ := CreateUser("admin", "admin123", "admin", hash, now);
      }
    }
  }
}
