/** The session-creating `Login`, the soft-deleting `Logout` and the claim
    construction `makeJwt` of api/request_handlers.go. The database generates
    a new session's id, server token, expiry and creation time; they arrive
    here as `NewSessionDefaults`. bcrypt's comparison is the predicate
    `passwordMatches`. */
module ApiHandlers {
  import opened Wrappers
  import opened ApiCommon
  import Rows
  import ApiMiddleware

  /** The fields Login reads: the JSON body's username and password and the
      `X-Client-Token` header. */
  datatype LoginRequest = LoginRequest(username: string, password: string, clientToken: string)

  /** The columns the database fills in on insert. */
  datatype NewSessionDefaults = NewSessionDefaults(id: string, serverToken: string, expiresAt: int, createdAt: int, updatedAt: int)

  /** 404 "Couldn't find user", 401 "Unauthorized", 500 "Error logging in",
      or the JSON body `{"jwt": ...}`. */
  datatype LoginResponse = UserNotFound | Unauthorized | LoginFailed | LoggedIn(jwt: string)

  /** 200 with no body, or a panic of the handler. */
  datatype LogoutResponse = LoggedOut | Crash

  /** The user query's filter: that username, not deleted. */
  predicate IsLiveUser(u: User, username: string) {
    u.username == username && u.deletedAt.None?
  }

  /** Row `i` is the one the user query reads: the first live user of that
      name. */
  predicate FirstLiveUser(users: seq<User>, username: string, i: int) {
    0 <= i < |users| && IsLiveUser(users[i], username) &&
    forall j :: 0 <= j < i ==> !IsLiveUser(users[j], username)
  }

  /** The row the insert creates. */
  function NewSession(userId: string, clientToken: string, d: NewSessionDefaults): Session {
    Session(d.id, userId, d.serverToken, clientToken, d.expiresAt, d.createdAt, d.updatedAt, None)
  }

  /** makeJwt's claim set. Its one audience entry is the binding tag, so it
      passes the gate's audience check for the same session; its expiry is the
      session's, to the second. */
  function MakeClaims(mac: Mac, s: Session): (c: Claims)
    ensures |c.audience| == 1
    ensures ApiMiddleware.AudienceAccepts(mac, s, c)
    ensures c.expiry * Second <= s.expiresAt < (c.expiry + 1) * Second
  {
    Claims([SymmetricEncryptBase64Encode(mac, s.clientToken, s.serverToken)], s.expiresAt / Second)
  }

  /** makeJwt: the claims signed with HS256 keyed by the client token. A
      token it returns signs, under the session's client token, claims with a
      single audience entry that the gate accepts for this session and with
      the session's expiry. */
  function MakeJwt(jose: Jose, mac: Mac, s: Session): (w: Option<string>)
    ensures w.Some? ==> exists c: Claims :: (ApiMiddleware.AudienceAccepts(mac, s, c) && |c.audience| == 1 &&
      c.expiry == s.expiresAt / Second && jose.sign(c, s.clientToken) == w)
    ensures w == jose.sign(MakeClaims(mac, s), s.clientToken)
  {
    var c := MakeClaims(mac, s);
    assert ApiMiddleware.AudienceAccepts(mac, s, c);
    jose.sign(c, s.clientToken)
  }

  /** Login on the two tables: the response and the `sessions` table after. */
  function LoginStep(users: seq<User>, sessions: seq<Session>, req: LoginRequest, d: NewSessionDefaults,
                     passwordMatches: (seq<Base64.byte>, string) -> bool, jose: Jose, mac: Mac): (LoginResponse, seq<Session>)
  {
    match Rows.FindFirst(users, (u: User) => IsLiveUser(u, req.username))
    case None => (UserNotFound, sessions)
    case Some(i) =>
      if !passwordMatches(users[i].password, req.password) then (UserNotFound, sessions)
      else if req.clientToken == "" then (Unauthorized, sessions)
      else
        var row := NewSession(users[i].id, req.clientToken, d);
        match MakeJwt(jose, mac, row)
        case None => (LoginFailed, sessions + [row])
        case Some(w) => (LoggedIn(w), sessions + [row])
  }

  /** Logout's update: `deleted_at = now` on every session of the user that
      has none yet. */
  function SoftDeleteSessions(rows: seq<Session>, userId: string, now: int): seq<Session> {
    Rows.UpdateWhere(rows, (s: Session) => s.userId == userId && s.deletedAt.None?,
                     (s: Session) => s.(deletedAt := Some(now)))
  }

  /** Logout on the `sessions` table. The user id is the one the gate put in
      the request context; a missing one makes the type assertion panic. */
  function LogoutStep(sessions: seq<Session>, ctxUserId: Option<string>, now: int): (LogoutResponse, seq<Session>) {
    match ctxUserId
    case None => (Crash, sessions)
    case Some(u) => (LoggedOut, SoftDeleteSessions(sessions, u, now))
  }

  method Login(db: Database, req: LoginRequest, d: NewSessionDefaults,
               passwordMatches: (seq<Base64.byte>, string) -> bool, jose: Jose, mac: Mac) returns (resp: LoginResponse)
    modifies db
    ensures (resp, db.sessions) == LoginStep(old(db.users), old(db.sessions), req, d, passwordMatches, jose, mac)
    ensures db.users == old(db.users)
  {
    var found := Rows.FindFirst(db.users, (u: User) => IsLiveUser(u, req.username));
    if found.None? {
      return UserNotFound;
    }
    var user := db.users[found.value];
    if !passwordMatches(user.password, req.password) {
      return UserNotFound;
    }
    if req.clientToken == "" {
      return Unauthorized;
    }
    var session := NewSession(user.id, req.clientToken, d);
    db.sessions := db.sessions + [session];
    var webToken := MakeJwt(jose, mac, session);
    if webToken.None? {
      return LoginFailed;
    }
    resp := LoggedIn(webToken.value);
  }

  method Logout(db: Database, ctxUserId: Option<string>, now: int) returns (resp: LogoutResponse)
    modifies db
    ensures (resp, db.sessions) == LogoutStep(old(db.sessions), ctxUserId, now)
    ensures db.users == old(db.users)
  {
    if ctxUserId.None? {
      return Crash;
    }
    db.sessions := SoftDeleteSessions(db.sessions, ctxUserId.value, now);
    resp := LoggedOut;
  }

  // ---- Login ----

  /** The user query reads the first live user of that name. */
  lemma UserQueryReads(users: seq<User>, username: string, i: int)
    requires FirstLiveUser(users, username, i)
    ensures Rows.FindFirst(users, (u: User) => IsLiveUser(u, username)) == Some(i)
  {
    var found := Rows.FindFirst(users, (u: User) => IsLiveUser(u, username));
    assert IsLiveUser(users[i], username);
    assert found.Some?;
    assert !(found.value < i) && !(found.value > i);
  }

  /** An unknown or deleted username and a wrong password end alike, in 404,
      with no session created; what the client token is plays no part. */
  lemma LoginRejectsUnknownCredentials(users: seq<User>, sessions: seq<Session>, req: LoginRequest, d: NewSessionDefaults,
                                      passwordMatches: (seq<Base64.byte>, string) -> bool, jose: Jose, mac: Mac)
    requires forall i :: 0 <= i < |users| && IsLiveUser(users[i], req.username) ==>
      !passwordMatches(users[i].password, req.password)
    ensures LoginStep(users, sessions, req, d, passwordMatches, jose, mac) == (UserNotFound, sessions)
  {
  }

  /** An empty client token never creates a session: the answer is 401 when
      the user query finds a user whose password matches, and 404 otherwise. */
  lemma LoginRejectsEmptyClientToken(users: seq<User>, sessions: seq<Session>, req: LoginRequest, d: NewSessionDefaults,
                                     passwordMatches: (seq<Base64.byte>, string) -> bool, jose: Jose, mac: Mac)
    requires req.clientToken == ""
    ensures LoginStep(users, sessions, req, d, passwordMatches, jose, mac).1 == sessions
    ensures LoginStep(users, sessions, req, d, passwordMatches, jose, mac).0 in {UserNotFound, Unauthorized}
    ensures LoginStep(users, sessions, req, d, passwordMatches, jose, mac).0 == Unauthorized <==>
      exists i :: FirstLiveUser(users, req.username, i) && passwordMatches(users[i].password, req.password)
  {
    var found := Rows.FindFirst(users, (u: User) => IsLiveUser(u, req.username));
    if found.Some? {
      assert FirstLiveUser(users, req.username, found.value);
    }
    forall i | FirstLiveUser(users, req.username, i) && passwordMatches(users[i].password, req.password)
      ensures LoginStep(users, sessions, req, d, passwordMatches, jose, mac).0 == Unauthorized
    {
      UserQueryReads(users, req.username, i);
    }
  }

  /** Any response that is not a 404 or 401 follows an insert of exactly one
      session, for the first live user of that name and the client token,
      live, with every existing row kept; a jwt is returned only for it. */
  lemma LoginInsertsOneSession(users: seq<User>, sessions: seq<Session>, req: LoginRequest, d: NewSessionDefaults,
                               passwordMatches: (seq<Base64.byte>, string) -> bool, jose: Jose, mac: Mac)
    requires LoginStep(users, sessions, req, d, passwordMatches, jose, mac).0 !in {UserNotFound, Unauthorized}
    ensures var (resp, after) := LoginStep(users, sessions, req, d, passwordMatches, jose, mac);
      |after| == |sessions| + 1 && after[..|sessions|] == sessions &&
      exists i :: FirstLiveUser(users, req.username, i) &&
        passwordMatches(users[i].password, req.password) && req.clientToken != "" &&
        after[|sessions|] == NewSession(users[i].id, req.clientToken, d) &&
        (resp.LoggedIn? ==> MakeJwt(jose, mac, after[|sessions|]) == Some(resp.jwt))
  {
    var found := Rows.FindFirst(users, (u: User) => IsLiveUser(u, req.username));
    var after := LoginStep(users, sessions, req, d, passwordMatches, jose, mac).1;
    assert found.Some?;
    assert after[..|sessions|] == sessions;
  }

  // ---- makeJwt and the gate ----

  /** The touch changes neither token, so claims made for a session still
      pass the audience check against every touched row with its id. */
  lemma TouchKeepsAudience(mac: Mac, rows: seq<Session>, j: nat, now: int, expires: int)
    requires j < |rows|
    ensures j < |ApiMiddleware.Touch(rows, rows[j].id, now, expires)|
    ensures ApiMiddleware.AudienceAccepts(mac, ApiMiddleware.Touch(rows, rows[j].id, now, expires)[j], MakeClaims(mac, rows[j]))
  {
    ApiMiddleware.TouchEffect(rows, rows[j].id, now, expires);
  }

  // ---- Logout ----

  /** Logout stamps every live session of the user with `now` and changes no
      other row. */
  lemma SoftDeleteEffect(rows: seq<Session>, userId: string, now: int)
    ensures |SoftDeleteSessions(rows, userId, now)| == |rows|
    ensures forall j :: 0 <= j < |rows| && rows[j].userId == userId && rows[j].deletedAt.None? ==>
      SoftDeleteSessions(rows, userId, now)[j] == rows[j].(deletedAt := Some(now))
    ensures forall j :: 0 <= j < |rows| && (rows[j].userId != userId || rows[j].deletedAt.Some?) ==>
      SoftDeleteSessions(rows, userId, now)[j] == rows[j]
  {
  }

  /** A second Logout for the same user finds nothing left to change. */
  lemma LogoutIdempotent(rows: seq<Session>, userId: string, now: int, later: int)
    ensures SoftDeleteSessions(SoftDeleteSessions(rows, userId, now), userId, later) == SoftDeleteSessions(rows, userId, now)
  {
    var once := SoftDeleteSessions(rows, userId, now);
    var twice := SoftDeleteSessions(once, userId, later);
    forall j | 0 <= j < |once| ensures twice[j] == once[j] {}
  }

  /** After Logout no session of the user passes the corrected gate. */
  lemma GateRefusesAfterLogout(rows: seq<Session>, userId: string, now: int, clientToken: string, authorization: string,
                               t: int, monthLater: int -> int, jose: Jose, mac: Mac)
    ensures ApiMiddleware.Gate(SoftDeleteSessions(rows, userId, now), clientToken, authorization, t, monthLater, jose, mac).verdict
      != ApiMiddleware.Next(userId)
  {
    var after := SoftDeleteSessions(rows, userId, now);
    if ApiMiddleware.Gate(after, clientToken, authorization, t, monthLater, jose, mac).verdict == ApiMiddleware.Next(userId) {
      ApiMiddleware.GateAcceptance(after, clientToken, authorization, t, monthLater, jose, mac, userId);
      assert false;
    }
  }

  /** The gate as written still accepts a session of a user who has logged
      out, for as long as the session has not expired. */
  lemma AsWrittenAcceptsAfterLogout(mac: Mac)
    ensures var rows := SoftDeleteSessions([ApiMiddleware.SampleSession(None)], "u", 0);
      ApiMiddleware.GateAsWritten(rows, "ct", "Bearer t", 0, (t: int) => t + 1, ApiMiddleware.PermissiveJose(mac), mac).verdict
        == ApiMiddleware.Next("u")
  {
    var rows := SoftDeleteSessions([ApiMiddleware.SampleSession(None)], "u", 0);
    assert rows == [ApiMiddleware.SampleSession(Some(0))];
    ApiMiddleware.AsWrittenAcceptsDeletedSession(mac);
  }
}
