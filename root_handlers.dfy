/** `Login`, `Logout`, `fifteenMinutesBefore` and `findLoginAuthToken` of
    request_handlers.go. Login reuses the user's token if it was used within
    the last fifteen minutes (refreshing it) or creates a new one, then
    soft-deletes every other live token of the user. The database generates
    a new row's id, token and `updated_at`; they arrive as
    `NewAuthentication`. bcrypt's comparison is the predicate
    `passwordMatches`. */
module RootHandlers {
  import opened Wrappers
  import opened RootTables
  import Rows
  import Base64

  /** The columns the database fills in on insert. */
  datatype NewAuthentication = NewAuthentication(id: int, token: string, updatedAt: int)

  datatype Cookie = Cookie(name: string, value: string, expires: int)

  /** 404 "Couldn't find user", or the cookie and the JSON body
      `{"auth_token": ...}`. */
  datatype LoginResponse = UserNotFound | LoggedIn(authToken: string, cookie: Cookie)

  /** 200 with no body, or a panic of the handler. */
  datatype LogoutResponse = LoggedOut | Crash

  function FifteenMinutesBefore(t: int): (r: int)
    ensures r < t && t - r == 15 * Minute
  {
    t - FifteenMinutes
  }

  /** findLoginAuthToken: a token of the user's that is live and was used in
      the last fifteen minutes; None for the query's "no rows". */
  function FindLoginAuthToken(rows: seq<Authentication>, userId: string, now: int): (r: Option<string>)
    ensures r.Some? ==> exists i :: (0 <= i < |rows| && rows[i].userId == userId &&
      UsedSince(rows[i], FifteenMinutesBefore(now)) && rows[i].token == r.value)
    ensures r.None? <==> forall i :: 0 <= i < |rows| ==>
      !(rows[i].userId == userId && UsedSince(rows[i], FifteenMinutesBefore(now)))
  {
    match Rows.FindFirst(rows, (a: Authentication) => a.userId == userId && UsedSince(a, FifteenMinutesBefore(now)))
    case None => None
    case Some(i) => Some(rows[i].token)
  }

  /** The user query's filter: that username, not deleted. */
  predicate IsLiveUser(u: User, username: string) {
    u.username == username && u.deletedAt.None?
  }

  /** Row `i` is the one the user query reads: the first live user of that
      name. */
  predicate FirstLiveUser(users: seq<User>, username: string, i: int) {
    0 <= i < |users| && IsLiveUser(users[i], username) &&
    forall j :: 0 <= j < i ==> !IsLiveUser(users[j], username)
  }

  /** The user query and the password check: the id of the first live user
      of that name, if it has one and the password matches. */
  function AuthenticatedUser(users: seq<User>, username: string, password: string,
                             passwordMatches: (seq<Base64.byte>, string) -> bool): (r: Option<string>)
    ensures r.Some? <==> exists i :: (FirstLiveUser(users, username, i) && users[i].id.Some? &&
      passwordMatches(users[i].password, password))
    ensures r.Some? ==> exists i :: FirstLiveUser(users, username, i) && users[i].id == r
  {
    match Rows.FindFirst(users, (u: User) => IsLiveUser(u, username))
    case None => None
    case Some(i) =>
      if users[i].id.None? then None
      else if !passwordMatches(users[i].password, password) then None
      else users[i].id
  }

  /** The first table update of Login: refresh the token found, or insert a
      new one. Gives the token and the table after. The token has a live row
      of the user afterwards; at most one row is added; an existing row
      changes only by having its live row of that token refreshed. */
  function ReuseOrCreate(rows: seq<Authentication>, userId: string, now: int, d: NewAuthentication): (r: (string, seq<Authentication>))
    ensures exists j :: 0 <= j < |r.1| && r.1[j].userId == userId && Live(r.1[j]) && r.1[j].token == r.0
    ensures |rows| <= |r.1| <= |rows| + 1
    ensures forall j :: 0 <= j < |rows| ==>
      r.1[j] == rows[j] || (rows[j].token == r.0 && Live(rows[j]) && r.1[j] == rows[j].(updatedAt := now))
  {
    match FindLoginAuthToken(rows, userId, now)
    case Some(t) =>
      TouchTokenEffect(rows, t, now);
      (t, TouchToken(rows, t, now))
    case None =>
      var row := Authentication(d.id, userId, d.token, d.updatedAt, None);
      assert (rows + [row])[|rows|] == row;
      (d.token, rows + [row])
  }

  /** Login on the two tables: the response and the `authentications` table
      after. */
  function LoginStep(users: seq<User>, rows: seq<Authentication>, username: string, password: string,
                     passwordMatches: (seq<Base64.byte>, string) -> bool, now: int, d: NewAuthentication)
    : (LoginResponse, seq<Authentication>)
  {
    match AuthenticatedUser(users, username, password, passwordMatches)
    case None => (UserNotFound, rows)
    case Some(uid) =>
      var (token, refreshed) := ReuseOrCreate(rows, uid, now, d);
      (LoggedIn(token, Cookie("authtoken", token, now + FifteenMinutes)), SoftDeleteLive(refreshed, uid, Some(token), now))
  }

  /** Logout on the `authentications` table. The user id is read from the
      request context; a missing one makes the type assertion panic. */
  function LogoutStep(rows: seq<Authentication>, ctxUserId: Option<string>, now: int): (LogoutResponse, seq<Authentication>) {
    match ctxUserId
    case None => (Crash, rows)
    case Some(u) => (LoggedOut, SoftDeleteLive(rows, u, None, now))
  }

  method Login(db: Database, username: string, password: string,
               passwordMatches: (seq<Base64.byte>, string) -> bool, now: int, d: NewAuthentication) returns (resp: LoginResponse)
    modifies db
    ensures (resp, db.authentications) == LoginStep(old(db.users), old(db.authentications), username, password, passwordMatches, now, d)
    ensures db.users == old(db.users)
  {
    var userId := AuthenticatedUser(db.users, username, password, passwordMatches);
    if userId.None? {
      return UserNotFound;
    }
    var uid := userId.value;
    var authToken := FindLoginAuthToken(db.authentications, uid, now);
    var token: string;
    if authToken.Some? {
      token := authToken.value;
      db.authentications := TouchToken(db.authentications, token, now);
    } else {
      token := d.token;
      db.authentications := db.authentications + [Authentication(d.id, uid, d.token, d.updatedAt, None)];
    }
    db.authentications := SoftDeleteLive(db.authentications, uid, Some(token), now);
    resp := LoggedIn(token, Cookie("authtoken", token, now + FifteenMinutes));
  }

  method Logout(db: Database, ctxUserId: Option<string>, now: int) returns (resp: LogoutResponse)
    modifies db
    ensures (resp, db.authentications) == LogoutStep(old(db.authentications), ctxUserId, now)
    ensures db.users == old(db.users)
  {
    if ctxUserId.None? {
      return Crash;
    }
    db.authentications := SoftDeleteLive(db.authentications, ctxUserId.value, None, now);
    resp := LoggedOut;
  }

  // ---- Login ----

  /** Failed credentials give 404 and change nothing. */
  lemma LoginRejectsUnknownCredentials(users: seq<User>, rows: seq<Authentication>, username: string, password: string,
                                      passwordMatches: (seq<Base64.byte>, string) -> bool, now: int, d: NewAuthentication)
    requires forall i :: 0 <= i < |users| && users[i].username == username && users[i].deletedAt.None? ==>
      users[i].id.None? || !passwordMatches(users[i].password, password)
    ensures LoginStep(users, rows, username, password, passwordMatches, now, d) == (UserNotFound, rows)
  {
  }

  /** With a recently used token the table keeps its size, and every live row
      with that token is refreshed to now. */
  lemma ReuseRefreshes(rows: seq<Authentication>, userId: string, now: int, d: NewAuthentication)
    requires FindLoginAuthToken(rows, userId, now).Some?
    ensures var (t, after) := ReuseOrCreate(rows, userId, now, d);
      t == FindLoginAuthToken(rows, userId, now).value && |after| == |rows| &&
      forall j :: 0 <= j < |rows| && rows[j].token == t && Live(rows[j]) ==> after[j] == rows[j].(updatedAt := now)
  {
    TouchTokenEffect(rows, FindLoginAuthToken(rows, userId, now).value, now);
  }

  /** Without one, exactly one new live row for the user is appended. */
  lemma CreateInserts(rows: seq<Authentication>, userId: string, now: int, d: NewAuthentication)
    requires FindLoginAuthToken(rows, userId, now).None?
    ensures var (t, after) := ReuseOrCreate(rows, userId, now, d);
      t == d.token && |after| == |rows| + 1 && after[..|rows|] == rows &&
      after[|rows|] == Authentication(d.id, userId, d.token, d.updatedAt, None)
  {
    var after := ReuseOrCreate(rows, userId, now, d).1;
    assert after[..|rows|] == rows;
  }

  /** After a successful Login the returned token is the user's only live
      token: it has a live row, and every other live row of the user has
      been soft-deleted. The cookie carries the token and expires fifteen
      minutes after now. */
  lemma LoginLeavesOneLiveToken(users: seq<User>, rows: seq<Authentication>, username: string, password: string,
                                passwordMatches: (seq<Base64.byte>, string) -> bool, now: int, d: NewAuthentication)
    requires AuthenticatedUser(users, username, password, passwordMatches).Some?
    ensures var uid := AuthenticatedUser(users, username, password, passwordMatches).value;
      var (resp, after) := LoginStep(users, rows, username, password, passwordMatches, now, d);
      resp.LoggedIn? &&
      resp.cookie == Cookie("authtoken", resp.authToken, now + FifteenMinutes) &&
      (forall j :: 0 <= j < |after| && after[j].userId == uid && Live(after[j]) ==> after[j].token == resp.authToken) &&
      (exists j :: 0 <= j < |after| && after[j].userId == uid && Live(after[j]) && after[j].token == resp.authToken)
  {
    var uid := AuthenticatedUser(users, username, password, passwordMatches).value;
    var (t, refreshed) := ReuseOrCreate(rows, uid, now, d);
    var after := SoftDeleteLive(refreshed, uid, Some(t), now);
    SoftDeleteLiveEffect(refreshed, uid, Some(t), now);
    var k: nat;
    if FindLoginAuthToken(rows, uid, now).Some? {
      k :| 0 <= k < |rows| && rows[k].userId == uid && UsedSince(rows[k], FifteenMinutesBefore(now)) && rows[k].token == t;
      TouchTokenEffect(rows, t, now);
    } else {
      k := |rows|;
    }
    assert refreshed[k].userId == uid && Live(refreshed[k]) && refreshed[k].token == t;
    assert after[k] == refreshed[k];
  }

  /** Login changes no row of another user, given that rows sharing a token
      belong to one user; nor any row already deleted. */
  lemma LoginKeepsOtherRows(users: seq<User>, rows: seq<Authentication>, username: string, password: string,
                            passwordMatches: (seq<Base64.byte>, string) -> bool, now: int, d: NewAuthentication)
    requires TokensOwned(rows)
    ensures var after := LoginStep(users, rows, username, password, passwordMatches, now, d).1;
      |after| >= |rows| &&
      forall j :: 0 <= j < |rows| &&
        (!Live(rows[j]) || AuthenticatedUser(users, username, password, passwordMatches) != Some(rows[j].userId))
        ==> after[j] == rows[j]
  {
    var user := AuthenticatedUser(users, username, password, passwordMatches);
    if user.Some? {
      var uid := user.value;
      var (t, refreshed) := ReuseOrCreate(rows, uid, now, d);
      SoftDeleteLiveEffect(refreshed, uid, Some(t), now);
      if FindLoginAuthToken(rows, uid, now).Some? {
        var k :| 0 <= k < |rows| && rows[k].userId == uid && UsedSince(rows[k], FifteenMinutesBefore(now)) && rows[k].token == t;
        TouchTokenEffect(rows, t, now);
        assert forall j :: 0 <= j < |rows| && Live(rows[j]) && uid != rows[j].userId ==> rows[j].token != rows[k].token;
      }
    }
  }

  // ---- Logout ----

  /** After Logout no token of the user is found any more, whatever the
      time. */
  lemma LogoutLeavesNoToken(rows: seq<Authentication>, userId: string, now: int, later: int)
    ensures FindLoginAuthToken(SoftDeleteLive(rows, userId, None, now), userId, later).None?
  {
    SoftDeleteLiveEffect(rows, userId, None, now);
  }

  /** Logout changes only live rows of the user, and a second Logout changes
      nothing. */
  lemma LogoutEffect(rows: seq<Authentication>, userId: string, now: int, later: int)
    ensures forall j :: 0 <= j < |rows| && (rows[j].userId != userId || !Live(rows[j])) ==>
      SoftDeleteLive(rows, userId, None, now)[j] == rows[j]
    ensures SoftDeleteLive(SoftDeleteLive(rows, userId, None, now), userId, None, later) == SoftDeleteLive(rows, userId, None, now)
  {
    var once := SoftDeleteLive(rows, userId, None, now);
    var twice := SoftDeleteLive(once, userId, None, later);
    SoftDeleteLiveEffect(rows, userId, None, now);
    SoftDeleteLiveEffect(once, userId, None, later);
    forall j | 0 <= j < |once| ensures twice[j] == once[j] {}
  }
}
