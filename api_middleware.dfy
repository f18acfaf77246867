/** The authentication gate `MakeAuthenticate` of
    api/internal/middleware/middleware.go, as a decision over the `sessions`
    table: look the session up by its client token, take the web token out of
    the `Authorization` header, refresh the session row, then open the web
    token and compare its audience with the session's binding tag.

    `GateAsWritten` follows the code line by line. `Gate` is the same
    procedure with three defects corrected (see README): it returns after a
    malformed `Authorization` header instead of carrying on or indexing past
    the split, and it does not accept a soft-deleted session. `Authenticate`
    runs `Gate` on the database. */
module ApiMiddleware {
  import opened Wrappers
  import opened ApiCommon
  import Rows

  /** What the request turns into: a 401 "Unauthorized" with `next` not
      invoked, `next` invoked with `userId` in the request context, or a
      run-time panic of the handler. */
  datatype Verdict = Unauthorized | Next(userId: string) | Crash

  /** The verdict, the `sessions` table afterwards, and whether a 401 was
      written on a path that did not return. */
  datatype GateResult = GateResult(verdict: Verdict, sessions: seq<Session>, stray401: bool)

  /** Go's `strings.Split(s, " ")`: the pieces between single spaces, at
      least one of them. */
  function Split(s: string): (parts: seq<string>)
    ensures |parts| >= 1
    ensures forall i :: 0 <= i < |parts| ==> ' ' !in parts[i]
    decreases |s|
  {
    if |s| == 0 then [""]
    else
      var rest := Split(s[1..]);
      if s[0] == ' ' then [""] + rest else [[s[0]] + rest[0]] + rest[1..]
  }

  /** Go's `strings.Join(parts, " ")`. */
  function Join(parts: seq<string>): string
    requires |parts| >= 1
    decreases |parts|
  {
    if |parts| == 1 then parts[0] else parts[0] + " " + Join(parts[1..])
  }

  /** Splitting loses nothing: joining the pieces gives the header back. */
  lemma {:induction false} JoinSplit(s: string)
    ensures Join(Split(s)) == s
    decreases |s|
  {
    if |s| > 0 {
      var rest := Split(s[1..]);
      JoinSplit(s[1..]);
      if s[0] == ' ' {
        assert Split(s)[1..] == rest;
        assert s == [s[0]] + s[1..];
      } else {
        var parts := Split(s);
        assert parts[1..] == rest[1..];
        if |rest| == 1 {
          assert s == [s[0]] + s[1..];
        } else {
          assert Join(rest) == rest[0] + " " + Join(rest[1..]);
          assert s == [s[0]] + s[1..];
        }
      }
    }
  }

  /** A header without spaces is a single field. */
  lemma {:induction false} SplitNoSpace(s: string)
    requires ' ' !in s
    ensures Split(s) == [s]
    decreases |s|
  {
    if |s| > 0 {
      SplitNoSpace(s[1..]);
      assert [s[0]] + s[1..] == s;
    }
  }

  /** Two space-free fields joined by one space split back into the two. */
  lemma {:induction false} SplitTwoFields(a: string, b: string)
    requires ' ' !in a && ' ' !in b
    ensures Split(a + " " + b) == [a, b]
    decreases |a|
  {
    var s := a + " " + b;
    if |a| == 0 {
      assert s[1..] == b;
      SplitNoSpace(b);
    } else {
      assert s[1..] == a[1..] + " " + b;
      SplitTwoFields(a[1..], b);
      assert [a[0]] + a[1..] == a;
    }
  }

  /** The lookup filter of the source: the client token matches and the
      session has not expired. */
  predicate MatchesAsWritten(s: Session, clientToken: string, now: int) {
    s.clientToken == clientToken && s.expiresAt > now
  }

  /** The corrected lookup filter: also not soft-deleted. */
  predicate MatchesLive(s: Session, clientToken: string, now: int) {
    MatchesAsWritten(s, clientToken, now) && s.deletedAt.None?
  }

  /** The touch: `updated_at` and `expires_at` set absolutely on every row
      with that id. */
  function Touch(rows: seq<Session>, id: string, now: int, expires: int): seq<Session> {
    Rows.UpdateWhere(rows, (s: Session) => s.id == id, (s: Session) => s.(updatedAt := now, expiresAt := expires))
  }

  /** The web token of a well-formed header: the second field after a first
      field "Bearer"; None for any other header. */
  function BearerToken(header: string): (w: Option<string>)
    ensures w.Some? <==> |Split(header)| >= 2 && Split(header)[0] == "Bearer"
    ensures w.Some? ==> w.value == Split(header)[1] && ' ' !in w.value
  {
    var parts := Split(header);
    if |parts| >= 2 && parts[0] == "Bearer" then Some(parts[1]) else None
  }

  /** Parse, decrypt and read claims, each keyed by the client token; None if
      any step fails. */
  function OpenClaims(jose: Jose, webToken: string, key: string): Option<Claims> {
    match jose.parseSignedAndEncrypted(webToken)
    case None => None
    case Some(tok) =>
      match jose.decrypt(tok, key)
      case None => None
      case Some(nested) => jose.claims(nested, key)
  }

  /** The audience check: the claims name the session's binding tag. */
  predicate AudienceAccepts(mac: Mac, s: Session, c: Claims) {
    SymmetricEncryptBase64Encode(mac, s.clientToken, s.serverToken) in c.audience
  }

  /** The verification that follows the touch, for the session the lookup
      read. */
  function VerifyWebToken(jose: Jose, mac: Mac, s: Session, webToken: string): Verdict {
    match OpenClaims(jose, webToken, s.clientToken)
    case None => Unauthorized
    case Some(c) => if AudienceAccepts(mac, s, c) then Next(s.userId) else Unauthorized
  }

  /** The gate as the source writes it. It panics exactly when a session is
      found and the header has no second field; a 401 written for a scheme
      other than "Bearer" does not stop it; `next` receives the user of a
      found, unexpired session; the table is either unchanged or that session
      is touched. */
  function GateAsWritten(rows: seq<Session>, clientToken: string, authorization: string, now: int,
                         monthLater: int -> int, jose: Jose, mac: Mac): (r: GateResult)
    ensures r.verdict == Crash <==>
      (exists j :: 0 <= j < |rows| && MatchesAsWritten(rows[j], clientToken, now)) && |Split(authorization)| < 2
    ensures r.stray401 ==> Split(authorization)[0] != "Bearer"
    ensures r.verdict.Next? ==>
      exists j :: 0 <= j < |rows| && MatchesAsWritten(rows[j], clientToken, now) && rows[j].userId == r.verdict.userId
    ensures r.sessions == rows ||
      exists j :: (0 <= j < |rows| && MatchesAsWritten(rows[j], clientToken, now) &&
        r.sessions == Touch(rows, rows[j].id, now, monthLater(now)))
  {
    match Rows.FindFirst(rows, (s: Session) => MatchesAsWritten(s, clientToken, now))
    case None => GateResult(Unauthorized, rows, false)
    case Some(i) =>
      var s := rows[i];
      var parts := Split(authorization);
      var stray := parts[0] != "Bearer";
      if |parts| < 2 then GateResult(Crash, rows, stray)
      else GateResult(VerifyWebToken(jose, mac, s, parts[1]), Touch(rows, s.id, now, monthLater(now)), stray)
  }

  /** The gate with the defects corrected. It never panics and writes no
      stray 401; `next` receives the user of a found, unexpired, undeleted
      session; the table is either unchanged or that session is touched. */
  function Gate(rows: seq<Session>, clientToken: string, authorization: string, now: int,
                monthLater: int -> int, jose: Jose, mac: Mac): (r: GateResult)
    ensures r.verdict != Crash && !r.stray401
    ensures r.verdict.Next? ==>
      exists j :: 0 <= j < |rows| && MatchesLive(rows[j], clientToken, now) && rows[j].userId == r.verdict.userId
    ensures r.sessions == rows ||
      exists j :: (0 <= j < |rows| && MatchesLive(rows[j], clientToken, now) &&
        r.sessions == Touch(rows, rows[j].id, now, monthLater(now)))
  {
    match Rows.FindFirst(rows, (s: Session) => MatchesLive(s, clientToken, now))
    case None => GateResult(Unauthorized, rows, false)
    case Some(i) =>
      var s := rows[i];
      match BearerToken(authorization)
      case None => GateResult(Unauthorized, rows, false)
      case Some(w) => GateResult(VerifyWebToken(jose, mac, s, w), Touch(rows, s.id, now, monthLater(now)), false)
  }

  /** The request handler: runs the corrected gate on the database. */
  method Authenticate(db: Database, clientToken: string, authorization: string, now: int,
                      monthLater: int -> int, jose: Jose, mac: Mac) returns (verdict: Verdict)
    modifies db
    ensures var r := Gate(old(db.sessions), clientToken, authorization, now, monthLater, jose, mac);
      verdict == r.verdict && db.sessions == r.sessions
    ensures db.users == old(db.users)
  {
    var found := Rows.FindFirst(db.sessions, (s: Session) => MatchesLive(s, clientToken, now));
    if found.None? {
      return Unauthorized;
    }
    var session := db.sessions[found.value];
    var webToken := BearerToken(authorization);
    if webToken.None? {
      return Unauthorized;
    }
    db.sessions := Touch(db.sessions, session.id, now, monthLater(now));
    verdict := VerifyWebToken(jose, mac, session, webToken.value);
  }

  // ---- Properties of the touch ----

  /** The touch sets both columns of the rows with that id and leaves every
      other row, and every other column, as it was. */
  lemma TouchEffect(rows: seq<Session>, id: string, now: int, expires: int)
    ensures |Touch(rows, id, now, expires)| == |rows|
    ensures forall j :: 0 <= j < |rows| && rows[j].id == id ==>
      Touch(rows, id, now, expires)[j] == rows[j].(updatedAt := now, expiresAt := expires)
    ensures forall j :: 0 <= j < |rows| && rows[j].id != id ==> Touch(rows, id, now, expires)[j] == rows[j]
  {
  }

  /** Touching twice at the same instant gives the same table as touching
      once: the expiry is set, not extended. */
  lemma TouchIdempotent(rows: seq<Session>, id: string, now: int, expires: int)
    ensures Touch(Touch(rows, id, now, expires), id, now, expires) == Touch(rows, id, now, expires)
  {
    var once := Touch(rows, id, now, expires);
    var twice := Touch(once, id, now, expires);
    assert |twice| == |once|;
    forall j | 0 <= j < |once| ensures twice[j] == once[j] {}
  }

  // ---- Properties of the corrected gate ----

  /** Without a live, unexpired session for the client token the request is
      refused and no row changes. */
  lemma GateWithoutSession(rows: seq<Session>, clientToken: string, authorization: string, now: int,
                           monthLater: int -> int, jose: Jose, mac: Mac)
    requires forall j :: 0 <= j < |rows| ==> !MatchesLive(rows[j], clientToken, now)
    ensures Gate(rows, clientToken, authorization, now, monthLater, jose, mac) == GateResult(Unauthorized, rows, false)
  {
  }

  /** A header that is not "Bearer <token>" is refused before anything
      changes. */
  lemma GateMalformedHeader(rows: seq<Session>, clientToken: string, authorization: string, now: int,
                            monthLater: int -> int, jose: Jose, mac: Mac)
    requires BearerToken(authorization).None?
    ensures Gate(rows, clientToken, authorization, now, monthLater, jose, mac) == GateResult(Unauthorized, rows, false)
  {
  }

  /** The touch comes before verification: once a session is found and the
      header is well formed, the found session is refreshed whether the web
      token verifies or not. */
  lemma GateTouchesBeforeVerifying(rows: seq<Session>, clientToken: string, authorization: string, now: int,
                                   monthLater: int -> int, jose: Jose, mac: Mac)
    requires exists j :: 0 <= j < |rows| && MatchesLive(rows[j], clientToken, now)
    requires BearerToken(authorization).Some?
    ensures exists j :: (0 <= j < |rows| && MatchesLive(rows[j], clientToken, now) &&
      Gate(rows, clientToken, authorization, now, monthLater, jose, mac).sessions == Touch(rows, rows[j].id, now, monthLater(now)))
  {
    var found := Rows.FindFirst(rows, (s: Session) => MatchesLive(s, clientToken, now));
    assert found.Some?;
  }

  /** What acceptance requires: a live, unexpired session for the client
      token, a Bearer header whose token opens with that session's client
      token into claims naming the session's binding tag; the handler then
      receives that session's user, and the session has been touched. */
  lemma GateAcceptance(rows: seq<Session>, clientToken: string, authorization: string, now: int,
                       monthLater: int -> int, jose: Jose, mac: Mac, userId: string)
    requires Gate(rows, clientToken, authorization, now, monthLater, jose, mac).verdict == Next(userId)
    ensures BearerToken(authorization).Some?
    ensures exists j :: (0 <= j < |rows| && MatchesLive(rows[j], clientToken, now) && rows[j].userId == userId &&
      OpenClaims(jose, BearerToken(authorization).value, rows[j].clientToken).Some? &&
      AudienceAccepts(mac, rows[j], OpenClaims(jose, BearerToken(authorization).value, rows[j].clientToken).value) &&
      Gate(rows, clientToken, authorization, now, monthLater, jose, mac).sessions == Touch(rows, rows[j].id, now, monthLater(now)))
  {
    var found := Rows.FindFirst(rows, (s: Session) => MatchesLive(s, clientToken, now));
    assert found.Some?;
  }

  /** Conversely, for the only live session of a client token, a Bearer token
      that opens into claims naming its binding tag is accepted, for its
      user. */
  lemma GateAcceptsValidToken(rows: seq<Session>, clientToken: string, authorization: string, now: int,
                              monthLater: int -> int, jose: Jose, mac: Mac, i: nat, c: Claims)
    requires i < |rows| && MatchesLive(rows[i], clientToken, now)
    requires forall j :: 0 <= j < |rows| && MatchesLive(rows[j], clientToken, now) ==> j == i
    requires BearerToken(authorization).Some?
    requires OpenClaims(jose, BearerToken(authorization).value, rows[i].clientToken) == Some(c)
    requires AudienceAccepts(mac, rows[i], c)
    ensures Gate(rows, clientToken, authorization, now, monthLater, jose, mac).verdict == Next(rows[i].userId)
  {
    var found := Rows.FindFirst(rows, (s: Session) => MatchesLive(s, clientToken, now));
    assert found == Some(i);
  }

  /** Every failure after the touch refuses: a web token that does not open,
      or whose audience lacks the tag, gives 401 and `next` is not called. */
  lemma VerifyFailuresRefuse(jose: Jose, mac: Mac, s: Session, webToken: string)
    ensures VerifyWebToken(jose, mac, s, webToken).Next? <==>
      OpenClaims(jose, webToken, s.clientToken).Some? &&
      AudienceAccepts(mac, s, OpenClaims(jose, webToken, s.clientToken).value)
    ensures VerifyWebToken(jose, mac, s, webToken) != Crash
  {
  }

  // ---- Properties of the gate as written ----

  /** Without an unexpired session for the client token the gate as written
      refuses, writes nothing else and changes no row. */
  lemma GateAsWrittenWithoutSession(rows: seq<Session>, clientToken: string, authorization: string, now: int,
                                    monthLater: int -> int, jose: Jose, mac: Mac)
    requires forall j :: 0 <= j < |rows| ==> !MatchesAsWritten(rows[j], clientToken, now)
    ensures GateAsWritten(rows, clientToken, authorization, now, monthLater, jose, mac) == GateResult(Unauthorized, rows, false)
  {
  }

  /** What acceptance by the gate as written requires: an unexpired session
      for the client token (deleted or not) and a header with a second field
      that opens with that session's client token into claims naming its
      binding tag, whatever the first field is; `next` then receives that
      session's user, and the session has been touched. */
  lemma GateAsWrittenAcceptance(rows: seq<Session>, clientToken: string, authorization: string, now: int,
                                monthLater: int -> int, jose: Jose, mac: Mac, userId: string)
    requires GateAsWritten(rows, clientToken, authorization, now, monthLater, jose, mac).verdict == Next(userId)
    ensures |Split(authorization)| >= 2
    ensures exists j :: (0 <= j < |rows| && MatchesAsWritten(rows[j], clientToken, now) && rows[j].userId == userId &&
      OpenClaims(jose, Split(authorization)[1], rows[j].clientToken).Some? &&
      AudienceAccepts(mac, rows[j], OpenClaims(jose, Split(authorization)[1], rows[j].clientToken).value) &&
      GateAsWritten(rows, clientToken, authorization, now, monthLater, jose, mac).sessions ==
        Touch(rows, rows[j].id, now, monthLater(now)))
  {
    var found := Rows.FindFirst(rows, (s: Session) => MatchesAsWritten(s, clientToken, now));
    assert found.Some?;
  }

  /** As written, once a session is found, the 401 for a scheme other than
      "Bearer" is written exactly when the first field is not "Bearer". */
  lemma GateAsWrittenStray401(rows: seq<Session>, clientToken: string, authorization: string, now: int,
                              monthLater: int -> int, jose: Jose, mac: Mac)
    requires exists j :: 0 <= j < |rows| && MatchesAsWritten(rows[j], clientToken, now)
    ensures GateAsWritten(rows, clientToken, authorization, now, monthLater, jose, mac).stray401 <==>
      Split(authorization)[0] != "Bearer"
  {
    var found := Rows.FindFirst(rows, (s: Session) => MatchesAsWritten(s, clientToken, now));
    assert found.Some?;
  }

  /** As written, the touch also comes before verification: once a session is
      found and the header has a second field, whatever the first field is,
      the found session is refreshed whether the web token verifies or not. */
  lemma GateAsWrittenTouchesBeforeVerifying(rows: seq<Session>, clientToken: string, authorization: string, now: int,
                                            monthLater: int -> int, jose: Jose, mac: Mac)
    requires exists j :: 0 <= j < |rows| && MatchesAsWritten(rows[j], clientToken, now)
    requires |Split(authorization)| >= 2
    ensures exists j :: (0 <= j < |rows| && MatchesAsWritten(rows[j], clientToken, now) &&
      GateAsWritten(rows, clientToken, authorization, now, monthLater, jose, mac).sessions ==
        Touch(rows, rows[j].id, now, monthLater(now)))
  {
    var found := Rows.FindFirst(rows, (s: Session) => MatchesAsWritten(s, clientToken, now));
    assert found.Some?;
  }

  // ---- The code as written: inputs that show its three defects ----

  /** A session row and a JOSE library under which every web token opens
      into claims naming that row's binding tag. */
  function SampleSession(deletedAt: Option<int>): Session {
    Session("1", "u", "st", "ct", 100, 0, 0, deletedAt)
  }

  function PermissiveJose(mac: Mac): Jose {
    Jose((c: Claims, k: string) => None,
         (w: string) => Some(w),
         (t: string, k: string) => Some(t),
         (n: string, k: string) => Some(Claims([SymmetricEncryptBase64Encode(mac, k, "st")], 0)))
  }

  /** After a header whose first field is not "Bearer" the code writes 401 but
      does not return: the session is touched and `next` still runs. */
  lemma AsWrittenIgnoresScheme(mac: Mac)
    ensures GateAsWritten([SampleSession(None)], "ct", "x t", 0, (t: int) => t + 1, PermissiveJose(mac), mac)
      == GateResult(Next("u"), [SampleSession(None).(updatedAt := 0, expiresAt := 1)], true)
    ensures Gate([SampleSession(None)], "ct", "x t", 0, (t: int) => t + 1, PermissiveJose(mac), mac).verdict == Unauthorized
  {
    SplitTwoFields("x", "t");
    assert "x" + " " + "t" == "x t";
    assert Rows.FindFirst([SampleSession(None)], (s: Session) => MatchesAsWritten(s, "ct", 0)) == Some(0);
    assert Rows.FindFirst([SampleSession(None)], (s: Session) => MatchesLive(s, "ct", 0)) == Some(0);
  }

  /** A header without a space splits into one field, and `parts[1]` is out of
      range: the handler panics. The corrected gate answers 401. */
  lemma AsWrittenPanicsOnShortHeader(mac: Mac)
    ensures GateAsWritten([SampleSession(None)], "ct", "", 0, (t: int) => t + 1, PermissiveJose(mac), mac).verdict == Crash
    ensures Gate([SampleSession(None)], "ct", "", 0, (t: int) => t + 1, PermissiveJose(mac), mac).verdict == Unauthorized
  {
    assert Split("") == [""];
    assert Rows.FindFirst([SampleSession(None)], (s: Session) => MatchesAsWritten(s, "ct", 0)) == Some(0);
  }

  /** The lookup ignores `deleted_at`: a soft-deleted, unexpired session is
      still accepted. The corrected gate refuses it. */
  lemma AsWrittenAcceptsDeletedSession(mac: Mac)
    ensures GateAsWritten([SampleSession(Some(0))], "ct", "Bearer t", 0, (t: int) => t + 1, PermissiveJose(mac), mac).verdict
      == Next("u")
    ensures Gate([SampleSession(Some(0))], "ct", "Bearer t", 0, (t: int) => t + 1, PermissiveJose(mac), mac).verdict
      == Unauthorized
  {
    SplitTwoFields("Bearer", "t");
    assert "Bearer" + " " + "t" == "Bearer t";
    assert Rows.FindFirst([SampleSession(Some(0))], (s: Session) => MatchesAsWritten(s, "ct", 0)) == Some(0);
    GateWithoutSession([SampleSession(Some(0))], "ct", "Bearer t", 0, (t: int) => t + 1, PermissiveJose(mac), mac);
  }
}
