/** The older gate `MakeAuthenticate` of internal/middleware/middleware.go and
    its `Cors` wrapper. A request is let through when some live row of
    `authentications` carries the `X-Auth-Token` header's token and was used
    within the last fifteen minutes; the token's live rows are then stamped
    with now, which slides the window forward. */
module RootMiddleware {
  import opened Wrappers
  import opened RootTables
  import Rows

  /** A 401 "Unauthorized" with `next` not invoked, or `next` invoked with
      `userId` in the request context. */
  datatype Verdict = Unauthorized | Next(userId: string)

  /** `Cors`: hands back the handler it wraps, so every request reaches that
      handler as it came. */
  function Cors<H>(next: H): (h: H)
    ensures h == next
  {
    next
  }

  /** The lookup filter: that token, live, used after fifteen minutes ago. */
  predicate Admits(a: Authentication, token: string, now: int) {
    a.token == token && UsedSince(a, now - FifteenMinutes)
  }

  /** The gate on the `authentications` table: the verdict and the table
      after. */
  function GateStep(rows: seq<Authentication>, token: string, now: int): (Verdict, seq<Authentication>) {
    match Rows.FindFirst(rows, (a: Authentication) => Admits(a, token, now))
    case None => (Unauthorized, rows)
    case Some(i) => (Next(rows[i].userId), TouchToken(rows, token, now))
  }

  method Authenticate(db: Database, token: string, now: int) returns (verdict: Verdict)
    modifies db
    ensures (verdict, db.authentications) == GateStep(old(db.authentications), token, now)
    ensures db.users == old(db.users)
  {
    var found := Rows.FindFirst(db.authentications, (a: Authentication) => Admits(a, token, now));
    if found.None? {
      return Unauthorized;
    }
    var userId := db.authentications[found.value].userId;
    db.authentications := TouchToken(db.authentications, token, now);
    verdict := Next(userId);
  }

  /** The gate lets a request through exactly when a live row with the token
      was used within fifteen minutes, and then hands on the user of such a
      row. */
  lemma GateAdmitsExactly(rows: seq<Authentication>, token: string, now: int)
    ensures GateStep(rows, token, now).0.Next? <==> exists j :: 0 <= j < |rows| && Admits(rows[j], token, now)
    ensures GateStep(rows, token, now).0.Next? ==>
      exists j :: (0 <= j < |rows| && Admits(rows[j], token, now) && rows[j].userId == GateStep(rows, token, now).0.userId)
  {
  }

  /** A refused request changes no row. */
  lemma GateRefusalChangesNothing(rows: seq<Authentication>, token: string, now: int)
    requires GateStep(rows, token, now).0 == Unauthorized
    ensures GateStep(rows, token, now).1 == rows
  {
  }

  /** An admitted request stamps the token's live rows with now and leaves
      every other row, deleted rows included, untouched. */
  lemma GateRefreshes(rows: seq<Authentication>, token: string, now: int)
    requires GateStep(rows, token, now).0.Next?
    ensures |GateStep(rows, token, now).1| == |rows|
    ensures forall j :: 0 <= j < |rows| && rows[j].token == token && Live(rows[j]) ==>
      GateStep(rows, token, now).1[j] == rows[j].(updatedAt := now)
    ensures forall j :: 0 <= j < |rows| && (rows[j].token != token || !Live(rows[j])) ==>
      GateStep(rows, token, now).1[j] == rows[j]
  {
    TouchTokenEffect(rows, token, now);
  }

  /** The sliding window: a token admitted at `now` is admitted again at any
      time less than fifteen minutes later, for the same user when rows that
      share a token belong to one user. */
  lemma GateSlidingWindow(rows: seq<Authentication>, token: string, now: int, later: int)
    requires GateStep(rows, token, now).0.Next?
    requires now <= later < now + FifteenMinutes
    ensures var (v, after) := GateStep(rows, token, now);
      GateStep(after, token, later).0.Next? &&
      (TokensOwned(rows) ==> GateStep(after, token, later).0 == v)
  {
    var (v, after) := GateStep(rows, token, now);
    var i := Rows.FindFirst(rows, (a: Authentication) => Admits(a, token, now)).value;
    TouchTokenEffect(rows, token, now);
    assert Admits(after[i], token, later);
    var k := Rows.FindFirst(after, (a: Authentication) => Admits(a, token, later)).value;
    assert after[k].token == token && after[k].userId == rows[k].userId;
  }
}
