/** The tables of the root variant: `users` (types.go) and `authentications`,
    whose rows hold one opaque token each and stay valid for fifteen minutes
    after their last use. The schema of `authentications` is not part of
    this model; its columns are the ones the queries of request_handlers.go
    and internal/middleware/middleware.go name. Times are integer
    nanoseconds. */
module RootTables {
  import opened Wrappers
  import Rows
  import Base64

  const Minute: int := 60_000_000_000
  const FifteenMinutes: int := 15 * Minute

  /** A row of `users`; the id column is nullable in this variant. */
  datatype User = User(
    id: Option<string>,
    username: string,
    password: seq<Base64.byte>,  // the bcrypt hash
    createdAt: int,
    updatedAt: int,
    deletedAt: Option<int>)

  /** A row of `authentications`. */
  datatype Authentication = Authentication(id: int, userId: string, token: string, updatedAt: int, deletedAt: Option<int>)

  /** The `users` and `authentications` tables behind the `db` handle of
      main.go. */
  class Database {
    var users: seq<User>
    var authentications: seq<Authentication>

    constructor (users: seq<User>, authentications: seq<Authentication>)
      ensures this.users == users && this.authentications == authentications
    {
      this.users := users;
      this.authentications := authentications;
    }
  }

  /** `deleted_at IS NULL`. */
  predicate Live(a: Authentication) {
    a.deletedAt.None?
  }

  /** Live and used after `since`. */
  predicate UsedSince(a: Authentication, since: int) {
    Live(a) && a.updatedAt > since
  }

  /** `UPDATE authentications SET updated_at = now WHERE token = ? AND
      deleted_at IS NULL`. */
  function TouchToken(rows: seq<Authentication>, token: string, now: int): seq<Authentication> {
    Rows.UpdateWhere(rows, (a: Authentication) => a.token == token && Live(a), (a: Authentication) => a.(updatedAt := now))
  }

  /** `UPDATE authentications SET deleted_at = now WHERE user_id = ? AND
      deleted_at IS NULL`, and, when `keep` is given, `AND token != keep`. */
  function SoftDeleteLive(rows: seq<Authentication>, userId: string, keep: Option<string>, now: int): seq<Authentication> {
    Rows.UpdateWhere(rows, (a: Authentication) => a.userId == userId && Live(a) && (keep.None? || a.token != keep.value),
                     (a: Authentication) => a.(deletedAt := Some(now)))
  }

  /** Tokens identify their user: rows that share a token belong to one user. */
  predicate TokensOwned(rows: seq<Authentication>) {
    forall i, j :: 0 <= i < |rows| && 0 <= j < |rows| && rows[i].token == rows[j].token ==> rows[i].userId == rows[j].userId
  }

  /** Touching a token refreshes exactly its live rows; no other row and no
      other column changes, and a live row stays live. */
  lemma TouchTokenEffect(rows: seq<Authentication>, token: string, now: int)
    ensures |TouchToken(rows, token, now)| == |rows|
    ensures forall j :: 0 <= j < |rows| && rows[j].token == token && Live(rows[j]) ==>
      TouchToken(rows, token, now)[j] == rows[j].(updatedAt := now)
    ensures forall j :: 0 <= j < |rows| && (rows[j].token != token || !Live(rows[j])) ==>
      TouchToken(rows, token, now)[j] == rows[j]
  {
  }

  /** The soft delete stamps exactly the matching live rows of the user. */
  lemma SoftDeleteLiveEffect(rows: seq<Authentication>, userId: string, keep: Option<string>, now: int)
    ensures |SoftDeleteLive(rows, userId, keep, now)| == |rows|
    ensures forall j :: 0 <= j < |rows| && rows[j].userId == userId && Live(rows[j]) && (keep.None? || rows[j].token != keep.value) ==>
      SoftDeleteLive(rows, userId, keep, now)[j] == rows[j].(deletedAt := Some(now))
    ensures forall j :: 0 <= j < |rows| && !(rows[j].userId == userId && Live(rows[j]) && (keep.None? || rows[j].token != keep.value)) ==>
      SoftDeleteLive(rows, userId, keep, now)[j] == rows[j]
  {
  }
}
