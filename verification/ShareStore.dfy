/** The table of shares, statement by statement, and what requests read from it.
    Clock instants are nanoseconds; the table stores whole seconds. */
module ShareStore {
  import opened Int64
  import opened Options

  const SECOND := 1_000_000_000

  /** The whole seconds of an instant, rounded towards the past. */
  function Unix(t: int): int {
    t / SECOND
  }

  datatype Mode = Live | Snapshot

  /** A row as stored: times in seconds. */
  datatype Row = Row(
    id: string, sourcePath: string, isDir: bool, mode: Mode, snapshotRoot: string,
    createdAt: int, expiresAt: int, revokedAt: Option<int>, lastServedAt: Option<int>)

  /** A share as the daemon handles it: times in nanoseconds. */
  datatype Share = Share(
    id: string, sourcePath: string, isDir: bool, mode: Mode, snapshotRoot: string,
    createdAt: int, expiresAt: int, revokedAt: Option<int>, lastServedAt: Option<int>)
  {
    predicate IsActive(now: int) {
      revokedAt.None? && expiresAt > now
    }
  }

  type Table = map<string, Row>

  function Instant(t: Option<int>): Option<int> {
    match t case None => None case Some(s) => Some(s * SECOND)
  }

  function Scan(row: Row): Share {
    Share(row.id, row.sourcePath, row.isDir, row.mode, row.snapshotRoot,
          row.createdAt * SECOND, row.expiresAt * SECOND, Instant(row.revokedAt), Instant(row.lastServedAt))
  }

  function Stored(share: Share): Row {
    Row(share.id, share.sourcePath, share.isDir, share.mode, share.snapshotRoot,
        Unix(share.createdAt), Unix(share.expiresAt), None, None)
  }

  /** WHERE revoked_at IS NULL AND expires_at > now. */
  predicate SelectsActive(row: Row, seconds: int) {
    row.revokedAt.None? && row.expiresAt > seconds
  }

  /** WHERE revoked_at IS NOT NULL OR expires_at <= now. */
  predicate SelectsExpired(row: Row, seconds: int) {
    row.revokedAt.Some? || row.expiresAt <= seconds
  }

  // -------------------------------------------------- statements on the table

  datatype Statement =
    | Insert(share: Share)
    | Revoke(id: string, now: int)
    | RevokeByPath(path: string, now: int)
    | Renew(id: string, expiresAt: int)
    | Touch(id: string, at: int)

  /** The rows a statement changes or adds. */
  function Affected(table: Table, stmt: Statement): set<string> {
    match stmt
    case Insert(share) => if share.id in table then {} else {share.id}
    case Revoke(id, _) => if id in table && table[id].revokedAt.None? then {id} else {}
    case RevokeByPath(path, _) =>
      set id | id in table && table[id].sourcePath == path && table[id].revokedAt.None?
    case Renew(id, _) => if id in table && table[id].revokedAt.None? then {id} else {}
    case Touch(id, _) => if id in table then {id} else {}
  }

  function Updated(row: Row, stmt: Statement): Row {
    match stmt
    case Insert(share) => row
    case Revoke(_, now) => row.(revokedAt := Some(Unix(now)))
    case RevokeByPath(_, now) => row.(revokedAt := Some(Unix(now)))
    case Renew(_, expiresAt) => row.(expiresAt := Unix(expiresAt))
    case Touch(_, at) => row.(lastServedAt := Some(Unix(at)))
  }

  function Exec(table: Table, stmt: Statement): Table {
    if stmt.Insert? then
      if stmt.share.id in table then table else table[stmt.share.id := Stored(stmt.share)]
    else
      map id | id in table :: if id in Affected(table, stmt) then Updated(table[id], stmt) else table[id]
  }

  function Run(table: Table, stmts: seq<Statement>): Table
    decreases |stmts|
  {
    if stmts == [] then table else Run(Exec(table, stmts[0]), stmts[1..])
  }

  ghost predicate WellKeyed(table: Table) {
    forall id :: id in table ==> table[id].id == id
  }

  // ----------------------------------------------------------------- the store

  ghost function ListedIds(shares: seq<Share>): set<string> {
    set share | share in shares :: share.id
  }

  ghost predicate NewestFirst(shares: seq<Share>) {
    forall i, j :: 0 <= i < j < |shares| ==> shares[i].createdAt >= shares[j].createdAt
  }

  /** The rows with these ids, each once. */
  ghost predicate Lists(table: Table, ids: set<string>, shares: seq<Share>) {
    && ListedIds(shares) == ids
    && |shares| == |ids|
    && forall share :: share in shares ==> share.id in table && share == Scan(table[share.id])
  }

  ghost function ActiveIds(table: Table, now: int): set<string> {
    set id | id in table && Scan(table[id]).IsActive(now)
  }

  lemma {:induction false} NewestExists(table: Table, ids: set<string>) returns (newest: string)
    requires ids != {} && ids <= table.Keys
    ensures newest in ids && forall id :: id in ids ==> table[id].createdAt <= table[newest].createdAt
    decreases |ids|
  {
    newest :| newest in ids;
    if ids != {newest} {
      var other := NewestExists(table, ids - {newest});
      assert forall id :: id in ids ==> id == newest || id in ids - {newest};
      if table[newest].createdAt < table[other].createdAt {
        newest := other;
      }
    }
  }

  lemma ListsNone(table: Table)
    ensures Lists(table, {}, [])
  {
  }

  lemma ListsOneMore(table: Table, ids: set<string>, shares: seq<Share>, id: string)
    requires WellKeyed(table) && Lists(table, ids, shares) && id in table && id !in ids
    ensures Lists(table, ids + {id}, shares + [Scan(table[id])])
  {
    var more := shares + [Scan(table[id])];
    assert forall share :: share in more <==> share in shares || share == Scan(table[id]);
    assert ListedIds(more) == ids + {id} by {
      forall x | x in ids + {id} ensures x in ListedIds(more) {
        if x != id {
          assert x in ListedIds(shares);
        } else {
          assert Scan(table[id]) in more;
        }
      }
    }
  }

  ghost predicate NoneNewer(table: Table, pending: set<string>, shares: seq<Share>)
    requires pending <= table.Keys
  {
    shares != [] ==> forall id :: id in pending ==> Scan(table[id]).createdAt <= shares[|shares| - 1].createdAt
  }

  lemma OrderedOneMore(table: Table, pending: set<string>, shares: seq<Share>, id: string)
    requires pending <= table.Keys && id in pending && NoneNewer(table, pending, shares) && NewestFirst(shares)
    requires forall other :: other in pending ==> table[other].createdAt <= table[id].createdAt
    ensures NewestFirst(shares + [Scan(table[id])])
    ensures NoneNewer(table, pending - {id}, shares + [Scan(table[id])])
  {
  }

  class Store {
    var rows: Table

    ghost predicate Valid()
      reads this
    {
      WellKeyed(rows)
    }

    constructor ()
      ensures Valid() && rows == map[]
    {
      rows := map[];
    }

    method CreateShare(share: Share) returns (ok: bool)
      requires Valid()
      modifies this
      ensures Valid() && rows == Exec(old(rows), Insert(share))
      ensures ok <==> share.id !in old(rows)
      ensures rows == if ok then old(rows)[share.id := Stored(share)] else old(rows)
    {
      if share.id in rows {
        return false;
      }
      rows := rows[share.id := Stored(share)];
      return true;
    }

    method GetShare(id: string) returns (share: Option<Share>)
      requires Valid()
      ensures share == if id in rows then Some(Scan(rows[id])) else None
    {
      share := if id in rows then Some(Scan(rows[id])) else None;
    }

    method Newest(ids: set<string>) returns (id: string)
      requires ids != {} && ids <= rows.Keys
      ensures id in ids && forall other :: other in ids ==> rows[other].createdAt <= rows[id].createdAt
    {
      ghost var newest := NewestExists(rows, ids);
      id :| id in ids && forall other :: other in ids ==> rows[other].createdAt <= rows[id].createdAt;
    }

    /** SELECT with its WHERE clause already applied, ordered by created_at descending. */
    method Select(ids: set<string>) returns (shares: seq<Share>)
      requires Valid() && ids <= rows.Keys
      ensures Lists(rows, ids, shares) && NewestFirst(shares)
    {
      shares := [];
      var pending := ids;
      ghost var done: set<string> := {};
      ListsNone(rows);
      while pending != {}
        invariant pending <= ids && done == ids - pending
        invariant Lists(rows, done, shares)
        invariant NewestFirst(shares) && NoneNewer(rows, pending, shares)
        decreases pending
      {
        var id := Newest(pending);
        ListsOneMore(rows, done, shares, id);
        OrderedOneMore(rows, pending, shares, id);
        shares, done, pending := shares + [Scan(rows[id])], done + {id}, pending - {id};
      }
    }

    method ListShares(activeOnly: bool, now: int) returns (shares: seq<Share>)
      requires Valid()
      ensures Lists(rows, if activeOnly then ActiveIds(rows, now) else rows.Keys, shares)
      ensures NewestFirst(shares)
    {
      if !activeOnly {
        shares := Select(rows.Keys);
        return;
      }
      var ids := set id | id in rows && SelectsActive(rows[id], Unix(now));
      forall id | id in rows ensures SelectsActive(rows[id], Unix(now)) <==> Scan(rows[id]).IsActive(now) {
        SelectionAgreesWithIsActive(rows[id], now);
      }
      assert ids == ActiveIds(rows, now);
      shares := Select(ids);
    }

    method ExpiredShares(now: int) returns (shares: seq<Share>)
      requires Valid()
      ensures Lists(rows, rows.Keys - ActiveIds(rows, now), shares)
    {
      var ids := set id | id in rows && SelectsExpired(rows[id], Unix(now));
      forall id | id in rows ensures SelectsExpired(rows[id], Unix(now)) <==> !Scan(rows[id]).IsActive(now) {
        SelectionAgreesWithIsActive(rows[id], now);
      }
      assert ids == rows.Keys - ActiveIds(rows, now);
      shares := Select(ids);
    }

    method RevokeShare(id: string, now: int) returns (found: bool)
      requires Valid()
      modifies this
      ensures Valid() && rows == Exec(old(rows), Revoke(id, now))
      ensures found <==> id in old(rows) && old(rows)[id].revokedAt.None?
      ensures rows == if found then old(rows)[id := old(rows)[id].(revokedAt := Some(now / SECOND))] else old(rows)
    {
      found := id in rows && rows[id].revokedAt.None?;
      if found {
        rows := rows[id := rows[id].(revokedAt := Some(Unix(now)))];
      }
    }

    method RevokeSharesByPath(path: string, now: int) returns (count: nat)
      requires Valid()
      modifies this
      ensures Valid() && rows == Exec(old(rows), RevokeByPath(path, now))
      ensures rows.Keys == old(rows).Keys
      ensures count == |Affected(old(rows), RevokeByPath(path, now))|
      ensures forall id :: id in rows && old(rows)[id].sourcePath == path && old(rows)[id].revokedAt.None? ==>
        rows[id] == old(rows)[id].(revokedAt := Some(now / SECOND))
      ensures forall id :: id in rows && (old(rows)[id].sourcePath != path || old(rows)[id].revokedAt.Some?) ==>
        rows[id] == old(rows)[id]
      ensures count == |set id | id in old(rows) && rows[id] != old(rows)[id]|
    {
      var matching := set id | id in rows && rows[id].sourcePath == path && rows[id].revokedAt.None?;
      count := |matching|;
      rows := map id | id in rows :: if id in matching then rows[id].(revokedAt := Some(Unix(now))) else rows[id];
      assert matching == set id | id in old(rows) && rows[id] != old(rows)[id];
    }

    method RenewShare(id: string, expiresAt: int) returns (found: bool)
      requires Valid()
      modifies this
      ensures Valid() && rows == Exec(old(rows), Renew(id, expiresAt))
      ensures found <==> id in old(rows) && old(rows)[id].revokedAt.None?
      ensures rows == if found then old(rows)[id := old(rows)[id].(expiresAt := expiresAt / SECOND)] else old(rows)
    {
      found := id in rows && rows[id].revokedAt.None?;
      if found {
        rows := rows[id := rows[id].(expiresAt := Unix(expiresAt))];
      }
    }

    method TouchLastServed(id: string, at: int)
      requires Valid()
      modifies this
      ensures Valid() && rows == Exec(old(rows), Touch(id, at))
      ensures rows == if id in old(rows)
        then old(rows)[id := old(rows)[id].(lastServedAt := Some(at / SECOND))] else old(rows)
    {
      if id in rows {
        rows := rows[id := rows[id].(lastServedAt := Some(Unix(at)))];
      }
    }
  }

  // --------------------------------------------------------------- agreement

  /** A share reads back as it was created, but for parts of a second: its times are
      rounded towards the past, so it never lasts longer than was asked, and it is neither
      revoked nor served. Storing what was read changes nothing more. */
  lemma CreatedShareReadsBack(table: Table, share: Share, other: string)
    requires share.id !in table
    ensures var table' := Exec(table, Insert(share));
      var read := Scan(table'[share.id]);
      && read == share.(
           createdAt := read.createdAt, expiresAt := read.expiresAt, revokedAt := None, lastServedAt := None)
      && share.createdAt - SECOND < read.createdAt <= share.createdAt
      && share.expiresAt - SECOND < read.expiresAt <= share.expiresAt
      && Stored(read) == table'[share.id]
      && (other != share.id ==> (other in table' <==> other in table))
      && (other in table ==> table'[other] == table[other])
  {
    assert share.createdAt == Unix(share.createdAt) * SECOND + share.createdAt % SECOND;
    assert share.expiresAt == Unix(share.expiresAt) * SECOND + share.expiresAt % SECOND;
    WholeSeconds(Unix(share.createdAt));
    WholeSeconds(Unix(share.expiresAt));
  }

  lemma WholeSeconds(seconds: int)
    ensures Unix(seconds * SECOND) == seconds
  {
  }

  /** Comparing whole seconds in SQL and nanoseconds in IsActive gives one answer, and
      the two queries are each other's complement. */
  lemma SelectionAgreesWithIsActive(row: Row, now: int)
    ensures SelectsActive(row, Unix(now)) <==> Scan(row).IsActive(now)
    ensures SelectsExpired(row, Unix(now)) <==> !Scan(row).IsActive(now)
  {
    assert now == Unix(now) * SECOND + now % SECOND;
  }

  /** Listing active shares and listing expired ones at one instant split the table. */
  lemma ListingsPartition(table: Table, now: int, active: seq<Share>, expired: seq<Share>)
    requires Lists(table, ActiveIds(table, now), active)
    requires Lists(table, table.Keys - ActiveIds(table, now), expired)
    ensures ListedIds(active) !! ListedIds(expired)
    ensures ListedIds(active) + ListedIds(expired) == table.Keys
    ensures forall share :: share in active ==> share.IsActive(now)
    ensures forall share :: share in expired ==> !share.IsActive(now)
  {
    forall share | share in active ensures share.IsActive(now) {
      assert share.id in ListedIds(active);
    }
    forall share | share in expired ensures !share.IsActive(now) {
      assert share.id in ListedIds(expired);
    }
  }

  // ------------------------------------------------------- history of a table

  /** Nothing is removed, what identifies a row stays, and a revoked row keeps its
      revocation and its expiry. */
  ghost predicate Evolves(table: Table, table': Table) {
    forall id :: id in table ==>
      && id in table'
      && table'[id].(expiresAt := 0, revokedAt := None, lastServedAt := None) ==
         table[id].(expiresAt := 0, revokedAt := None, lastServedAt := None)
      && (table[id].revokedAt.Some? ==>
          table'[id].revokedAt == table[id].revokedAt && table'[id].expiresAt == table[id].expiresAt)
  }

  lemma {:induction false} RowsPersist(table: Table, stmts: seq<Statement>)
    ensures Evolves(table, Run(table, stmts))
    decreases |stmts|
  {
    if stmts != [] {
      assert Evolves(table, Exec(table, stmts[0]));
      RowsPersist(Exec(table, stmts[0]), stmts[1..]);
    }
  }

  /** A run executes its statements one after the other, each on what the others left. */
  lemma {:induction false} RunInOrder(table: Table, stmts: seq<Statement>, stmt: Statement)
    ensures Run(table, []) == table
    ensures Run(table, stmts + [stmt]) == Exec(Run(table, stmts), stmt)
    decreases |stmts|
  {
    if stmts == [] {
      assert [] + [stmt] == [stmt] && [stmt][1..] == [];
    } else {
      assert (stmts + [stmt])[1..] == stmts[1..] + [stmt];
      RunInOrder(Exec(table, stmts[0]), stmts[1..], stmt);
    }
  }

  datatype Authorization = NotFound | Gone | Unauthorized | Authorized(share: Share)

  /** Authorising a public request. The token of a share is `tokenOf` its id. */
  function Authorize(table: Table, id: string, token: string, now: int, tokenOf: string -> string): Authorization {
    if id !in table then NotFound
    else
      var share := Scan(table[id]);
      if !share.IsActive(now) then Gone
      else if token == "" || token != tokenOf(share.id) then Unauthorized
      else Authorized(share)
  }

  /** A row that lets requests in at this instant: unrevoked, its last second not begun. */
  predicate IsOpen(row: Row, now: int) {
    row.revokedAt.None? && now < row.expiresAt * SECOND
  }

  /** A request is authorised exactly when its share is stored, not revoked and not
      expired, and it brings that share's own token, which is not empty. Without the
      share the answer is NotFound whatever the token, and for one that is over, Gone. */
  lemma AuthorizedExactlyWhen(table: Table, id: string, token: string, now: int, tokenOf: string -> string)
    requires WellKeyed(table)
    ensures var answer := Authorize(table, id, token, now, tokenOf);
      && (answer.Authorized? <==> id in table && IsOpen(table[id], now) && token != "" && token == tokenOf(id))
      && (answer == NotFound <==> id !in table)
      && (answer == Gone <==> id in table && (table[id].revokedAt.Some? || table[id].expiresAt * SECOND <= now))
      && (answer == Unauthorized <==> id in table && IsOpen(table[id], now) && (token == "" || token != tokenOf(id)))
      && (answer.Authorized? ==> answer.share == Scan(table[id]) && answer.share.id == id)
  {
  }

  /** Once a share is revoked, no request for it is authorised again: not after any
      renewals, touches, creations or revocations, at any time, with any token. */
  lemma RevokedForever(
    table: Table, stmts: seq<Statement>, id: string, token: string, now: int, tokenOf: string -> string)
    requires id in table && table[id].revokedAt.Some?
    ensures Authorize(Run(table, stmts), id, token, now, tokenOf) == Gone
    ensures id in Run(table, stmts) && !IsOpen(Run(table, stmts)[id], now)
  {
    RowsPersist(table, stmts);
  }

  // ---------------------------------------------------------------- lifetimes

  const DEFAULT_TTL_SECONDS := 7 * 24 * 3600

  /** int64(ttl / time.Second): what the client sends. Lifetimes are positive. */
  function SentSeconds(ttl: int): int
    requires ttl > 0
  {
    ttl / SECOND
  }

  /** The lifetime a creation grants, in nanoseconds. */
  function GrantedOnCreate(seconds: int): int {
    var expiresIn := Wrap64(seconds * SECOND);
    if expiresIn <= 0 then DEFAULT_TTL_SECONDS * SECOND else expiresIn
  }

  /** The lifetime a renewal grants, in nanoseconds. */
  function GrantedOnRenew(seconds: int): int {
    if seconds <= 0 then DEFAULT_TTL_SECONDS * SECOND else Wrap64(seconds * SECOND)
  }

  /** Lifetime left, right after the row was written at `now`. */
  function StoredLifetime(now: int, granted: int): int {
    Unix(now + granted) * SECOND - now
  }

  /** The client's lifetime survives the trip through whole seconds, up to two seconds
      and never longer than asked, exactly when it is at least one second; and for it
      nothing overflows on the way. */
  lemma LifetimeRoundTrip(ttl: int, now: int)
    requires 0 < ttl <= MAX_INT64
    ensures InInt64(SentSeconds(ttl) * SECOND)
    ensures GrantedOnCreate(SentSeconds(ttl)) == GrantedOnRenew(SentSeconds(ttl))
    ensures ttl - 2 * SECOND < StoredLifetime(now, GrantedOnCreate(SentSeconds(ttl))) <= ttl <==> ttl >= SECOND
  {
    var seconds := SentSeconds(ttl);
    assert ttl == seconds * SECOND + ttl % SECOND;
    WrapIsIdentity(seconds * SECOND);
    var granted := GrantedOnCreate(seconds);
    assert now + granted == Unix(now + granted) * SECOND + (now + granted) % SECOND;
  }
}
