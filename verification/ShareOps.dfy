/** The client's publish and unshare, applied and as previews, as programs over the
    daemon. One operation runs within one instant and nothing interleaves with it. */
module ShareOps {
  import opened Int64
  import opened Options
  import opened Text
  import opened AbsolutePaths
  import opened AdminRequests
  import opened ShareStore
  import opened SnapshotCopy
  import opened DaemonHandlers

  // --------------------------------------------------------------- listings

  lemma {:induction false} ListedIdsBound(shares: seq<Share>)
    ensures |ListedIds(shares)| <= |shares|
  {
    if shares != [] {
      var last := |shares| - 1;
      ListedIdsBound(shares[..last]);
      assert ListedIds(shares) == ListedIds(shares[..last]) + {shares[last].id} by {
        assert forall share :: share in shares <==> share in shares[..last] || share == shares[last];
        forall id | id in ListedIds(shares[..last]) + {shares[last].id} ensures id in ListedIds(shares) {
          if id == shares[last].id {
            assert shares[last] in shares;
          }
        }
      }
    }
  }

  lemma RepeatedIdShrinks(shares: seq<Share>, i: nat, j: nat)
    requires i < j < |shares| && shares[i].id == shares[j].id
    ensures |ListedIds(shares)| < |shares|
  {
    var fewer := shares[..j] + shares[j + 1..];
    ListedIdsBound(fewer);
    forall share | share in shares ensures share.id in ListedIds(fewer) {
      var k :| 0 <= k < |shares| && shares[k] == share;
      var kept := if k == j then shares[i] else share;
      assert kept == fewer[if k == j then i else if k < j then k else k - 1];
      assert kept in fewer;
    }
    assert forall share :: share in fewer ==> share in shares;
    assert ListedIds(shares) == ListedIds(fewer);
  }

  /** A listing names each share once. */
  lemma ListedOnce(table: Table, ids: set<string>, shares: seq<Share>, i: nat, j: nat)
    requires Lists(table, ids, shares) && i < j < |shares|
    ensures shares[i].id != shares[j].id
  {
    if shares[i].id == shares[j].id {
      RepeatedIdShrinks(shares, i, j);
    }
  }

  // ---------------------------------------------------------------- unshare

  datatype Unshared = Unshared(id: string, ok: bool, path: string, preview: bool, revoked: nat, shareIds: seq<string>)

  ghost function ActiveAt(table: Table, path: string, now: int): set<string> {
    set id | id in ActiveIds(table, now) && table[id].sourcePath == path
  }

  /** What a request that is not about a share is answered, at whatever address it ends. */
  datatype Reply = Succeeded | SaysNotFound | OtherError

  /** What unshare asks first: about a share, or something else with its answer; or it
      goes by the path alone. */
  datatype Lookup = ById(id: string) | Elsewhere(reply: Reply) | ByPathOnly

  function LookupFor(target: string, reply: Reply): Lookup {
    if '/' in target then ByPathOnly
    else
      match AskedFor(target)
      case AsksId(id) => if id == "" then Elsewhere(OtherError) else ById(id)
      case AsksElsewhere => Elsewhere(reply)
      case Malformed => Elsewhere(OtherError)
  }

  /** The first question settles the matter. */
  predicate Settled(table: Table, first: Lookup) {
    match first
    case ById(id) => id in table && table[id].revokedAt.None?
    case Elsewhere(reply) => reply != SaysNotFound
    case ByPathOnly => false
  }

  /** The shares an unshare is about. */
  ghost function UnshareIds(table: Table, first: Lookup, abs: string, now: int): set<string> {
    if !Settled(table, first) then ActiveAt(table, abs, now)
    else if first.ById? then {first.id}
    else {}
  }

  /** The same table with exactly these shares revoked. */
  function WithRevoked(table: Table, ids: set<string>, now: int): Table {
    map id | id in table :: if id in ids then table[id].(revokedAt := Some(Unix(now))) else table[id]
  }

  ghost function Elements(ids: seq<string>): set<string> {
    set id | id in ids
  }

  /** The daemon with these shares revoked, and their removals scheduled, since `table`. */
  ghost predicate Revoking(
    table: Table, cleanups: set<string>, ids: set<string>, now: int, rows: Table, pending: set<string>)
  {
    rows == WithRevoked(table, ids, now) && pending == cleanups + ids
  }

  datatype UnshareResult = Done(unshared: Unshared) | NotMatched | RequestFailed

  /** What unshare answers when the first question settles it, and when it does not. */
  ghost predicate Answers(
    table: Table, first: Lookup, target: string, abs: string, now: int, apply: bool, r: UnshareResult)
  {
    if !Settled(table, first) then AnswersByPath(ActiveAt(table, abs, now), abs, apply, r)
    else if first == Elsewhere(OtherError) then r == RequestFailed
    else r == Done(Unshared(target, apply, "", !apply, 0, if apply then [] else [target]))
  }

  /** Nothing matched; or the shares of the path, counted when revoked and listed, each
      once, when not. */
  ghost predicate AnswersByPath(ids: set<string>, abs: string, apply: bool, r: UnshareResult) {
    if ids == {} then r == NotMatched
    else if apply then r == Done(Unshared("", true, abs, false, |ids|, []))
    else
      && r.Done? && r.unshared == Unshared("", false, abs, true, 0, r.unshared.shareIds)
      && Elements(r.unshared.shareIds) == ids && |r.unshared.shareIds| == |ids|
  }

  ghost predicate IsUnrevoked(table: Table, id: string) {
    id in table && table[id].revokedAt.None?
  }

  /** The target, put into an address, means the share of this id. */
  ghost predicate AsksAbout(target: string, id: string) {
    && '/' !in target && id != ""
    && exists path :: Means(target, path) && OneSegment(path) && TrimSpace(path) == id
  }

  ghost predicate Meaningless(target: string) {
    '/' !in target && forall path :: !Means(target, path)
  }

  /** What unshare asks first, by what the target means. */
  lemma LookupExactlyWhen(target: string, reply: Reply)
    ensures LookupFor(target, reply) == ByPathOnly <==> '/' in target
    ensures forall id :: AsksAbout(target, id) <==> LookupFor(target, reply) == ById(id)
    ensures Meaningless(target) ==> LookupFor(target, reply) == Elsewhere(OtherError)
    ensures forall path :: '/' !in target && Means(target, path) && !OneSegment(path) ==>
      LookupFor(target, reply) == Elsewhere(reply)
    ensures forall path :: '/' !in target && Means(target, path) && OneSegment(path) && TrimSpace(path) == "" ==>
      LookupFor(target, reply) == Elsewhere(OtherError)
  {
    AskedExactlyWhen(target);
    forall id | LookupFor(target, reply) == ById(id) ensures AsksAbout(target, id) {
      var path :| Means(target, path);
    }
  }

  lemma PlainAsksAboutItself(target: string)
    requires IsPlain(target) && '/' !in target && target != ""
    ensures AsksAbout(target, target)
  {
    PlainMeansItself(target);
  }

  /** The answer of a run about one share, named as the target was given, and its effect:
      that share is revoked, its removal is scheduled, and nothing else happens. */
  ghost predicate UnsharesOne(
    table: Table, cleanups: set<string>, target: string, id: string, now: int, apply: bool, r: UnshareResult,
    rows: Table, pending: set<string>)
  {
    && (apply ==> r == Done(Unshared(target, true, "", false, 0, [])))
    && (!apply ==> r == Done(Unshared(target, false, "", true, 0, [target])))
    && Revoking(table, cleanups, if apply then {id} else {}, now, rows, pending)
  }

  /** The answer of a run about the active shares of a path, and its effect. */
  ghost predicate UnsharesPath(
    table: Table, cleanups: set<string>, abs: string, now: int, apply: bool, r: UnshareResult,
    rows: Table, pending: set<string>)
  {
    && AnswersByPath(ActiveAt(table, abs, now), abs, apply, r)
    && Revoking(table, cleanups, if apply then ActiveAt(table, abs, now) else {}, now, rows, pending)
  }

  /** Revokes the share with this id, or else every active share of this path; without
      `apply` it only says which. `reply` is the answer in case the target, put into an
      address, asks about something other than a share. */
  method Unshare(d: Daemon, target: string, cwd: string, apply: bool, reply: Reply) returns (r: UnshareResult)
    requires d.Valid() && target != ""
    modifies d`cleanups, d.store
    ensures d.Valid()
    // a target that means an unrevoked share, as a plain one means itself
    ensures '/' !in target && IsPlain(target) && IsUnrevoked(old(d.store.rows), target) ==>
      UnsharesOne(old(d.store.rows), old(d.cleanups), target, target, d.now, apply, r, d.store.rows, d.cleanups)
    ensures forall id :: AsksAbout(target, id) && IsUnrevoked(old(d.store.rows), id) ==>
      UnsharesOne(old(d.store.rows), old(d.cleanups), target, id, d.now, apply, r, d.store.rows, d.cleanups)
    // any other target goes by its path
    ensures '/' in target || (IsPlain(target) && !IsUnrevoked(old(d.store.rows), target)) ==>
      UnsharesPath(
        old(d.store.rows), old(d.cleanups), AbsPath(cwd, target), d.now, apply, r, d.store.rows, d.cleanups)
    ensures forall id :: AsksAbout(target, id) && !IsUnrevoked(old(d.store.rows), id) ==>
      UnsharesPath(
        old(d.store.rows), old(d.cleanups), AbsPath(cwd, target), d.now, apply, r, d.store.rows, d.cleanups)
    // unless it means nothing in an address
    ensures Meaningless(target) ==> r == RequestFailed && d.store.rows == old(d.store.rows)
    ensures Answers(old(d.store.rows), LookupFor(target, reply), target, AbsPath(cwd, target), d.now, apply, r)
    ensures Revoking(old(d.store.rows), old(d.cleanups),
      if apply then UnshareIds(old(d.store.rows), LookupFor(target, reply), AbsPath(cwd, target), d.now) else {},
      d.now, d.store.rows, d.cleanups)
  {
    LookupExactlyWhen(target, reply);
    if IsPlain(target) && '/' !in target {
      PlainAsksAboutItself(target);
    }
    r := UnshareBy(d, LookupFor(target, reply), target, AbsPath(cwd, target), apply);
  }

  method UnshareBy(d: Daemon, first: Lookup, target: string, abs: string, apply: bool) returns (r: UnshareResult)
    requires d.Valid()
    modifies d`cleanups, d.store
    ensures d.Valid()
    ensures Answers(old(d.store.rows), first, target, abs, d.now, apply, r)
    ensures Revoking(old(d.store.rows), old(d.cleanups),
      if apply then UnshareIds(old(d.store.rows), first, abs, d.now) else {}, d.now, d.store.rows, d.cleanups)
  {
    RevokingNone(d.store.rows, d.cleanups, d.now);
    if first != ByPathOnly {
      var answer := AskFirst(d, first, apply);
      if answer == Succeeded {
        if !apply {
          return Done(Unshared(target, false, "", true, 0, [target]));
        }
        return Done(Unshared(target, true, "", false, 0, []));
      }
      if answer != SaysNotFound {
        return RequestFailed;
      }
    }
    r := UnsharePath(d, abs, apply);
  }

  lemma RevokingNone(table: Table, cleanups: set<string>, now: int)
    ensures Revoking(table, cleanups, {}, now, table, cleanups)
  {
  }

  method AskFirst(d: Daemon, first: Lookup, apply: bool) returns (answer: Reply)
    requires d.Valid() && first != ByPathOnly
    modifies d`cleanups, d.store
    ensures d.Valid()
    ensures answer == SaysNotFound <==> !Settled(old(d.store.rows), first)
    ensures answer == OtherError <==> first == Elsewhere(OtherError)
    ensures apply && answer == Succeeded && first.ById? ==>
      Revoking(old(d.store.rows), old(d.cleanups), {first.id}, d.now, d.store.rows, d.cleanups)
    ensures !(apply && answer == Succeeded && first.ById?) ==>
      d.store.rows == old(d.store.rows) && d.cleanups == old(d.cleanups)
  {
    if first.Elsewhere? {
      return first.reply;
    }
    var found := UnshareId(d, first.id, apply);
    answer := if found then Succeeded else SaysNotFound;
  }

  method UnshareId(d: Daemon, id: string, apply: bool) returns (found: bool)
    requires d.Valid()
    modifies d`cleanups, d.store
    ensures d.Valid()
    ensures found <==> id in old(d.store.rows) && old(d.store.rows)[id].revokedAt.None?
    ensures apply && found ==> Revoking(old(d.store.rows), old(d.cleanups), {id}, d.now, d.store.rows, d.cleanups)
    ensures !apply || !found ==> d.store.rows == old(d.store.rows) && d.cleanups == old(d.cleanups)
  {
    if apply {
      found := d.RevokeShare(id);
    } else {
      var share := d.GetShare(id);
      found := share.Some? && share.value.revokedAt.None?;
    }
  }

  method UnsharePath(d: Daemon, abs: string, apply: bool) returns (r: UnshareResult)
    requires d.Valid()
    modifies d`cleanups, d.store
    ensures d.Valid()
    ensures AnswersByPath(ActiveAt(old(d.store.rows), abs, d.now), abs, apply, r)
    ensures Revoking(old(d.store.rows), old(d.cleanups),
      if apply then ActiveAt(old(d.store.rows), abs, d.now) else {}, d.now, d.store.rows, d.cleanups)
  {
    ghost var table := d.store.rows;
    var shares := d.ListShares();
    var matched, revoked := RevokeMatches(d, shares, abs, apply);
    AllMatched(table, shares, abs, d.now, matched);
    if !apply && |matched| > 0 {
      return Done(Unshared("", false, abs, true, 0, matched));
    }
    if revoked == 0 {
      return NotMatched;
    }
    return Done(Unshared("", true, abs, false, revoked, []));
  }

  /** The loop over the listing. */
  method RevokeMatches(d: Daemon, shares: seq<Share>, abs: string, apply: bool)
    returns (matched: seq<string>, revoked: nat)
    requires d.Valid() && Lists(d.store.rows, ActiveIds(d.store.rows, d.now), shares)
    modifies d`cleanups, d.store
    ensures d.Valid() && MatchedSoFar(shares, |shares|, abs, matched)
    ensures revoked == if apply then |matched| else 0
    ensures Revoking(old(d.store.rows), old(d.cleanups),
      if apply then Elements(matched) else {}, d.now, d.store.rows, d.cleanups)
  {
    ghost var table, cleanups := d.store.rows, d.cleanups;
    matched, revoked := [], 0;
    for i := 0 to |shares|
      invariant d.Valid()
      invariant MatchedSoFar(shares, i, abs, matched)
      invariant revoked == if apply then |matched| else 0
      invariant Revoking(table, cleanups, if apply then Elements(matched) else {}, d.now, d.store.rows, d.cleanups)
    {
      MatchedOneMore(table, ActiveIds(table, d.now), shares, i, abs, matched);
      if shares[i].sourcePath != abs {
        continue;
      }
      var id := shares[i].id;
      if apply {
        var found := RevokeMatch(d, table, cleanups, Elements(matched), id);
        if found {
          revoked := revoked + 1;
        }
      }
      matched := matched + [id];
    }
  }

  /** One more share revoked, on top of those revoked since `table`. */
  method RevokeMatch(d: Daemon, ghost table: Table, ghost cleanups: set<string>, ghost ids: set<string>, id: string)
    returns (found: bool)
    requires d.Valid() && id in table && id !in ids && table[id].revokedAt.None?
    requires Revoking(table, cleanups, ids, d.now, d.store.rows, d.cleanups)
    modifies d`cleanups, d.store
    ensures d.Valid() && found
    ensures Revoking(table, cleanups, ids + {id}, d.now, d.store.rows, d.cleanups)
  {
    RevokeOneMore(table, cleanups, ids, id, d.now);
    found := d.RevokeShare(id);
  }

  /** `matched` are the shares of this path among the first n listed, each once. */
  ghost predicate MatchedSoFar(shares: seq<Share>, n: nat, abs: string, matched: seq<string>)
    requires n <= |shares|
  {
    Elements(matched) == MatchedIn(shares[..n], abs) && |matched| == |Elements(matched)|
  }

  ghost function MatchedIn(shares: seq<Share>, abs: string): set<string> {
    set share | share in shares && share.sourcePath == abs :: share.id
  }

  lemma MatchedOneMore(table: Table, ids: set<string>, shares: seq<Share>, i: nat, abs: string, matched: seq<string>)
    requires Lists(table, ids, shares) && i < |shares| && MatchedSoFar(shares, i, abs, matched)
    ensures shares[i].sourcePath != abs ==> MatchedSoFar(shares, i + 1, abs, matched)
    ensures shares[i].sourcePath == abs ==> MatchedSoFar(shares, i + 1, abs, matched + [shares[i].id])
    ensures Elements(matched + [shares[i].id]) == Elements(matched) + {shares[i].id}
    ensures shares[i].id !in Elements(matched)
    ensures shares[i].id in ids && shares[i].id in table && shares[i] == Scan(table[shares[i].id])
  {
    assert shares[..i + 1] == shares[..i] + [shares[i]];
    assert shares[i] in shares && shares[i].id in ListedIds(shares);
    forall share | share in shares[..i] ensures share.id != shares[i].id {
      var k :| 0 <= k < i && shares[k] == share;
      ListedOnce(table, ids, shares, k, i);
    }
    assert forall share :: share in shares[..i + 1] <==> share in shares[..i] || share == shares[i];
    assert Elements(matched + [shares[i].id]) == Elements(matched) + {shares[i].id};
  }

  lemma RevokeOneMore(table: Table, cleanups: set<string>, ids: set<string>, id: string, now: int)
    requires id in table && id !in ids && table[id].revokedAt.None?
    ensures Exec(WithRevoked(table, ids, now), Revoke(id, now)) == WithRevoked(table, ids + {id}, now)
    ensures Affected(WithRevoked(table, ids, now), Revoke(id, now)) == {id}
    ensures cleanups + ids + {id} == cleanups + (ids + {id})
    ensures id in WithRevoked(table, ids, now) && WithRevoked(table, ids, now)[id].revokedAt.None?
  {
  }

  lemma AllMatched(table: Table, shares: seq<Share>, abs: string, now: int, matched: seq<string>)
    requires Lists(table, ActiveIds(table, now), shares) && MatchedSoFar(shares, |shares|, abs, matched)
    ensures Elements(matched) == ActiveAt(table, abs, now) && |matched| == |ActiveAt(table, abs, now)|
  {
    assert shares[..|shares|] == shares;
    forall id | id in ActiveAt(table, abs, now) ensures id in MatchedIn(shares, abs) {
      assert id in ListedIds(shares);
      var share :| share in shares && share.id == id;
    }
    forall id | id in MatchedIn(shares, abs) ensures id in ActiveAt(table, abs, now) {
      var share :| share in shares && share.sourcePath == abs && share.id == id;
      assert id in ListedIds(shares);
    }
  }

  /** The shares an unshare is about are exactly those an applied run revokes; it touches
      no other row; and afterwards the path, when it goes by that, has no active share. */
  lemma UnshareRevokesExactly(table: Table, first: Lookup, abs: string, now: int)
    requires WellKeyed(table)
    ensures var ids := UnshareIds(table, first, abs, now);
      var after := WithRevoked(table, ids, now);
      && ids == (set id | id in table && table[id].revokedAt.None? && after[id].revokedAt.Some?)
      && after.Keys == table.Keys
      && (forall id :: id in table && id !in ids ==> after[id] == table[id])
      && (!Settled(table, first) ==> ActiveAt(after, abs, now) == {})
      && (!Settled(table, first) ==>
            ids == (set id | id in table && table[id].sourcePath == abs && IsOpen(table[id], now)))
      && UnshareIds(after, first, abs, now) ==
           if Settled(table, first) && first.ById? then ActiveAt(after, abs, now) else {}
  {
  }

  /** The shares a preview names. */
  ghost function Previewed(table: Table, first: Lookup, target: string, abs: string, now: int): set<string> {
    if !Settled(table, first) then ActiveAt(table, abs, now)
    else if first == Elsewhere(OtherError) then {}
    else {target}
  }

  lemma PreviewedIsListed(
    table: Table, first: Lookup, target: string, abs: string, now: int, r: UnshareResult)
    requires Answers(table, first, target, abs, now, false, r)
    ensures Previewed(table, first, target, abs, now) == if r.Done? then Elements(r.unshared.shareIds) else {}
  {
    assert Elements([target]) == {target};
  }

  /** A preview names exactly the shares the applied run revokes, if and only if the path
      decides, the request fails, or the target means itself in an address. */
  lemma UnsharePreviewIsWhatApplyDoes(table: Table, target: string, reply: Reply, abs: string, now: int)
    requires target != ""
    ensures var first := LookupFor(target, reply);
      Previewed(table, first, target, abs, now) == UnshareIds(table, first, abs, now) <==>
        !Settled(table, first) || first == Elsewhere(OtherError) || IsPlain(target)
  {
    var first := LookupFor(target, reply);
    if first != ByPathOnly {
      PlainAsksForItself(target);
      assert first == ById(target) <==> AskedFor(target) == AsksId(target);
      if Settled(table, first) && first != Elsewhere(OtherError) {
        assert target in {target};
        assert {target} == UnshareIds(table, first, abs, now) <==> first == ById(target);
      }
    }
  }

  // ---------------------------------------------------------------- renew

  /** Renews a share; without `apply`, the share with the expiry asked for. None is the
      not-found error, which both give for the same shares. */
  method RenewOrPreview(d: Daemon, id: string, ttl: int, apply: bool) returns (r: Option<Share>)
    requires d.Valid() && 0 < ttl <= MAX_INT64
    modifies d.store
    ensures d.Valid()
    ensures r.Some? <==> id in old(d.store.rows) && old(d.store.rows)[id].revokedAt.None?
    ensures !apply ==> d.store.rows == old(d.store.rows)
    ensures r.Some? ==> id in d.store.rows && r.value.(expiresAt := 0) == Scan(d.store.rows[id]).(expiresAt := 0)
    ensures r.Some? && !apply ==> r.value.expiresAt == d.now + ttl
    ensures r.Some? && apply ==> r.value.expiresAt == d.now + StoredLifetime(d.now, GrantedOnRenew(SentSeconds(ttl)))
    ensures forall other :: other in old(d.store.rows) && other != id ==>
      other in d.store.rows && d.store.rows[other] == old(d.store.rows)[other]
  {
    if apply {
      r := d.RenewShare(id, SentSeconds(ttl));
      return;
    }
    r := d.GetShare(id);
    if r.Some? {
      if r.value.revokedAt.Some? {
        return None;
      }
      r := Some(r.value.(expiresAt := d.now + ttl));
    }
  }

  // ---------------------------------------------------------------- publish

  /** The first live share of this path in a listing of active shares. */
  function FindExistingLive(shares: seq<Share>, path: string): Option<Share> {
    if shares == [] then None
    else if shares[0].mode == Live && shares[0].sourcePath == path then Some(shares[0])
    else FindExistingLive(shares[1..], path)
  }

  ghost function LiveAt(table: Table, path: string, now: int): set<string> {
    set id | id in ActiveIds(table, now) && table[id].mode == Live && table[id].sourcePath == path
  }

  lemma {:induction false} FindExistingFinds(shares: seq<Share>, path: string)
    ensures var found := FindExistingLive(shares, path);
      if found.Some? then found.value in shares && found.value.mode == Live && found.value.sourcePath == path
      else forall share :: share in shares ==> !(share.mode == Live && share.sourcePath == path)
  {
    if shares != [] {
      FindExistingFinds(shares[1..], path);
      assert forall share :: share in shares <==> share == shares[0] || share in shares[1..];
    }
  }

  lemma FindExistingInListing(table: Table, shares: seq<Share>, path: string, now: int)
    requires WellKeyed(table) && Lists(table, ActiveIds(table, now), shares)
    ensures var found := FindExistingLive(shares, path);
      if found.Some? then found.value.id in LiveAt(table, path, now) else LiveAt(table, path, now) == {}
  {
    FindExistingFinds(shares, path);
    var found := FindExistingLive(shares, path);
    if found.Some? {
      assert found.value.id in ListedIds(shares);
    } else {
      forall id | id in ActiveIds(table, now) ensures id !in LiveAt(table, path, now) {
        assert id in ListedIds(shares);
        var share :| share in shares && share.id == id;
      }
    }
  }

  /** An active live share of the path. */
  ghost predicate IsLiveShareOf(table: Table, id: string, path: string, now: int) {
    id in table && table[id].mode == Live && table[id].sourcePath == path && IsOpen(table[id], now)
  }

  lemma LiveAtIs(table: Table, path: string, now: int)
    ensures forall id :: id in LiveAt(table, path, now) <==> IsLiveShareOf(table, id, path, now)
    ensures LiveAt(table, path, now) != {} <==> exists id :: IsLiveShareOf(table, id, path, now)
  {
    if id :| IsLiveShareOf(table, id, path, now) {
      assert id in LiveAt(table, path, now);
    }
    if LiveAt(table, path, now) != {} {
      var id :| id in LiveAt(table, path, now);
      assert IsLiveShareOf(table, id, path, now);
    }
  }

  datatype Action = CreateAction | RenewAction(id: string)

  method FindExistingLiveShare(d: Daemon, path: string) returns (existing: Option<Share>)
    requires d.Valid()
    ensures existing.Some? <==> LiveAt(d.store.rows, path, d.now) != {}
    ensures existing.Some? ==> existing.value.id in LiveAt(d.store.rows, path, d.now)
    ensures existing.Some? <==> exists id :: IsLiveShareOf(d.store.rows, id, path, d.now)
    ensures existing.Some? ==> IsLiveShareOf(d.store.rows, existing.value.id, path, d.now)
  {
    LiveAtIs(d.store.rows, path, d.now);
    var shares := d.ListShares();
    FindExistingInListing(d.store.rows, shares, path, d.now);
    existing := FindExistingLive(shares, path);
  }

  /** What a publish would do. While the daemon is down nothing is looked up, and a
      creation is named, with a note saying so. */
  method PreviewPublish(d: Daemon, healthy: bool, sharePath: string, mode: Mode) returns (action: Action, noted: bool)
    requires d.Valid()
    ensures noted <==> mode == Live && !healthy
    ensures action == CreateAction <==> mode == Snapshot || noted || LiveAt(d.store.rows, sharePath, d.now) == {}
    ensures action.RenewAction? ==> action.id in LiveAt(d.store.rows, sharePath, d.now)
  {
    action, noted := CreateAction, false;
    if mode == Live {
      if !healthy {
        return action, true;
      }
      var existing := FindExistingLiveShare(d, sharePath);
      if existing.Some? {
        action := RenewAction(existing.value.id);
      }
    }
  }

  /** A publish; `id` is the identifier a creation would get, and `snapshotsDir` where the
      daemon keeps the snapshots. */
  datatype Publishing = Publishing(
    sharePath: string, isDir: bool, mode: Mode, ttl: int, id: string, snapshotsDir: string)

  /** What a creation meets: whether the daemon finds the path, the source as it is
      measured and as it is copied, and what becomes of the insertion. */
  datatype Surroundings = Surroundings(onDisk: bool, before: Source, after: Source, storing: Storing)

  /** A creation's row is written. */
  predicate Inserts(p: Publishing, around: Surroundings, maxBytes: int64) {
    around.onDisk && around.storing != NotInserted && Copies(around.before, around.after, p.isDir, p.mode, maxBytes)
  }

  /** The share a publish creates. */
  function PublishedShare(p: Publishing, now: int, granted: int): Share {
    NewShare(p.id, StoredPath(p.sharePath), p.isDir, p.mode, p.snapshotsDir, now, granted)
  }

  /** The table after a publish that takes this action, with this lifetime granted, and
      inserts its row or fails to. */
  function AfterPublish(table: Table, now: int, p: Publishing, granted: int, action: Action, inserted: bool): Table {
    match action
    case RenewAction(id) => Exec(table, Renew(id, now + granted))
    case CreateAction => if inserted then Exec(table, Insert(PublishedShare(p, now, granted))) else table
  }

  /** What AfterPublish is, said of the rows: a renewal moves one expiry, a creation adds
      one row, or nothing changes. */
  ghost predicate PublishLeaves(
    table: Table, now: int, p: Publishing, granted: int, action: Action, inserted: bool, rows: Table)
  {
    match action
    case RenewAction(id) => id in table ==> rows == table[id := table[id].(expiresAt := (now + granted) / SECOND)]
    case CreateAction =>
      if !inserted then rows == table
      else
        var path := StoredPath(p.sharePath);
        var root := if p.mode == Live then "" else SnapshotRoot(p.snapshotsDir, p.id, p.isDir, Base(path));
        rows == table[p.id := Row(
          p.id, path, p.isDir, p.mode, root, now / SECOND, (now + granted) / SECOND, None, None)]
  }

  lemma RenewLeaves(table: Table, id: string, expiresAt: int)
    requires id in table && table[id].revokedAt.None?
    ensures Exec(table, Renew(id, expiresAt)) == table[id := table[id].(expiresAt := expiresAt / SECOND)]
  {
  }

  lemma StoredWhenPublished(p: Publishing, now: int, granted: int)
    ensures var path := StoredPath(p.sharePath);
      var root := if p.mode == Live then "" else SnapshotRoot(p.snapshotsDir, p.id, p.isDir, Base(path));
      Stored(PublishedShare(p, now, granted)) ==
        Row(p.id, path, p.isDir, p.mode, root, now / SECOND, (now + granted) / SECOND, None, None)
  {
  }

  lemma PublishLeavesRow(table: Table, now: int, p: Publishing, granted: int, action: Action, inserted: bool)
    requires action.RenewAction? ==> action.id in table && table[action.id].revokedAt.None?
    requires action == CreateAction ==> p.id !in table
    ensures PublishLeaves(table, now, p, granted, action, inserted,
      AfterPublish(table, now, p, granted, action, inserted))
  {
    if action.RenewAction? {
      RenewLeaves(table, action.id, now + granted);
    } else {
      StoredWhenPublished(p, now, granted);
    }
  }

  /** The lifetime the daemon makes of the one a publish asks for. */
  function Granted(ttl: int, action: Action): int
    requires ttl > 0
  {
    if action.RenewAction? then GrantedOnRenew(SentSeconds(ttl)) else GrantedOnCreate(SentSeconds(ttl))
  }

  method Publish(d: Daemon, p: Publishing, around: Surroundings)
    returns (published: Option<Share>, ghost action: Action, ghost inserted: bool)
    requires d.Valid() && p.id !in d.used && p.snapshotsDir == d.snapshotsDir && p.ttl > 0 && SizeFits(around.before)
    modifies d`snapshots, d`copies, d`used, d`undone, d.store
    ensures d.Valid()
    ensures action == CreateAction <==> p.mode == Snapshot || LiveAt(old(d.store.rows), p.sharePath, d.now) == {}
    ensures action.RenewAction? ==> action.id in LiveAt(old(d.store.rows), p.sharePath, d.now)
    ensures d.store.rows == AfterPublish(old(d.store.rows), d.now, p, Granted(p.ttl, action), action, inserted)
    ensures inserted <==> action == CreateAction && Inserts(p, around, d.snapshotMaxBytes)
    ensures published.Some? <==> action.RenewAction? || (inserted && around.storing == Inserted)
    ensures published.Some? ==> published.value.id == if action.RenewAction? then action.id else p.id
    // said of the rows alone
    ensures action == CreateAction <==>
      p.mode == Snapshot || !exists id :: IsLiveShareOf(old(d.store.rows), id, p.sharePath, d.now)
    ensures action.RenewAction? ==> IsLiveShareOf(old(d.store.rows), action.id, p.sharePath, d.now)
  {
    var existing: Option<Share> := None;
    if p.mode == Live {
      existing := FindExistingLiveShare(d, p.sharePath);
    }
    if existing.Some? {
      action, inserted := RenewAction(existing.value.id), false;
      published := d.RenewShare(existing.value.id, SentSeconds(p.ttl));
    } else {
      action := CreateAction;
      published, inserted := RequestCreate(d, p, around);
    }
  }

  method RequestCreate(d: Daemon, p: Publishing, around: Surroundings)
    returns (published: Option<Share>, ghost inserted: bool)
    requires d.Valid() && p.id !in d.used && p.snapshotsDir == d.snapshotsDir && p.ttl > 0 && SizeFits(around.before)
    modifies d`snapshots, d`copies, d`used, d`undone, d.store
    ensures d.Valid()
    ensures var granted := Granted(p.ttl, CreateAction);
      && d.store.rows == AfterPublish(old(d.store.rows), d.now, p, granted, CreateAction, inserted)
      && published ==
           if inserted && around.storing == Inserted then Some(PublishedShare(p, d.now, granted)) else None
    ensures inserted <==> Inserts(p, around, d.snapshotMaxBytes)
  {
    published, inserted := None, false;
    if !around.onDisk {
      return;
    }
    published := d.CreateShare(
      p.id, StoredPath(p.sharePath), p.isDir, p.mode, SentSeconds(p.ttl),
      around.before, around.after, around.storing);
    inserted := Inserts(p, around, d.snapshotMaxBytes);
  }

  // ------------------------------------------------------- runs of operations

  datatype World = World(table: Table, now: int, used: set<string>)

  datatype Op =
    | PublishOp(p: Publishing, granted: int, action: Action, inserted: bool)
    | UnshareOp(first: Lookup, abs: string)
    | RenewOp(id: string, granted: int)
    | TickOp(now: int)
    | GcOp

  /** An operation as the daemon would run it here: a publish takes the action its
      listing leads to. `granted` is whatever lifetime a creation or renewal grants. */
  ghost predicate CanRun(w: World, op: Op) {
    match op
    case PublishOp(p, _, action, _) =>
      && p.id !in w.used
      && (action == CreateAction <==> p.mode == Snapshot || LiveAt(w.table, p.sharePath, w.now) == {})
      && (action.RenewAction? ==> action.id in LiveAt(w.table, p.sharePath, w.now))
    case _ => true
  }

  ghost function RunOp(w: World, op: Op): World
    requires CanRun(w, op)
  {
    match op
    case PublishOp(p, granted, action, inserted) =>
      w.(table := AfterPublish(w.table, w.now, p, granted, action, inserted), used := w.used + {p.id})
    case UnshareOp(first, abs) => w.(table := WithRevoked(w.table, UnshareIds(w.table, first, abs, w.now), w.now))
    case RenewOp(id, granted) => w.(table := Exec(w.table, Renew(id, w.now + granted)))
    case TickOp(now) => w.(now := now)
    case GcOp => w
  }

  /** What an operation leaves, said of the rows and the clock. */
  lemma RunOpLeaves(w: World, op: Op)
    requires Sound(w) && CanRun(w, op)
    ensures op.PublishOp? && op.p.mode == Snapshot ==> op.action == CreateAction
    ensures op.PublishOp? ==>
      PublishLeaves(w.table, w.now, op.p, op.granted, op.action, op.inserted, RunOp(w, op).table)
    ensures op.UnshareOp? ==>
      var ids := UnshareIds(w.table, op.first, op.abs, w.now);
      RunOp(w, op).table == map id | id in w.table ::
        w.table[id].(revokedAt := if id in ids then Some(w.now / SECOND) else w.table[id].revokedAt)
    ensures op.RenewOp? && IsUnrevoked(w.table, op.id) ==>
      RunOp(w, op).table == w.table[op.id := w.table[op.id].(expiresAt := (w.now + op.granted) / SECOND)]
    ensures op.GcOp? || (op.RenewOp? && !IsUnrevoked(w.table, op.id)) ==> RunOp(w, op) == w
    ensures op.TickOp? ==> RunOp(w, op) == w.(now := op.now)
    ensures !op.TickOp? ==> RunOp(w, op).now == w.now
  {
    match op
    case PublishOp(p, granted, action, inserted) =>
      PublishLeavesRow(w.table, w.now, p, granted, action, inserted);
    case RenewOp(id, granted) =>
      if IsUnrevoked(w.table, id) {
        RenewLeaves(w.table, id, w.now + granted);
      }
    case _ =>
  }

  ghost predicate CanRunAll(w: World, ops: seq<Op>)
    decreases |ops|
  {
    ops == [] || (CanRun(w, ops[0]) && CanRunAll(RunOp(w, ops[0]), ops[1..]))
  }

  ghost function RunAll(w: World, ops: seq<Op>): World
    requires CanRunAll(w, ops)
    decreases |ops|
  {
    if ops == [] then w else RunAll(RunOp(w, ops[0]), ops[1..])
  }

  ghost predicate LiveRow(w: World, id: string) {
    id in ActiveIds(w.table, w.now) && w.table[id].mode == Live
  }

  ghost predicate OneLivePerPath(w: World) {
    forall a, b :: LiveRow(w, a) && LiveRow(w, b) && w.table[a].sourcePath == w.table[b].sourcePath ==> a == b
  }

  ghost predicate Sound(w: World) {
    WellKeyed(w.table) && w.table.Keys <= w.used
  }

  lemma SoundStep(w: World, op: Op)
    requires Sound(w) && CanRun(w, op)
    ensures Sound(RunOp(w, op))
  {
  }

  /** What an expiry written now is worth: nothing, when its whole seconds are over. */
  predicate IsOver(expiresAt: int, now: int) {
    Unix(expiresAt) * SECOND <= now
  }

  /** A live share that is not revoked and has expired, and is active at `now`. */
  ghost predicate ComesBack(w: World, id: string, now: int) {
    id in w.table && w.table[id].mode == Live && !LiveRow(w, id) && Scan(w.table[id]).IsActive(now)
  }

  /** The operation puts no second active live share beside one of the same path: a
      creation finds none under the path it stores, a renewal none but the renewed share,
      and a clock that goes back brings none back. */
  ghost predicate AddsNoSecond(w: World, op: Op)
    requires CanRun(w, op)
  {
    match op
    case PublishOp(p, granted, action, inserted) =>
      action == CreateAction && inserted && p.mode == Live ==>
        LiveAt(w.table, StoredPath(p.sharePath), w.now) == {} || IsOver(w.now + granted, w.now)
    case RenewOp(id, granted) =>
      id in w.table && w.table[id].mode == Live && w.table[id].revokedAt.None? ==>
        LiveAt(w.table, w.table[id].sourcePath, w.now) <= {id} || IsOver(w.now + granted, w.now)
    case TickOp(now) =>
      forall id :: ComesBack(w, id, now) ==> LiveAt(w.table, w.table[id].sourcePath, now) == {id}
    case _ => true
  }

  lemma OneLiveShrinks(w: World, w': World)
    requires OneLivePerPath(w)
    requires forall id :: LiveRow(w', id) ==> LiveRow(w, id) && w.table[id].sourcePath == w'.table[id].sourcePath
    ensures OneLivePerPath(w')
  {
  }

  lemma ExactlyCreate(w: World, p: Publishing, granted: int)
    requires Sound(w) && OneLivePerPath(w) && CanRun(w, PublishOp(p, granted, CreateAction, true))
    ensures OneLivePerPath(RunOp(w, PublishOp(p, granted, CreateAction, true))) <==>
      AddsNoSecond(w, PublishOp(p, granted, CreateAction, true))
  {
    var share := PublishedShare(p, w.now, granted);
    ExactlyInsert(w, share);
    OneLiveUsed(w.(table := Exec(w.table, Insert(share))), w.used + {p.id});
  }

  lemma OneLiveUsed(w: World, used: set<string>)
    ensures OneLivePerPath(w.(used := used)) <==> OneLivePerPath(w)
  {
    var w' := w.(used := used);
    assert forall id :: LiveRow(w', id) <==> LiveRow(w, id);
  }

  lemma ExactlyInsert(w: World, share: Share)
    requires Sound(w) && OneLivePerPath(w) && share.id !in w.used
    ensures OneLivePerPath(w.(table := Exec(w.table, Insert(share)))) <==>
      (share.mode == Live ==> LiveAt(w.table, share.sourcePath, w.now) == {} || IsOver(share.expiresAt, w.now))
  {
    var w' := w.(table := Exec(w.table, Insert(share)));
    assert w'.table == w.table[share.id := Stored(share)];
    assert forall id :: id != share.id ==> (LiveRow(w', id) <==> LiveRow(w, id));
    assert LiveRow(w', share.id) <==> share.mode == Live && !IsOver(share.expiresAt, w.now);
    OneMoreLive(w, w', share.id, share.sourcePath);
  }

  /** Among rows that only one was added to, or changed in its expiry. */
  lemma OneMoreLive(w: World, w': World, id: string, path: string)
    requires OneLivePerPath(w) && id in w'.table && w'.table[id].sourcePath == path
    requires forall other :: other != id ==> (LiveRow(w', other) <==> LiveRow(w, other))
    requires forall other :: other != id && other in w.table && other in w'.table ==>
      w'.table[other].sourcePath == w.table[other].sourcePath && w'.table[other].mode == w.table[other].mode
    ensures OneLivePerPath(w') <==> (LiveRow(w', id) ==> LiveAt(w.table, path, w.now) <= {id})
  {
    if OneLivePerPath(w') && LiveRow(w', id) {
      forall other | other in LiveAt(w.table, path, w.now) ensures other == id {
        assert LiveRow(w, other);
      }
    }
    if LiveRow(w', id) && LiveAt(w.table, path, w.now) <= {id} {
      forall other | other != id && LiveRow(w', other) ensures w'.table[other].sourcePath != path {
        assert LiveRow(w, other) && other !in LiveAt(w.table, path, w.now);
      }
    }
  }

  lemma ExactlyRenew(w: World, id: string, expiresAt: int)
    requires Sound(w) && OneLivePerPath(w)
    ensures OneLivePerPath(w.(table := Exec(w.table, Renew(id, expiresAt)))) <==>
      (id in w.table && w.table[id].mode == Live && w.table[id].revokedAt.None? ==>
        LiveAt(w.table, w.table[id].sourcePath, w.now) <= {id} || IsOver(expiresAt, w.now))
  {
    var w' := w.(table := Exec(w.table, Renew(id, expiresAt)));
    assert forall other :: other != id && other in w.table ==> w'.table[other] == w.table[other];
    if id in w.table && w.table[id].mode == Live && w.table[id].revokedAt.None? {
      assert w'.table[id] == w.table[id].(expiresAt := Unix(expiresAt));
      assert LiveRow(w', id) <==> !IsOver(expiresAt, w.now);
      OneMoreLive(w, w', id, w.table[id].sourcePath);
    } else {
      OneLiveShrinks(w, w');
    }
  }

  lemma ExactlyTick(w: World, now: int)
    requires Sound(w) && OneLivePerPath(w)
    ensures OneLivePerPath(w.(now := now)) <==>
      forall id :: ComesBack(w, id, now) ==> LiveAt(w.table, w.table[id].sourcePath, now) == {id}
  {
    var w' := w.(now := now);
    if OneLivePerPath(w') {
      forall id | ComesBack(w, id, now) ensures LiveAt(w.table, w.table[id].sourcePath, now) == {id} {
        assert LiveRow(w', id);
        forall other | other in LiveAt(w.table, w.table[id].sourcePath, now) ensures other == id {
          assert LiveRow(w', other);
        }
      }
    }
    if forall id :: ComesBack(w, id, now) ==> LiveAt(w.table, w.table[id].sourcePath, now) == {id} {
      forall a, b | LiveRow(w', a) && LiveRow(w', b) && w.table[a].sourcePath == w.table[b].sourcePath ensures a == b {
        AloneOrNotBack(w, now, a, b);
        AloneOrNotBack(w, now, b, a);
      }
    }
  }

  lemma AloneOrNotBack(w: World, now: int, a: string, b: string)
    requires Sound(w) && LiveRow(w.(now := now), a) && LiveRow(w.(now := now), b)
    requires w.table[a].sourcePath == w.table[b].sourcePath
    requires ComesBack(w, a, now) ==> LiveAt(w.table, w.table[a].sourcePath, now) == {a}
    ensures a == b || LiveRow(w, a)
  {
    assert b in LiveAt(w.table, w.table[a].sourcePath, now);
  }

  lemma ExactlyPublish(w: World, p: Publishing, granted: int, action: Action, inserted: bool)
    requires Sound(w) && OneLivePerPath(w) && CanRun(w, PublishOp(p, granted, action, inserted))
    ensures OneLivePerPath(RunOp(w, PublishOp(p, granted, action, inserted))) <==>
      AddsNoSecond(w, PublishOp(p, granted, action, inserted))
  {
    if action.RenewAction? {
      assert LiveRow(w, action.id);
      RenewKeepsOne(w, action.id, w.now + granted, w.used + {p.id});
    } else if inserted {
      ExactlyCreate(w, p, granted);
    } else {
      OneLiveUsed(w, w.used + {p.id});
    }
  }

  lemma RevokedKeepsOne(w: World, ids: set<string>)
    requires OneLivePerPath(w)
    ensures OneLivePerPath(w.(table := WithRevoked(w.table, ids, w.now)))
  {
    OneLiveShrinks(w, w.(table := WithRevoked(w.table, ids, w.now)));
  }

  lemma ExactlyRenewed(w: World, id: string, granted: int)
    requires Sound(w) && OneLivePerPath(w)
    ensures OneLivePerPath(RunOp(w, RenewOp(id, granted))) <==> AddsNoSecond(w, RenewOp(id, granted))
  {
    ExactlyRenew(w, id, w.now + granted);
  }

  lemma ExactlyTicked(w: World, now: int)
    requires Sound(w) && OneLivePerPath(w)
    ensures OneLivePerPath(RunOp(w, TickOp(now))) <==> AddsNoSecond(w, TickOp(now))
  {
    ExactlyTick(w, now);
  }

  lemma AddsNoSecondStep(w: World, op: Op)
    requires Sound(w) && OneLivePerPath(w) && CanRun(w, op)
    ensures OneLivePerPath(RunOp(w, op)) <==> AddsNoSecond(w, op)
  {
    match op
    case PublishOp(p, granted, action, inserted) => ExactlyPublish(w, p, granted, action, inserted);
    case UnshareOp(first, abs) => RevokedKeepsOne(w, UnshareIds(w.table, first, abs, w.now));
    case RenewOp(id, granted) => ExactlyRenewed(w, id, granted);
    case TickOp(now) => ExactlyTicked(w, now);
    case GcOp =>
  }

  lemma OnlyOne(w: World, id: string)
    requires OneLivePerPath(w) && LiveRow(w, id)
    ensures LiveAt(w.table, w.table[id].sourcePath, w.now) == {id}
  {
    forall other | other in LiveAt(w.table, w.table[id].sourcePath, w.now) ensures other == id {
      assert LiveRow(w, other);
    }
  }

  lemma RenewKeepsOne(w: World, id: string, expiresAt: int, used: set<string>)
    requires Sound(w) && OneLivePerPath(w) && LiveRow(w, id)
    ensures OneLivePerPath(w.(table := Exec(w.table, Renew(id, expiresAt)), used := used))
  {
    OnlyOne(w, id);
    ExactlyRenew(w, id, expiresAt);
    OneLiveUsed(w.(table := Exec(w.table, Renew(id, expiresAt))), used);
  }

  ghost predicate OneLiveThroughout(w: World, ops: seq<Op>)
    requires CanRunAll(w, ops)
    decreases |ops|
  {
    OneLivePerPath(w) && (ops == [] || OneLiveThroughout(RunOp(w, ops[0]), ops[1..]))
  }

  ghost predicate NeverAddsSecond(w: World, ops: seq<Op>)
    requires CanRunAll(w, ops)
    decreases |ops|
  {
    ops == [] || (AddsNoSecond(w, ops[0]) && NeverAddsSecond(RunOp(w, ops[0]), ops[1..]))
  }

  /** Over any run there is at most one active live share per path, at every moment,
      exactly when no operation adds a second at the moment it is run. */
  lemma {:induction false} OneLiveExactlyWhen(w: World, ops: seq<Op>)
    requires Sound(w) && OneLivePerPath(w) && CanRunAll(w, ops)
    ensures OneLiveThroughout(w, ops) <==> NeverAddsSecond(w, ops)
    decreases |ops|
  {
    if ops != [] {
      SoundStep(w, ops[0]);
      AddsNoSecondStep(w, ops[0]);
      if AddsNoSecond(w, ops[0]) {
        OneLiveExactlyWhen(RunOp(w, ops[0]), ops[1..]);
      }
    }
  }

  /** Publishes ask for the path the daemon stores, only active shares are renewed, and
      the clock does not go back. */
  ghost predicate Disciplined(w: World, op: Op) {
    match op
    case PublishOp(p, _, _, _) => StoredPath(p.sharePath) == p.sharePath
    case RenewOp(id, _) => id in w.table && w.table[id].revokedAt.None? ==> Scan(w.table[id]).IsActive(w.now)
    case TickOp(now) => w.now <= now
    case _ => true
  }

  ghost predicate DisciplinedRun(w: World, ops: seq<Op>)
    requires CanRunAll(w, ops)
    decreases |ops|
  {
    ops == [] || (Disciplined(w, ops[0]) && DisciplinedRun(RunOp(w, ops[0]), ops[1..]))
  }

  lemma DisciplinedAddsNone(w: World, op: Op)
    requires Sound(w) && OneLivePerPath(w) && CanRun(w, op) && Disciplined(w, op)
    ensures AddsNoSecond(w, op)
  {
    if op.RenewOp? && op.id in w.table && w.table[op.id].mode == Live && w.table[op.id].revokedAt.None? {
      OnlyOne(w, op.id);
    }
  }

  lemma {:induction false} DisciplinedRuns(w: World, ops: seq<Op>)
    requires Sound(w) && OneLivePerPath(w) && CanRunAll(w, ops) && DisciplinedRun(w, ops)
    ensures NeverAddsSecond(w, ops)
    decreases |ops|
  {
    if ops != [] {
      SoundStep(w, ops[0]);
      DisciplinedAddsNone(w, ops[0]);
      AddsNoSecondStep(w, ops[0]);
      DisciplinedRuns(RunOp(w, ops[0]), ops[1..]);
    }
  }

  lemma {:induction false} OneLiveAtEnd(w: World, ops: seq<Op>)
    requires Sound(w) && CanRunAll(w, ops) && OneLiveThroughout(w, ops)
    ensures Sound(RunAll(w, ops)) && OneLivePerPath(RunAll(w, ops))
    decreases |ops|
  {
    if ops != [] {
      SoundStep(w, ops[0]);
      OneLiveAtEnd(RunOp(w, ops[0]), ops[1..]);
    }
  }

  const NO_SHARES := World(map[], 0, {})

  lemma DisciplinedEnd(ops: seq<Op>)
    requires CanRunAll(NO_SHARES, ops) && DisciplinedRun(NO_SHARES, ops)
    ensures Sound(RunAll(NO_SHARES, ops)) && OneLivePerPath(RunAll(NO_SHARES, ops))
  {
    DisciplinedRuns(NO_SHARES, ops);
    OneLiveExactlyWhen(NO_SHARES, ops);
    OneLiveAtEnd(NO_SHARES, ops);
  }

  /** Over all disciplined runs there is at most one active live share per path, so a
      preview and an applied publish of the same path, which each pick one, pick the same. */
  lemma PublishIsDeterminate(ops: seq<Op>, path: string, previewed: Action, applied: Action)
    requires CanRunAll(NO_SHARES, ops) && DisciplinedRun(NO_SHARES, ops)
    requires var w := RunAll(NO_SHARES, ops);
      forall action :: action in {previewed, applied} ==>
        (action == CreateAction <==> LiveAt(w.table, path, w.now) == {}) &&
        (action.RenewAction? ==> action.id in LiveAt(w.table, path, w.now))
    ensures var w := RunAll(NO_SHARES, ops); |LiveAt(w.table, path, w.now)| <= 1
    ensures previewed == applied
  {
    DisciplinedEnd(ops);
    var w := RunAll(NO_SHARES, ops);
    var live := LiveAt(w.table, path, w.now);
    if live != {} {
      var id :| id in live;
      OnlyOne(w, id);
    }
    assert previewed in {previewed, applied} && applied in {previewed, applied};
  }

  /** Republishing a path, at a moment when it has an active live share, keeps that
      share's id and leaves it the path's only active live share. */
  lemma RepublishKeepsId(ops: seq<Op>, p: Publishing, granted: int, action: Action, id: string)
    requires CanRunAll(NO_SHARES, ops) && DisciplinedRun(NO_SHARES, ops)
    requires var w := RunAll(NO_SHARES, ops);
      CanRun(w, PublishOp(p, granted, action, false)) && p.mode == Live &&
      id in LiveAt(w.table, p.sharePath, w.now) && granted >= SECOND
    ensures action == RenewAction(id)
    ensures var w := RunAll(NO_SHARES, ops);
      LiveAt(RunOp(w, PublishOp(p, granted, action, false)).table, p.sharePath, w.now) == {id}
  {
    DisciplinedEnd(ops);
    var w := RunAll(NO_SHARES, ops);
    assert LiveRow(w, action.id) && LiveRow(w, id);
    RenewedAlone(w, id, w.now + granted);
  }

  lemma RenewedAlone(w: World, id: string, expiresAt: int)
    requires Sound(w) && OneLivePerPath(w) && LiveRow(w, id) && expiresAt >= w.now + SECOND
    ensures LiveAt(Exec(w.table, Renew(id, expiresAt)), w.table[id].sourcePath, w.now) == {id}
  {
    var table := Exec(w.table, Renew(id, expiresAt));
    CreatedIsActive(w.now, expiresAt - w.now);
    assert table[id] == w.table[id].(expiresAt := Unix(expiresAt));
    assert forall other :: other in w.table && other != id ==> table[other] == w.table[other];
    forall other | other in LiveAt(table, w.table[id].sourcePath, w.now) ensures other == id {
      assert other == id || LiveRow(w, other);
    }
  }

  /** Why publishes must ask for the path the daemon stores: otherwise each one creates
      another active live share of the stored path, since none is found under the asked. */
  lemma UnstoredPathIsPublishedAgain(w: World, p: Publishing, q: Publishing, granted: int)
    requires Sound(w)
    requires p.mode == Live && q.mode == Live && q.sharePath == p.sharePath
    requires StoredPath(p.sharePath) != p.sharePath && p.id != q.id && q.id !in w.used
    requires CanRun(w, PublishOp(p, granted, CreateAction, true)) && granted >= SECOND
    ensures var w1 := RunOp(w, PublishOp(p, granted, CreateAction, true));
      CanRun(w1, PublishOp(q, granted, CreateAction, true)) &&
      {p.id, q.id} <= LiveAt(RunOp(w1, PublishOp(q, granted, CreateAction, true)).table, StoredPath(p.sharePath), w.now)
  {
    var w1 := RunOp(w, PublishOp(p, granted, CreateAction, true));
    forall id | id in ActiveIds(w1.table, w1.now) ensures id !in LiveAt(w1.table, q.sharePath, w1.now) {
      assert id != p.id ==> id in ActiveIds(w.table, w.now) && id !in LiveAt(w.table, p.sharePath, w.now);
    }
    CreatedIsActive(w.now, granted);
  }

  /** Why the clock must not go back: a live share expires, its path is published anew,
      and at the earlier instant both are active. Nothing is renewed. */
  lemma BackwardClockDuplicates(w: World, expired: string, p: Publishing, granted: int, earlier: int)
    requires Sound(w) && OneLivePerPath(w) && CanRun(w, PublishOp(p, granted, CreateAction, true)) && p.mode == Live
    requires Disciplined(w, PublishOp(p, granted, CreateAction, true)) && granted >= SECOND
    requires ComesBack(w, expired, earlier) && w.table[expired].sourcePath == p.sharePath && earlier < w.now
    ensures var w1 := RunOp(w, PublishOp(p, granted, CreateAction, true));
      {expired, p.id} <= LiveAt(RunOp(w1, TickOp(earlier)).table, p.sharePath, earlier)
  {
    CreatedIsActive(w.now, granted);
  }

  /** Such a run from nothing: disciplined until the clock goes back at its end. */
  lemma BackwardClockRun(path: string) returns (ops: seq<Op>)
    requires StoredPath(path) == path
    ensures CanRunAll(NO_SHARES, ops) && DisciplinedRun(NO_SHARES, ops)
    ensures {"a", "b"} <= LiveAt(RunOp(RunAll(NO_SHARES, ops), TickOp(0)).table, path, 0)
  {
    var granted := 100 * SECOND;
    var p, q := Publishing(path, true, Live, granted, "a", ""), Publishing(path, true, Live, granted, "b", "");
    var first, second := PublishOp(p, granted, CreateAction, true), PublishOp(q, granted, CreateAction, true);
    var tick := TickOp(200 * SECOND);
    var w1 := RunOp(NO_SHARES, first);
    CreatedIsActive(0, granted);
    assert w1.table == map["a" := Stored(PublishedShare(p, 0, granted))];
    var w2 := RunOp(w1, tick);
    assert Unix(granted) == 100;
    OneLiveShrinks(NO_SHARES, w2);
    BackwardClockDuplicates(w2, "a", q, granted, 0);
    ops := [first, tick, second];
    assert ops[1..] == [tick, second] && [tick, second][1..] == [second] && [second][1..] == [];
    assert CanRunAll(w2, [second]) && DisciplinedRun(w2, [second]) && RunAll(w2, [second]) == RunOp(w2, second);
    assert CanRunAll(w1, [tick, second]) && DisciplinedRun(w1, [tick, second]);
    assert RunAll(w1, [tick, second]) == RunOp(w2, second);
    assert CanRunAll(NO_SHARES, ops) && DisciplinedRun(NO_SHARES, ops);
    assert RunAll(NO_SHARES, ops) == RunOp(w2, second);
  }

  lemma CreatedIsActive(now: int, granted: int)
    requires granted >= SECOND
    ensures Unix(now + granted) * SECOND > now
  {
    assert now + granted == Unix(now + granted) * SECOND + (now + granted) % SECOND;
  }

  /** Why only active shares may be renewed: an expired live share comes back beside the
      one that took its place. */
  lemma RenewingExpiredDuplicates(w: World, expired: string, current: string, expiresAt: int)
    requires WellKeyed(w.table) && expired in w.table && current in LiveAt(w.table, w.table[expired].sourcePath, w.now)
    requires w.table[expired].mode == Live && w.table[expired].revokedAt.None? && expired !in ActiveIds(w.table, w.now)
    requires expiresAt >= w.now + SECOND
    ensures {expired, current} <= LiveAt(Exec(w.table, Renew(expired, expiresAt)), w.table[expired].sourcePath, w.now)
  {
    CreatedIsActive(w.now, expiresAt - w.now);
  }
}
