/** The daemon's request handlers and its collector, each running on its own: every
    one of them is a run of the lifecycle's steps. */
module DaemonHandlers {
  import opened Int64
  import opened Options
  import opened ShareStore
  import opened SnapshotCopy
  import opened AbsolutePaths
  import L = Lifecycle
  import Text

  /** What becomes of the insertion of a row. The store reports an error either because
      the statement failed or because a check after it did. */
  datatype Storing = Inserted | NotInserted | InsertedWithError

  class Daemon {
    const store: Store
    const snapshotsDir: string
    const snapshotMaxBytes: int64
    var now: int
    var snapshots: map<string, seq<Out>>
    var cleanups: set<string>
    ghost var used: set<string>
    ghost var swept: set<string>
    ghost var undone: set<string>
    /** What each snapshot held when it was complete: the tree that was copied. */
    ghost var copies: map<string, seq<Out>>

    ghost predicate Valid()
      reads this, store
    {
      && store.Valid() && store.rows.Keys + snapshots.Keys + cleanups <= used
      && snapshotMaxBytes as int < MAX_INT64 && AreCopies(snapshots, copies)
    }

    /** The daemon between two requests, as a state of the lifecycle. */
    ghost function Abs(): L.State
      reads this, store
    {
      L.State(now, store.rows, snapshots.Keys, snapshots.Keys, map[], cleanups, L.Idle, used, swept, undone)
    }

    constructor (now: int, snapshotsDir: string, snapshotMaxBytes: int64)
      requires snapshotMaxBytes as int < MAX_INT64
      ensures Valid() && fresh(store)
      ensures this.snapshotsDir == snapshotsDir && this.snapshotMaxBytes == snapshotMaxBytes
      ensures Abs() == L.State(now, map[], {}, {}, map[], {}, L.Idle, {}, {}, {})
    {
      store := new Store();
      this.now, this.snapshotsDir, this.snapshotMaxBytes := now, snapshotsDir, snapshotMaxBytes;
      snapshots, cleanups := map[], {};
      used, swept, undone, copies := {}, {}, {}, map[];
    }

    method Tick(now': int)
      requires Valid()
      modifies `now
      ensures Valid() && Abs() == L.Next(old(Abs()), L.Tick(now'))
    {
      now := now';
    }

    /** The create handler, once the path is known to exist. The source is measured as
        `before` and copied as `after`; `storing` is what the store does. CreateRun says
        by which steps the daemon gets to its new state. */
    method CreateShare(
      id: string, path: string, isDir: bool, mode: Mode, seconds: int,
      before: Source, after: Source, storing: Storing)
      returns (share: Option<Share>)
      requires Valid() && id !in used && SizeFits(before)
      modifies `snapshots, `copies, `used, `undone, store
      ensures Valid()
      ensures LeavesShare(old(store.rows), old(snapshots),
        NewShare(id, path, isDir, mode, snapshotsDir, now, GrantedOnCreate(seconds)),
        Copies(before, after, isDir, mode, snapshotMaxBytes), SnapshotOf(after, Text.Base(path)), storing,
        share, store.rows, snapshots)
      ensures copies == if mode == Snapshot && SnapshotSucceeds(before, after, isDir, snapshotMaxBytes)
        then old(copies)[id := SnapshotOf(after, Text.Base(path))] else old(copies)
      ensures Abs() == AfterCreate(old(Abs()),
        NewShare(id, path, isDir, mode, snapshotsDir, now, GrantedOnCreate(seconds)),
        Copies(before, after, isDir, mode, snapshotMaxBytes), storing)
    {
      var created := NewShare(id, path, isDir, mode, snapshotsDir, now, GrantedOnCreate(seconds));
      share := Create(created, before, after, storing);
    }

    method Create(created: Share, before: Source, after: Source, storing: Storing) returns (share: Option<Share>)
      requires Valid() && created.id !in used && SizeFits(before)
      modifies `snapshots, `copies, `used, `undone, store
      ensures Valid()
      ensures LeavesShare(old(store.rows), old(snapshots), created,
        Copies(before, after, created.isDir, created.mode, snapshotMaxBytes),
        SnapshotOf(after, Text.Base(created.sourcePath)), storing, share, store.rows, snapshots)
      ensures copies == if created.mode == Snapshot && SnapshotSucceeds(before, after, created.isDir, snapshotMaxBytes)
        then old(copies)[created.id := SnapshotOf(after, Text.Base(created.sourcePath))] else old(copies)
      ensures Abs() == AfterCreate(old(Abs()), created,
        Copies(before, after, created.isDir, created.mode, snapshotMaxBytes), storing)
    {
      if created.mode == Snapshot {
        var taken := TakeSnapshot(created.id, created.sourcePath, created.isDir, before, after);
        if !taken {
          used := used + {created.id};
          return None;
        }
      }
      ghost var content := SnapshotOf(after, Text.Base(created.sourcePath));
      share := FinishCreate(created, storing, old(snapshots), content, old(Abs()));
    }

    method FinishCreate(
      created: Share, storing: Storing, ghost before: map<string, seq<Out>>, ghost content: seq<Out>, ghost s0: L.State)
      returns (share: Option<Share>)
      requires store.Valid() && store.rows.Keys + before.Keys + cleanups <= used && created.id !in used
      requires AreCopies(snapshots, copies) && snapshots == WithSnapshot(before, created, content)
      requires s0 == Abs().(dirs := before.Keys, whole := before.Keys)
      modifies `snapshots, `undone, `used, store
      ensures store.Valid() && store.rows.Keys + snapshots.Keys + cleanups <= used && AreCopies(snapshots, copies)
      ensures LeavesShare(old(store.rows), before, created, true, content, storing, share, store.rows, snapshots)
      ensures Abs() == AfterCreate(s0, created, true, storing)
    {
      share := StoreCopied(created, storing, before, content);
      StateAfterCreate(s0, Abs(), created, storing);
    }

    method TakeSnapshot(id: string, path: string, isDir: bool, before: Source, after: Source) returns (taken: bool)
      requires AreCopies(snapshots, copies) && snapshotMaxBytes as int < MAX_INT64 && SizeFits(before)
      modifies `snapshots, `copies
      ensures AreCopies(snapshots, copies)
      ensures taken <==> SnapshotSucceeds(before, after, isDir, snapshotMaxBytes)
      ensures snapshots == if taken then old(snapshots)[id := SnapshotOf(after, Text.Base(path))] else old(snapshots)
      ensures copies == if taken then old(copies)[id := SnapshotOf(after, Text.Base(path))] else old(copies)
    {
      var dir := new SnapshotDir();
      var result, limit, peak, remaining := dir.CreateSnapshot(before, after, isDir, Text.Base(path), snapshotMaxBytes);
      taken := result == Created;
      if taken {
        snapshots, copies := snapshots[id := dir.content], copies[id := dir.content];
      }
    }

    /** Inserts the row once the copy is there, and cleans up when the store reports an
        error: for a directory that takes every snapshot, not the new one alone. */
    method StoreCopied(created: Share, storing: Storing, ghost before: map<string, seq<Out>>, ghost content: seq<Out>)
      returns (share: Option<Share>)
      requires store.Valid() && store.rows.Keys + before.Keys + cleanups <= used && created.id !in used
      requires AreCopies(snapshots, copies) && snapshots == WithSnapshot(before, created, content)
      modifies `snapshots, `undone, `used, store
      ensures store.Valid() && store.rows.Keys + snapshots.Keys + cleanups <= used && AreCopies(snapshots, copies)
      ensures share == if storing == Inserted then Some(created) else None
      ensures store.rows == if storing == NotInserted then old(store.rows) else Exec(old(store.rows), Insert(created))
      ensures snapshots == if storing == Inserted then old(snapshots) else CleanedUp(before, created)
      ensures used == old(used) + {created.id}
      ensures undone == UndoneAfter(old(undone), before.Keys, created, storing)
    {
      used := used + {created.id};
      StoreRow(created, storing);
      if storing == Inserted {
        return Some(created);
      }
      if created.mode == Snapshot {
        CleanupSnapshot(created, before, content);
      }
      return None;
    }

    method StoreRow(share: Share, storing: Storing)
      requires store.Valid() && share.id !in store.rows
      modifies store
      ensures store.Valid()
      ensures store.rows == if storing == NotInserted then old(store.rows) else Exec(old(store.rows), Insert(share))
      ensures store.rows.Keys == old(store.rows).Keys + if storing == NotInserted then {} else {share.id}
    {
      if storing != NotInserted {
        var inserted := store.CreateShare(share);
      }
    }

    /** Removes what lies two levels above the snapshot's root. */
    method CleanupSnapshot(created: Share, ghost before: map<string, seq<Out>>, ghost content: seq<Out>)
      requires created.mode == Snapshot && created.id !in before
      requires AreCopies(snapshots, copies) && snapshots == WithSnapshot(before, created, content)
      modifies `snapshots, `undone
      ensures AreCopies(snapshots, copies) && snapshots == CleanedUp(before, created)
      ensures undone == UndoneAfter(old(undone), before.Keys, created, NotInserted)
    {
      undone := undone + {created.id};
      if created.isDir {
        undone, snapshots := undone + snapshots.Keys, map[];
      } else {
        snapshots := snapshots - {created.id};
        assert snapshots == before;
      }
    }

    /** The DELETE branch: revoke, and leave the removal to a goroutine. */
    method RevokeShare(id: string) returns (found: bool)
      requires Valid()
      modifies `cleanups, store
      ensures Valid() && Abs() == L.Next(old(Abs()), L.RevokeRow(id))
      ensures store.rows == Exec(old(store.rows), Revoke(id, now))
      ensures cleanups == old(cleanups) + Affected(old(store.rows), Revoke(id, now))
      ensures found <==> id in old(store.rows) && old(store.rows)[id].revokedAt.None?
    {
      found := store.RevokeShare(id, now);
      if found {
        cleanups := cleanups + {id};
      }
    }

    method RunCleanup(id: string)
      requires Valid() && id in cleanups
      modifies `snapshots, `cleanups
      ensures Valid() && Abs() == L.Next(old(Abs()), L.RunCleanup(id))
      ensures snapshots == old(snapshots) - {id}
    {
      snapshots := snapshots - {id};
      cleanups := cleanups - {id};
    }

    method RenewShare(id: string, seconds: int) returns (share: Option<Share>)
      requires Valid()
      modifies store
      ensures Valid() && Abs() == L.Next(old(Abs()), L.RenewRow(id, now + GrantedOnRenew(seconds)))
      ensures store.rows == Exec(old(store.rows), Renew(id, now + GrantedOnRenew(seconds)))
      ensures share.Some? <==> id in old(store.rows) && old(store.rows)[id].revokedAt.None?
      ensures share.Some? ==> id in store.rows && share.value == Scan(store.rows[id])
    {
      share := RenewUntil(id, now + GrantedOnRenew(seconds));
    }

    method RenewUntil(id: string, expiresAt: int) returns (share: Option<Share>)
      requires Valid()
      modifies store
      ensures Valid() && Abs() == L.Next(old(Abs()), L.RenewRow(id, expiresAt))
      ensures store.rows == Exec(old(store.rows), Renew(id, expiresAt))
      ensures share.Some? <==> id in old(store.rows) && old(store.rows)[id].revokedAt.None?
      ensures share.Some? ==> id in store.rows && share.value == Scan(store.rows[id])
    {
      var found := store.RenewShare(id, expiresAt);
      if !found {
        return None;
      }
      share := store.GetShare(id);
    }

    method ListShares() returns (shares: seq<Share>)
      requires Valid()
      ensures Lists(store.rows, ActiveIds(store.rows, now), shares) && NewestFirst(shares)
    {
      shares := store.ListShares(true, now);
    }

    method GetShare(id: string) returns (share: Option<Share>)
      requires Valid()
      ensures share == if id in store.rows then Some(Scan(store.rows[id])) else None
    {
      share := store.GetShare(id);
    }

    /** One collection: what is left is exactly the directories of active snapshots, with
        what they hold. */
    method GcSnapshots() returns (ghost steps: seq<L.Step>)
      requires Valid()
      modifies `snapshots, `swept
      ensures Valid()
      ensures snapshots == KeepOnly(old(snapshots), L.ActiveSnapshots(store.rows, now))
      ensures forall id :: id in snapshots <==>
        id in old(snapshots) && id in store.rows && store.rows[id].mode == Snapshot && IsOpen(store.rows[id], now)
      ensures forall id :: id in snapshots ==> snapshots[id] == old(snapshots)[id]
      ensures L.Reaches(old(Abs()), steps, Abs())
    {
      var shares := store.ListShares(false, now);
      var active := ActiveSnapshotIds(shares);
      steps := SweepEntries(active);
    }

    method SweepEntries(active: set<string>) returns (ghost steps: seq<L.Step>)
      requires active == L.ActiveSnapshots(store.rows, now)
      modifies `snapshots, `swept
      ensures snapshots == KeepOnly(old(snapshots), active)
      ensures L.Reaches(old(Abs()), steps, Abs())
    {
      ghost var s0 := Abs();
      var entries := snapshots.Keys;
      steps := GcPrologue(s0);
      while entries != {}
        invariant entries <= snapshots.Keys
        invariant snapshots == KeepOnly(old(snapshots), entries + active)
        invariant L.Reaches(s0, steps, Sweeping(s0, entries, snapshots.Keys, swept))
        decreases entries
      {
        var entry :| entry in entries;
        SweepOne(s0, steps, entries, snapshots.Keys, swept, entry);
        steps := steps + [L.GcEntry(entry)];
        entries := entries - {entry};
        if entry !in active {
          ghost var keys := snapshots.Keys;
          snapshots := snapshots - {entry};
          assert snapshots.Keys == keys - {entry};
          swept := swept + {entry};
        }
      }
      assert entries + active == active;
      SweepDone(s0, steps, snapshots.Keys, swept);
      steps := steps + [L.GcEnd];
    }

    method ActiveSnapshotIds(shares: seq<Share>) returns (active: set<string>)
      requires Valid() && Lists(store.rows, store.rows.Keys, shares)
      ensures active == L.ActiveSnapshots(store.rows, now)
    {
      active := {};
      for i := 0 to |shares|
        invariant forall id :: id in active <==> exists j :: 0 <= j < i && Keeps(shares[j], id, now)
      {
        if shares[i].mode == Snapshot && shares[i].IsActive(now) {
          active := active + {shares[i].id};
        }
      }
      forall id | id in store.rows ensures id in active <==> id in L.ActiveSnapshots(store.rows, now) {
        assert id in ListedIds(shares);
        var j :| 0 <= j < |shares| && shares[j].id == id;
        assert shares[j] in shares;
        assert id in L.ActiveSnapshots(store.rows, now) ==> Keeps(shares[j], id, now);
      }
      forall id | id in active ensures id in store.rows {
        var j :| 0 <= j < |shares| && Keeps(shares[j], id, now);
        assert shares[j] in shares;
      }
    }
  }

  /** These directories, with that of the share when it has one. */
  function WithSnapshot(snapshots: map<string, seq<Out>>, share: Share, content: seq<Out>): (m: map<string, seq<Out>>)
    ensures m.Keys == snapshots.Keys + if share.mode == Snapshot then {share.id} else {}
  {
    if share.mode == Snapshot then snapshots[share.id := content] else snapshots
  }

  /** The directories there were before a create, after the store failed it. */
  function CleanedUp(snapshots: map<string, seq<Out>>, share: Share): (m: map<string, seq<Out>>)
    ensures m.Keys == if share.mode == Snapshot && share.isDir then {} else snapshots.Keys
  {
    if share.mode == Snapshot && share.isDir then map[] else snapshots
  }

  /** What a create leaves: the row unless the snapshot or the statement failed; the answer
      and the snapshot directory when nothing failed; when the store failed it and the
      snapshot is of a directory, no snapshot directory at all. */
  ghost predicate LeavesShare(
    rows: Table, snapshots: map<string, seq<Out>>, created: Share, copied: bool, content: seq<Out>, storing: Storing,
    share: Option<Share>, rows': Table, snapshots': map<string, seq<Out>>)
  {
    && share == (if copied && storing == Inserted then Some(created) else None)
    && rows' == (if copied && storing != NotInserted then Exec(rows, Insert(created)) else rows)
    && snapshots' == (
      if !copied then snapshots
      else if storing == Inserted then WithSnapshot(snapshots, created, content)
      else CleanedUp(snapshots, created))
  }

  /** What LeavesShare says of an answered request, and of one whose row was not inserted. */
  lemma AnsweredIs(
    rows: Table, snapshots: map<string, seq<Out>>, created: Share, copied: bool, content: seq<Out>, storing: Storing,
    share: Option<Share>, rows': Table, snapshots': map<string, seq<Out>>)
    requires LeavesShare(rows, snapshots, created, copied, content, storing, share, rows', snapshots')
    requires created.id !in rows
    ensures share.Some? <==> copied && storing == Inserted
    ensures share.Some? ==> share == Some(created) && rows' == rows[created.id := Stored(created)]
    ensures share.Some? && created.mode == Live ==> snapshots' == snapshots
    ensures share.Some? && created.mode == Snapshot ==> snapshots' == snapshots[created.id := content]
    ensures storing == NotInserted ==> rows' == rows
  {
  }

  /** Each directory holds what its create copied, whole. */
  ghost predicate AreCopies(snapshots: map<string, seq<Out>>, copies: map<string, seq<Out>>) {
    forall id :: id in snapshots ==> id in copies && snapshots[id] == copies[id]
  }

  /** The map restricted to these keys. */
  function KeepOnly<V>(m: map<string, V>, keys: set<string>): map<string, V> {
    map id | id in m && id in keys :: m[id]
  }

  predicate Keeps(share: Share, id: string, now: int) {
    share.id == id && share.mode == Snapshot && share.IsActive(now)
  }

  /** The share a create makes; the root of its snapshot is where the copy is put. */
  function NewShare(
    id: string, path: string, isDir: bool, mode: Mode, snapshotsDir: string, now: int, granted: int): Share
  {
    var root := if mode == Snapshot then SnapshotRoot(snapshotsDir, id, isDir, Text.Base(path)) else "";
    Share(id, path, isDir, mode, root, now, now + granted, None, None)
  }

  /** The copy of a snapshot, put into the share's own directory, lies at the root that the
      row names: the first thing copied is at that place, and all else is below it. */
  lemma CopyLiesAtRoot(snapshotsDir: string, id: string, source: Source, name: string, o: Out)
    requires o in SnapshotOf(source, name)
    ensures var copy := SnapshotOf(source, name);
      && Text.JoinPath(Text.JoinPath(snapshotsDir, id), Text.Join(copy[0].path, '/')) ==
           SnapshotRoot(snapshotsDir, id, source.SourceDir?, name)
      && Under(copy[0].path, o.path)
  {
    var copy := SnapshotOf(source, name);
    if source.SourceDir? {
      if o != copy[0] {
        BelowRoot(Walkable(source), ["root"], o);
      }
    } else {
      assert ["file", name][1..] == [name];
      assert "file" + ['/'] + name == "file/" + name;
    }
  }

  lemma BelowRoot(entries: seq<Entry>, path: Path, o: Out)
    requires o in Images(entries, path)
    ensures Under(path, o.path)
  {
    match o
    case OutFile(q, content) => ImagesArePrunedTrees(entries, path, q, content);
    case OutDir(q) => ImagesArePrunedTrees(entries, path, q, []);
  }

  /** The snapshot a create asks for, if any, can be taken. */
  predicate Copies(before: Source, after: Source, isDir: bool, mode: Mode, maxBytes: int64) {
    mode == Snapshot ==> SnapshotSucceeds(before, after, isDir, maxBytes)
  }

  /** The daemon between two requests, after a create. */
  function AfterCreate(s0: L.State, share: Share, copied: bool, storing: Storing): L.State {
    var t := s0.(used := s0.used + {share.id});
    if !copied then t
    else
      var u := if storing == NotInserted then t else t.(table := Exec(s0.table, Insert(share)));
      if share.mode == Live then u
      else if storing == Inserted then u.(dirs := s0.dirs + {share.id}, whole := s0.whole + {share.id})
      else if share.isDir then u.(dirs := {}, whole := {}, undone := s0.undone + s0.dirs + {share.id})
      else u.(undone := s0.undone + {share.id})
  }

  /** The names a create leaves recorded as removed. */
  function UndoneAfter(undone: set<string>, dirs: set<string>, share: Share, storing: Storing): set<string> {
    if share.mode == Live || storing == Inserted then undone
    else undone + {share.id} + if share.isDir then dirs else {}
  }

  lemma StateAfterCreate(s0: L.State, s: L.State, share: Share, storing: Storing)
    requires s0.dirs == s0.whole && s.dirs == s.whole
    requires s.used == s0.used + {share.id}
    requires s == s0.(used := s.used, table := s.table, dirs := s.dirs, whole := s.whole, undone := s.undone)
    requires s.table == if storing == NotInserted then s0.table else Exec(s0.table, Insert(share))
    requires s.undone == UndoneAfter(s0.undone, s0.dirs, share, storing)
    requires s.dirs ==
      if share.mode == Live then s0.dirs
      else if storing == Inserted then s0.dirs + {share.id}
      else if share.isDir then {} else s0.dirs
    ensures s == AfterCreate(s0, share, true, storing)
  {
  }

  /** A create until its row is to be inserted. */
  function CopiedState(s0: L.State, share: Share): L.State {
    var t := s0.(used := s0.used + {share.id}, jobs := map[share.id := L.Ready(share)]);
    if share.mode == Live then t else t.(dirs := s0.dirs + {share.id}, whole := s0.whole + {share.id})
  }

  lemma CopiedRun(s0: L.State, share: Share) returns (steps: seq<L.Step>)
    requires s0.jobs == map[] && L.Enabled(s0, L.BeginCreate(share))
    ensures L.Reaches(s0, steps, CopiedState(s0, share))
  {
    var begin, end := L.BeginCreate(share), L.EndCopy(share.id, true);
    if share.mode == Live {
      L.ReachesOne(s0, begin);
      steps := [begin];
    } else {
      L.ReachesTwo(s0, begin, end);
      steps := [begin, end];
    }
  }

  lemma StoringRun(s0: L.State, share: Share, storing: Storing) returns (steps: seq<L.Step>)
    requires s0.jobs == map[] && s0.dirs == s0.whole && share.id !in s0.dirs
    ensures L.Reaches(CopiedState(s0, share), steps, AfterCreate(s0, share, true, storing))
  {
    var s1, insert := CopiedState(s0, share), L.InsertRow(share.id, storing == InsertedWithError);
    assert s1.jobs - {share.id} == map[];
    if storing == NotInserted {
      CleanupOfCreate(s0, s1.(jobs := map[]), share);
      L.ReachesOne(s1, L.FailInsert(share.id));
      steps := [L.FailInsert(share.id)];
    } else if storing == Inserted {
      L.ReachesOne(s1, insert);
      steps := [insert];
    } else {
      var s2 := L.Next(s1, insert);
      assert s2.jobs - {share.id} == map[];
      CleanupOfCreate(s0, s2.(jobs := map[]), share);
      L.ReachesTwo(s1, insert, L.UndoCreate(share.id));
      steps := [insert, L.UndoCreate(share.id)];
    }
  }

  lemma CleanupOfCreate(s0: L.State, t: L.State, share: Share)
    requires s0.jobs == t.jobs == map[] && s0.dirs == s0.whole && share.id !in s0.dirs && t.undone == s0.undone
    requires t.dirs == t.whole == s0.dirs + if share.mode == Snapshot then {share.id} else {}
    ensures L.Cleanup(t, share) ==
      if share.mode == Live then t
      else if share.isDir then t.(dirs := {}, whole := {}, undone := s0.undone + s0.dirs + {share.id})
      else t.(dirs := s0.dirs, whole := s0.dirs, undone := s0.undone + {share.id})
  {
    if share.mode == Snapshot && share.isDir {
      assert L.WipeDirs(t).undone == t.undone + t.dirs;
    } else {
      assert s0.dirs + {share.id} - {share.id} == s0.dirs;
    }
  }

  /** What a create does to the daemon, it does by the lifecycle's steps. */
  lemma CreateRun(s0: L.State, share: Share, copied: bool, storing: Storing) returns (steps: seq<L.Step>)
    requires s0.jobs == map[] && s0.dirs == s0.whole <= s0.used && L.Enabled(s0, L.BeginCreate(share))
    requires share.mode == Live ==> copied
    ensures L.Reaches(s0, steps, AfterCreate(s0, share, copied, storing))
  {
    if !copied {
      var begin, fail := L.BeginCreate(share), L.FailCopy(share.id);
      L.ReachesTwo(s0, begin, fail);
      assert L.Next(s0, begin).jobs - {share.id} == map[] && s0.dirs + {share.id} - {share.id} == s0.dirs;
      assert s0.whole - {share.id} == s0.whole;
      steps := [begin, fail];
    } else {
      var begin := CopiedRun(s0, share);
      var end := StoringRun(s0, share, storing);
      L.ReachesConcat(s0, begin, CopiedState(s0, share), end, AfterCreate(s0, share, true, storing));
      steps := begin + end;
    }
  }

  function Sweeping(s0: L.State, entries: set<string>, dirs: set<string>, swept: set<string>): L.State {
    s0.(gc := L.Sweeping(s0.now, s0.table, entries), dirs := dirs, whole := dirs, swept := swept)
  }

  lemma SweepOne(
    s0: L.State, steps: seq<L.Step>, entries: set<string>, dirs: set<string>, swept: set<string>, entry: string)
    requires entry in entries && s0.jobs == map[]
    requires L.Reaches(s0, steps, Sweeping(s0, entries, dirs, swept))
    ensures L.Reaches(s0, steps + [L.GcEntry(entry)],
      if entry in L.ActiveSnapshots(s0.table, s0.now) then Sweeping(s0, entries - {entry}, dirs, swept)
      else Sweeping(s0, entries - {entry}, dirs - {entry}, swept + {entry}))
  {
    L.RunAppend(s0, steps, L.GcEntry(entry));
  }

  lemma SweepDone(s0: L.State, steps: seq<L.Step>, dirs: set<string>, swept: set<string>)
    requires s0.gc == L.Idle && L.Reaches(s0, steps, Sweeping(s0, {}, dirs, swept))
    ensures L.Reaches(s0, steps + [L.GcEnd], s0.(dirs := dirs, whole := dirs, swept := swept))
  {
    L.RunAppend(s0, steps, L.GcEnd);
  }

  /** The collector's first steps: start, list, read the directory. */
  lemma GcPrologue(s0: L.State) returns (steps: seq<L.Step>)
    requires s0.gc == L.Idle
    ensures L.Reaches(s0, steps, s0.(gc := L.Sweeping(s0.now, s0.table, s0.dirs)))
  {
    L.ReachesTwo(s0, L.GcStart, L.GcList);
    L.RunAppend(s0, [L.GcStart, L.GcList], L.GcReadDir);
    steps := [L.GcStart, L.GcList] + [L.GcReadDir];
  }
}
