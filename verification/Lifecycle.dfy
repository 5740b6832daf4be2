/** Snapshot directories against the table of shares, while requests, cleanups and
    the garbage collector interleave. Each SQL statement and each removal of a
    directory is one step; the collector lists, reads the directory, then deletes
    entry by entry. */
module Lifecycle {
  import opened Options
  import opened ShareStore

  /** A create request between generating its id and answering. A copy is damaged when
      its directory was removed under it. A failing request has its row written and an
      error to report, so it is about to remove its directory. */
  datatype Job = Copying(share: Share, damaged: bool) | Ready(share: Share) | Failing(share: Share)

  datatype Gc =
    | Idle
    | Started(now: int)
    | Listed(now: int, listed: Table)
    | Sweeping(now: int, listed: Table, entries: set<string>)

  /** `dirs` are the directories present, `whole` those holding a complete snapshot.
      `used` are all names given out so far. `swept` are the names the collector removed
      after their copy had ended, and those whose copy did not end whole because its
      directory was removed under it; `undone` those a failing request removed. */
  datatype State = State(
    now: int, table: Table, dirs: set<string>, whole: set<string>, jobs: map<string, Job>,
    cleanups: set<string>, gc: Gc, used: set<string>, swept: set<string>, undone: set<string>)

  datatype Step =
    | Tick(now: int)
    | BeginCreate(share: Share)
    | RemakeDir(id: string)
    | EndCopy(id: string, whole: bool)
    | FailCopy(id: string)
    | InsertRow(id: string, failing: bool)
    | FailInsert(id: string)
    | UndoCreate(id: string)
    | RevokeRow(id: string)
    | RunCleanup(id: string)
    | RenewRow(id: string, expiresAt: int)
    | TouchRow(id: string)
    | GcStart
    | GcList
    | GcReadDir
    | GcEntry(id: string)
    | GcEnd

  function ActiveSnapshots(table: Table, now: int): set<string> {
    set id | id in table && table[id].mode == Snapshot && Scan(table[id]).IsActive(now)
  }

  /** What the collector's listing showed active, at the instant it was started with. */
  function ShownActive(gc: Gc): set<string> {
    if gc.Listed? || gc.Sweeping? then ActiveSnapshots(gc.listed, gc.now) else {}
  }

  function RemoveDir(s: State, id: string): State {
    s.(dirs := s.dirs - {id}, whole := s.whole - {id},
       jobs := if id in s.jobs && s.jobs[id].Copying? then s.jobs[id := s.jobs[id].(damaged := true)] else s.jobs)
  }

  /** The whole directory of snapshots removed, with everything in it. */
  function WipeDirs(s: State): State {
    s.(dirs := {}, whole := {},
       jobs := map id | id in s.jobs :: if s.jobs[id].Copying? then s.jobs[id].(damaged := true) else s.jobs[id],
       undone := s.undone + (set id | id in s.dirs && !(id in s.jobs && s.jobs[id].Copying?)))
  }

  /** What a failing request does about the snapshot of its share: it removes what lies
      two levels above the snapshot's root. For a file, whose copy is under `file`, that
      is the share's own directory. For a directory, whose copy is the root itself, it is
      the directory of all snapshots. */
  function Cleanup(s: State, share: Share): State {
    if share.mode == Live then s
    else
      var t := if share.isDir then WipeDirs(s) else RemoveDir(s, share.id);
      t.(undone := t.undone + {share.id})
  }

  function ExecSql(s: State, stmt: Statement): State {
    s.(table := Exec(s.table, stmt))
  }

  predicate Enabled(s: State, step: Step) {
    match step
    case BeginCreate(share) => share.id !in s.used && share.revokedAt.None? && share.lastServedAt.None?
    case RemakeDir(id) => id in s.jobs && s.jobs[id].Copying? && s.jobs[id].damaged
    case EndCopy(id, whole) =>
      id in s.jobs && s.jobs[id].Copying? && (if whole then id in s.dirs else s.jobs[id].damaged)
    case FailCopy(id) => id in s.jobs && s.jobs[id].Copying?
    case InsertRow(id, _) => id in s.jobs && s.jobs[id].Ready?
    case FailInsert(id) => id in s.jobs && s.jobs[id].Ready?
    case UndoCreate(id) => id in s.jobs && s.jobs[id].Failing?
    case RunCleanup(id) => id in s.cleanups
    case GcStart => s.gc.Idle?
    case GcList => s.gc.Started?
    case GcReadDir => s.gc.Listed?
    case GcEntry(id) => s.gc.Sweeping? && id in s.gc.entries
    case GcEnd => s.gc.Sweeping? && s.gc.entries == {}
    case _ => true
  }

  /** The collector removing a directory its listing does not protect. */
  function SweepDir(s: State, id: string): State {
    if id in s.jobs && s.jobs[id].Copying? then RemoveDir(s, id)
    else RemoveDir(s, id).(swept := s.swept + {id})
  }

  function Next(s: State, step: Step): State
    requires Enabled(s, step)
  {
    match step
    case Tick(now) => s.(now := now)
    case BeginCreate(share) =>
      var t := s.(used := s.used + {share.id});
      if share.mode == Live then t.(jobs := s.jobs[share.id := Ready(share)])
      else t.(jobs := s.jobs[share.id := Copying(share, false)], dirs := s.dirs + {share.id})
    case RemakeDir(id) => s.(dirs := s.dirs + {id})
    case EndCopy(id, whole) =>
      var t := s.(jobs := s.jobs[id := Ready(s.jobs[id].share)]);
      if whole then t.(whole := s.whole + {id}) else t.(swept := s.swept + {id})
    case FailCopy(id) => RemoveDir(s.(jobs := s.jobs - {id}), id)
    case InsertRow(id, failing) =>
      var share := s.jobs[id].share;
      ExecSql(s, Insert(share)).(jobs := if failing then s.jobs[id := Failing(share)] else s.jobs - {id})
    case FailInsert(id) => Cleanup(s.(jobs := s.jobs - {id}), s.jobs[id].share)
    case UndoCreate(id) => Cleanup(s.(jobs := s.jobs - {id}), s.jobs[id].share)
    case RevokeRow(id) =>
      ExecSql(s, Revoke(id, s.now)).(cleanups := s.cleanups + Affected(s.table, Revoke(id, s.now)))
    case RunCleanup(id) => RemoveDir(s, id).(cleanups := s.cleanups - {id})
    case RenewRow(id, expiresAt) => ExecSql(s, Renew(id, expiresAt))
    case TouchRow(id) => ExecSql(s, Touch(id, s.now))
    case GcStart => s.(gc := Started(s.now))
    case GcList => s.(gc := Listed(s.gc.now, s.table))
    case GcReadDir => s.(gc := Sweeping(s.gc.now, s.gc.listed, s.dirs))
    case GcEntry(id) =>
      var t := s.(gc := s.gc.(entries := s.gc.entries - {id}));
      if id in ShownActive(s.gc) then t else SweepDir(t, id)
    case GcEnd => s.(gc := Idle)
  }

  predicate IsRun(s: State, steps: seq<Step>)
    decreases |steps|
  {
    steps == [] || (Enabled(s, steps[0]) && IsRun(Next(s, steps[0]), steps[1..]))
  }

  function After(s: State, steps: seq<Step>): State
    requires IsRun(s, steps)
    decreases |steps|
  {
    if steps == [] then s else After(Next(s, steps[0]), steps[1..])
  }

  /** The steps lead from one state to the other. */
  predicate Reaches(s: State, steps: seq<Step>, s': State) {
    IsRun(s, steps) && After(s, steps) == s'
  }

  lemma {:induction false} RunAppend(s: State, steps: seq<Step>, step: Step)
    requires IsRun(s, steps) && Enabled(After(s, steps), step)
    ensures IsRun(s, steps + [step]) && After(s, steps + [step]) == Next(After(s, steps), step)
    decreases |steps|
  {
    if steps != [] {
      assert (steps + [step])[1..] == steps[1..] + [step];
      RunAppend(Next(s, steps[0]), steps[1..], step);
    } else {
      assert steps + [step] == [step] && [step][1..] == [];
    }
  }

  /** A daemon that has just started, on whatever state an earlier one left behind: a
      stored, unrevoked snapshot share has its complete directory or lost it then. */
  ghost predicate Initial(s: State) {
    && WellKeyed(s.table) && s.jobs == map[] && s.cleanups == {} && s.gc == Idle && s.undone == {}
    && s.table.Keys + s.dirs + s.swept <= s.used && s.whole <= s.dirs && s.whole !! s.swept
    && Accounted(s)
  }

  /** A stored share whose snapshot should be there: not revoked, in snapshot mode. */
  predicate Unrevoked(table: Table, id: string) {
    id in table && table[id].mode == Snapshot && table[id].revokedAt.None?
  }

  // ------------------------------------------------------------- every interleaving

  /** The collector or a failing request took the directory of this name. */
  predicate Removed(s: State, id: string) {
    id in s.swept || id in s.undone
  }

  ghost predicate JobOk(s: State, id: string)
    requires id in s.jobs
  {
    var job := s.jobs[id];
    && job.share.id == id && id in s.used
    && job.share.revokedAt.None? && job.share.lastServedAt.None?
    && (if job.Failing? then id in s.table else id !in s.table && id !in s.cleanups)
    && (job.Copying? ==>
        job.share.mode == Snapshot && !Removed(s, id) && id !in s.whole && (!job.damaged ==> id in s.dirs))
    && (job.share.mode == Snapshot && job.Ready? ==> id in s.whole || Removed(s, id))
  }

  ghost predicate JobsOk(s: State) {
    forall id :: id in s.jobs ==> JobOk(s, id)
  }

  ghost predicate NamesOk(s: State) {
    && s.table.Keys + s.dirs + s.swept + s.undone <= s.used
    && s.whole <= s.dirs && s.whole !! s.swept && s.whole !! s.undone
    && (forall id :: id in s.cleanups ==> id in s.table && s.table[id].revokedAt.Some?)
  }

  ghost predicate GcOk(s: State) {
    && (s.gc.Listed? || s.gc.Sweeping? ==> Evolves(s.gc.listed, s.table) && WellKeyed(s.gc.listed))
    && (s.gc.Sweeping? ==> s.gc.entries <= s.used)
  }

  ghost predicate Consistent(s: State) {
    WellKeyed(s.table) && NamesOk(s) && JobsOk(s) && GcOk(s)
  }

  lemma ExecKeeps(table: Table, stmt: Statement)
    requires WellKeyed(table)
    ensures WellKeyed(Exec(table, stmt)) && Evolves(table, Exec(table, stmt))
    ensures !stmt.Insert? ==> Exec(table, stmt).Keys == table.Keys
  {
  }

  lemma EvolvesTransitive(a: Table, b: Table, c: Table)
    requires Evolves(a, b) && Evolves(b, c)
    ensures Evolves(a, c)
  {
  }

  lemma ConsistentSql(s: State, stmt: Statement)
    requires Consistent(s) && !stmt.Insert?
    ensures Consistent(ExecSql(s, stmt))
  {
    ExecKeeps(s.table, stmt);
    if s.gc.Listed? || s.gc.Sweeping? {
      EvolvesTransitive(s.gc.listed, s.table, Exec(s.table, stmt));
    }
  }

  lemma ConsistentInsert(s: State, id: string, failing: bool)
    requires Consistent(s) && Enabled(s, InsertRow(id, failing))
    ensures Consistent(Next(s, InsertRow(id, failing)))
  {
    var stmt := Insert(s.jobs[id].share);
    assert JobOk(s, id);
    ExecKeeps(s.table, stmt);
    var s' := Next(s, InsertRow(id, failing));
    forall other | other in s'.jobs ensures JobOk(s', other) {
      assert JobOk(s, other);
    }
    if s.gc.Listed? || s.gc.Sweeping? {
      EvolvesTransitive(s.gc.listed, s.table, Exec(s.table, stmt));
    }
  }

  lemma ConsistentBegin(s: State, share: Share)
    requires Consistent(s) && Enabled(s, BeginCreate(share))
    ensures Consistent(Next(s, BeginCreate(share)))
  {
    var s' := Next(s, BeginCreate(share));
    forall other | other in s'.jobs ensures JobOk(s', other) {
      assert other in s.jobs ==> JobOk(s, other);
    }
  }

  lemma ConsistentCopyStep(s: State, step: Step)
    requires Consistent(s) && Enabled(s, step) && (step.RemakeDir? || step.EndCopy?)
    ensures Consistent(Next(s, step))
  {
    assert JobOk(s, step.id);
    var s' := Next(s, step);
    forall other | other in s'.jobs ensures JobOk(s', other) {
      assert JobOk(s, other);
    }
  }

  /** Removing a directory, when the request it belongs to, if any, is still copying or
      is given up, or the removal is recorded. */
  lemma ConsistentRemove(s: State, id: string)
    requires Consistent(s)
    requires id in s.jobs ==> s.jobs[id].Copying? || s.jobs[id].Failing? || Removed(s, id)
    ensures Consistent(RemoveDir(s, id))
  {
    var s' := RemoveDir(s, id);
    forall other | other in s'.jobs ensures JobOk(s', other) {
      assert JobOk(s, other);
    }
  }

  lemma ConsistentDrop(s: State, id: string)
    requires Consistent(s) && id in s.used
    ensures Consistent(RemoveDir(s.(jobs := s.jobs - {id}), id))
  {
    var t := s.(jobs := s.jobs - {id});
    forall other | other in t.jobs ensures JobOk(t, other) {
      assert JobOk(s, other);
    }
    ConsistentRemove(t, id);
  }

  lemma ConsistentWipe(s: State)
    requires Consistent(s)
    ensures Consistent(WipeDirs(s))
  {
    var s' := WipeDirs(s);
    forall other | other in s'.jobs ensures JobOk(s', other) {
      assert JobOk(s, other);
    }
  }

  lemma ConsistentRecord(s: State, id: string)
    requires Consistent(s) && id in s.used && id !in s.whole && id !in s.jobs
    ensures Consistent(s.(undone := s.undone + {id}))
  {
    var s' := s.(undone := s.undone + {id});
    forall other | other in s'.jobs ensures JobOk(s', other) {
      assert JobOk(s, other);
    }
  }

  lemma ConsistentUndo(s: State, id: string)
    requires Consistent(s) && id in s.jobs
    ensures Consistent(Cleanup(s.(jobs := s.jobs - {id}), s.jobs[id].share))
  {
    assert JobOk(s, id);
    var t := s.(jobs := s.jobs - {id});
    forall other | other in t.jobs ensures JobOk(t, other) {
      assert JobOk(s, other);
    }
    if s.jobs[id].share.mode == Snapshot {
      if s.jobs[id].share.isDir {
        ConsistentWipe(t);
        ConsistentRecord(WipeDirs(t), id);
      } else {
        ConsistentRemove(t, id);
        ConsistentRecord(RemoveDir(t, id), id);
      }
    }
  }

  lemma ConsistentSweep(s: State, id: string)
    requires Consistent(s) && id in s.used
    ensures Consistent(SweepDir(s, id))
  {
    if id in s.jobs && s.jobs[id].Copying? {
      ConsistentRemove(s, id);
    } else {
      var s' := SweepDir(s, id);
      forall other | other in s'.jobs ensures JobOk(s', other) {
        assert JobOk(s, other);
      }
    }
  }

  lemma ConsistentCleanup(s: State, id: string)
    requires Consistent(s) && id in s.cleanups
    ensures Consistent(Next(s, RunCleanup(id)))
  {
    assert id in s.jobs ==> JobOk(s, id);
    ConsistentRemove(s, id);
    var t, s' := RemoveDir(s, id), Next(s, RunCleanup(id));
    forall other | other in s'.jobs ensures JobOk(s', other) {
      assert JobOk(t, other);
    }
  }

  lemma ConsistentGc(s: State, step: Step)
    requires Consistent(s) && Enabled(s, step)
    requires step.Tick? || step.GcStart? || step.GcList? || step.GcReadDir? || step.GcEntry? || step.GcEnd?
    ensures Consistent(Next(s, step))
  {
    var t := if step.GcEntry? then s.(gc := s.gc.(entries := s.gc.entries - {step.id})) else Next(s, step);
    forall other | other in t.jobs ensures JobOk(t, other) {
      assert JobOk(s, other);
    }
    if step.GcEntry? && step.id !in ShownActive(s.gc) {
      ConsistentSweep(t, step.id);
    }
  }

  lemma ConsistentStep(s: State, step: Step)
    requires Consistent(s) && Enabled(s, step)
    ensures Consistent(Next(s, step))
  {
    match step
    case BeginCreate(share) => ConsistentBegin(s, share);
    case RemakeDir(_) => ConsistentCopyStep(s, step);
    case EndCopy(_, _) => ConsistentCopyStep(s, step);
    case FailCopy(id) =>
      assert JobOk(s, id);
      ConsistentDrop(s, id);
    case InsertRow(id, failing) => ConsistentInsert(s, id, failing);
    case FailInsert(id) => ConsistentUndo(s, id);
    case UndoCreate(id) => ConsistentUndo(s, id);
    case RevokeRow(id) => ConsistentRevoke(s, id);
    case RunCleanup(id) => ConsistentCleanup(s, id);
    case RenewRow(id, expiresAt) => ConsistentSql(s, Renew(id, expiresAt));
    case TouchRow(id) => ConsistentSql(s, Touch(id, s.now));
    case _ => ConsistentGc(s, step);
  }

  lemma ConsistentRevoke(s: State, id: string)
    requires Consistent(s)
    ensures Consistent(Next(s, RevokeRow(id)))
  {
    var stmt := Revoke(id, s.now);
    ConsistentSql(s, stmt);
    var t, s' := ExecSql(s, stmt), Next(s, RevokeRow(id));
    forall other | other in s'.jobs ensures JobOk(s', other) {
      assert JobOk(t, other) && JobOk(s, other);
    }
  }

  lemma {:induction false} ConsistentRun(s: State, steps: seq<Step>)
    requires Consistent(s) && IsRun(s, steps)
    ensures Consistent(After(s, steps))
    decreases |steps|
  {
    if steps != [] {
      ConsistentStep(s, steps[0]);
      ConsistentRun(Next(s, steps[0]), steps[1..]);
    }
  }

  /** The step removes the directory of all snapshots. */
  predicate WipesAll(s: State, step: Step)
    requires Enabled(s, step)
  {
    (step.FailInsert? || step.UndoCreate?) && s.jobs[step.id].share.mode == Snapshot && s.jobs[step.id].share.isDir
  }

  /** Whatever interleaves, the complete directory of a stored, unrevoked snapshot share
      is taken away by three kinds of step and no other: the collector reaching it after a
      listing in which the share was absent or already expired, the request that failed
      after its row was written, and any failing request for a directory snapshot. */
  lemma OnlyGcAndUndoLoseSnapshots(s0: State, steps: seq<Step>, step: Step, id: string)
    requires Initial(s0) && IsRun(s0, steps) && Enabled(After(s0, steps), step)
    requires id in After(s0, steps).whole && Unrevoked(Next(After(s0, steps), step).table, id)
    ensures var s := After(s0, steps);
      id !in Next(s, step).whole <==>
        || (step == GcEntry(id) && id !in ShownActive(s.gc))
        || (step == UndoCreate(id) && s.jobs[id].share.mode == Snapshot)
        || WipesAll(s, step)
    ensures var gc := After(s0, steps).gc;
      step == GcEntry(id) && id !in ShownActive(gc) && id in gc.listed ==> Scan(gc.listed[id]).expiresAt <= gc.now
  {
    ConsistentRun(s0, steps);
    LosesWhole(After(s0, steps), step, id);
  }

  lemma LosesWhole(s: State, step: Step, id: string)
    requires Consistent(s) && Enabled(s, step) && id in s.whole && Unrevoked(Next(s, step).table, id)
    ensures id !in Next(s, step).whole <==>
        || (step == GcEntry(id) && id !in ShownActive(s.gc))
        || (step == UndoCreate(id) && s.jobs[id].share.mode == Snapshot)
        || WipesAll(s, step)
  {
    assert step.FailCopy? || step.FailInsert? || step.EndCopy? ==> JobOk(s, step.id);
  }

  /** A copy whose directory was removed under it makes it anew, and what it then leaves is
      a directory that holds a part of the source only. */
  lemma DamagedCopyStaysPartial(s: State, id: string)
    requires Consistent(s) && id in s.jobs && s.jobs[id].Copying? && s.jobs[id].damaged
    ensures IsRun(s, [RemakeDir(id), EndCopy(id, false)])
    ensures var t := After(s, [RemakeDir(id), EndCopy(id, false)]); id in t.dirs && id !in t.whole && Removed(t, id)
  {
    assert JobOk(s, id);
    ReachesTwo(s, RemakeDir(id), EndCopy(id, false));
  }

  /** A stored, unrevoked snapshot share has its complete directory or it was removed. */
  ghost predicate Accounted(s: State) {
    forall id :: Unrevoked(s.table, id) ==> id in s.whole || Removed(s, id)
  }

  lemma AccountedStep(s: State, step: Step)
    requires Consistent(s) && Enabled(s, step) && Accounted(s)
    ensures Accounted(Next(s, step))
  {
    var s' := Next(s, step);
    if step.EndCopy? || step.FailCopy? || step.InsertRow? || step.FailInsert? {
      assert JobOk(s, step.id);
    }
    forall id | Unrevoked(s'.table, id) ensures id in s'.whole || Removed(s', id) {
      if id in s.table {
        assert Unrevoked(s.table, id);
        assert id in s.jobs ==> JobOk(s, id);
      }
    }
  }

  lemma {:induction false} AccountedRun(s: State, steps: seq<Step>)
    requires Consistent(s) && IsRun(s, steps) && Accounted(s)
    ensures Accounted(After(s, steps))
    decreases |steps|
  {
    if steps != [] {
      ConsistentStep(s, steps[0]);
      AccountedStep(s, steps[0]);
      AccountedRun(Next(s, steps[0]), steps[1..]);
    }
  }

  /** At the end of any run, a stored and unrevoked snapshot share has its complete
      directory exactly when neither the collector nor a failing request took it. */
  lemma WholeUnlessRemoved(s0: State, steps: seq<Step>, id: string)
    requires Initial(s0) && IsRun(s0, steps) && Unrevoked(After(s0, steps).table, id)
    ensures var s := After(s0, steps); id in s.whole <==> !Removed(s, id)
  {
    ConsistentRun(s0, steps);
    AccountedRun(s0, steps);
  }

  // ----------------------------------------------- runs that keep every active snapshot

  /** Every active snapshot share has its complete directory. */
  predicate AllWhole(s: State) {
    ActiveSnapshots(s.table, s.now) <= s.whole
  }

  predicate AllWholeThroughout(s: State, steps: seq<Step>)
    requires IsRun(s, steps)
    decreases |steps|
  {
    AllWhole(s) && (steps == [] || AllWholeThroughout(Next(s, steps[0]), steps[1..]))
  }

  /** A stored, unrevoked snapshot share whose directory was removed. */
  predicate IsLost(s: State, id: string) {
    Unrevoked(s.table, id) && Removed(s, id)
  }

  /** The step makes no share active whose directory was removed, and takes no active
      share's directory. */
  predicate Harmless(s: State, step: Step)
    requires Enabled(s, step)
  {
    match step
    case Tick(now) => forall id | id in s.swept + s.undone && IsLost(s, id) :: Scan(s.table[id]).expiresAt <= now
    case InsertRow(id, _) =>
      var share := s.jobs[id].share;
      share.mode == Live || !Removed(s, id) || Unix(share.expiresAt) * SECOND <= s.now
    case FailInsert(id) => WipesAll(s, step) ==> ActiveSnapshots(s.table, s.now) == {}
    case UndoCreate(id) =>
      if WipesAll(s, step) then ActiveSnapshots(s.table, s.now) == {}
      else s.jobs[id].share.mode == Snapshot ==> id !in ActiveSnapshots(s.table, s.now)
    case RenewRow(id, expiresAt) => IsLost(s, id) ==> Unix(expiresAt) * SECOND <= s.now
    case GcEntry(id) => id in ShownActive(s.gc) || id !in ActiveSnapshots(s.table, s.now)
    case _ => true
  }

  predicate HarmlessRun(s: State, steps: seq<Step>)
    requires IsRun(s, steps)
    decreases |steps|
  {
    steps == [] || (Harmless(s, steps[0]) && HarmlessRun(Next(s, steps[0]), steps[1..]))
  }

  lemma HarmlessTick(s: State, now: int)
    requires Consistent(s) && Accounted(s) && AllWhole(s)
    ensures AllWhole(Next(s, Tick(now))) <==> Harmless(s, Tick(now))
  {
    if AllWhole(Next(s, Tick(now))) {
      forall id | id in s.swept + s.undone && IsLost(s, id) ensures Scan(s.table[id]).expiresAt <= now {
        assert id !in ActiveSnapshots(s.table, now);
      }
    }
    if Harmless(s, Tick(now)) {
      forall id | id in ActiveSnapshots(s.table, now) ensures id in s.whole {
        assert Unrevoked(s.table, id);
        assert id in s.swept + s.undone ==> !IsLost(s, id);
      }
    }
  }

  lemma HarmlessSql(s: State, stmt: Statement)
    requires Consistent(s) && Accounted(s) && AllWhole(s) && !stmt.Insert?
    ensures !stmt.Renew? ==> AllWhole(ExecSql(s, stmt))
    ensures stmt.Renew? ==>
      (AllWhole(ExecSql(s, stmt)) <==> (IsLost(s, stmt.id) ==> Unix(stmt.expiresAt) * SECOND <= s.now))
  {
    var s' := ExecSql(s, stmt);
    forall id | id in ActiveSnapshots(s'.table, s.now) && id !in s'.whole
      ensures stmt.Renew? && stmt.id == id && IsLost(s, id) && Unix(stmt.expiresAt) * SECOND > s.now
    {
      assert id !in ActiveSnapshots(s.table, s.now);
      assert stmt.Renew? ==> Unrevoked(s.table, id);
    }
    if stmt.Renew? && IsLost(s, stmt.id) && Unix(stmt.expiresAt) * SECOND > s.now {
      assert stmt.id in ActiveSnapshots(s'.table, s.now);
    }
  }

  lemma HarmlessInsert(s: State, id: string, failing: bool)
    requires Consistent(s) && AllWhole(s) && Enabled(s, InsertRow(id, failing))
    ensures AllWhole(Next(s, InsertRow(id, failing))) <==> Harmless(s, InsertRow(id, failing))
  {
    assert JobOk(s, id);
    var s' := Next(s, InsertRow(id, failing));
    assert forall other :: other in s.table ==> s'.table[other] == s.table[other];
    assert id in ActiveSnapshots(s'.table, s.now) <==>
      s.jobs[id].share.mode == Snapshot && Unix(s.jobs[id].share.expiresAt) * SECOND > s.now;
    assert ActiveSnapshots(s'.table, s.now) - {id} == ActiveSnapshots(s.table, s.now);
  }

  lemma HarmlessRemove(s: State, id: string)
    requires AllWhole(s)
    ensures AllWhole(RemoveDir(s, id)) <==> id !in ActiveSnapshots(s.table, s.now)
  {
  }

  lemma HarmlessUndo(s: State, step: Step)
    requires Consistent(s) && AllWhole(s) && Enabled(s, step) && (step.FailInsert? || step.UndoCreate?)
    ensures AllWhole(Next(s, step)) <==> Harmless(s, step)
  {
    assert JobOk(s, step.id);
  }

  lemma HarmlessStep(s: State, step: Step)
    requires Consistent(s) && Accounted(s) && AllWhole(s) && Enabled(s, step)
    ensures AllWhole(Next(s, step)) <==> Harmless(s, step)
  {
    match step
    case Tick(now) => HarmlessTick(s, now);
    case InsertRow(id, failing) => HarmlessInsert(s, id, failing);
    case RevokeRow(id) => HarmlessSql(s, Revoke(id, s.now));
    case RenewRow(id, expiresAt) => HarmlessSql(s, Renew(id, expiresAt));
    case TouchRow(id) => HarmlessSql(s, Touch(id, s.now));
    case FailCopy(id) => assert JobOk(s, id);
    case FailInsert(id) => HarmlessUndo(s, step);
    case UndoCreate(id) => HarmlessUndo(s, step);
    case GcEntry(id) => HarmlessRemove(s, id);
    case RunCleanup(id) => HarmlessRemove(s, id);
    case _ =>
  }

  /** Over any run, every active snapshot share has its complete directory at every moment
      exactly when every step is harmless at the moment it is taken. */
  lemma {:induction false} WholeExactlyWhenHarmless(s: State, steps: seq<Step>)
    requires Consistent(s) && Accounted(s) && AllWhole(s) && IsRun(s, steps)
    ensures AllWholeThroughout(s, steps) <==> HarmlessRun(s, steps)
    decreases |steps|
  {
    if steps != [] {
      ConsistentStep(s, steps[0]);
      AccountedStep(s, steps[0]);
      HarmlessStep(s, steps[0]);
      if Harmless(s, steps[0]) {
        WholeExactlyWhenHarmless(Next(s, steps[0]), steps[1..]);
      }
    }
  }

  // ---------------------------------------------------------------- disciplined runs

  /** No collection overlaps a create, no create of a snapshot fails after its row was
      written, none of a directory snapshot before that, only active shares are renewed,
      and the clock does not go back. */
  predicate Disciplined(s: State, step: Step) {
    match step
    case Tick(now) => s.now <= now
    case BeginCreate(_) => s.gc.Idle?
    case InsertRow(id, failing) => id in s.jobs && failing ==> s.jobs[id].share.mode == Live
    case FailInsert(id) => id in s.jobs && s.jobs[id].share.mode == Snapshot ==> !s.jobs[id].share.isDir
    case GcStart => s.jobs == map[]
    case RenewRow(id, _) => id in s.table ==> Scan(s.table[id]).IsActive(s.now) || s.table[id].revokedAt.Some?
    case _ => true
  }

  predicate DisciplinedRun(s: State, steps: seq<Step>)
    requires IsRun(s, steps)
    decreases |steps|
  {
    steps == [] || (Disciplined(s, steps[0]) && DisciplinedRun(Next(s, steps[0]), steps[1..]))
  }

  ghost predicate JobWhole(s: State, id: string)
    requires id in s.jobs
  {
    var job := s.jobs[id];
    job.share.mode == Snapshot ==> !job.Failing? && if job.Copying? then !job.damaged else id in s.whole
  }

  /** What discipline keeps: requests in progress are undamaged, and a collection shows
      every share that is active now. */
  ghost predicate Orderly(s: State) {
    && (!s.gc.Idle? ==> s.jobs == map[] && s.gc.now <= s.now)
    && (forall id :: id in s.jobs ==> JobWhole(s, id))
    && (s.gc.Listed? || s.gc.Sweeping? ==> ActiveSnapshots(s.table, s.now) <= ShownActive(s.gc))
  }

  lemma StillActive(table: Table, now: int, stmt: Statement)
    requires !stmt.Insert?
    requires stmt.Renew? && stmt.id in table ==> Scan(table[stmt.id]).IsActive(now) || table[stmt.id].revokedAt.Some?
    ensures ActiveSnapshots(Exec(table, stmt), now) <= ActiveSnapshots(table, now)
  {
  }

  lemma OrderlySql(s: State, stmt: Statement)
    requires Orderly(s) && !stmt.Insert?
    requires stmt.Renew? && stmt.id in s.table ==>
      Scan(s.table[stmt.id]).IsActive(s.now) || s.table[stmt.id].revokedAt.Some?
    ensures Orderly(ExecSql(s, stmt))
  {
    StillActive(s.table, s.now, stmt);
    forall id | id in s.jobs ensures JobWhole(ExecSql(s, stmt), id) {
      assert JobWhole(s, id);
    }
  }

  lemma OrderlyStep(s: State, step: Step)
    requires Consistent(s) && Accounted(s) && Orderly(s) && Enabled(s, step) && Disciplined(s, step)
    ensures Orderly(Next(s, step)) && (AllWhole(s) ==> Harmless(s, step))
  {
    if step.RevokeRow? {
      OrderlySql(s, Revoke(step.id, s.now));
      OrderlyJobs(ExecSql(s, Revoke(step.id, s.now)), Next(s, step));
    } else if step.RenewRow? {
      OrderlySql(s, Renew(step.id, step.expiresAt));
    } else if step.TouchRow? {
      OrderlySql(s, Touch(step.id, s.now));
    } else if step.Tick? || step.GcStart? || step.GcList? || step.GcReadDir? || step.GcEntry? || step.GcEnd? {
      OrderlyGc(s, step);
    } else {
      OrderlyCreate(s, step);
    }
  }

  lemma OrderlyJobs(s: State, s': State)
    requires Orderly(s) && s' == s.(cleanups := s'.cleanups)
    ensures Orderly(s')
  {
    forall id | id in s'.jobs ensures JobWhole(s', id) {
      assert JobWhole(s, id);
    }
  }

  lemma OrderlyGc(s: State, step: Step)
    requires Consistent(s) && Accounted(s) && Orderly(s) && Enabled(s, step) && Disciplined(s, step)
    requires step.Tick? || step.GcStart? || step.GcList? || step.GcReadDir? || step.GcEntry? || step.GcEnd?
    ensures Orderly(Next(s, step)) && (AllWhole(s) ==> Harmless(s, step))
  {
    var s' := Next(s, step);
    forall id | id in s'.jobs ensures JobWhole(s', id) {
      assert JobWhole(s, id);
    }
    if step.Tick? {
      assert ActiveSnapshots(s.table, step.now) <= ActiveSnapshots(s.table, s.now);
      if AllWhole(s) {
        HarmlessTick(s, step.now);
      }
    }
  }

  lemma OrderlyCreate(s: State, step: Step)
    requires Consistent(s) && Accounted(s) && Orderly(s) && Enabled(s, step) && Disciplined(s, step)
    requires !step.RevokeRow? && !step.RenewRow? && !step.TouchRow?
    requires !step.Tick? && !step.GcStart? && !step.GcList? && !step.GcReadDir? && !step.GcEntry? && !step.GcEnd?
    ensures Orderly(Next(s, step)) && Harmless(s, step)
  {
    var s' := Next(s, step);
    assert forall id :: id in s.jobs ==> JobOk(s, id) && JobWhole(s, id);
    forall id | id in s'.jobs ensures JobWhole(s', id) {
    }
  }

  lemma {:induction false} DisciplinedIsHarmless(s: State, steps: seq<Step>)
    requires Consistent(s) && Accounted(s) && Orderly(s) && AllWhole(s)
    requires IsRun(s, steps) && DisciplinedRun(s, steps)
    ensures HarmlessRun(s, steps)
    decreases |steps|
  {
    if steps != [] {
      ConsistentStep(s, steps[0]);
      AccountedStep(s, steps[0]);
      OrderlyStep(s, steps[0]);
      HarmlessStep(s, steps[0]);
      DisciplinedIsHarmless(Next(s, steps[0]), steps[1..]);
    }
  }

  /** In a disciplined run every active snapshot share has its complete directory, at
      every moment. */
  lemma ActiveSnapshotsAreWhole(s0: State, steps: seq<Step>)
    requires Initial(s0) && AllWhole(s0) && IsRun(s0, steps) && DisciplinedRun(s0, steps)
    ensures AllWholeThroughout(s0, steps)
  {
    DisciplinedIsHarmless(s0, steps);
    WholeExactlyWhenHarmless(s0, steps);
  }

  // ------------------------------------------------- why each condition is needed

  /** A disciplined run from s to s'. */
  predicate Leads(s: State, steps: seq<Step>, s': State) {
    Reaches(s, steps, s') && DisciplinedRun(s, steps)
  }

  lemma {:induction false} ReachesConcat(s: State, a: seq<Step>, s': State, b: seq<Step>, s'': State)
    requires Reaches(s, a, s') && Reaches(s', b, s'')
    ensures Reaches(s, a + b, s'')
    ensures DisciplinedRun(s, a) && DisciplinedRun(s', b) ==> DisciplinedRun(s, a + b)
    decreases |a|
  {
    if a == [] {
      assert a + b == b;
    } else {
      assert (a + b)[1..] == a[1..] + b;
      ReachesConcat(Next(s, a[0]), a[1..], s', b, s'');
    }
  }

  lemma ReachesOne(s: State, step: Step)
    requires Enabled(s, step)
    ensures Reaches(s, [step], Next(s, step))
    ensures Disciplined(s, step) ==> DisciplinedRun(s, [step])
  {
    assert [step][1..] == [];
  }

  lemma ReachesTwo(s: State, first: Step, second: Step)
    requires Enabled(s, first) && Enabled(Next(s, first), second)
    ensures Reaches(s, [first, second], Next(Next(s, first), second))
    ensures Disciplined(s, first) && Disciplined(Next(s, first), second) ==> DisciplinedRun(s, [first, second])
  {
    ReachesOne(s, first);
    ReachesOne(Next(s, first), second);
    ReachesConcat(s, [first], Next(s, first), [second], Next(Next(s, first), second));
    assert [first] + [second] == [first, second];
  }

  /** A collection of one directory. */
  function Sweep(id: string): seq<Step> {
    [GcStart, GcList] + [GcReadDir, GcEntry(id)]
  }

  /** The state after it. */
  function Swept(s: State, id: string): State {
    s.(gc := Sweeping(s.now, s.table, {}), dirs := {}, whole := {}, swept := s.swept + {id})
  }

  lemma SweepRemoves(s: State, id: string)
    requires s.gc == Idle && s.dirs == {id} && s.whole == {id} && id !in ActiveSnapshots(s.table, s.now)
    requires id in s.jobs ==> s.jobs[id].Ready?
    ensures Reaches(s, Sweep(id), Swept(s, id)) && (s.jobs == map[] ==> DisciplinedRun(s, Sweep(id)))
  {
    ReachesTwo(s, GcStart, GcList);
    var s2 := Next(Next(s, GcStart), GcList);
    ReachesTwo(s2, GcReadDir, GcEntry(id));
    var s4 := Next(Next(s2, GcReadDir), GcEntry(id));
    assert {id} - {id} == {};
    assert s4 == Swept(s, id);
    ReachesConcat(s, [GcStart, GcList], s2, [GcReadDir, GcEntry(id)], s4);
  }

  const EMPTY_STATE := State(0, map[], {}, {}, map[], {}, Idle, {}, {}, {})

  /** A snapshot share that lasts until 100 seconds. */
  function SomeShare(id: string, path: string): Share {
    Share(id, path, true, Snapshot, "", 0, 100 * SECOND, None, None)
  }

  function CreateSteps(share: Share): seq<Step> {
    [BeginCreate(share), EndCopy(share.id, true)]
  }

  /** The share is complete on disk and its row is still to be inserted. */
  function CopiedState(share: Share): State {
    EMPTY_STATE.(dirs := {share.id}, whole := {share.id}, jobs := map[share.id := Ready(share)], used := {share.id})
  }

  lemma CopyRun(share: Share)
    requires share.revokedAt.None? && share.lastServedAt.None? && share.mode == Snapshot
    ensures Leads(EMPTY_STATE, CreateSteps(share), CopiedState(share))
  {
    ReachesTwo(EMPTY_STATE, BeginCreate(share), EndCopy(share.id, true));
  }

  /** A collection between the copy and the insert sweeps the new directory: the share
      is stored and active, and its snapshot is gone. */
  lemma OverlappingGcLosesSnapshot(id: string, path: string)
    ensures var steps := CreateSteps(SomeShare(id, path)) + Sweep(id) + [InsertRow(id, false)];
      IsRun(EMPTY_STATE, steps) &&
      var s := After(EMPTY_STATE, steps);
      id in ActiveSnapshots(s.table, s.now) && id !in s.whole
  {
    var share, insert := SomeShare(id, path), InsertRow(id, false);
    var s2 := CopiedState(share);
    CopyRun(share);
    SweepRemoves(s2, id);
    var s6 := Swept(s2, id);
    ReachesConcat(EMPTY_STATE, CreateSteps(share), s2, Sweep(id), s6);
    ReachesOne(s6, insert);
    ReachesConcat(EMPTY_STATE, CreateSteps(share) + Sweep(id), s6, [insert], Next(s6, insert));
    assert Unix(100 * SECOND) == 100;
  }

  /** A request that fails after its row was written removes the directory of a share
      that is stored and active. */
  lemma FailingRequestLosesSnapshot(id: string, path: string)
    ensures var steps := CreateSteps(SomeShare(id, path)) + [InsertRow(id, true), UndoCreate(id)];
      IsRun(EMPTY_STATE, steps) &&
      var s := After(EMPTY_STATE, steps);
      id in ActiveSnapshots(s.table, s.now) && id !in s.whole
  {
    var share, insert, undo := SomeShare(id, path), InsertRow(id, true), UndoCreate(id);
    var s2 := CopiedState(share);
    CopyRun(share);
    ReachesTwo(s2, insert, undo);
    ReachesConcat(EMPTY_STATE, CreateSteps(share), s2, [insert, undo], Next(Next(s2, insert), undo));
    assert Unix(100 * SECOND) == 100;
  }

  /** One snapshot stored, and another, of a directory, copied whole. */
  function StoredAndCopied(stored: Share, copied: Share): State {
    var ids := {stored.id, copied.id};
    EMPTY_STATE.(table := map[stored.id := Stored(stored)], dirs := ids, whole := ids,
                 jobs := map[copied.id := Ready(copied)], used := ids)
  }

  lemma StoreThenCopy(stored: Share, copied: Share) returns (steps: seq<Step>)
    requires stored == SomeShare(stored.id, stored.sourcePath) && copied == SomeShare(copied.id, copied.sourcePath)
    requires stored.id != copied.id
    ensures Leads(EMPTY_STATE, steps, StoredAndCopied(stored, copied))
  {
    var insert := InsertRow(stored.id, false);
    var s2 := CopiedState(stored);
    CopyRun(stored);
    ReachesOne(s2, insert);
    var s3 := Next(s2, insert);
    assert s3 == s2.(table := map[stored.id := Stored(stored)], jobs := map[]);
    steps := CreateSteps(stored) + [insert];
    ReachesConcat(EMPTY_STATE, CreateSteps(stored), s2, [insert], s3);
    ReachesTwo(s3, BeginCreate(copied), EndCopy(copied.id, true));
    var s5 := Next(Next(s3, BeginCreate(copied)), EndCopy(copied.id, true));
    assert s5 == StoredAndCopied(stored, copied);
    ReachesConcat(EMPTY_STATE, steps, s3, CreateSteps(copied), s5);
    steps := steps + CreateSteps(copied);
  }

  /** After a disciplined run, a create of a directory snapshot whose row cannot be
      inserted takes another share's snapshot with it. */
  lemma FailedInsertWipesAll(id: string, other: string, path: string) returns (steps: seq<Step>, s: State)
    requires id != other
    ensures Leads(EMPTY_STATE, steps, s) && AllWhole(s) && Enabled(s, FailInsert(other))
    ensures var s' := Next(s, FailInsert(other));
      id in ActiveSnapshots(s'.table, s'.now) && id !in s'.whole
  {
    var stored, copied := SomeShare(id, path), SomeShare(other, path);
    steps := StoreThenCopy(stored, copied);
    s := StoredAndCopied(stored, copied);
    assert Unix(100 * SECOND) == 100;
  }

  /** The share stored, expired and collected. */
  function ExpiredState(share: Share): State {
    Swept(CopiedState(share).(now := 200 * SECOND, table := map[share.id := Stored(share)], jobs := map[]), share.id)
  }

  lemma ExpiryRun(share: Share) returns (steps: seq<Step>)
    requires share == SomeShare(share.id, share.sourcePath)
    ensures Leads(EMPTY_STATE, steps, ExpiredState(share))
  {
    var insert, tick := InsertRow(share.id, false), Tick(200 * SECOND);
    var s2 := CopiedState(share);
    CopyRun(share);
    assert Unix(100 * SECOND) == 100;
    var s4 := s2.(now := 200 * SECOND, table := map[share.id := Stored(share)], jobs := map[]);
    assert s2.jobs - {share.id} == map[] && Next(Next(s2, insert), tick) == s4;
    ReachesTwo(s2, insert, tick);
    ReachesConcat(EMPTY_STATE, CreateSteps(share), s2, [insert, tick], s4);
    SweepRemoves(s4, share.id);
    steps := CreateSteps(share) + [insert, tick];
    ReachesConcat(EMPTY_STATE, steps, s4, Sweep(share.id), ExpiredState(share));
    steps := steps + Sweep(share.id);
  }

  /** After a disciplined run, renewing an expired share makes it active without its
      files; and so does the clock, when it goes back. */
  lemma ExpiredComesBackWithoutFiles(id: string, path: string) returns (steps: seq<Step>, s: State)
    ensures Leads(EMPTY_STATE, steps, s) && AllWhole(s)
    ensures var renewed := Next(s, RenewRow(id, 300 * SECOND));
      id in ActiveSnapshots(renewed.table, renewed.now) && id !in renewed.whole
    ensures var earlier := Next(s, Tick(0));
      id in ActiveSnapshots(earlier.table, earlier.now) && id !in earlier.whole
  {
    var share := SomeShare(id, path);
    steps := ExpiryRun(share);
    s := ExpiredState(share);
    assert Unix(100 * SECOND) == 100 && Unix(300 * SECOND) == 300;
  }
}
