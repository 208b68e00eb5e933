/** The directory swap `migrate_database` of `Parity4MCIP8-parity195/parity/migration.rs`, for migrations that
    write a new directory, under failures of every file-system operation and crashes between them.

    `Execute` follows `Manager::execute` of `Parity4MCIP8-parity195/util/migration/src/lib.rs`: it opens the old
    database (creating a blank one if it is missing) and copies it into the temporary directory, which it opens
    without clearing. It holds for managers with exactly one migration that alters data, as all managers of
    `migration.rs` are: with several, the two temporary directories alternate and the older one is removed. */
module SwapMigration {

  datatype Path = Db | Backup | Temp

  /** A directory holds all the data (in the old or the new format), some of it, a freshly opened database without
      data, or no file at all. */
  datatype Dir = Whole(migrated: bool) | Partial | Blank | Empty
  type Disk = map<Path, Dir>

  /** `remove_dir_all` succeeds, or fails with nothing, something or everything but the directory itself gone. */
  datatype Removal = Removed | Untouched | Halfway | Emptied

  /** The environment's choice for each operation of one run. */
  datatype Faults = Faults(clearBackup: Removal, executes: bool, toBackup: bool, toDb: bool, restores: bool,
                           dropBackup: Removal)

  datatype Outcome = Done | ExecuteFailed | BackupFailed | SwapFailed | RestoreFailed | DropFailed | Skipped

  // ---------- single operations ----------

  ghost predicate HoldsData(d: Disk, p: Path) { p in d && d[p].Whole? }

  function Remove(d: Disk, p: Path, r: Removal): Disk {
    if p !in d then d
    else
      match r
      case Removed => d - {p}
      case Untouched => d
      case Halfway => d[p := Partial]
      case Emptied => d[p := Empty]
  }

  /** A rename needs its source, and a destination that is absent or an empty directory. */
  predicate RenameWorks(d: Disk, from: Path, to: Path, ok: bool) {
    ok && from in d && (to !in d || d[to] == Empty)
  }

  function Rename(d: Disk, from: Path, to: Path, ok: bool): Disk {
    if RenameWorks(d, from, to, ok) then (d - {from})[to := d[from]] else d
  }

  /** The temporary directory keeps what an earlier attempt copied. */
  function Execute(d: Disk, ok: bool): Disk {
    var source := if Db in d && d[Db] != Empty then d[Db] else Blank;
    var kept := Temp in d && d[Temp] == Whole(true);
    d[Db := source][Temp := if kept || (ok && source.Whole?) then Whole(true) else Partial]
  }

  // ---------- one run ----------

  /** The disk after each operation of a run, and how the run ends. */
  datatype Trace = Trace(states: seq<Disk>, outcome: Outcome)

  function Swap(d: Disk, f: Faults): (t: Trace)
    ensures |t.states| > 0
  {
    var d1 := Remove(d, Backup, f.clearBackup);
    var d2 := Execute(d1, f.executes);
    if !f.executes then Trace([d1, d2], ExecuteFailed)
    else
      var d3 := Rename(d2, Db, Backup, f.toBackup);
      if !RenameWorks(d2, Db, Backup, f.toBackup) then Trace([d1, d2, d3], BackupFailed)
      else
        var d4 := Rename(d3, Temp, Db, f.toDb);
        if !RenameWorks(d3, Temp, Db, f.toDb) then
          Trace([d1, d2, d3, d4, Rename(d4, Backup, Db, f.restores)],
                if RenameWorks(d4, Backup, Db, f.restores) then SwapFailed else RestoreFailed)
        else
          Trace([d1, d2, d3, d4, Remove(d4, Backup, f.dropBackup)],
                if f.dropBackup == Removed then Done else DropFailed)
  }

  class FileSystem {
    var dirs: Disk
    ghost var history: seq<Disk>

    method RemoveDirAll(p: Path, r: Removal) returns (ok: bool)
      modifies this
      ensures dirs == Remove(old(dirs), p, r) && history == old(history) + [dirs]
      ensures ok <==> p in old(dirs) && r == Removed
    {
      ok := p in dirs;
      if p in dirs {
        match r {
          case Removed => dirs := dirs - {p};
          case Untouched => ok := false;
          case Halfway => dirs := dirs[p := Partial]; ok := false;
          case Emptied => dirs := dirs[p := Empty]; ok := false;
        }
      }
      history := history + [dirs];
    }

    method RenameDir(from: Path, to: Path, works: bool) returns (ok: bool)
      modifies this
      ensures dirs == Rename(old(dirs), from, to, works) && history == old(history) + [dirs]
      ensures ok <==> RenameWorks(old(dirs), from, to, works)
    {
      ok := works && from in dirs && (to !in dirs || dirs[to] == Empty);
      if ok {
        dirs := (dirs - {from})[to := dirs[from]];
      }
      history := history + [dirs];
    }

    method ExecuteMigrations(works: bool) returns (ok: bool)
      modifies this
      ensures dirs == Execute(old(dirs), works) && history == old(history) + [dirs] && (ok <==> works)
    {
      var source := if Db in dirs && dirs[Db] != Empty then dirs[Db] else Blank;
      var kept := Temp in dirs && dirs[Temp] == Whole(true);
      dirs := dirs[Db := source][Temp := if kept || (works && source.Whole?) then Whole(true) else Partial];
      ok := works;
      history := history + [dirs];
    }

    /** `migrate_database`: whatever fails, every recorded disk has the data at the database path or, if that is
        vacant, at the backup path. */
    method MigrateDatabase(isNeeded: bool, f: Faults) returns (outcome: Outcome)
      modifies this
      ensures !isNeeded ==> outcome == Skipped && dirs == old(dirs) && history == old(history)
      ensures isNeeded ==> outcome == Swap(old(dirs), f).outcome && history == old(history) + Swap(old(dirs), f).states
      ensures HoldsData(old(dirs), Db) ==> forall i :: |old(history)| <= i < |history| ==> Sound(history[i])
      ensures HoldsData(old(dirs), Db) && outcome != RestoreFailed ==> HoldsData(dirs, Db)
      ensures HoldsData(old(dirs), Db) && outcome == Done ==> dirs[Db] == Whole(true) && Backup !in dirs
    {
      if !isNeeded {
        return Skipped;
      }
      if HoldsData(dirs, Db) {
        RunIsSound(dirs, f);
      }
      hide Swap, Sound;
      outcome := SwapDirectories(f);
    }

    /** The removals, renames and the copy with their early returns. */
    method SwapDirectories(f: Faults) returns (outcome: Outcome)
      modifies this
      ensures outcome == Swap(old(dirs), f).outcome
      ensures history == old(history) + Swap(old(dirs), f).states && dirs == Final(Swap(old(dirs), f))
    {
      var _ := RemoveDirAll(Backup, f.clearBackup);
      var ok := ExecuteMigrations(f.executes);
      if !ok {
        return ExecuteFailed;
      }
      ok := RenameDir(Db, Backup, f.toBackup);
      if !ok {
        return BackupFailed;
      }
      ok := RenameDir(Temp, Db, f.toDb);
      if !ok {
        ok := RenameDir(Backup, Db, f.restores);
        return if ok then SwapFailed else RestoreFailed;
      }
      ok := RemoveDirAll(Backup, f.dropBackup);
      return if ok then Done else DropFailed;
    }
  }

  // ---------- safety of one run ----------

  /** The data is where the node or an operator looks for it: at the database or at the backup path. */
  ghost predicate Safe(d: Disk) { HoldsData(d, Db) || HoldsData(d, Backup) }

  /** Stronger: the database path is never occupied by anything but the whole data. */
  ghost predicate Sound(d: Disk) {
    if Db in d then d[Db].Whole? else HoldsData(d, Backup)
  }

  /** After every operation, whatever fails, the data is at the database or the backup path. */
  lemma SwapNeverLosesData(d: Disk, f: Faults, i: nat)
    requires HoldsData(d, Db) && i < |Swap(d, f).states|
    ensures Sound(Swap(d, f).states[i])
  {
  }

  lemma RunIsSound(d: Disk, f: Faults)
    requires HoldsData(d, Db)
    ensures forall i :: 0 <= i < |Swap(d, f).states| ==> Sound(Swap(d, f).states[i])
    ensures Swap(d, f).outcome != RestoreFailed ==> HoldsData(Final(Swap(d, f)), Db)
    ensures Swap(d, f).outcome == Done ==> Final(Swap(d, f))[Db] == Whole(true) && Backup !in Final(Swap(d, f))
    ensures Swap(d, f).outcome != Skipped
  {
    forall i | 0 <= i < |Swap(d, f).states| ensures Sound(Swap(d, f).states[i]) {
      SwapNeverLosesData(d, f, i);
    }
  }

  /** The original stays at one of the two paths until the migrated copy is at the database path. */
  lemma OriginalIsKeptUntilReplaced(d: Disk, f: Faults, i: nat)
    requires Db in d && d[Db] == Whole(false) && i < |Swap(d, f).states|
    ensures var s := Swap(d, f).states[i];
            || (Db in s && s[Db] == Whole(false)) || (Backup in s && s[Backup] == Whole(false))
            || (Db in s && s[Db] == Whole(true))
  {
  }

  ghost function Final(t: Trace): Disk
    requires |t.states| > 0
  {
    t.states[|t.states| - 1]
  }

  /** How a run from an old database ends: only a failed swap with a failed restore leaves no database. */
  lemma OutcomesMeanWhatTheySay(d: Disk, f: Faults)
    requires Db in d && d[Db] == Whole(false)
    ensures var t := Swap(d, f);
            var end := Final(t);
            && (t.outcome == Done ==> end.Keys * {Db, Backup} == {Db} && end[Db] == Whole(true))
            && (t.outcome == DropFailed ==> Db in end && end[Db] == Whole(true))
            && (t.outcome in {ExecuteFailed, BackupFailed, SwapFailed} ==> Db in end && end[Db] == Whole(false))
            && (t.outcome == RestoreFailed <==> Db !in end)
            && (t.outcome == RestoreFailed ==> Backup in end && end[Backup] == Whole(false))
  {
  }

  /** The backup path is still taken by something after the first removal. */
  ghost predicate BackupOccupied(d: Disk, f: Faults) {
    Backup in d && (f.clearBackup == Halfway || (f.clearBackup == Untouched && d[Backup] != Empty))
  }

  /** When each outcome happens. */
  lemma OutcomeIff(d: Disk, f: Faults)
    requires Db in d && d[Db] == Whole(false)
    ensures var o := Swap(d, f).outcome;
            var moved := f.executes && f.toBackup && !BackupOccupied(d, f);
            && (o == ExecuteFailed <==> !f.executes)
            && (o == BackupFailed <==> f.executes && (!f.toBackup || BackupOccupied(d, f)))
            && (o == SwapFailed <==> moved && !f.toDb && f.restores)
            && (o == RestoreFailed <==> moved && !f.toDb && !f.restores)
            && (o == Done <==> moved && f.toDb && f.dropBackup == Removed)
            && (o == DropFailed <==> moved && f.toDb && f.dropBackup != Removed)
  {
  }

  /** A failed copy leaves a part of the database in the temporary directory, unless an earlier attempt completed it. */
  lemma FailedCopyIsPartial(d: Disk, f: Faults)
    requires !f.executes
    ensures var end := Final(Swap(d, f));
            Temp in end && end[Temp] == if Temp in d && d[Temp] == Whole(true) then Whole(true) else Partial
  {
  }

  /** A run that finds neither a database nor a completed copy can end in success, but without any data. */
  lemma NothingFromNothing(d: Disk, f: Faults, i: nat)
    requires !HoldsData(d, Db) && !(Temp in d && d[Temp].Whole?) && i < |Swap(d, f).states|
    ensures !HoldsData(Swap(d, f).states[i], Db) && !HoldsData(Swap(d, f).states[i], Temp)
  {
  }

  // ---------- crashes and reruns ----------

  /** Without a guard (the legacy databases), a further run from a safe disk keeps the data safe under every fault
      exactly when the database path still holds it: otherwise the run starts by removing the only copy it protects. */
  lemma RerunIsSafeIffDatabaseIsThere(d: Disk)
    requires Safe(d)
    ensures (forall f, i :: 0 <= i < |Swap(d, f).states| ==> Safe(Swap(d, f).states[i])) <==> HoldsData(d, Db)
  {
    if HoldsData(d, Db) {
      forall f, i | 0 <= i < |Swap(d, f).states| ensures Safe(Swap(d, f).states[i]) {
        SwapNeverLosesData(d, f, i);
      }
    } else {
      var f := Faults(Removed, true, true, true, true, Removed);
      assert !Safe(Swap(d, f).states[0]);
    }
  }

  /** Such a disk is reached by a crash between the two renames; what then saves the data is the migrated copy in the
      temporary directory: it survives the rerun under every fault and ends up as the database if the rerun succeeds. */
  lemma RerunAfterGapRecovers(d: Disk, f: Faults, g: Faults, i: nat)
    requires Db in d && d[Db] == Whole(false) && f.executes && RenameWorks(Swap(d, f).states[1], Db, Backup, f.toBackup)
    ensures var gap := Swap(d, f).states[2];
            var t := Swap(gap, g);
            && Db !in gap && HoldsData(gap, Backup)
            && (i < |t.states| ==>
                HoldsData(t.states[i], Db) || HoldsData(t.states[i], Backup) || HoldsData(t.states[i], Temp))
            && (t.outcome == Done ==> HoldsData(Final(t), Db))
  {
    var gap := Swap(d, f).states[2];
    assert gap[Temp] == Whole(true);
    GapRun(gap, g, i);
  }

  lemma GapRun(gap: Disk, g: Faults, i: nat)
    requires Db !in gap && Temp in gap && gap[Temp] == Whole(true)
    ensures var t := Swap(gap, g);
            && (i < |t.states| ==> HoldsData(t.states[i], Db) || HoldsData(t.states[i], Temp))
            && (t.outcome == Done ==> HoldsData(Final(t), Db))
  {
  }

  /** The consolidated database is only migrated if its directory exists. */
  function GuardedSwap(d: Disk, f: Faults): (t: Trace)
    ensures |t.states| > 0
  {
    if Db in d then Swap(d, f) else Trace([d], Skipped)
  }

  /** The guard skips exactly a missing directory; otherwise the run is an ordinary one. */
  lemma GuardSkipsIffMissing(d: Disk, f: Faults)
    ensures GuardedSwap(d, f).outcome == Skipped <==> Db !in d
    ensures Db in d && d[Db] == Whole(false) ==>
              (GuardedSwap(d, f).outcome == Done <==>
               f.executes && f.toBackup && !BackupOccupied(d, f) && f.toDb && f.dropBackup == Removed)
  {
    if Db in d && d[Db] == Whole(false) { OutcomeIff(d, f); }
  }

  /** A run that is cut off after `steps` operations (or runs to its end). */
  datatype Cut = Cut(faults: Faults, steps: nat)

  function CrashAt(t: Trace, d: Disk, steps: nat): Disk
    requires |t.states| > 0
  {
    if steps == 0 then d
    else if steps <= |t.states| then t.states[steps - 1]
    else t.states[|t.states| - 1]
  }

  function Runs(d: Disk, cuts: seq<Cut>): Disk {
    if cuts == [] then d
    else
      var before := Runs(d, cuts[..|cuts| - 1]);
      var c := cuts[|cuts| - 1];
      CrashAt(GuardedSwap(before, c.faults), before, c.steps)
  }

  /** With the guard, no number of failing, crashing and repeated runs loses the data. */
  lemma {:induction false} GuardedRunsNeverLoseData(d: Disk, cuts: seq<Cut>)
    requires HoldsData(d, Db)
    ensures Sound(Runs(d, cuts)) && Safe(Runs(d, cuts))
  {
    if cuts != [] {
      var front, c := cuts[..|cuts| - 1], cuts[|cuts| - 1];
      GuardedRunsNeverLoseData(d, front);
      var before := Runs(d, front);
      var t := GuardedSwap(before, c.faults);
      if Db in before {
        forall i | 0 <= i < |t.states| ensures Sound(t.states[i]) {
          SwapNeverLosesData(before, c.faults, i);
        }
      }
    }
  }

  /** But a crash in the gap strands them: every later guarded run skips and reports no error. */
  lemma {:induction false} GapStaysSkipped(gap: Disk, cuts: seq<Cut>)
    requires Db !in gap
    ensures Runs(gap, cuts) == gap
    ensures forall f :: GuardedSwap(gap, f).outcome == Skipped
  {
    if cuts != [] {
      GapStaysSkipped(gap, cuts[..|cuts| - 1]);
    }
  }
}
