/** The defaults file that carries tracing, fat-db, pruning and mode from one launch to the next:
    `Parity4MCIP8-parity195/parity/user_defaults.rs`, the switch functions of `params.rs`, and the commands that
    save the file in `run.rs` and `blockchain.rs`. */
module LaunchDefaults {

  datatype Option<T> = None | Some(value: T)
  datatype Result<T> = Ok(value: T) | Err

  datatype Algorithm = Archive | EarlyMerge | OverlayRecent | RefCounted
  datatype Duration = Duration(secs: nat, nanos: nat)
  datatype Mode = Active | Passive(timeout: Duration, alarm: Duration) | Dark(timeout: Duration) | Off
  datatype UserDefaults = UserDefaults(isFirstLaunch: bool, pruning: Algorithm, tracing: bool, fatDb: bool, mode: Mode)

  const DEFAULTS := UserDefaults(true, OverlayRecent, false, false, Active)

  // ---------- the file format ----------

  datatype Json = Bool(b: bool) | Str(s: string) | Num(n: nat)
  type Object = map<string, Json>

  function AlgorithmName(a: Algorithm): string {
    match a
    case Archive => "archive"
    case EarlyMerge => "light"
    case OverlayRecent => "fast"
    case RefCounted => "basic"
  }

  function ParseAlgorithm(s: string): Result<Algorithm> {
    if s == "archive" then Ok(Archive)
    else if s == "light" then Ok(EarlyMerge)
    else if s == "fast" then Ok(OverlayRecent)
    else if s == "basic" then Ok(RefCounted)
    else Err
  }

  /** The inserts of `serialize`, in their order; what they build reads back. */
  method Serialize(u: UserDefaults) returns (m: Object)
    ensures m == Serialized(u)
    ensures Deserialized(m) == Ok(u.(isFirstLaunch := false, mode := WholeSeconds(u.mode)))
  {
    SaveThenLoad(u);
    hide Deserialized;
    m := map[];
    m := m["is_first_launch" := Bool(u.isFirstLaunch)];
    m := m["pruning" := Str(AlgorithmName(u.pruning))];
    m := m["tracing" := Bool(u.tracing)];
    m := m["fat_db" := Bool(u.fatDb)];
    var modeStr := "active";
    match u.mode {
      case Off => modeStr := "offline";
      case Dark(timeout) =>
        m := m["mode.timeout" := Num(timeout.secs)];
        modeStr := "dark";
      case Passive(timeout, alarm) =>
        m := m["mode.timeout" := Num(timeout.secs)];
        m := m["mode.alarm" := Num(alarm.secs)];
        modeStr := "passive";
      case Active =>
    }
    m := m["mode" := Str(modeStr)];
  }

  function ModeName(mode: Mode): string {
    match mode
    case Off => "offline"
    case Dark(_) => "dark"
    case Passive(_, _) => "passive"
    case Active => "active"
  }

  function Serialized(u: UserDefaults): Object {
    map["is_first_launch" := Bool(u.isFirstLaunch), "pruning" := Str(AlgorithmName(u.pruning)),
        "tracing" := Bool(u.tracing), "fat_db" := Bool(u.fatDb), "mode" := Str(ModeName(u.mode))] +
    (match u.mode
     case Dark(timeout) => map["mode.timeout" := Num(timeout.secs)]
     case Passive(timeout, alarm) => map["mode.timeout" := Num(timeout.secs), "mode.alarm" := Num(alarm.secs)]
     case _ => map[])
  }

  function Seconds(m: Object, key: string): Result<Duration> {
    if key in m && m[key].Num? then Ok(Duration(m[key].n, 0)) else Err
  }

  function ModeOf(m: Object): Result<Mode> {
    var mode := if "mode" in m then m["mode"] else Str("active");
    if !mode.Str? then Err
    else if mode.s == "offline" then Ok(Off)
    else if mode.s == "dark" then
      (match Seconds(m, "mode.timeout") case Ok(t) => Ok(Dark(t)) case Err => Err)
    else if mode.s == "passive" then
      (match (Seconds(m, "mode.timeout"), Seconds(m, "mode.alarm"))
       case (Ok(t), Ok(a)) => Ok(Passive(t, a))
       case _ => Err)
    else if mode.s == "active" then Ok(Active)
    else Err
  }

  /** `visit_map`: the first-launch flag is never read back. */
  function Deserialized(m: Object): Result<UserDefaults> {
    if "pruning" !in m || !m["pruning"].Str? then Err
    else
      match ParseAlgorithm(m["pruning"].s)
      case Err => Err
      case Ok(pruning) =>
        if "tracing" !in m || !m["tracing"].Bool? then Err
        else
          var fatDb := if "fat_db" in m then m["fat_db"] else Bool(false);
          if !fatDb.Bool? then Err
          else
            match ModeOf(m)
            case Err => Err
            case Ok(mode) => Ok(UserDefaults(false, pruning, m["tracing"].b, fatDb.b, mode))
  }

  function WholeSeconds(mode: Mode): Mode {
    match mode
    case Dark(t) => Dark(Duration(t.secs, 0))
    case Passive(t, a) => Passive(Duration(t.secs, 0), Duration(a.secs, 0))
    case _ => mode
  }

  lemma ModeReadsBack(u: UserDefaults)
    ensures ModeOf(Serialized(u)) == Ok(WholeSeconds(u.mode))
  {
    var m := Serialized(u);
    assert m["mode"] == Str(ModeName(u.mode));
    match u.mode
    case Off =>
    case Active => assert "active"[0] != "offline"[0] && "active"[0] != "dark"[0] && "active"[0] != "passive"[0];
    case Dark(t) => assert "dark"[0] != "offline"[0];
    case Passive(t, a) => assert "passive"[0] != "offline"[0] && "passive"[0] != "dark"[0];
  }

  lemma AlgorithmReadsBack(a: Algorithm)
    ensures ParseAlgorithm(AlgorithmName(a)) == Ok(a)
  {
    assert "archive"[0] == 'a' && "light"[0] == 'l' && "fast"[0] == 'f' && "basic"[0] == 'b';
  }

  /** Loading what was saved gives every field back except the first-launch flag and fractions of a second; nothing
      but the flag is lost exactly for whole-second durations. */
  lemma SaveThenLoad(u: UserDefaults)
    ensures Deserialized(Serialized(u)) == Ok(u.(isFirstLaunch := false, mode := WholeSeconds(u.mode)))
    ensures Deserialized(Serialized(u)) == Ok(u.(isFirstLaunch := false)) <==> WholeSeconds(u.mode) == u.mode
  {
    hide ModeOf, ParseAlgorithm, AlgorithmName;
    ModeReadsBack(u);
    AlgorithmReadsBack(u.pruning);
    var m := Serialized(u);
    assert m["pruning"] == Str(AlgorithmName(u.pruning));
    assert m["tracing"] == Bool(u.tracing) && m["fat_db"] == Bool(u.fatDb);
  }

  // ---------- the file ----------

  datatype File = Absent | Unreadable | Saved(content: Object)
  datatype SaveResult = Written | NotCreated | HalfWritten

  function Load(file: File): UserDefaults {
    match file
    case Saved(m) => (match Deserialized(m) case Ok(u) => u case Err => DEFAULTS)
    case _ => DEFAULTS
  }

  ghost predicate Readable(file: File) { file.Saved? && Deserialized(file.content).Ok? }

  /** `File::create` truncates, so a write that fails afterwards leaves an unreadable file. */
  function Save(u: UserDefaults, file: File, r: SaveResult): File {
    match r
    case Written => Saved(Serialized(u))
    case NotCreated => file
    case HalfWritten => Unreadable
  }

  // ---------- the switches ----------

  datatype Switch = On | SwitchOff | Auto
  datatype Pruning = Specific(algorithm: Algorithm) | AutoPruning

  function SwitchToBool(s: Switch, isFirstLaunch: bool, saved: bool): Result<bool> {
    match (isFirstLaunch, s, saved)
    case (false, On, false) => Err
    case (_, On, _) => Ok(true)
    case (_, SwitchOff, _) => Ok(false)
    case (_, Auto, def) => Ok(def)
  }

  function ToAlgorithm(p: Pruning, u: UserDefaults): Algorithm {
    match p
    case Specific(a) => a
    case AutoPruning => u.pruning
  }

  // ---------- commands and histories ----------

  datatype Event =
    | Launch(tracing: Switch, fatDb: Switch, pruning: Pruning, newMode: Option<Mode>, starts: bool, save: SaveResult)
    | Import(tracing: Switch, fatDb: Switch, pruning: Pruning, starts: bool, save: SaveResult)
    | Kill(starts: bool, save: SaveResult)
    | ChangeMode(newMode: Option<Mode>, save: SaveResult)  // the running node's callback
    | Lose(deleted: bool)                                  // the file is deleted or damaged from outside

  /** `running` are the defaults captured by the running node, if one is running. */
  datatype State = State(file: File, running: Option<UserDefaults>)

  /** The defaults a command saves, if its switches are accepted and it starts. */
  function Attempt(s: State, e: Event): Option<UserDefaults> {
    var u := Load(s.file);
    match e
    case Launch(t, f, p, m, starts, _) =>
      (match (SwitchToBool(t, u.isFirstLaunch, u.tracing), SwitchToBool(f, u.isFirstLaunch, u.fatDb))
       case (Ok(tracing), Ok(fatDb)) =>
         if !starts then None
         else Some(UserDefaults(false, ToAlgorithm(p, u), tracing, fatDb, if m.Some? then m.value else u.mode))
       case _ => None)
    case Import(t, f, p, starts, _) =>
      (match (SwitchToBool(t, u.isFirstLaunch, u.tracing), SwitchToBool(f, u.isFirstLaunch, u.fatDb))
       case (Ok(tracing), Ok(fatDb)) =>
         if starts then Some(u.(pruning := ToAlgorithm(p, u), tracing := tracing, fatDb := fatDb)) else None
       case _ => None)
    case Kill(starts, _) => if starts then Some(u.(isFirstLaunch := true)) else None
    case ChangeMode(m, _) =>
      if s.running.None? then None
      else Some(if m.Some? then s.running.value.(mode := m.value) else s.running.value)
    case Lose(_) => None
  }

  function Step(s: State, e: Event): State {
    match e
    case Lose(deleted) => State(if deleted then Absent else Unreadable, s.running)
    case _ =>
      match Attempt(s, e)
      case None => State(s.file, if e.ChangeMode? then s.running else None)
      case Some(v) =>
        var save := e.save;
        State(Save(v, s.file, save), if e.ChangeMode? || (e.Launch? && save == Written) then Some(v) else None)
  }

  ghost function After(s: State, events: seq<Event>): State {
    if events == [] then s else Step(After(s, events[..|events| - 1]), events[|events| - 1])
  }

  /** The running node and a readable file agree on what is recorded. */
  ghost predicate Agree(s: State) {
    s.running.Some? && Readable(s.file) ==>
      Load(s.file).tracing == s.running.value.tracing && Load(s.file).fatDb == s.running.value.fatDb
  }

  lemma LoadAfterSave(u: UserDefaults, file: File)
    ensures var f := Save(u, file, Written);
            Readable(f) && Load(f).tracing == u.tracing && Load(f).fatDb == u.fatDb && !Load(f).isFirstLaunch
  {
    SaveThenLoad(u);
  }

  /** From a readable file no command writes tracing or fat-db on unless they were on. */
  lemma AttemptSwitchesNothingOn(s: State, e: Event)
    requires Agree(s) && Readable(s.file) && Attempt(s, e).Some?
    ensures Attempt(s, e).value.tracing ==> Load(s.file).tracing
    ensures Attempt(s, e).value.fatDb ==> Load(s.file).fatDb
    ensures e.ChangeMode? ==>
              Attempt(s, e).value.tracing == Load(s.file).tracing && Attempt(s, e).value.fatDb == Load(s.file).fatDb
  {
    assert !Load(s.file).isFirstLaunch by { NotFirstLaunch(s.file); }
    hide Load, Deserialized;
  }

  lemma NotFirstLaunch(file: File)
    requires Readable(file)
    ensures !Load(file).isFirstLaunch
  {
    hide ModeOf, ParseAlgorithm;
  }

  lemma StepKeepsAgree(s: State, e: Event)
    requires Agree(s)
    ensures Agree(Step(s, e))
  {
    var a := Attempt(s, e);
    if a.Some? {
      LoadAfterSave(a.value, s.file);
      if Readable(s.file) {
        AttemptSwitchesNothingOn(s, e);
      }
    }
    hide Attempt, Load, Serialized, Deserialized;
  }

  lemma StepSwitchesNothingOn(s: State, e: Event)
    requires Agree(s) && Readable(s.file) && Readable(Step(s, e).file)
    ensures Load(Step(s, e).file).tracing ==> Load(s.file).tracing
    ensures Load(Step(s, e).file).fatDb ==> Load(s.file).fatDb
  {
    var a := Attempt(s, e);
    if a.Some? {
      LoadAfterSave(a.value, s.file);
      AttemptSwitchesNothingOn(s, e);
    }
    hide Attempt, Load, Serialized, Deserialized;
  }

  lemma {:induction false} AgreeForever(s: State, events: seq<Event>)
    requires s.running.None?
    ensures Agree(After(s, events))
  {
    hide Step;
    if events != [] {
      AgreeForever(s, events[..|events| - 1]);
      StepKeepsAgree(After(s, events[..|events| - 1]), events[|events| - 1]);
    }
  }

  /** No gaps: over every history of launches, imports, kills and mode changes in which the file stays readable from
      position `i` to position `j`, tracing (fat-db) on at `j` means it was on at `i`. */
  lemma {:induction false} NoGaps(s: State, events: seq<Event>, i: nat, j: nat)
    requires s.running.None? && i <= j <= |events|
    requires forall k :: i <= k <= j ==> Readable(After(s, events[..k]).file)
    ensures Load(After(s, events[..j]).file).tracing ==> Load(After(s, events[..i]).file).tracing
    ensures Load(After(s, events[..j]).file).fatDb ==> Load(After(s, events[..i]).file).fatDb
    decreases j
  {
    hide Step, Load, Readable;
    if i < j {
      NoGaps(s, events, i, j - 1);
      assert events[..j][..j - 1] == events[..j - 1] && events[..j][j - 1] == events[j - 1];
      AgreeForever(s, events[..j - 1]);
      assert Readable(After(s, events[..j - 1]).file) && Readable(After(s, events[..j]).file);
      StepSwitchesNothingOn(After(s, events[..j - 1]), events[j - 1]);
    }
  }

  /** Readability is what it takes: from a lost file any launch can switch tracing on, whatever was saved before. */
  lemma LostFileAllowsGap(s: State)
    requires !Readable(s.file)
    ensures var r := Step(s, Launch(On, On, AutoPruning, None, true, Written));
            Readable(r.file) && Load(r.file).tracing && Load(r.file).fatDb
  {
    assert Load(s.file) == DEFAULTS;
    LoadAfterSave(UserDefaults(false, OverlayRecent, true, true, Active), s.file);
  }

  /** Killing the database records a first launch, but loading never reads that flag. So after a kill a launch is
      accepted exactly when it switches nothing on that was off before the kill, whatever the file was: tracing
      (fat-db) asked for after the kill is on if and only if it was on before, although the database is gone. */
  lemma KillDoesNotReenable(s: State, tracing: Switch, fatDb: Switch, pruning: Pruning, m: Option<Mode>)
    ensures var killed := Step(s, Kill(true, Written));
            killed.file.Saved? && "is_first_launch" in killed.file.content &&
            killed.file.content["is_first_launch"] == Bool(true)
    ensures var next := Step(Step(s, Kill(true, Written)), Launch(tracing, fatDb, pruning, m, true, Written));
            && (next.running.Some? <==>
                (tracing == On ==> Load(s.file).tracing) && (fatDb == On ==> Load(s.file).fatDb))
            && (tracing == On ==> (Load(next.file).tracing <==> Load(s.file).tracing))
            && (fatDb == On ==> (Load(next.file).fatDb <==> Load(s.file).fatDb))
  {
    var killed := Step(s, Kill(true, Written));
    var launch := Launch(tracing, fatDb, pruning, m, true, Written);
    LoadAfterSave(Load(s.file).(isFirstLaunch := true), s.file);
    if Attempt(killed, launch).Some? {
      LoadAfterSave(Attempt(killed, launch).value, killed.file);
    }
    hide Load, Deserialized;
  }

  /** A launch that saves is remembered: the next load sees its switches, its algorithm and its mode in whole
      seconds. */
  lemma LaunchIsRemembered(s: State, e: Event)
    requires e.Launch? && e.save == Written && Attempt(s, e).Some?
    ensures Load(Step(s, e).file) == Attempt(s, e).value.(mode := WholeSeconds(Attempt(s, e).value.mode))
    ensures Attempt(s, e).value.pruning == if e.pruning.Specific? then e.pruning.algorithm else Load(s.file).pruning
    ensures Attempt(s, e).value.mode == if e.newMode.Some? then e.newMode.value else Load(s.file).mode
  {
    SaveThenLoad(Attempt(s, e).value);
    assert !Attempt(s, e).value.isFirstLaunch;
    hide Serialized, Deserialized;
  }

  // ---------- what is written and read ----------

  /** The file of every defaults: the names that later versions have to understand. */
  lemma FileFormat(u: UserDefaults)
    ensures var m := Serialized(u);
            && "is_first_launch" in m && m["is_first_launch"] == Bool(u.isFirstLaunch)
            && "tracing" in m && m["tracing"] == Bool(u.tracing)
            && "fat_db" in m && m["fat_db"] == Bool(u.fatDb)
    ensures var m := Serialized(u);
            && "pruning" in m
            && (u.pruning == Archive ==> m["pruning"] == Str("archive"))
            && (u.pruning == EarlyMerge ==> m["pruning"] == Str("light"))
            && (u.pruning == OverlayRecent ==> m["pruning"] == Str("fast"))
            && (u.pruning == RefCounted ==> m["pruning"] == Str("basic"))
    ensures var m := Serialized(u);
            && "mode" in m
            && (u.mode.Active? ==> m["mode"] == Str("active"))
            && (u.mode.Off? ==> m["mode"] == Str("offline"))
            && (u.mode.Dark? ==>
                m["mode"] == Str("dark") && "mode.timeout" in m && m["mode.timeout"] == Num(u.mode.timeout.secs))
            && (u.mode.Passive? ==>
                && m["mode"] == Str("passive")
                && "mode.timeout" in m && m["mode.timeout"] == Num(u.mode.timeout.secs)
                && "mode.alarm" in m && m["mode.alarm"] == Num(u.mode.alarm.secs))
  {
  }

  /** A file of an older version: without fat-db it is off, without a mode the mode is active. */
  lemma MissingEntries(m: Object, u: UserDefaults)
    requires Deserialized(m) == Ok(u)
    ensures "tracing" in m && m["tracing"] == Bool(u.tracing)
    ensures if "fat_db" in m then m["fat_db"] == Bool(u.fatDb) else !u.fatDb
    ensures "mode" !in m ==> u.mode == Active
    ensures !u.isFirstLaunch
  {
    hide ParseAlgorithm;
  }

  /** Exactly these files are refused. */
  lemma ReadableIff(m: Object)
    ensures Deserialized(m).Ok? <==>
            && "pruning" in m && m["pruning"] in {Str("archive"), Str("light"), Str("fast"), Str("basic")}
            && "tracing" in m && m["tracing"].Bool?
            && ("fat_db" in m ==> m["fat_db"].Bool?)
            && ("mode" in m ==> KnownMode(m, m["mode"]))
  {
    if "mode" in m {
      ModeIsKnown(m);
    }
    assert "pruning" in m && m["pruning"].Str? ==>
           (ParseAlgorithm(m["pruning"].s).Ok? <==>
            m["pruning"] in {Str("archive"), Str("light"), Str("fast"), Str("basic")});
    assert "mode" !in m ==> ModeOf(m) == Ok(Active) by { hide Seconds; }
    hide ModeOf, ParseAlgorithm, KnownMode;
  }

  ghost predicate KnownMode(m: Object, mode: Json) {
    || mode == Str("active") || mode == Str("offline")
    || (mode == Str("dark") && "mode.timeout" in m && m["mode.timeout"].Num?)
    || (mode == Str("passive") && "mode.timeout" in m && m["mode.timeout"].Num? &&
        "mode.alarm" in m && m["mode.alarm"].Num?)
  }

  lemma ModeIsKnown(m: Object)
    requires "mode" in m
    ensures ModeOf(m).Ok? <==> KnownMode(m, m["mode"])
  {
    assert "active"[0] == 'a' && "offline"[0] == 'o' && "dark"[0] == 'd' && "passive"[0] == 'p';
  }

  /** Without a readable file the node starts from these defaults. */
  lemma LoadOfLostFile(file: File)
    requires !Readable(file)
    ensures Load(file) == UserDefaults(true, OverlayRecent, false, false, Active)
  {
  }

  // ---------- what a command does ----------

  /** A switch is refused exactly when it asks for something that a launch before this one left off. */
  ghost predicate Refused(s: Switch, u: UserDefaults, saved: bool) {
    s == On && !saved && !u.isFirstLaunch
  }

  /** An accepted switch: "on" and "off" as asked, "auto" as it was. */
  ghost predicate Obeys(now: bool, s: Switch, saved: bool) {
    && (s == On ==> now) && (s == SwitchOff ==> !now) && (s == Auto ==> now == saved)
  }

  /** A launch is refused, leaving the file alone, exactly when a switch is; otherwise the running node and the next
      load have the switches as asked. */
  lemma LaunchObeysSwitches(s: State, e: Event)
    requires e.Launch? && e.starts && e.save == Written
    ensures var u, next := Load(s.file), Step(s, e);
            && (next.running.None? <==> Refused(e.tracing, u, u.tracing) || Refused(e.fatDb, u, u.fatDb))
            && (next.running.None? ==> next.file == s.file)
            && (next.running.Some? ==>
                && Obeys(next.running.value.tracing, e.tracing, u.tracing)
                && Obeys(next.running.value.fatDb, e.fatDb, u.fatDb)
                && Obeys(Load(next.file).tracing, e.tracing, u.tracing)
                && Obeys(Load(next.file).fatDb, e.fatDb, u.fatDb))
  {
    var a := Attempt(s, e);
    if a.Some? {
      LoadAfterSave(a.value, s.file);
    }
    hide Load, Serialized;
  }

  /** The same for an import, which leaves no node running and keeps the mode. */
  lemma ImportObeysSwitches(s: State, e: Event)
    requires e.Import? && e.starts && e.save == Written
    ensures var u, next := Load(s.file), Step(s, e);
            && next.running.None?
            && (Refused(e.tracing, u, u.tracing) || Refused(e.fatDb, u, u.fatDb) ==> next.file == s.file)
            && (!Refused(e.tracing, u, u.tracing) && !Refused(e.fatDb, u, u.fatDb) ==>
                && Obeys(Load(next.file).tracing, e.tracing, u.tracing)
                && Obeys(Load(next.file).fatDb, e.fatDb, u.fatDb)
                && Load(next.file).mode == WholeSeconds(u.mode)
                && Load(next.file).pruning == if e.pruning.Specific? then e.pruning.algorithm else u.pruning)
  {
    var a := Attempt(s, e);
    if a.Some? {
      SaveThenLoad(a.value);
    }
    hide Deserialized, Serialized;
  }

  /** A kill saves everything but the first-launch flag as it was. */
  lemma KillKeepsTheRest(s: State)
    ensures var u, next := Load(s.file), Step(s, Kill(true, Written));
            next.running.None? && Load(next.file) == u.(isFirstLaunch := false, mode := WholeSeconds(u.mode))
  {
    SaveThenLoad(Load(s.file).(isFirstLaunch := true));
    hide Deserialized, Serialized;
  }

  /** A change of mode saves what the running node started with, and the new mode. */
  lemma ModeChangeKeepsTheRest(s: State, m: Option<Mode>)
    requires s.running.Some?
    ensures var v := s.running.value.(mode := if m.Some? then m.value else s.running.value.mode);
            var next := Step(s, ChangeMode(m, Written));
            && next.running == Some(v)
            && Load(next.file) == v.(isFirstLaunch := false, mode := WholeSeconds(v.mode))
  {
    SaveThenLoad(s.running.value.(mode := if m.Some? then m.value else s.running.value.mode));
    hide Deserialized, Serialized;
  }

  /** A command that does not start saves nothing. */
  lemma NothingSavedWithoutStart(s: State, e: Event)
    requires (e.Launch? || e.Import? || e.Kill?) && !e.starts
    ensures Step(s, e) == State(s.file, None)
  {
    hide Load;
  }

  /** A save that fails: the file is as before if it could not be created, and lost if the write failed. A launch that
      cannot save ends. */
  lemma FailedSaves(s: State, e: Event)
    requires !e.Lose? && e.save != Written
    ensures var next := Step(s, e);
            && (next.file == s.file || (e.save == HalfWritten && !Readable(next.file) && Attempt(s, e).Some?))
            && (e.save == HalfWritten && Attempt(s, e).Some? ==> !Readable(next.file))
            && (!e.ChangeMode? ==> next.running.None?)
  {
    hide Attempt;
  }

  lemma SerializedIgnoresFractions(u: UserDefaults)
    ensures Serialized(u.(mode := WholeSeconds(u.mode))) == Serialized(u)
  {
  }

  /** A launch with everything on "auto" after a launch saves the very same file. */
  lemma AutoLaunchChangesNothing(u: UserDefaults, running: Option<UserDefaults>)
    requires !u.isFirstLaunch
    ensures var s := State(Saved(Serialized(u)), running);
            Step(s, Launch(Auto, Auto, AutoPruning, None, true, Written)).file == s.file
  {
    SaveThenLoad(u);
    SerializedIgnoresFractions(u);
    hide Serialized, Deserialized;
  }
}
