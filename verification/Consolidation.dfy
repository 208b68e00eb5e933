/** The consolidation stage of `migrate` (`Parity4MCIP8-parity195/parity/migration.rs`): four legacy databases are
    copied into five columns of one new database and then removed, and a crashed run is simply run again.

    Opening a legacy database that does not exist creates an empty one, and copying into a column adds to what is
    there (`Parity4MCIP8-parity195/ethcore/src/migrations/v9.rs`). */
module Consolidation {

  datatype Legacy = Blocks | Extras | State | TraceDb
  datatype Column = Headers | Bodies | Extra | StateCol | TraceCol

  /** A block is a list of its header, its transactions and its uncles; its body is the list of the last two. */
  datatype Value =
    | Raw(bytes: nat)
    | BlockRlp(header: nat, transactions: nat, uncles: nat)
    | HeaderRlp(header: nat)
    | BodyRlp(transactions: nat, uncles: nat)
  type Table = map<nat, Value>

  /** `columns` is empty when the new database does not exist. */
  datatype Disk = Disk(legacy: map<Legacy, Table>, columns: map<Column, Table>)

  function SourceOf(c: Column): Legacy {
    match c
    case Headers => Blocks
    case Bodies => Blocks
    case Extra => Extras
    case StateCol => State
    case TraceCol => TraceDb
  }

  /** The part of a value a column takes. */
  function Extract(c: Column, v: Value): Value {
    match (c, v)
    case (Headers, BlockRlp(h, _, _)) => HeaderRlp(h)
    case (Bodies, BlockRlp(_, t, u)) => BodyRlp(t, u)
    case _ => v
  }

  function Copy(c: Column, source: Table): Table {
    map k | k in source :: Extract(c, source[k])
  }

  function LegacyTable(d: Disk, l: Legacy): Table {
    if l in d.legacy then d.legacy[l] else map[]
  }

  function ColumnTable(d: Disk, c: Column): Table {
    if c in d.columns then d.columns[c] else map[]
  }

  // ---------- the steps of a run ----------

  datatype Step = ClearNew | Fill(column: Column) | Drop(legacy: Legacy)

  const STEPS: seq<Step> := [
    ClearNew,
    Fill(Headers), Fill(Bodies), Fill(Extra), Fill(StateCol), Fill(TraceCol),
    Drop(Blocks), Drop(Extras), Drop(State), Drop(TraceDb)]

  /** The ignored failures of a run: whether the stale new database was cleared, and which legacy directories were left
      behind by their removal, each with the keys that survive in it. */
  datatype Faults = Faults(cleared: bool, left: map<Legacy, set<nat>>)

  function Kept(t: Table, keys: set<nat>): Table {
    map k | k in t && k in keys :: t[k]
  }

  function Lost(t: Table, keys: set<nat>): Table {
    map k | k in t && k !in keys :: t[k]
  }

  /** A completed step. */
  function Apply(d: Disk, s: Step, f: Faults): Disk {
    match s
    case ClearNew => if f.cleared then d.(columns := map[]) else d
    case Fill(c) =>
      var source := LegacyTable(d, SourceOf(c));
      Disk(d.legacy[SourceOf(c) := source], d.columns[c := ColumnTable(d, c) + Copy(c, source)])
    case Drop(l) =>
      d.(legacy := if l in f.left then d.legacy[l := Kept(LegacyTable(d, l), f.left[l])] else d.legacy - {l})
  }

  /** A step that is interrupted after the keys `done`: a copy has written them, a removal has lost them. */
  function Interrupt(d: Disk, s: Step, done: set<nat>): Disk {
    match s
    case ClearNew => d.(columns := map c | c in d.columns :: Lost(d.columns[c], done))
    case Fill(c) =>
      var source := LegacyTable(d, SourceOf(c));
      Disk(d.legacy[SourceOf(c) := source], d.columns[c := ColumnTable(d, c) + Copy(c, Kept(source, done))])
    case Drop(l) => d.(legacy := d.legacy[l := Lost(LegacyTable(d, l), done)])
  }

  function After(d: Disk, n: nat, f: Faults): Disk
    requires n <= |STEPS|
  {
    if n == 0 then d else Apply(After(d, n - 1, f), STEPS[n - 1], f)
  }

  /** A run does nothing once the blocks directory is gone; otherwise it may crash inside step `n`. */
  datatype Run = Complete(faults: Faults) | Crash(faults: Faults, n: nat, done: set<nat>)

  function Execute(d: Disk, r: Run): Disk {
    if Blocks !in d.legacy then d
    else
      match r
      case Complete(f) => After(d, |STEPS|, f)
      case Crash(f, n, done) =>
        if n < |STEPS| then Interrupt(After(d, n, f), STEPS[n], done) else After(d, |STEPS|, f)
  }

  /** The consolidation block of `migrate`, run to its end. */
  class DataDirectory {
    var disk: Disk

    method ClearNewDatabase(f: Faults)
      modifies this
      ensures disk == Apply(old(disk), ClearNew, f)
    {
      if f.cleared {
        disk := disk.(columns := map[]);
      }
    }

    method ConsolidateColumn(c: Column, ghost f: Faults)
      modifies this
      ensures disk == Apply(old(disk), Fill(c), f)
    {
      var source := LegacyTable(disk, SourceOf(c));
      disk := Disk(disk.legacy[SourceOf(c) := source], disk.columns[c := ColumnTable(disk, c) + Copy(c, source)]);
    }

    method DropLegacy(l: Legacy, f: Faults)
      modifies this
      ensures disk == Apply(old(disk), Drop(l), f)
    {
      if l in f.left {
        disk := disk.(legacy := disk.legacy[l := Kept(LegacyTable(disk, l), f.left[l])]);
      } else {
        disk := disk.(legacy := disk.legacy - {l});
      }
    }

    /** From every disk that a harmless history can leave, all five columns end up as without a crash or a failure. */
    method Consolidate(f: Faults)
      modifies this
      ensures disk == Execute(old(disk), Complete(f))
      ensures forall origin :: Recoverable(old(disk), origin) ==>
                && Consolidated(disk, origin)
                && (Recoverable(disk, origin) <==> Blocks !in old(disk).legacy || Harmless(origin, Complete(f)))
      ensures Blocks in old(disk).legacy ==> forall l :: l in disk.legacy <==> l in f.left
    {
      forall origin | Recoverable(disk, origin)
        ensures Consolidated(Execute(disk, Complete(f)), origin)
        ensures Recoverable(Execute(disk, Complete(f)), origin) <==>
                Blocks !in disk.legacy || Harmless(origin, Complete(f))
      {
        RunKeepsRecoverableIff(disk, origin, Complete(f));
        ConsolidatedIff(Execute(disk, Complete(f)), origin);
      }
      hide Apply, Recoverable, ColumnTable, Target, Harmless, Consolidated;
      if Blocks !in disk.legacy {
        return;
      }
      CompletedRunDrops(disk, f);
      UnrollSteps(disk, f);
      ClearNewDatabase(f);
      ConsolidateColumn(Headers, f);
      ConsolidateColumn(Bodies, f);
      ConsolidateColumn(Extra, f);
      ConsolidateColumn(StateCol, f);
      ConsolidateColumn(TraceCol, f);
      DropLegacy(Blocks, f);
      DropLegacy(Extras, f);
      DropLegacy(State, f);
      DropLegacy(TraceDb, f);
    }
  }

  lemma UnrollSteps(d: Disk, f: Faults)
    ensures var a := Apply(d, ClearNew, f);
            var b := Apply(Apply(Apply(a, Fill(Headers), f), Fill(Bodies), f), Fill(Extra), f);
            var c := Apply(Apply(b, Fill(StateCol), f), Fill(TraceCol), f);
            var e := Apply(Apply(c, Drop(Blocks), f), Drop(Extras), f);
            After(d, |STEPS|, f) == Apply(Apply(e, Drop(State), f), Drop(TraceDb), f)
  {
    hide Apply;
    assert After(d, 1, f) == Apply(After(d, 0, f), STEPS[0], f);
    assert After(d, 2, f) == Apply(After(d, 1, f), STEPS[1], f);
    assert After(d, 3, f) == Apply(After(d, 2, f), STEPS[2], f);
    assert After(d, 4, f) == Apply(After(d, 3, f), STEPS[3], f);
    assert After(d, 5, f) == Apply(After(d, 4, f), STEPS[4], f);
    assert After(d, 6, f) == Apply(After(d, 5, f), STEPS[5], f);
    assert After(d, 7, f) == Apply(After(d, 6, f), STEPS[6], f);
    assert After(d, 8, f) == Apply(After(d, 7, f), STEPS[7], f);
    assert After(d, 9, f) == Apply(After(d, 8, f), STEPS[8], f);
    assert After(d, 10, f) == Apply(After(d, 9, f), STEPS[9], f);
  }

  // ---------- the tables after a part of a run ----------

  /** The index of the step that fills a column. */
  function FillOf(c: Column): nat {
    match c
    case Headers => 1
    case Bodies => 2
    case Extra => 3
    case StateCol => 4
    case TraceCol => 5
  }

  /** The index of the step that drops a legacy directory. */
  function DropOf(l: Legacy): nat {
    match l
    case Blocks => 6
    case Extras => 7
    case State => 8
    case TraceDb => 9
  }

  lemma StepAt(n: nat)
    requires n < |STEPS|
    ensures n == 0 ==> STEPS[n] == ClearNew
    ensures 1 <= n <= 5 ==> STEPS[n].Fill? && FillOf(STEPS[n].column) == n
    ensures n >= 6 ==> STEPS[n].Drop? && DropOf(STEPS[n].legacy) == n
  {
  }

  function Remains(t: Table, l: Legacy, f: Faults): Table {
    if l in f.left then Kept(t, f.left[l]) else map[]
  }

  function LegacyAfter(d: Disk, l: Legacy, n: nat, f: Faults): Table {
    if DropOf(l) < n then Remains(LegacyTable(d, l), l, f) else LegacyTable(d, l)
  }

  function ColumnAfter(d: Disk, c: Column, n: nat, f: Faults): Table {
    var base := if n > 0 && f.cleared then map[] else ColumnTable(d, c);
    if FillOf(c) < n then base + Copy(c, LegacyTable(d, SourceOf(c))) else base
  }

  /** `e` is what the first `n` steps make of a disk with a blocks directory. */
  ghost predicate Progress(d: Disk, e: Disk, n: nat, f: Faults) {
    && (forall c :: ColumnTable(e, c) == ColumnAfter(d, c, n, f))
    && (forall l :: LegacyTable(e, l) == LegacyAfter(d, l, n, f))
    && (Blocks in e.legacy <==> n <= 6 || Blocks in f.left)
    && (forall l :: DropOf(l) < n ==> (l in e.legacy <==> l in f.left))
  }

  /** What a copy into a column and a change of a legacy table do to the tables. */
  lemma FillTables(e: Disk, c: Column, t: Table)
    ensures var source := LegacyTable(e, SourceOf(c));
            var r := Disk(e.legacy[SourceOf(c) := source], e.columns[c := t]);
            && (forall x :: ColumnTable(r, x) == if x == c then t else ColumnTable(e, x))
            && (forall l :: LegacyTable(r, l) == LegacyTable(e, l))
            && (Blocks in e.legacy ==> Blocks in r.legacy)
  {
  }

  lemma ClearProgresses(d: Disk, f: Faults)
    requires Blocks in d.legacy
    ensures Progress(d, Apply(d, ClearNew, f), 1, f)
  {
    hide Copy;
  }

  lemma FillProgresses(d: Disk, e: Disk, c: Column, f: Faults)
    requires Progress(d, e, FillOf(c), f)
    ensures Progress(d, Apply(e, Fill(c), f), FillOf(c) + 1, f)
  {
    var source := LegacyTable(e, SourceOf(c));
    var n := FillOf(c);
    assert source == LegacyTable(d, SourceOf(c)) by { assert DropOf(SourceOf(c)) >= n; }
    FillTables(e, c, ColumnTable(e, c) + Copy(c, source));
    var r := Apply(e, Fill(c), f);
    hide Copy, ColumnTable, LegacyTable, SourceOf, Apply;
    forall x ensures ColumnTable(r, x) == ColumnAfter(d, x, n + 1, f) {
      assert x != c ==> FillOf(x) != n;
    }
    forall l ensures LegacyTable(r, l) == LegacyAfter(d, l, n + 1, f) {
      assert DropOf(l) > n;
    }
  }

  lemma DropTables(e: Disk, l: Legacy, f: Faults)
    ensures var r := Apply(e, Drop(l), f);
            && (forall c :: ColumnTable(r, c) == ColumnTable(e, c))
            && (forall x :: LegacyTable(r, x) == if x == l then Remains(LegacyTable(e, l), l, f) else LegacyTable(e, x))
            && (forall x :: x in r.legacy <==> if x == l then l in f.left else x in e.legacy)
  {
    hide Kept;
  }

  lemma DropProgresses(d: Disk, e: Disk, l: Legacy, f: Faults)
    requires Progress(d, e, DropOf(l), f)
    ensures Progress(d, Apply(e, Drop(l), f), DropOf(l) + 1, f)
  {
    var r, n := Apply(e, Drop(l), f), DropOf(l);
    DropTables(e, l, f);
    hide Copy, ColumnTable, LegacyTable, SourceOf, Apply, Remains;
    forall x ensures LegacyTable(r, x) == LegacyAfter(d, x, n + 1, f) {
      assert x != l ==> DropOf(x) != n;
    }
    forall c ensures ColumnTable(r, c) == ColumnAfter(d, c, n + 1, f) {
      assert FillOf(c) < 6 <= n;
    }
  }

  lemma {:induction false} RunProgresses(d: Disk, n: nat, f: Faults)
    requires n <= |STEPS| && Blocks in d.legacy
    ensures Progress(d, After(d, n, f), n, f)
  {
    if n == 0 {
      NothingDone(d, f);
    } else {
      var e := After(d, n - 1, f);
      assert After(d, n, f) == Apply(e, STEPS[n - 1], f);
      assert n == 1 ==> e == d;
      assert |STEPS| == 10;
      hide *;
      RunProgresses(d, n - 1, f);
      StepProgresses(d, e, n - 1, f);
    }
  }

  lemma StepProgresses(d: Disk, e: Disk, n: nat, f: Faults)
    requires n < |STEPS| && Blocks in d.legacy && Progress(d, e, n, f) && (n == 0 ==> e == d)
    ensures Progress(d, Apply(e, STEPS[n], f), n + 1, f)
  {
    StepAt(n);
    var s := STEPS[n];
    assert n < 10;
    hide *;
    match s
    case ClearNew => ClearProgresses(d, f);
    case Fill(c) => FillProgresses(d, e, c, f);
    case Drop(l) => DropProgresses(d, e, l, f);
  }

  lemma NothingDone(d: Disk, f: Faults)
    requires Blocks in d.legacy
    ensures Progress(d, After(d, 0, f), 0, f)
  {
    hide Copy;
  }

  // ---------- what the new database holds in the end ----------

  ghost predicate InLegacy(d: Disk, l: Legacy, k: nat, v: Value) {
    l in d.legacy && k in d.legacy[l] && d.legacy[l][k] == v
  }

  ghost predicate InColumn(d: Disk, c: Column, k: nat, v: Value) {
    c in d.columns && k in d.columns[c] && d.columns[c][k] == v
  }

  ghost predicate SameEntries(d: Disk, c: Column, origin: Disk, l: Legacy) {
    forall k, v :: InColumn(d, c, k, v) <==> InLegacy(origin, l, k, v)
  }

  ghost predicate SameKeys(d: Disk, c: Column, origin: Disk, l: Legacy) {
    forall k :: c in d.columns && k in d.columns[c] <==> l in origin.legacy && k in origin.legacy[l]
  }

  /** The headers and bodies columns have the keys of the blocks database and hold the two parts of each block; the
      other three columns are the extras, state and trace databases. */
  ghost predicate Consolidated(d: Disk, origin: Disk) {
    && SameKeys(d, Headers, origin, Blocks) && SameKeys(d, Bodies, origin, Blocks)
    && (forall k, h, t, u :: InLegacy(origin, Blocks, k, BlockRlp(h, t, u)) ==>
          InColumn(d, Headers, k, HeaderRlp(h)) && InColumn(d, Bodies, k, BodyRlp(t, u)))
    && SameEntries(d, Extra, origin, Extras)
    && SameEntries(d, StateCol, origin, State)
    && SameEntries(d, TraceCol, origin, TraceDb)
  }

  lemma CopiedEntries(d: Disk, c: Column, origin: Disk)
    requires c != Headers && c != Bodies
    ensures ColumnTable(d, c) == Target(origin, c) <==> SameEntries(d, c, origin, SourceOf(c))
  {
    var t, full := ColumnTable(d, c), LegacyTable(origin, SourceOf(c));
    assert Target(origin, c) == full;
    assert forall k, v :: InColumn(d, c, k, v) <==> k in t && t[k] == v;
    assert forall k, v :: InLegacy(origin, SourceOf(c), k, v) <==> k in full && full[k] == v;
    hide InColumn, InLegacy, ColumnTable, LegacyTable, Target;
    if SameEntries(d, c, origin, SourceOf(c)) {
      forall k | k in t ensures k in full && t[k] == full[k] {
        assert InColumn(d, c, k, t[k]);
      }
      forall k | k in full ensures k in t {
        assert InLegacy(origin, SourceOf(c), k, full[k]);
      }
    }
  }

  lemma BlockParts(d: Disk, c: Column, origin: Disk)
    requires c == Headers || c == Bodies
    ensures ColumnTable(d, c) == Target(origin, c) ==>
              && SameKeys(d, c, origin, Blocks)
              && forall k, h, t, u :: InLegacy(origin, Blocks, k, BlockRlp(h, t, u)) ==>
                   InColumn(d, c, k, if c == Headers then HeaderRlp(h) else BodyRlp(t, u))
    ensures Within(ColumnTable(d, c), Target(origin, c)) && SameKeys(d, c, origin, Blocks) ==>
              ColumnTable(d, c) == Target(origin, c)
  {
    var t, full := ColumnTable(d, c), Target(origin, c);
    assert forall k :: k in t <==> c in d.columns && k in d.columns[c];
    assert forall k :: k in full <==> Blocks in origin.legacy && k in origin.legacy[Blocks];
  }

  /** What the targets mean. */
  lemma ConsolidatedIff(d: Disk, origin: Disk)
    ensures (forall c :: ColumnTable(d, c) == Target(origin, c)) ==> Consolidated(d, origin)
    ensures (forall c :: Within(ColumnTable(d, c), Target(origin, c))) && Consolidated(d, origin) ==>
              forall c :: ColumnTable(d, c) == Target(origin, c)
  {
    CopiedEntries(d, Extra, origin);
    CopiedEntries(d, StateCol, origin);
    CopiedEntries(d, TraceCol, origin);
    BlockParts(d, Headers, origin);
    BlockParts(d, Bodies, origin);
    hide InColumn, InLegacy, ColumnTable, Target, SameKeys, SameEntries, Within;
    if (forall c :: Within(ColumnTable(d, c), Target(origin, c))) && Consolidated(d, origin) {
      forall c ensures ColumnTable(d, c) == Target(origin, c) {
        match c
        case Headers => assert Within(ColumnTable(d, Headers), Target(origin, Headers));
        case Bodies => assert Within(ColumnTable(d, Bodies), Target(origin, Bodies));
        case _ =>
      }
    }
  }

  /** A completed run leaves exactly the legacy directories whose removal failed, with the keys that survived it. */
  lemma CompletedRunDrops(d: Disk, f: Faults)
    requires Blocks in d.legacy
    ensures forall l :: l in Execute(d, Complete(f)).legacy <==> l in f.left
    ensures forall l, k, v :: InLegacy(Execute(d, Complete(f)), l, k, v) <==>
                              l in f.left && k in f.left[l] && InLegacy(d, l, k, v)
  {
    RunProgresses(d, |STEPS|, f);
    assert forall l :: LegacyAfter(d, l, |STEPS|, f) == Remains(LegacyTable(d, l), l, f);
    assert forall l :: DropOf(l) < |STEPS|;
    var e := Execute(d, Complete(f));
    hide After, Execute, STEPS;
    forall l, k, v ensures InLegacy(e, l, k, v) <==> l in f.left && k in f.left[l] && InLegacy(d, l, k, v) {
      assert LegacyTable(e, l) == Remains(LegacyTable(d, l), l, f);
      EntryInTable(e, l, k, v);
      EntryInTable(d, l, k, v);
      hide LegacyTable, InLegacy;
    }
  }

  lemma EntryInTable(d: Disk, l: Legacy, k: nat, v: Value)
    ensures InLegacy(d, l, k, v) <==> k in LegacyTable(d, l) && LegacyTable(d, l)[k] == v
  {
  }

  // ---------- nothing wrong is ever written ----------

  /** What a column must hold in the end, given the original legacy databases. */
  function Target(origin: Disk, c: Column): Table {
    Copy(c, LegacyTable(origin, SourceOf(c)))
  }

  ghost predicate Within(t: Table, full: Table) {
    forall k :: k in t ==> k in full && t[k] == full[k]
  }

  /** No table holds anything that is not in the original or its target. */
  ghost predicate Genuine(d: Disk, origin: Disk) {
    && (forall c :: Within(ColumnTable(d, c), Target(origin, c)))
    && (forall l :: Within(LegacyTable(d, l), LegacyTable(origin, l)))
  }

  lemma CopyWithin(c: Column, t: Table, full: Table)
    requires Within(t, full)
    ensures Within(Copy(c, t), Copy(c, full))
    ensures Copy(c, t) == Copy(c, full) ==> t == full
  {
    if Copy(c, t) == Copy(c, full) {
      assert forall k :: k in full ==> k in Copy(c, full);
      assert forall k :: k in Copy(c, t) ==> k in t;
    }
  }

  lemma WithinJoins(a: Table, b: Table, full: Table)
    requires Within(a, full) && Within(b, full)
    ensures Within(a + b, full)
    ensures b == full ==> a + b == full
  {
  }

  lemma AfterIsGenuine(d: Disk, origin: Disk, n: nat, f: Faults)
    requires n <= |STEPS| && Blocks in d.legacy && Genuine(d, origin)
    ensures Genuine(After(d, n, f), origin)
  {
    RunProgresses(d, n, f);
    var e := After(d, n, f);
    hide After, Copy, ColumnTable, LegacyTable;
    forall c ensures Within(ColumnTable(e, c), Target(origin, c)) {
      var base := if n > 0 && f.cleared then map[] else ColumnTable(d, c);
      CopyWithin(c, LegacyTable(d, SourceOf(c)), LegacyTable(origin, SourceOf(c)));
      WithinJoins(base, Copy(c, LegacyTable(d, SourceOf(c))), Target(origin, c));
    }
    forall l ensures Within(LegacyTable(e, l), LegacyTable(origin, l)) {
      assert Within(LegacyTable(d, l), LegacyTable(origin, l));
    }
  }

  lemma InterruptIsGenuine(d: Disk, origin: Disk, s: Step, done: set<nat>)
    requires Genuine(d, origin)
    ensures Genuine(Interrupt(d, s, done), origin)
  {
    var e := Interrupt(d, s, done);
    match s
    case ClearNew =>
      hide Copy, Target;
      forall c ensures Within(ColumnTable(e, c), Target(origin, c)) {
        assert Within(ColumnTable(d, c), Target(origin, c));
      }
    case Fill(c) =>
      var source := LegacyTable(d, SourceOf(c));
      var part := Kept(source, done);
      hide Copy;
      assert Within(source, LegacyTable(origin, SourceOf(c)));
      assert Within(part, LegacyTable(origin, SourceOf(c)));
      CopyWithin(c, part, LegacyTable(origin, SourceOf(c)));
      WithinJoins(ColumnTable(d, c), Copy(c, part), Target(origin, c));
      FillTables(d, c, ColumnTable(d, c) + Copy(c, part));
      hide Target, Within, ColumnTable, LegacyTable;
    case Drop(l) =>
      hide Copy, Target;
      assert forall c :: ColumnTable(e, c) == ColumnTable(d, c);
      forall x ensures Within(LegacyTable(e, x), LegacyTable(origin, x)) {
        assert Within(LegacyTable(d, x), LegacyTable(origin, x));
      }
  }

  /** Whatever fails and wherever it crashes, a run writes nothing wrong. */
  lemma RunIsGenuine(d: Disk, origin: Disk, r: Run)
    requires Genuine(d, origin)
    ensures Genuine(Execute(d, r), origin)
  {
    if Blocks in d.legacy {
      var n := if r.Crash? && r.n < |STEPS| then r.n else |STEPS|;
      AfterIsGenuine(d, origin, n, r.faults);
      hide Genuine;
      if r.Crash? && r.n < |STEPS| {
        InterruptIsGenuine(After(d, n, r.faults), origin, STEPS[n], r.done);
      }
    }
  }

  // ---------- recoverable disks ----------

  /** The legacy databases are intact or, once the blocks directory is gone, all five columns are complete. */
  ghost predicate Recoverable(d: Disk, origin: Disk) {
    && Genuine(d, origin)
    && (Blocks in d.legacy ==> forall l :: LegacyTable(d, l) == LegacyTable(origin, l))
    && (Blocks !in d.legacy ==> forall c :: ColumnTable(d, c) == Target(origin, c))
  }

  /** A completed run makes of every column what the legacy directories still hold, added to what was not cleared. */
  lemma CompletedColumn(d: Disk, c: Column, f: Faults)
    requires Blocks in d.legacy
    ensures ColumnTable(Execute(d, Complete(f)), c) ==
            (if f.cleared then map[] else ColumnTable(d, c)) + Copy(c, LegacyTable(d, SourceOf(c)))
  {
    RunProgresses(d, |STEPS|, f);
    hide After, Copy, LegacyTable;
    assert FillOf(c) < |STEPS|;
    var e := Execute(d, Complete(f));
    assert ColumnTable(e, c) == ColumnAfter(d, c, |STEPS|, f);
  }

  lemma CompletedIsFull(d: Disk, origin: Disk, c: Column, f: Faults)
    requires Recoverable(d, origin)
    ensures ColumnTable(Execute(d, Complete(f)), c) == Target(origin, c)
  {
    if Blocks in d.legacy {
      CompletedColumn(d, c, f);
      var base := if f.cleared then map[] else ColumnTable(d, c);
      WithinJoins(base, Target(origin, c), Target(origin, c));
      hide Copy, Execute, ColumnTable;
    }
  }

  const CLEAN: Faults := Faults(true, map[])

  /** The meaning of a recoverable disk: from it every completed run leaves the columns as they should be. */
  lemma RecoverableMeans(d: Disk, origin: Disk)
    requires Genuine(d, origin)
    ensures Recoverable(d, origin) <==> forall f :: Consolidated(Execute(d, Complete(f)), origin)
  {
    RecoverableMeansTargets(d, origin);
    forall f ensures Consolidated(Execute(d, Complete(f)), origin) <==>
                     forall c :: ColumnTable(Execute(d, Complete(f)), c) == Target(origin, c)
    {
      RunIsGenuine(d, origin, Complete(f));
      ConsolidatedIff(Execute(d, Complete(f)), origin);
      hide Consolidated, ColumnTable, Target, Execute;
    }
    hide Consolidated, ColumnTable, Target, Execute, Recoverable;
  }

  lemma RecoverableMeansTargets(d: Disk, origin: Disk)
    requires Genuine(d, origin)
    ensures Recoverable(d, origin) <==>
            forall c, f :: ColumnTable(Execute(d, Complete(f)), c) == Target(origin, c)
  {
    if Recoverable(d, origin) {
      forall c, f ensures ColumnTable(Execute(d, Complete(f)), c) == Target(origin, c) {
        CompletedIsFull(d, origin, c, f);
      }
    } else if Blocks in d.legacy {
      var l :| LegacyTable(d, l) != LegacyTable(origin, l);
      var c := match l case Blocks => Headers case Extras => Extra case State => StateCol case TraceDb => TraceCol;
      CompletedColumn(d, c, CLEAN);
      CopyWithin(c, LegacyTable(d, l), LegacyTable(origin, l));
      hide Execute, Copy, LegacyTable;
      assert ColumnTable(Execute(d, Complete(CLEAN)), c) != Target(origin, c);
    } else {
      var c :| ColumnTable(d, c) != Target(origin, c);
      assert Execute(d, Complete(CLEAN)) == d;
    }
  }

  /** A run does no harm if it is cut short before it removes anything, if it removes the blocks directory, or if what
      it leaves of the legacy databases is still all of them. */
  ghost predicate Harmless(origin: Disk, r: Run) {
    match r
    case Complete(f) => Blocks !in f.left || Intact(origin, |STEPS|, f)
    case Crash(f, n, done) =>
      || n < 6
      || (n == 6 && forall k :: k in done ==> k !in LegacyTable(origin, Blocks))
      || (n > 6 && (Blocks !in f.left || (Intact(origin, n, f) && (n < |STEPS| ==> Unharmed(origin, STEPS[n], done)))))
  }

  ghost predicate Intact(origin: Disk, n: nat, f: Faults) {
    forall l :: LegacyAfter(origin, l, n, f) == LegacyTable(origin, l)
  }

  /** The interrupted removal has not touched a key. */
  ghost predicate Unharmed(origin: Disk, s: Step, done: set<nat>) {
    s.Drop? ==> forall k :: k in done ==> k !in LegacyTable(origin, s.legacy)
  }
  lemma SameLegacy(d: Disk, origin: Disk, l: Legacy, n: nat, f: Faults)
    requires LegacyTable(d, l) == LegacyTable(origin, l)
    ensures LegacyAfter(d, l, n, f) == LegacyAfter(origin, l, n, f)
  {
  }

  lemma LegacyAfterPrefix(d: Disk, origin: Disk, n: nat, f: Faults)
    requires n <= |STEPS| && Recoverable(d, origin) && Blocks in d.legacy
    ensures Blocks in After(d, n, f).legacy <==> n <= 6 || Blocks in f.left
    ensures forall l :: LegacyTable(After(d, n, f), l) == LegacyAfter(origin, l, n, f)
  {
    RunProgresses(d, n, f);
    hide After, Genuine, LegacyTable, ColumnTable, Target, ColumnAfter, LegacyAfter;
    forall l ensures LegacyTable(After(d, n, f), l) == LegacyAfter(origin, l, n, f) {
      SameLegacy(d, origin, l, n, f);
    }
  }

  /** Once the five copies are done the columns are complete. */
  lemma ColumnsAfterPrefix(d: Disk, origin: Disk, n: nat, f: Faults, c: Column)
    requires 6 <= n <= |STEPS| && Recoverable(d, origin) && Blocks in d.legacy
    ensures ColumnTable(After(d, n, f), c) == Target(origin, c)
  {
    RunProgresses(d, n, f);
    assert Within(ColumnTable(d, c), Target(origin, c));
    assert FillOf(c) < n;
    var base := if f.cleared then map[] else ColumnTable(d, c);
    assert ColumnTable(After(d, n, f), c) == base + Target(origin, c);
    WithinJoins(base, Target(origin, c), Target(origin, c));
  }

  lemma PrefixRecoverableIff(d: Disk, origin: Disk, n: nat, f: Faults)
    requires n <= |STEPS| && Recoverable(d, origin) && Blocks in d.legacy
    ensures Genuine(After(d, n, f), origin)
    ensures Blocks in After(d, n, f).legacy <==> n <= 6 || Blocks in f.left
    ensures forall l :: n <= DropOf(l) ==> LegacyTable(After(d, n, f), l) == LegacyTable(origin, l)
    ensures Recoverable(After(d, n, f), origin) <==> n <= 6 || Blocks !in f.left || Intact(origin, n, f)
  {
    LegacyAfterPrefix(d, origin, n, f);
    AfterIsGenuine(d, origin, n, f);
    hide After, Genuine, ColumnTable, LegacyTable, Target;
    if n > 6 {
      forall c ensures ColumnTable(After(d, n, f), c) == Target(origin, c) {
        ColumnsAfterPrefix(d, origin, n, f, c);
      }
    } else {
      assert forall l :: LegacyAfter(origin, l, n, f) == LegacyTable(origin, l);
    }
  }

  lemma InterruptedDropIff(e: Disk, origin: Disk, l: Legacy, done: set<nat>)
    requires Genuine(e, origin) && LegacyTable(e, l) == LegacyTable(origin, l)
    requires Blocks in e.legacy || (l != Blocks && Recoverable(e, origin))
    ensures Recoverable(Interrupt(e, Drop(l), done), origin) <==>
            Recoverable(e, origin) && (Blocks in e.legacy ==> Unharmed(origin, Drop(l), done))
  {
    var t, r := LegacyTable(e, l), Interrupt(e, Drop(l), done);
    InterruptIsGenuine(e, origin, Drop(l), done);
    assert forall c :: ColumnTable(r, c) == ColumnTable(e, c);
    assert forall x :: LegacyTable(r, x) == if x == l then Lost(t, done) else LegacyTable(e, x);
    assert Blocks in r.legacy <==> Blocks in e.legacy;
    assert Lost(t, done) == t <==> Unharmed(origin, Drop(l), done) by {
      assert forall k :: k in Lost(t, done) <==> k in t && k !in done;
    }
    hide Genuine, ColumnTable, LegacyTable, Target, Lost, Unharmed, Interrupt;
  }

  lemma InterruptedFillIsRecoverable(e: Disk, origin: Disk, s: Step, done: set<nat>)
    requires Recoverable(e, origin) && Blocks in e.legacy && !s.Drop?
    ensures Recoverable(Interrupt(e, s, done), origin)
  {
    InterruptIsGenuine(e, origin, s, done);
    var r := Interrupt(e, s, done);
    hide Genuine, Target, Copy, Lost;
    assert forall l :: LegacyTable(r, l) == LegacyTable(e, l);
  }

  lemma CrashIsRecoverableIff(d: Disk, origin: Disk, f: Faults, n: nat, done: set<nat>)
    requires Recoverable(d, origin) && Blocks in d.legacy && n < |STEPS|
    ensures Recoverable(Execute(d, Crash(f, n, done)), origin) <==> Harmless(origin, Crash(f, n, done))
  {
    var e := After(d, n, f);
    StepAt(n);
    PrefixRecoverableIff(d, origin, n, f);
    hide Recoverable, Genuine, After, Interrupt, Intact, LegacyTable;
    if n < 6 {
      InterruptedFillIsRecoverable(e, origin, STEPS[n], done);
    } else {
      var l := STEPS[n].legacy;
      assert LegacyTable(e, l) == LegacyTable(origin, l);
      assert n == 6 ==> l == Blocks;
      InterruptedDropIff(e, origin, l, done);
    }
  }

  /** The exact condition under which a run, crashed or completed, keeps a disk recoverable. */
  lemma RunKeepsRecoverableIff(d: Disk, origin: Disk, r: Run)
    requires Recoverable(d, origin)
    ensures Recoverable(Execute(d, r), origin) <==> Blocks !in d.legacy || Harmless(origin, r)
    ensures r.Complete? ==> forall c :: ColumnTable(Execute(d, r), c) == Target(origin, c)
  {
    if r.Complete? {
      forall c ensures ColumnTable(Execute(d, r), c) == Target(origin, c) {
        CompletedIsFull(d, origin, c, r.faults);
      }
    }
    hide Recoverable, ColumnTable, Target;
    if Blocks in d.legacy {
      if r.Crash? && r.n < |STEPS| {
        CrashIsRecoverableIff(d, origin, r.faults, r.n, r.done);
      } else {
        PrefixRecoverableIff(d, origin, |STEPS|, r.faults);
        LateIsComplete(origin, r);
      }
    }
  }

  lemma LateIsComplete(origin: Disk, r: Run)
    requires r.Crash? ==> r.n >= |STEPS|
    ensures Harmless(origin, r) <==> Blocks !in r.faults.left || Intact(origin, |STEPS|, r.faults)
  {
    if r.Crash? {
      assert forall l :: LegacyAfter(origin, l, r.n, r.faults) == LegacyAfter(origin, l, |STEPS|, r.faults);
    }
  }

  // ---------- all histories ----------

  function ExecuteAll(d: Disk, runs: seq<Run>): Disk {
    if runs == [] then d else Execute(ExecuteAll(d, runs[..|runs| - 1]), runs[|runs| - 1])
  }

  ghost predicate RecoverableAt(origin: Disk, runs: seq<Run>, i: nat)
    requires i <= |runs|
  {
    Recoverable(ExecuteAll(origin, runs[..i]), origin)
  }

  ghost predicate HarmlessAt(origin: Disk, runs: seq<Run>, i: nat)
    requires i < |runs|
  {
    Blocks in ExecuteAll(origin, runs[..i]).legacy ==> Harmless(origin, runs[i])
  }

  ghost predicate AlwaysRecoverable(origin: Disk, runs: seq<Run>) {
    forall i :: 0 <= i <= |runs| ==> RecoverableAt(origin, runs, i)
  }

  ghost predicate AllHarmless(origin: Disk, runs: seq<Run>) {
    forall i :: 0 <= i < |runs| ==> HarmlessAt(origin, runs, i)
  }

  lemma ExecuteAllExtends(origin: Disk, front: seq<Run>, r: Run)
    ensures ExecuteAll(origin, front + [r]) == Execute(ExecuteAll(origin, front), r)
  {
    hide Execute;
    assert (front + [r])[..|front|] == front;
  }

  lemma RecoverableExtends(origin: Disk, front: seq<Run>, r: Run)
    ensures AlwaysRecoverable(origin, front) ==> Recoverable(ExecuteAll(origin, front), origin)
    ensures AlwaysRecoverable(origin, front + [r]) <==>
            AlwaysRecoverable(origin, front) && Recoverable(ExecuteAll(origin, front + [r]), origin)
  {
    hide Recoverable, ExecuteAll;
    var runs := front + [r];
    assert front[..|front|] == front && runs[..|runs|] == runs;
    assert RecoverableAt(origin, front, |front|) <==> Recoverable(ExecuteAll(origin, front), origin);
    assert RecoverableAt(origin, runs, |runs|) <==> Recoverable(ExecuteAll(origin, runs), origin);
    forall i | 0 <= i <= |front| ensures RecoverableAt(origin, runs, i) <==> RecoverableAt(origin, front, i) {
      assert runs[..i] == front[..i];
    }
    hide RecoverableAt;
  }

  lemma HarmlessExtends(origin: Disk, front: seq<Run>, r: Run)
    ensures AllHarmless(origin, front + [r]) <==>
            AllHarmless(origin, front) && (Blocks in ExecuteAll(origin, front).legacy ==> Harmless(origin, r))
  {
    hide Harmless, ExecuteAll;
    var runs := front + [r];
    assert runs[..|front|] == front;
    assert HarmlessAt(origin, runs, |front|) <==>
           (Blocks in ExecuteAll(origin, front).legacy ==> Harmless(origin, r));
    forall i | 0 <= i < |front| ensures HarmlessAt(origin, runs, i) <==> HarmlessAt(origin, front, i) {
      assert runs[..i] == front[..i];
    }
    hide HarmlessAt;
  }

  /** Over every history of crashed, failing and completed runs nothing wrong is written, and at every moment a
      completed run would leave the right columns exactly when no run did harm: when each run that found a blocks
      directory was cut short before the removals, removed that directory, or left all legacy databases as they
      were. */
  lemma {:induction false} ConsolidationIsRestartableIff(origin: Disk, runs: seq<Run>)
    requires Blocks in origin.legacy && origin.columns == map[]
    ensures Genuine(ExecuteAll(origin, runs), origin)
    ensures AlwaysRecoverable(origin, runs) <==> AllHarmless(origin, runs)
  {
    hide *;
    if runs == [] {
      NoRuns(origin, runs);
    } else {
      var front, r := runs[..|runs| - 1], runs[|runs| - 1];
      ConsolidationIsRestartableIff(origin, front);
      assert runs == front + [r];
      NextRun(origin, front, r);
    }
  }

  lemma NextRun(origin: Disk, front: seq<Run>, r: Run)
    requires Genuine(ExecuteAll(origin, front), origin)
    requires AlwaysRecoverable(origin, front) <==> AllHarmless(origin, front)
    ensures Genuine(ExecuteAll(origin, front + [r]), origin)
    ensures AlwaysRecoverable(origin, front + [r]) <==> AllHarmless(origin, front + [r])
  {
    hide *;
    RunIsGenuine(ExecuteAll(origin, front), origin, r);
    ExecuteAllExtends(origin, front, r);
    RecoverableExtends(origin, front, r);
    HarmlessExtends(origin, front, r);
    if AlwaysRecoverable(origin, front) {
      RunKeepsRecoverableIff(ExecuteAll(origin, front), origin, r);
    }
  }

  lemma NoRuns(origin: Disk, runs: seq<Run>)
    requires Blocks in origin.legacy && origin.columns == map[] && runs == []
    ensures Genuine(ExecuteAll(origin, runs), origin) && AlwaysRecoverable(origin, runs) && AllHarmless(origin, runs)
  {
    hide Copy;
    assert runs[..0] == [] && ExecuteAll(origin, []) == origin;
    assert Recoverable(origin, origin);
  }

  /** In particular, when every removal of the blocks directory that is begun succeeds, whatever becomes of the other
      removals, any history can be followed by a completed run that ends with the right columns. */
  lemma {:induction false} ConsolidationIsRestartable(origin: Disk, runs: seq<Run>, f: Faults)
    requires Blocks in origin.legacy && origin.columns == map[]
    requires forall i :: 0 <= i < |runs| ==>
               Blocks !in runs[i].faults.left && (runs[i].Crash? && runs[i].n == 6 ==> runs[i].done == {})
    ensures Consolidated(Execute(ExecuteAll(origin, runs), Complete(f)), origin)
  {
    forall i | 0 <= i < |runs| ensures HarmlessAt(origin, runs, i) {
      assert Harmless(origin, runs[i]);
    }
    hide Harmless, HarmlessAt, ColumnTable, Target, Execute, Recoverable;
    ConsolidationIsRestartableIff(origin, runs);
    assert RecoverableAt(origin, runs, |runs|);
    assert runs[..|runs|] == runs;
    hide Genuine, Consolidated;
    RecoverableMeans(ExecuteAll(origin, runs), origin);
  }

  // ---------- what a failed removal costs ----------

  /** A rerun that clears the new database restores a column of any disk exactly when its source still yields it. */
  lemma RerunIsFaithfulIff(d: Disk, origin: Disk, c: Column, f: Faults)
    requires Blocks in d.legacy && f.cleared
    ensures ColumnTable(Execute(d, Complete(f)), c) == Target(origin, c) <==>
            Copy(c, LegacyTable(d, SourceOf(c))) == Copy(c, LegacyTable(origin, SourceOf(c)))
  {
    CompletedColumn(d, c, f);
    assert map[] + Copy(c, LegacyTable(d, SourceOf(c))) == Copy(c, LegacyTable(d, SourceOf(c)));
    hide Execute, Copy;
  }

  /** Two runs: the blocks directory could not be removed while the extras directory could be, and the rerun empties the
      extras column. */
  lemma FailedRemovalLosesExtras(origin: Disk)
    requires Blocks in origin.legacy && origin.columns == map[]
    requires Extras in origin.legacy && origin.legacy[Extras] != map[]
    ensures var failing := Faults(true, map[Blocks := origin.legacy[Blocks].Keys]);
            var d := ExecuteAll(origin, [Complete(failing), Complete(CLEAN)]);
            ColumnTable(d, Extra) == map[] != Target(origin, Extra)
  {
    var failing := Faults(true, map[Blocks := origin.legacy[Blocks].Keys]);
    var one, two := [Complete(failing)], [Complete(failing), Complete(CLEAN)];
    assert one[..0] == [] && two[..1] == one;
    var d := Execute(origin, Complete(failing));
    assert ExecuteAll(origin, one) == d && ExecuteAll(origin, two) == Execute(d, Complete(CLEAN)) by {
      assert ExecuteAll(origin, []) == origin;
      hide Execute;
    }
    RunProgresses(origin, |STEPS|, failing);
    assert LegacyTable(d, Extras) == LegacyAfter(origin, Extras, |STEPS|, failing) == map[];
    CompletedColumn(d, Extra, CLEAN);
    var k :| k in origin.legacy[Extras];
    assert k in Target(origin, Extra);
  }
}
