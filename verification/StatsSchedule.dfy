/** Overlapping statistics runs: `explorer-gmc-master/tools/stats.js` starts a new run every minute whether or not the
    last one has ended, so walks interleave, and a record saved twice hits the unique index of the collection
    (`explorer-gmc-master/db.js`) and ends the process. All fetches succeed here. */
module StatsSchedule {
  import opened Stats

  /** A walk has fetched its first block only, waits for an existence check, or is about to save. */
  datatype Phase = First | Checking | Saving
  datatype Walker = Walker(number: int, end: int, phase: Phase)

  /** `top` is the aligned height of the latest run. */
  datatype State = State(db: Records, walkers: seq<Walker>, top: int, crashed: bool)

  const INITIAL := State(map[], [], 0, false)

  datatype Event = StartRun(latest: nat) | Advance(k: nat)

  datatype Setup = Setup(time: int -> int, range: nat, interval: int) {
    ghost predicate Valid() { interval == 1 || interval >= 10 }

    function End(top: int): int { Max(0, top - Span(range, interval)) }
  }

  function Without(walkers: seq<Walker>, k: nat): seq<Walker>
    requires k < |walkers|
  {
    walkers[..k] + walkers[k + 1..]
  }

  /** One callback. */
  function Step(s: State, e: Event, c: Setup): State
    requires c.Valid()
  {
    if s.crashed then s
    else
      match e
      case StartRun(latest) =>
        var top := Aligned(latest, c.interval);
        s.(walkers := s.walkers + [Walker(top, c.End(top), First)], top := top)
      case Advance(k) =>
        if k >= |s.walkers| then s
        else
          var w := s.walkers[k];
          match w.phase
          case First =>
            if w.number <= w.end then s.(walkers := Without(s.walkers, k))
            else s.(walkers := s.walkers[k := Walker(w.number - c.interval, w.end, Checking)])
          case Checking =>
            if w.number <= w.end || w.number in s.db then s.(walkers := Without(s.walkers, k))
            else s.(walkers := s.walkers[k := w.(phase := Saving)])
          case Saving =>
            if w.number in s.db then s.(crashed := true)
            else
              s.(db := s.db[w.number := BlockTime(c.time, w.number, w.number + c.interval)],
                 walkers := s.walkers[k := Walker(w.number - c.interval, w.end, Checking)])
  }

  function Run(events: seq<Event>, c: Setup): State
    requires c.Valid()
  {
    if events == [] then INITIAL else Step(Run(events[..|events| - 1], c), events[|events| - 1], c)
  }

  /** Runs start at non-decreasing heights. */
  ghost predicate Growing(events: seq<Event>, c: Setup)
    requires c.Valid()
  {
    forall i :: 0 <= i < |events| && events[i].StartRun? ==>
      Run(events[..i], c).top <= Aligned(events[i].latest, c.interval)
  }

  // ---------- the invariant ----------

  /** The next number a walk may save. */
  ghost function Position(w: Walker, c: Setup): int {
    if w.phase == First then w.number - c.interval else w.number
  }

  ghost predicate NoRecord(db: Records, low: int, high: int) {
    forall x :: low <= x <= high ==> x !in db
  }

  /** The walk will save `m` unless someone else does: nothing is recorded between `m` and its position. */
  ghost predicate Reaches(w: Walker, m: int, db: Records, c: Setup) {
    m <= Position(w, c) && NoRecord(db, m, Position(w, c))
  }

  ghost predicate Responsible(s: State, m: int, c: Setup) {
    exists i :: 0 <= i < |s.walkers| && Reaches(s.walkers[i], m, s.db, c)
  }

  ghost predicate GoodWalker(w: Walker, top: int, c: Setup)
    requires c.Valid()
  {
    && Position(w, c) < top && Position(w, c) % c.interval == 0
    && w.end <= c.End(top) && (w.phase == Saving ==> w.end < w.number)
  }

  ghost predicate GoodRecords(s: State, c: Setup)
    requires c.Valid()
  {
    forall n :: n in s.db ==> n < s.top && n % c.interval == 0 && s.db[n] == BlockTime(c.time, n, n + c.interval)
  }

  /** Every missing number of the latest window is still ahead of some walk. */
  ghost predicate Covered(s: State, c: Setup)
    requires c.Valid()
  {
    forall m :: c.End(s.top) < m < s.top && m % c.interval == 0 && m !in s.db ==> Responsible(s, m, c)
  }

  /** The latest height is aligned, the records are right, and so are the walks. */
  ghost predicate Sane(s: State, c: Setup)
    requires c.Valid()
  {
    && s.top >= 0 && s.top % c.interval == 0 && GoodRecords(s, c)
    && (forall i :: 0 <= i < |s.walkers| ==> GoodWalker(s.walkers[i], s.top, c))
  }

  ghost predicate Inv(s: State, c: Setup)
    requires c.Valid()
  {
    Sane(s, c) && Covered(s, c)
  }

  lemma MultiplesApart(m: int, n: int, interval: int)
    requires interval > 0 && m < n && m % interval == 0 && n % interval == 0
    ensures m <= n - interval && (n - interval) % interval == 0
  {
    SameResidue(n, m, interval);
    Residues(n, m, interval);
    UniqueDivision(n - interval, interval, n / interval - 1, 0);
  }

  /** A new walk takes over what the window gains; the rest stays with the walks that had it. */
  lemma StartKeepsResponsible(s: State, m: int, w: Walker, top: int, c: Setup)
    requires c.Valid() && w == Walker(top, c.End(top), First) && top % c.interval == 0
    requires m < top && m % c.interval == 0 && (Responsible(s, m, c) || NoRecord(s.db, m, top - c.interval))
    ensures Responsible(s.(walkers := s.walkers + [w], top := top), m, c)
  {
    var t := s.(walkers := s.walkers + [w], top := top);
    if Responsible(s, m, c) {
      var i :| 0 <= i < |s.walkers| && Reaches(s.walkers[i], m, s.db, c);
      assert t.walkers[i] == s.walkers[i];
    } else {
      MultiplesApart(m, top, c.interval);
      assert Reaches(t.walkers[|s.walkers|], m, t.db, c);
    }
  }

  lemma StartKeepsCovered(s: State, top: int, c: Setup)
    requires c.Valid() && Sane(s, c) && Covered(s, c) && s.top <= top && top % c.interval == 0
    ensures Covered(s.(walkers := s.walkers + [Walker(top, c.End(top), First)], top := top), c)
  {
    var w := Walker(top, c.End(top), First);
    var t := s.(walkers := s.walkers + [w], top := top);
    assert c.End(s.top) <= c.End(top);
    assert forall x :: x in s.db ==> x < s.top;
    hide Responsible, BlockTime, GoodWalker;
    forall m | c.End(top) < m < top && m % c.interval == 0 && m !in t.db ensures Responsible(t, m, c) {
      assert m < s.top ==> Responsible(s, m, c);
      StartKeepsResponsible(s, m, w, top, c);
    }
  }

  lemma StartKeepsSane(s: State, top: int, c: Setup)
    requires c.Valid() && Sane(s, c) && s.top <= top && top % c.interval == 0
    ensures Sane(s.(walkers := s.walkers + [Walker(top, c.End(top), First)], top := top), c)
  {
    var w := Walker(top, c.End(top), First);
    var t := s.(walkers := s.walkers + [w], top := top);
    hide BlockTime;
    assert c.End(s.top) <= c.End(top);
    UniqueDivision(top - c.interval, c.interval, top / c.interval - 1, 0);
    assert GoodWalker(w, top, c);
    forall i | 0 <= i < |t.walkers| ensures GoodWalker(t.walkers[i], t.top, c) {
      if i < |s.walkers| { assert GoodWalker(s.walkers[i], s.top, c); }
    }
  }

  lemma StartKeepsInv(s: State, latest: nat, c: Setup)
    requires c.Valid() && Inv(s, c) && !s.crashed && s.top <= Aligned(latest, c.interval)
    ensures Inv(Step(s, StartRun(latest), c), c)
  {
    var top := Aligned(latest, c.interval);
    AlignedIsMonotone(latest, latest, c.interval);
    assert Step(s, StartRun(latest), c) == s.(walkers := s.walkers + [Walker(top, c.End(top), First)], top := top);
    hide Step, Sane, Covered, Aligned;
    StartKeepsSane(s, top, c);
    StartKeepsCovered(s, top, c);
  }

  /** Replacing a walk by one at the same position, or dropping one that reaches nothing of the window. */
  lemma DropKeepsInv(s: State, k: nat, c: Setup)
    requires c.Valid() && Inv(s, c) && k < |s.walkers|
    requires forall m :: c.End(s.top) < m ==> !Reaches(s.walkers[k], m, s.db, c)
    ensures Inv(s.(walkers := Without(s.walkers, k)), c)
  {
    var t := s.(walkers := Without(s.walkers, k));
    forall m | c.End(t.top) < m < t.top && m % c.interval == 0 && m !in t.db ensures Responsible(t, m, c) {
      var i :| 0 <= i < |s.walkers| && Reaches(s.walkers[i], m, s.db, c);
      assert t.walkers[if i < k then i else i - 1] == s.walkers[i];
    }
  }

  lemma MoveKeepsInv(s: State, k: nat, w: Walker, c: Setup)
    requires c.Valid() && Inv(s, c) && k < |s.walkers|
    requires Position(w, c) == Position(s.walkers[k], c) && GoodWalker(w, s.top, c)
    ensures Inv(s.(walkers := s.walkers[k := w]), c)
  {
    var t := s.(walkers := s.walkers[k := w]);
    forall m | c.End(t.top) < m < t.top && m % c.interval == 0 && m !in t.db ensures Responsible(t, m, c) {
      var i :| 0 <= i < |s.walkers| && Reaches(s.walkers[i], m, s.db, c);
      assert Reaches(t.walkers[i], m, t.db, c);
    }
  }

  /** A save hands the numbers below it on to the walk that saved. */
  lemma SaveKeepsResponsible(s: State, k: nat, m: int, db: Records, w: Walker, c: Setup)
    requires c.Valid() && k < |s.walkers| && s.walkers[k].phase == Saving && s.walkers[k].number % c.interval == 0
    requires var n := s.walkers[k].number;
             && (forall x :: x in db <==> x in s.db || x == n)
             && w == Walker(n - c.interval, s.walkers[k].end, Checking)
    requires Responsible(s, m, c) && m !in db && m % c.interval == 0
    ensures Responsible(s.(db := db, walkers := s.walkers[k := w]), m, c)
  {
    var t := s.(db := db, walkers := s.walkers[k := w]);
    var n := s.walkers[k].number;
    var i :| 0 <= i < |s.walkers| && Reaches(s.walkers[i], m, s.db, c);
    if m <= n <= Position(s.walkers[i], c) {
      MultiplesApart(m, n, c.interval);
      assert Reaches(t.walkers[k], m, t.db, c);
    } else {
      assert i != k && t.walkers[i] == s.walkers[i];
      assert Reaches(t.walkers[i], m, t.db, c);
    }
  }

  lemma SaveKeepsInv(s: State, k: nat, c: Setup)
    requires c.Valid() && Inv(s, c) && !s.crashed && k < |s.walkers|
    requires s.walkers[k].phase == Saving && s.walkers[k].number !in s.db
    ensures Inv(Step(s, Advance(k), c), c)
  {
    var t := Step(s, Advance(k), c);
    var n := s.walkers[k].number;
    assert GoodWalker(s.walkers[k], s.top, c);
    UniqueDivision(n - c.interval, c.interval, n / c.interval - 1, 0);
    hide Responsible, BlockTime;
    assert GoodRecords(t, c);
    assert Sane(t, c);
    forall m | c.End(t.top) < m < t.top && m % c.interval == 0 && m !in t.db ensures Responsible(t, m, c) {
      SaveKeepsResponsible(s, k, m, t.db, t.walkers[k], c);
    }
  }

  lemma AdvanceKeepsInv(s: State, k: nat, c: Setup)
    requires c.Valid() && Inv(s, c) && !Step(s, Advance(k), c).crashed
    ensures Inv(Step(s, Advance(k), c), c)
  {
    if k < |s.walkers| && !s.crashed {
      var w := s.walkers[k];
      match w.phase
      case First =>
        if w.number <= w.end {
          DropKeepsInv(s, k, c);
        } else {
          MoveKeepsInv(s, k, Walker(w.number - c.interval, w.end, Checking), c);
        }
      case Checking =>
        if w.number <= w.end || w.number in s.db {
          forall m | c.End(s.top) < m ensures !Reaches(w, m, s.db, c) {
            if m <= w.number { assert w.number in s.db; }
          }
          DropKeepsInv(s, k, c);
        } else {
          MoveKeepsInv(s, k, w.(phase := Saving), c);
        }
      case Saving => SaveKeepsInv(s, k, c);
    }
  }

  lemma {:induction false} RunKeepsInv(events: seq<Event>, c: Setup)
    requires c.Valid() && Growing(events, c) && !Run(events, c).crashed
    ensures Inv(Run(events, c), c)
  {
    if events != [] {
      var front, e := events[..|events| - 1], events[|events| - 1];
      assert forall i :: 0 <= i < |front| ==> front[i] == events[i] && front[..i] == events[..i];
      assert !Run(front, c).crashed;
      RunKeepsInv(front, c);
      hide Inv;
      match e
      case StartRun(latest) => StartKeepsInv(Run(front, c), latest, c);
      case Advance(k) => AdvanceKeepsInv(Run(front, c), k, c);
    }
  }

  /** However runs at non-decreasing heights interleave, once they have all ended without a clash every multiple of the
      interval in the latest window has its correct record. */
  lemma InterleavedRunsLoseNothing(events: seq<Event>, c: Setup)
    requires c.Valid() && Growing(events, c)
    requires !Run(events, c).crashed && Run(events, c).walkers == []
    ensures var s := Run(events, c); Complete(s.db, c.time, s.top, c.End(s.top), c.interval)
  {
    RunKeepsInv(events, c);
    hide Run, Growing;
    AllEndedIsComplete(Run(events, c), c);
  }

  lemma AllEndedIsComplete(s: State, c: Setup)
    requires c.Valid() && Inv(s, c) && s.walkers == []
    ensures Complete(s.db, c.time, s.top, c.End(s.top), c.interval)
  {
    assert forall m :: !Responsible(s, m, c);
    hide BlockTime;
  }

  // ---------- clashes ----------

  /** No run starts before the last one has ended. */
  ghost predicate OneAtATime(events: seq<Event>, c: Setup)
    requires c.Valid()
  {
    forall i :: 0 <= i < |events| && events[i].StartRun? ==> Run(events[..i], c).walkers == []
  }

  /** Runs that do not overlap never clash. */
  lemma {:induction false} OneAtATimeNeverClashes(events: seq<Event>, c: Setup)
    requires c.Valid() && OneAtATime(events, c)
    ensures Alone(Run(events, c))
  {
    if events != [] {
      var front := events[..|events| - 1];
      assert forall i :: 0 <= i < |front| ==> front[i] == events[i] && front[..i] == events[..i];
      OneAtATimeNeverClashes(front, c);
      hide Step, Alone;
      StepKeepsAlone(Run(front, c), events[|events| - 1], c);
    }
  }

  /** At most one walk, about to save only what is not recorded. */
  ghost predicate Alone(s: State) {
    && !s.crashed && |s.walkers| <= 1
    && (|s.walkers| == 1 && s.walkers[0].phase == Saving ==> s.walkers[0].number !in s.db)
  }

  lemma StepKeepsAlone(s: State, e: Event, c: Setup)
    requires c.Valid() && Alone(s) && (e.StartRun? ==> s.walkers == [])
    ensures Alone(Step(s, e, c))
  {
    hide BlockTime, Aligned;
  }

  /** Two walks are about to save the same number. */
  ghost predicate Paired(s: State) {
    exists i, j :: 0 <= i < j < |s.walkers| && BothSave(s.walkers[i], s.walkers[j])
  }

  ghost predicate BothSave(v: Walker, w: Walker) {
    v.phase == Saving && w.phase == Saving && v.number == w.number
  }

  ghost predicate NeverPaired(events: seq<Event>, c: Setup)
    requires c.Valid()
  {
    forall i :: 0 <= i <= |events| ==> !Paired(Run(events[..i], c))
  }

  /** Some walk is about to save a number that is already recorded. */
  ghost predicate Late(s: State) {
    exists i :: 0 <= i < |s.walkers| && IsLate(s.walkers[i], s.db)
  }

  ghost predicate IsLate(w: Walker, db: Records) {
    w.phase == Saving && w.number in db
  }

  lemma StepKeepsPunctual(s: State, e: Event, c: Setup)
    requires c.Valid() && !s.crashed && !Late(s) && !Paired(s)
    ensures !Step(s, e, c).crashed && !Late(Step(s, e, c))
  {
    var t := Step(s, e, c);
    hide BlockTime, Aligned;
    if e.Advance? && e.k < |s.walkers| {
      assert !IsLate(s.walkers[e.k], s.db);
    }
    forall i | 0 <= i < |t.walkers| ensures !IsLate(t.walkers[i], t.db) {
      var k := if e.Advance? && |t.walkers| < |s.walkers| && i >= e.k then i + 1 else i;
      if k < |s.walkers| {
        assert !IsLate(s.walkers[k], s.db);
        if e.Advance? && e.k < |s.walkers| && k != e.k {
          assert !BothSave(s.walkers[k], s.walkers[e.k]) && !BothSave(s.walkers[e.k], s.walkers[k]);
        }
      }
    }
  }

  /** A late walk stays late until it ends the process ... */
  lemma StepKeepsLate(s: State, e: Event, c: Setup)
    requires c.Valid() && Late(s)
    ensures Step(s, e, c).crashed || Late(Step(s, e, c))
  {
    var t := Step(s, e, c);
    hide BlockTime, Aligned;
    var i :| 0 <= i < |s.walkers| && IsLate(s.walkers[i], s.db);
    if !t.crashed {
      var k := if e.Advance? && |t.walkers| < |s.walkers| && i > e.k then i - 1 else i;
      assert IsLate(t.walkers[k], t.db);
    }
  }

  /** ... and of two walks about to save one number the slower becomes late. */
  lemma StepKeepsPaired(s: State, e: Event, c: Setup)
    requires c.Valid() && Paired(s)
    ensures var t := Step(s, e, c); t.crashed || Late(t) || Paired(t)
  {
    var i, j :| 0 <= i < j < |s.walkers| && BothSave(s.walkers[i], s.walkers[j]);
    if e.Advance? && !s.crashed && (e.k == i || e.k == j) {
      SlowerIsLate(s, e.k, i + j - e.k, c);
    } else {
      PairStays(s, e, i, j, c);
    }
  }

  lemma SlowerIsLate(s: State, k: nat, other: nat, c: Setup)
    requires c.Valid() && !s.crashed && k < |s.walkers| && other < |s.walkers| && k != other
    requires BothSave(s.walkers[k], s.walkers[other]) || BothSave(s.walkers[other], s.walkers[k])
    ensures var t := Step(s, Advance(k), c); t.crashed || Late(t)
  {
    var t := Step(s, Advance(k), c);
    hide BlockTime, Aligned;
    if !t.crashed {
      assert IsLate(t.walkers[other], t.db);
    }
  }

  lemma PairStays(s: State, e: Event, i: nat, j: nat, c: Setup)
    requires c.Valid() && i < j < |s.walkers| && BothSave(s.walkers[i], s.walkers[j])
    requires e.Advance? && !s.crashed ==> e.k != i && e.k != j
    ensures var t := Step(s, e, c); t.crashed || Paired(t)
  {
    var t := Step(s, e, c);
    hide BlockTime, Aligned;
    if !t.crashed {
      var dropped := e.Advance? && |t.walkers| < |s.walkers|;
      var i', j' := if dropped && i > e.k then i - 1 else i, if dropped && j > e.k then j - 1 else j;
      assert t.walkers[i'] == s.walkers[i] && t.walkers[j'] == s.walkers[j];
      assert BothSave(t.walkers[i'], t.walkers[j']);
    }
  }

  lemma {:induction false} PunctualWhileNeverPaired(events: seq<Event>, c: Setup)
    requires c.Valid() && NeverPaired(events, c)
    ensures !Run(events, c).crashed && !Late(Run(events, c))
  {
    if events != [] {
      var front := events[..|events| - 1];
      assert forall i :: 0 <= i <= |front| ==> front[..i] == events[..i];
      PunctualWhileNeverPaired(front, c);
      assert !Paired(Run(front, c)) by { assert front[..|front|] == front; }
      StepKeepsPunctual(Run(front, c), events[|events| - 1], c);
    }
  }

  lemma {:induction false} PairedIsDoomed(events: seq<Event>, i: nat, c: Setup)
    requires c.Valid() && i <= |events| && Paired(Run(events[..i], c))
    ensures var s := Run(events, c); s.crashed || Late(s) || Paired(s)
  {
    if i == |events| {
      assert events[..i] == events;
    } else {
      var front, e := events[..|events| - 1], events[|events| - 1];
      assert front[..i] == events[..i];
      PairedIsDoomed(front, i, c);
      var s := Run(front, c);
      if !s.crashed {
        if Late(s) { StepKeepsLate(s, e, c); } else { StepKeepsPaired(s, e, c); }
      }
    }
  }

  /** A schedule that is followed to its end ends without a clash if and only if at no time two walks are about to save
      the same number. */
  lemma EndsWithoutClashIff(events: seq<Event>, c: Setup)
    requires c.Valid() && (Run(events, c).crashed || Run(events, c).walkers == [])
    ensures !Run(events, c).crashed <==> NeverPaired(events, c)
  {
    if NeverPaired(events, c) {
      PunctualWhileNeverPaired(events, c);
    } else {
      var i :| 0 <= i <= |events| && Paired(Run(events[..i], c));
      PairedIsDoomed(events, i, c);
    }
  }

  /** Two runs at one height can clash: both find block 200 missing, the second save ends the process, and block
      100 stays unrecorded. */
  lemma OverlappingRunsCanClash(time: int -> int)
    ensures var c := Setup(time, 10, 100);
            var events :=
              [StartRun(300), StartRun(300), Advance(0), Advance(1), Advance(0), Advance(1), Advance(0), Advance(1)];
            Run(events, c).crashed && 100 !in Run(events, c).db
  {
    BothAboutToSave(time);
    var c := Setup(time, 10, 100);
    var e := [StartRun(300), StartRun(300), Advance(0), Advance(1), Advance(0), Advance(1)];
    var db: Records := map[200 := BlockTime(time, 200, 300)];
    var d := Walker(200, 0, Saving);
    hide Run, BlockTime;
    Then(e, Advance(0), c, State(db, [Walker(100, 0, Checking), d], 300, false));
    Then(e + [Advance(0)], Advance(1), c, State(db, [Walker(100, 0, Checking), d], 300, true));
    hide Step;
    assert e + [Advance(0)] + [Advance(1)] ==
           [StartRun(300), StartRun(300), Advance(0), Advance(1), Advance(0), Advance(1), Advance(0), Advance(1)];
  }

  lemma BothAboutToSave(time: int -> int)
    ensures Run([StartRun(300), StartRun(300), Advance(0), Advance(1), Advance(0), Advance(1)], Setup(time, 10, 100)) ==
            State(map[], [Walker(200, 0, Saving), Walker(200, 0, Saving)], 300, false)
  {
    BothChecking(time);
    var c := Setup(time, 10, 100);
    var b, d := Walker(200, 0, Checking), Walker(200, 0, Saving);
    hide Run, BlockTime, Aligned;
    var e4 := [StartRun(300), StartRun(300), Advance(0), Advance(1)];
    var e5 := e4 + [Advance(0)];
    Then(e4, Advance(0), c, State(map[], [d, b], 300, false));
    Then(e5, Advance(1), c, State(map[], [d, d], 300, false));
    hide Step;
    assert e5 + [Advance(1)] == [StartRun(300), StartRun(300), Advance(0), Advance(1), Advance(0), Advance(1)];
  }

  lemma BothChecking(time: int -> int)
    ensures Run([StartRun(300), StartRun(300), Advance(0), Advance(1)], Setup(time, 10, 100)) ==
            State(map[], [Walker(200, 0, Checking), Walker(200, 0, Checking)], 300, false)
  {
    var c := Setup(time, 10, 100);
    var a, b := Walker(300, 0, First), Walker(200, 0, Checking);
    var e0: seq<Event> := [];
    assert Run(e0, c) == INITIAL;
    hide Run, BlockTime;
    var e1 := e0 + [StartRun(300)];
    var e2 := e1 + [StartRun(300)];
    var e3 := e2 + [Advance(0)];
    Then(e0, StartRun(300), c, State(map[], [a], 300, false));
    Then(e1, StartRun(300), c, State(map[], [a, a], 300, false));
    Then(e2, Advance(0), c, State(map[], [b, a], 300, false));
    Then(e3, Advance(1), c, State(map[], [b, b], 300, false));
    hide Step;
    assert e3 + [Advance(1)] == [StartRun(300), StartRun(300), Advance(0), Advance(1)];
  }

  lemma Then(front: seq<Event>, e: Event, c: Setup, t: State)
    requires c.Valid() && Step(Run(front, c), e, c) == t
    ensures Run(front + [e], c) == t
  {
    assert (front + [e])[..|front|] == front;
  }
}
