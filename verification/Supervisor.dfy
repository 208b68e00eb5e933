/** The worker supervisor `forum-master/loader.js` as a state machine over its event handlers. */
module Supervisor {

  /** A live worker process; `suicide` marks it for death. */
  datatype Worker = Worker(index: nat, suicide: bool)

  /** `workers` is the array of the latest process per index, `pending` the restarts whose config file is being
      read, `ports` the configured ports (0 is no port). */
  datatype State = State(live: map<nat, Worker>, workers: map<nat, nat>, timesStarted: nat, numProcs: nat,
                         ports: seq<nat>, pending: nat, halted: bool, nextPid: nat)

  datatype Event =
    | Exit(pid: nat, code: int)
    | TimerFires
    | RestartRequested
    | ConfigRead(newPorts: seq<nat>)
    | StopRequested

  // ---------- the handlers ----------

  function Fork(s: State, index: nat): State {
    if index >= |s.ports| || s.ports[index] == 0 then s
    else s.(live := s.live[s.nextPid := Worker(index, false)], workers := s.workers[index := s.nextPid],
            nextPid := s.nextPid + 1)
  }

  /** Forks for the indices below `n`, in order. */
  function ForkUpTo(s: State, n: nat): State {
    if n == 0 then s else Fork(ForkUpTo(s, n - 1), n - 1)
  }

  /** `killWorkers` marks the processes in the array. */
  function Killed(s: State): State {
    s.(live := map p | p in s.live :: if p in s.workers.Values then s.live[p].(suicide := true) else s.live[p])
  }

  function Start(s: State, ports: seq<nat>): State {
    ForkUpTo(s.(ports := ports, numProcs := |ports|), |ports|)
  }

  function Exited(s: State, pid: nat, code: int): State
    requires pid in s.live
  {
    var w := s.live[pid];
    var t := s.(live := s.live - {pid});
    if code != 0 && s.timesStarted >= s.numProcs * 3 then t.(halted := true)
    else
      var u := if code != 0 then t.(timesStarted := s.timesStarted + 1) else t;
      if w.suicide || code == 0 then u else Fork(u, w.index)
  }

  function Step(s: State, e: Event): State {
    if s.halted then s
    else
      match e
      case Exit(pid, code) => if pid in s.live then Exited(s, pid, code) else s
      case TimerFires => s.(timesStarted := 0)
      case RestartRequested => Killed(s).(pending := s.pending + 1)
      case ConfigRead(ports) => if s.pending == 0 then s else Start(s.(pending := s.pending - 1), ports)
      case StopRequested => Killed(s)
  }

  function Boot(ports: seq<nat>): State {
    Start(State(map[], map[], 0, 0, [], 0, false, 0), ports)
  }

  function Run(ports: seq<nat>, events: seq<Event>): State {
    if events == [] then Boot(ports) else Step(Run(ports, events[..|events| - 1]), events[|events| - 1])
  }

  /** The supervisor's variables with its handlers. */
  class Loader {
    var live: map<nat, Worker>
    var workers: map<nat, nat>
    var timesStarted: nat
    var numProcs: nat
    var ports: seq<nat>
    var pending: nat
    var halted: bool
    var nextPid: nat

    function Snapshot(): State
      reads this
    {
      State(live, workers, timesStarted, numProcs, ports, pending, halted, nextPid)
    }

    /** Forking keeps the registration exactly when it does not put a second unmarked worker on the index. */
    method ForkWorker(index: nat)
      modifies this
      ensures Snapshot() == Fork(old(Snapshot()), index)
      ensures Registered(old(Snapshot())) && IndexIsFree(old(Snapshot()), index) ==> Registered(Snapshot())
      ensures index < |ports| && ports[index] != 0 ==> StaffedAt(Snapshot(), index)
    {
      ghost var s := Snapshot();
      if Registered(s) && IndexIsFree(s, index) {
        ForkKeepsRegistered(s, index);
      }
      if index >= |ports| || ports[index] == 0 {
        return;
      }
      live := live[nextPid := Worker(index, false)];
      workers := workers[index := nextPid];
      nextPid := nextPid + 1;
      assert live[nextPid - 1] == Worker(index, false);
    }

    /** Afterwards every index with a port is staffed, by one unmarked worker each exactly when none was alive there. */
    method StartWorkers(configured: seq<nat>)
      modifies this
      ensures Snapshot() == Start(old(Snapshot()), configured)
      ensures Fresh(old(Snapshot())) ==> Staffed(Snapshot())
      ensures Registered(old(Snapshot())) ==> (OnePerIndex(Snapshot()) <==> Clear(old(Snapshot()), configured))
    {
      ghost var before := Snapshot();
      ports := configured;
      numProcs := |configured|;
      ghost var base := Snapshot();
      for x := 0 to |configured|
        invariant Snapshot() == ForkUpTo(base, x)
      {
        ForkWorker(x);
      }
      if Fresh(before) {
        StartStaffs(before, configured);
      }
      if Registered(before) {
        StartKeepsOneIff(before, configured);
      }
    }

    /** Marks the processes in the array, which are all unmarked ones when every unmarked one is registered. */
    method KillWorkers()
      modifies this
      ensures Snapshot() == Killed(old(Snapshot()))
      ensures Registered(old(Snapshot())) ==> Registered(Snapshot()) && NoneUnmarked(Snapshot())
    {
      ghost var before := Snapshot();
      var todo := workers.Keys;
      NoneMarked(live, workers);
      assert workers.Keys - todo == {};
      hide MarkedBy;
      while todo != {}
        invariant todo <= workers.Keys
        invariant Snapshot() == before.(live := MarkedBy(before.live, workers, workers.Keys - todo))
      {
        var index :| index in todo;
        var p := workers[index];
        MarkNext(before.live, workers, workers.Keys - todo, index);
        assert workers.Keys - (todo - {index}) == workers.Keys - todo + {index};
        if p in live {
          live := live[p := live[p].(suicide := true)];
        }
        todo := todo - {index};
      }
      assert workers.Keys - {} == workers.Keys;
      AllMarked(before);
      if Registered(before) {
        KilledMarksAll(before);
      }
    }

    method OnExit(pid: nat, code: int)
      requires pid in live && !halted
      modifies this
      ensures Snapshot() == Step(old(Snapshot()), Exit(pid, code))
      ensures Registered(old(Snapshot())) ==> Registered(Snapshot())
      ensures Orderly(old(Snapshot())) ==> Orderly(Snapshot())
      ensures timesStarted <= old(timesStarted) || timesStarted <= 3 * numProcs
      // only a crash within the budget, of an unmarked worker on an index with a port, is answered by a new process
      ensures live == if Replaced(old(Snapshot()), pid, code)
                      then (old(live) - {pid})[old(nextPid) := Worker(old(live)[pid].index, false)]
                      else old(live) - {pid}
      ensures code == 0 ==> !halted && timesStarted == old(timesStarted)
      ensures halted <==> code != 0 && old(timesStarted) >= 3 * numProcs
    {
      ghost var s := Snapshot();
      if Registered(s) {
        ExitKeepsRegistered(s, pid, code);
      }
      var worker := live[pid];
      live := live - {pid};
      if code != 0 {
        if timesStarted < numProcs * 3 {
          timesStarted := timesStarted + 1;
        } else {
          halted := true;
          return;
        }
      }
      if !(worker.suicide || code == 0) {
        ForkWorker(worker.index);
      }
    }

    method Restart()
      requires !halted
      modifies this
      ensures Snapshot() == Step(old(Snapshot()), RestartRequested)
      ensures Registered(old(Snapshot())) ==> Registered(Snapshot()) && NoneUnmarked(Snapshot())
      ensures Orderly(old(Snapshot())) && old(pending) == 0 ==> Orderly(Snapshot())
    {
      KillWorkers();
      pending := pending + 1;
    }

    method OnConfigRead(configured: seq<nat>)
      requires !halted && pending > 0
      modifies this
      ensures Snapshot() == Step(old(Snapshot()), ConfigRead(configured))
      ensures Registered(old(Snapshot())) ==> (OnePerIndex(Snapshot()) <==> Clear(old(Snapshot()), configured))
      ensures Orderly(old(Snapshot())) ==> Orderly(Snapshot())
    {
      ghost var s := Snapshot();
      if Orderly(s) {
        StepKeepsOrderly(s, ConfigRead(configured));
      }
      pending := pending - 1;
      StartWorkers(configured);
    }
  }

  /** The live processes once those at the array positions `done` are marked. */
  ghost function MarkedBy(live: map<nat, Worker>, workers: map<nat, nat>, done: set<nat>): map<nat, Worker> {
    map p | p in live ::
      if exists k :: k in done && k in workers && workers[k] == p then live[p].(suicide := true) else live[p]
  }

  lemma NoneMarked(live: map<nat, Worker>, workers: map<nat, nat>)
    ensures MarkedBy(live, workers, {}) == live
  {
  }

  lemma MarkNext(live: map<nat, Worker>, workers: map<nat, nat>, done: set<nat>, index: nat)
    requires index in workers
    ensures var m, p := MarkedBy(live, workers, done), workers[index];
            MarkedBy(live, workers, done + {index}) == if p in m then m[p := m[p].(suicide := true)] else m
  {
    var m, n, p := MarkedBy(live, workers, done), MarkedBy(live, workers, done + {index}), workers[index];
    forall q | q in live ensures n[q] == if q == p then live[q].(suicide := true) else m[q] {
      if q == p {
        assert index in done + {index};
      } else if k :| k in done && k in workers && workers[k] == q {
        assert k in done + {index};
      }
    }
  }

  lemma AllMarked(s: State)
    ensures s.(live := MarkedBy(s.live, s.workers, s.workers.Keys)) == Killed(s)
  {
    var m := MarkedBy(s.live, s.workers, s.workers.Keys);
    forall p | p in s.live ensures m[p] == Killed(s).live[p] {
      if p in s.workers.Values {
        var k :| k in s.workers && s.workers[k] == p;
        assert k in s.workers.Keys;
      }
    }
  }

  // ---------- histories ----------

  /** The state before event `i`. */
  ghost function Before(ports: seq<nat>, events: seq<Event>, i: nat): State
    requires i <= |events|
  {
    Run(ports, events[..i])
  }

  /** A property of the state holds at every moment of a history. */
  ghost predicate Always(ports: seq<nat>, events: seq<Event>, holds: State -> bool) {
    forall i :: 0 <= i <= |events| ==> holds(Before(ports, events, i))
  }

  /** A condition on an event and the state that meets it holds for every event of a history. */
  ghost predicate Throughout(ports: seq<nat>, events: seq<Event>, meets: (State, Event) -> bool) {
    forall i :: 0 <= i < |events| ==> meets(Before(ports, events, i), events[i])
  }

  lemma {:induction false} RunStep(ports: seq<nat>, front: seq<Event>, e: Event)
    ensures Run(ports, front + [e]) == Step(Run(ports, front), e)
  {
    assert (front + [e])[..|front|] == front;
  }

  lemma BeforeExtends(ports: seq<nat>, front: seq<Event>, e: Event)
    ensures forall i :: 0 <= i <= |front| ==> Before(ports, front + [e], i) == Before(ports, front, i)
    ensures Before(ports, front, |front|) == Run(ports, front)
    ensures Before(ports, front + [e], |front| + 1) == Run(ports, front + [e])
  {
    hide Run;
    var events := front + [e];
    assert front[..|front|] == front && events[..|events|] == events;
    forall i | 0 <= i <= |front| ensures Before(ports, events, i) == Before(ports, front, i) {
      assert events[..i] == front[..i];
    }
  }

  lemma AlwaysExtends(ports: seq<nat>, front: seq<Event>, e: Event, holds: State -> bool)
    ensures Always(ports, front + [e], holds) <==> Always(ports, front, holds) && holds(Run(ports, front + [e]))
    ensures Always(ports, front, holds) ==> holds(Run(ports, front))
  {
    BeforeExtends(ports, front, e);
    hide Run, Before;
  }

  lemma ThroughoutExtends(ports: seq<nat>, front: seq<Event>, e: Event, meets: (State, Event) -> bool)
    ensures Throughout(ports, front + [e], meets) <==> Throughout(ports, front, meets) && meets(Run(ports, front), e)
  {
    BeforeExtends(ports, front, e);
    hide Run, Before;
    var events := front + [e];
    assert events[|front|] == e;
    assert forall i :: 0 <= i < |front| ==> events[i] == front[i];
  }

  lemma EmptyHistory(ports: seq<nat>, events: seq<Event>, holds: State -> bool)
    requires events == []
    ensures Always(ports, events, holds) <==> holds(Boot(ports))
  {
    assert events[..0] == [];
    assert Before(ports, events, 0) == Boot(ports);
  }

  // ---------- the restart counter ----------

  ghost predicate WithinBudget(s: State) { s.timesStarted <= 3 * s.numProcs }

  /** The event makes the supervisor start a newly configured set of workers. */
  ghost predicate Effective(s: State, e: Event) { e.ConfigRead? && !s.halted && s.pending > 0 }

  lemma {:induction false} ForksKeepCounter(s: State, n: nat)
    ensures var t := ForkUpTo(s, n);
            && t.timesStarted == s.timesStarted && t.numProcs == s.numProcs && t.ports == s.ports
            && t.pending == s.pending && t.halted == s.halted
  {
    if n > 0 { ForksKeepCounter(s, n - 1); }
  }

  lemma BootCounter(ports: seq<nat>)
    ensures var s := Boot(ports);
            s.timesStarted == 0 && s.numProcs == |ports| && s.ports == ports && s.pending == 0 && !s.halted
  {
    ForksKeepCounter(State(map[], map[], 0, 0, [], 0, false, 0).(ports := ports, numProcs := |ports|), |ports|);
  }

  lemma StepCounter(s: State, e: Event)
    ensures var t := Step(s, e);
            && (Effective(s, e) ==> t.timesStarted == s.timesStarted && t.numProcs == |e.newPorts|)
            && (!Effective(s, e) ==> t.numProcs == s.numProcs)
            && (t.timesStarted <= s.timesStarted ||
                (t.timesStarted == s.timesStarted + 1 && s.timesStarted < 3 * s.numProcs))
  {
    if Effective(s, e) {
      var t := s.(pending := s.pending - 1, ports := e.newPorts, numProcs := |e.newPorts|);
      ForksKeepCounter(t, |e.newPorts|);
    }
  }

  /** A newly read configuration has room for the restarts counted so far. */
  ghost predicate FitsCounter(s: State, e: Event) {
    Effective(s, e) ==> s.timesStarted <= 3 * |e.newPorts|
  }

  /** The counter stays within three restarts per process at every moment of a history exactly when every newly read
      configuration has room for the restarts counted so far. */
  lemma {:induction false} CounterIsBoundedIff(ports: seq<nat>, events: seq<Event>)
    ensures Always(ports, events, WithinBudget) <==> Throughout(ports, events, FitsCounter)
  {
    if events == [] {
      BootCounter(ports);
      EmptyHistory(ports, events, WithinBudget);
    } else {
      var front, e := events[..|events| - 1], events[|events| - 1];
      assert events == front + [e];
      CounterIsBoundedIff(ports, front);
      hide Run, Step, Always, Throughout;
      RunStep(ports, front, e);
      AlwaysExtends(ports, front, e, WithinBudget);
      ThroughoutExtends(ports, front, e, FitsCounter);
      StepCounter(Run(ports, front), e);
    }
  }

  /** The largest number of processes configured so far. */
  ghost function Peak(ports: seq<nat>, events: seq<Event>): nat {
    if events == [] then |ports|
    else
      var p, e := Peak(ports, events[..|events| - 1]), events[|events| - 1];
      if e.ConfigRead? && |e.newPorts| > p then |e.newPorts| else p
  }

  /** In every history the counter is at most three times the largest number of processes configured so far ... */
  lemma {:induction false} CounterIsBounded(ports: seq<nat>, events: seq<Event>)
    ensures var s := Run(ports, events);
            s.timesStarted <= 3 * Peak(ports, events) && s.numProcs <= Peak(ports, events)
  {
    if events == [] {
      BootCounter(ports);
    } else {
      CounterIsBounded(ports, events[..|events| - 1]);
      StepCounter(Run(ports, events[..|events| - 1]), events[|events| - 1]);
    }
  }

  /** ... so restarts that never shrink the cluster meet the exact condition. */
  lemma {:induction false} CounterIsBoundedWithoutShrinking(ports: seq<nat>, events: seq<Event>)
    requires forall i :: 0 <= i < |events| && events[i].ConfigRead? ==> |events[i].newPorts| >= Peak(ports, events[..i])
    ensures Always(ports, events, WithinBudget)
  {
    forall i | 0 <= i < |events| ensures FitsCounter(Before(ports, events, i), events[i]) {
      CounterIsBounded(ports, events[..i]);
    }
    hide Before, FitsCounter;
    CounterIsBoundedIff(ports, events);
  }

  /** A reachable history that breaks the bound: four crashes of a two-process cluster, then a restart with one port. */
  lemma ShrinkingBreaksTheBound()
    ensures var events := [Exit(0, 1), Exit(2, 1), Exit(3, 1), Exit(4, 1), RestartRequested, ConfigRead([4567])];
            var s := Run([4567, 4568], events);
            s.timesStarted == 4 && s.numProcs == 1 && !WithinBudget(s)
  {
    hide Run, Boot;
    FourCrashes();
    var four := [Exit(0, 1), Exit(2, 1), Exit(3, 1), Exit(4, 1)];
    var ports, s4 := [4567, 4568], Run([4567, 4568], four);
    RunStep(ports, four, RestartRequested);
    RunStep(ports, four + [RestartRequested], ConfigRead([4567]));
    StepCounter(Step(s4, RestartRequested), ConfigRead([4567]));
    assert four + [RestartRequested] + [ConfigRead([4567])] ==
           [Exit(0, 1), Exit(2, 1), Exit(3, 1), Exit(4, 1), RestartRequested, ConfigRead([4567])];
  }

  lemma FourCrashes()
    ensures var s := Run([4567, 4568], [Exit(0, 1), Exit(2, 1), Exit(3, 1), Exit(4, 1)]);
            !s.halted && s.timesStarted == 4 && s.pending == 0
  {
    TwoProcesses();
    hide Run, Boot;
    var ports, e0: seq<Event> := [4567, 4568], [];
    var e1 := e0 + [Exit(0, 1)];
    var e2 := e1 + [Exit(2, 1)];
    var e3 := e2 + [Exit(3, 1)];
    CrashZero(ports, e0, 0, 2);
    CrashZero(ports, e1, 2, 3);
    CrashZero(ports, e2, 3, 4);
    CrashZero(ports, e3, 4, 5);
    assert e3 + [Exit(4, 1)] == [Exit(0, 1), Exit(2, 1), Exit(3, 1), Exit(4, 1)];
  }

  lemma TwoProcesses()
    ensures var s := Run([4567, 4568], []);
            && !s.halted && s.ports == [4567, 4568] && s.numProcs == 2 && s.timesStarted == 0 && s.pending == 0
            && 0 in s.live && s.live[0] == Worker(0, false) && s.nextPid == 2
  {
    var zero := State(map[], map[], 0, 0, [], 0, false, 0).(ports := [4567, 4568], numProcs := 2);
    assert ForkUpTo(zero, 2) == Fork(ForkUpTo(zero, 1), 1);
    ForkOne(zero);
  }

  /** A crash of the worker on index 0 of the two-process cluster. */
  lemma CrashZero(ports: seq<nat>, front: seq<Event>, pid: nat, next: nat)
    requires ports == [4567, 4568]
    requires var s := Run(ports, front);
             && !s.halted && s.ports == ports && s.numProcs == 2 && s.timesStarted < 6 && s.pending == 0
             && pid in s.live && s.live[pid] == Worker(0, false) && s.nextPid == next && pid < next
    ensures var s, t := Run(ports, front), Run(ports, front + [Exit(pid, 1)]);
            && !t.halted && t.ports == ports && t.numProcs == 2 && t.timesStarted == s.timesStarted + 1
            && t.pending == 0
            && next in t.live && t.live[next] == Worker(0, false) && t.nextPid == next + 1
  {
    RunStep(ports, front, Exit(pid, 1));
  }

  /** A series of crashes, each of a live worker, with no timer and no restart in between. */
  ghost predicate CrashSeries(s: State, pids: seq<nat>)
    decreases |pids|
  {
    pids == [] || s.halted || (pids[0] in s.live && CrashSeries(Step(s, Exit(pids[0], 1)), pids[1..]))
  }

  ghost function AfterCrashes(s: State, pids: seq<nat>): State
    decreases |pids|
  {
    if pids == [] then s else AfterCrashes(Step(s, Exit(pids[0], 1)), pids[1..])
  }

  /** A crash loop is stopped after exactly the restarts that are left of three per process. */
  lemma {:induction false} CrashLoopHalts(s: State, pids: seq<nat>)
    requires !s.halted && CrashSeries(s, pids)
    ensures AfterCrashes(s, pids).halted <==> |pids| > if WithinBudget(s) then 3 * s.numProcs - s.timesStarted else 0
    ensures !AfterCrashes(s, pids).halted ==> AfterCrashes(s, pids).timesStarted == s.timesStarted + |pids|
    decreases |pids|
  {
    if pids != [] {
      var t := Step(s, Exit(pids[0], 1));
      if t.halted {
        HaltedStays(t, pids[1..]);
      } else {
        CrashLoopHalts(t, pids[1..]);
      }
    }
  }

  lemma {:induction false} HaltedStays(s: State, pids: seq<nat>)
    requires s.halted
    ensures AfterCrashes(s, pids) == s
    decreases |pids|
  {
    if pids != [] {
      HaltedStays(s, pids[1..]);
    }
  }

  // ---------- workers and the array ----------

  ghost predicate Unmarked(s: State, p: nat) { p in s.live && !s.live[p].suicide }

  /** Process numbers are not reused. */
  ghost predicate Fresh(s: State) {
    && (forall p :: p in s.live ==> p < s.nextPid)
    && (forall k :: k in s.workers ==> s.workers[k] < s.nextPid)
  }

  /** Every live worker not marked for death is the one in the array at its index. */
  ghost predicate Registered(s: State) {
    && Fresh(s)
    && (forall p :: Unmarked(s, p) ==> s.live[p].index in s.workers && s.workers[s.live[p].index] == p)
  }

  ghost predicate NoneUnmarked(s: State) { forall p :: p in s.live ==> s.live[p].suicide }

  /** At most one live worker per index is not marked for death. */
  ghost predicate OnePerIndex(s: State) {
    forall p, q :: Unmarked(s, p) && Unmarked(s, q) && s.live[p].index == s.live[q].index ==> p == q
  }

  ghost predicate IndexIsFree(s: State, index: nat) {
    forall p :: Unmarked(s, p) ==> s.live[p].index != index
  }

  /** No unmarked worker is alive on an index for which the new configuration has a port. */
  ghost predicate Clear(s: State, ports: seq<nat>) {
    forall p :: Unmarked(s, p) && s.live[p].index < |ports| ==> ports[s.live[p].index] == 0
  }

  ghost predicate StaffedAt(s: State, index: nat) {
    exists p :: p in s.live && s.live[p] == Worker(index, false)
  }

  /** Every index with a port has an unmarked worker. */
  ghost predicate Staffed(s: State) {
    forall i :: 0 <= i < |s.ports| && s.ports[i] != 0 ==> StaffedAt(s, i)
  }

  lemma RegisteredMeansOne(s: State)
    requires Registered(s)
    ensures OnePerIndex(s)
  {
    forall p, q | Unmarked(s, p) && Unmarked(s, q) && s.live[p].index == s.live[q].index ensures p == q {
      assert s.workers[s.live[p].index] == p;
    }
  }

  /** Forking an index without an unmarked worker keeps the registration. */
  lemma ForkKeepsRegistered(s: State, index: nat)
    requires Registered(s) && IndexIsFree(s, index)
    ensures Registered(Fork(s, index))
  {
    var t := Fork(s, index);
    forall p | Unmarked(t, p) ensures t.live[p].index in t.workers && t.workers[t.live[p].index] == p {
      assert p in s.live ==> Unmarked(s, p) || p == s.nextPid;
    }
  }

  /** The forks that lead from `s` to `t` put an unmarked worker on the index. */
  ghost predicate NewlyStaffedAt(s: State, t: State, index: nat) {
    exists p :: p >= s.nextPid && p in t.live && t.live[p] == Worker(index, false)
  }

  /** What a series of forks adds: the old processes stay, and every index with a port gets a new unmarked worker. */
  lemma {:induction false} ForksAdd(s: State, n: nat)
    requires Fresh(s) && n <= |s.ports|
    ensures var t := ForkUpTo(s, n);
            && Fresh(t) && t.ports == s.ports && t.nextPid >= s.nextPid
            && (forall p :: p in s.live ==> p in t.live && t.live[p] == s.live[p])
            && (forall p :: p in t.live && p !in s.live ==> p >= s.nextPid && !t.live[p].suicide && t.live[p].index < n)
            && (forall i :: 0 <= i < n && s.ports[i] != 0 ==> NewlyStaffedAt(s, t, i))
  {
    if n > 0 {
      ForksAdd(s, n - 1);
      var u, t := ForkUpTo(s, n - 1), ForkUpTo(s, n);
      assert t == Fork(u, n - 1);
      hide ForkUpTo;
      forall i | 0 <= i < n && s.ports[i] != 0 ensures NewlyStaffedAt(s, t, i) {
        if i < n - 1 {
          assert NewlyStaffedAt(s, u, i);
          var p :| p >= s.nextPid && p in u.live && u.live[p] == Worker(i, false);
          assert t.live[p] == Worker(i, false);
        } else {
          assert t.live[u.nextPid] == Worker(i, false);
        }
      }
    }
  }

  lemma NextIndexIsFree(s: State, n: nat)
    requires Fresh(s) && n < |s.ports| && s.ports[n] != 0 && Clear(s, s.ports)
    ensures IndexIsFree(ForkUpTo(s, n), n)
  {
    ForksAdd(s, n);
    hide ForkUpTo, NewlyStaffedAt, Fresh;
    var u := ForkUpTo(s, n);
    forall p | Unmarked(u, p) ensures u.live[p].index != n {
      assert p in s.live ==> Unmarked(s, p);
    }
  }

  lemma {:induction false} ForksKeepRegistered(s: State, n: nat)
    requires Registered(s) && n <= |s.ports| && Clear(s, s.ports)
    ensures Registered(ForkUpTo(s, n))
  {
    if n > 0 {
      ForksKeepRegistered(s, n - 1);
      ForksAdd(s, n - 1);
      var u := ForkUpTo(s, n - 1);
      assert ForkUpTo(s, n) == Fork(u, n - 1);
      hide ForkUpTo, NewlyStaffedAt;
      hide Registered, IndexIsFree, Clear;
      if s.ports[n - 1] != 0 {
        NextIndexIsFree(s, n - 1);
        ForkKeepsRegistered(u, n - 1);
      }
    }
  }

  lemma StartStaffs(s: State, ports: seq<nat>)
    requires Fresh(s)
    ensures Staffed(Start(s, ports)) && Fresh(Start(s, ports)) && Start(s, ports).ports == ports
  {
    var t := s.(ports := ports, numProcs := |ports|);
    ForksAdd(t, |ports|);
    var u := Start(s, ports);
    forall i | 0 <= i < |ports| && ports[i] != 0 ensures StaffedAt(u, i) {
      assert NewlyStaffedAt(t, u, i);
      var p :| p >= t.nextPid && p in u.live && u.live[p] == Worker(i, false);
    }
  }

  /** Starting a configuration keeps one worker per index if and only if no unmarked worker is alive where it has a
      port. */
  lemma StartKeepsOneIff(s: State, ports: seq<nat>)
    requires Registered(s)
    ensures OnePerIndex(Start(s, ports)) <==> Clear(s, ports)
    ensures Clear(s, ports) ==> Registered(Start(s, ports))
  {
    var t := s.(ports := ports, numProcs := |ports|);
    var u := Start(s, ports);
    if Clear(s, ports) {
      assert Registered(t) && Clear(t, t.ports) by {
        assert forall p :: Unmarked(t, p) <==> Unmarked(s, p);
      }
      ForksKeepRegistered(t, |ports|);
      RegisteredMeansOne(u);
    } else {
      var p :| Unmarked(s, p) && s.live[p].index < |ports| && ports[s.live[p].index] != 0;
      ForksAdd(t, |ports|);
      var i := s.live[p].index;
      assert NewlyStaffedAt(t, u, i);
      var q :| q >= t.nextPid && q in u.live && u.live[q] == Worker(i, false);
      assert Unmarked(u, p) && Unmarked(u, q) && p != q;
    }
  }

  lemma KilledMarksAll(s: State)
    requires Registered(s)
    ensures Registered(Killed(s)) && NoneUnmarked(Killed(s))
  {
    forall p | Unmarked(s, p) ensures p in s.workers.Values {
      assert s.workers[s.live[p].index] == p;
    }
  }

  lemma ExitKeepsRegistered(s: State, pid: nat, code: int)
    requires Registered(s) && pid in s.live
    ensures Registered(Exited(s, pid, code))
    ensures NoneUnmarked(s) ==> NoneUnmarked(Exited(s, pid, code))
    ensures Exited(s, pid, code).pending == s.pending
  {
    var w := s.live[pid];
    var t := s.(live := s.live - {pid});
    assert forall p :: Unmarked(t, p) <==> Unmarked(s, p) && p != pid;
    assert Registered(t);
    if !w.suicide {
      assert Unmarked(s, pid);
      forall p | Unmarked(t, p) ensures t.live[p].index != w.index {
        assert Unmarked(s, p) && s.live[p] == t.live[p];
      }
      var u := t.(timesStarted := s.timesStarted + 1);
      assert forall p :: Unmarked(u, p) <==> Unmarked(t, p);
      ForkKeepsRegistered(t, w.index);
      ForkKeepsRegistered(u, w.index);
    }
  }

  // ---------- what an event does ----------

  /** A crash within the budget, of a worker that is not marked and whose index has a port. */
  ghost predicate Replaced(s: State, pid: nat, code: int) {
    && pid in s.live && code != 0 && !s.live[pid].suicide && s.timesStarted < 3 * s.numProcs
    && s.live[pid].index < |s.ports| && s.ports[s.live[pid].index] != 0
  }

  /** Exactly the exits just described start a process, one on the same index; any other exit only removes the worker.
      A clean exit neither counts nor halts. */
  lemma ExitStartsProcessIff(s: State, pid: nat, code: int)
    requires Fresh(s) && !s.halted && pid in s.live
    ensures var t := Step(s, Exit(pid, code));
            && ((exists p :: p in t.live && p !in s.live) <==> Replaced(s, pid, code))
            && t.live == (if Replaced(s, pid, code)
                          then (s.live - {pid})[s.nextPid := Worker(s.live[pid].index, false)]
                          else s.live - {pid})
            && t.workers == (if Replaced(s, pid, code) then s.workers[s.live[pid].index := s.nextPid] else s.workers)
            && (code == 0 ==> !t.halted && t.timesStarted == s.timesStarted)
            && (code != 0 ==> if s.timesStarted < 3 * s.numProcs then !t.halted && t.timesStarted == s.timesStarted + 1
                              else t.halted && t.timesStarted == s.timesStarted)
  {
    var t := Step(s, Exit(pid, code));
    if Replaced(s, pid, code) {
      assert s.nextPid in t.live && s.nextPid !in s.live;
    }
  }

  /** When the timer has fired a crash loop has the whole budget again. */
  lemma TimerRestoresBudget(s: State, pids: seq<nat>)
    requires !s.halted && CrashSeries(Step(s, TimerFires), pids)
    ensures AfterCrashes(Step(s, TimerFires), pids).halted <==> |pids| > 3 * s.numProcs
  {
    CrashLoopHalts(Step(s, TimerFires), pids);
  }

  ghost function RunFrom(s: State, events: seq<Event>): State {
    if events == [] then s else Step(RunFrom(s, events[..|events| - 1]), events[|events| - 1])
  }

  /** A stop is final: without a restart nothing is started after it, whatever exits and whenever the timer fires. */
  lemma {:induction false} StopIsFinal(s: State, events: seq<Event>)
    requires Registered(s) && !s.halted && s.pending == 0
    requires forall e :: e in events ==> !e.RestartRequested?
    ensures var t := RunFrom(Step(s, StopRequested), events);
            && NoneUnmarked(t) && Registered(t) && t.pending == 0
            && forall p :: p in t.live ==> p in s.live
  {
    if events == [] {
      KilledMarksAll(s);
    } else {
      var front, e := events[..|events| - 1], events[|events| - 1];
      StopIsFinal(s, front);
      var t := RunFrom(Step(s, StopRequested), front);
      assert RunFrom(Step(s, StopRequested), events) == Step(t, e);
      assert e in events;
      hide RunFrom;
      NothingStarts(t, e);
    }
  }

  lemma NothingStarts(t: State, e: Event)
    requires NoneUnmarked(t) && Registered(t) && t.pending == 0 && !e.RestartRequested?
    ensures var u := Step(t, e);
            && NoneUnmarked(u) && Registered(u) && u.pending == 0
            && forall p :: p in u.live ==> p in t.live
  {
    StepKeepsRegistered(t, e);
    if e.Exit? && !t.halted && e.pid in t.live { ExitStartsProcessIff(t, e.pid, e.code); }
    hide Registered;
  }

  // ---------- one unmarked worker per index, over histories ----------

  lemma StepKeepsRegistered(s: State, e: Event)
    requires Registered(s)
    ensures !Effective(s, e) || Clear(s, e.newPorts) ==> Registered(Step(s, e))
    ensures Effective(s, e) ==> (OnePerIndex(Step(s, e)) <==> Clear(s, e.newPorts))
  {
    match e
    case Exit(pid, code) =>
      if pid in s.live { ExitKeepsRegistered(s, pid, code); }
    case TimerFires =>
      assert forall p :: Unmarked(Step(s, e), p) <==> Unmarked(s, p);
    case RestartRequested => KilledMarksAll(s);
    case StopRequested => KilledMarksAll(s);
    case ConfigRead(ports) =>
      var t := s.(pending := if s.pending == 0 then 0 else s.pending - 1);
      assert forall p :: Unmarked(t, p) <==> Unmarked(s, p);
      StartKeepsOneIff(t, ports);
  }

  /** A newly read configuration is clear of unmarked workers. */
  ghost predicate IsClear(s: State, e: Event) {
    Effective(s, e) ==> Clear(s, e.newPorts)
  }

  lemma BootIsRegistered(ports: seq<nat>)
    ensures Registered(Boot(ports)) && Staffed(Boot(ports))
  {
    var zero := State(map[], map[], 0, 0, [], 0, false, 0);
    StartKeepsOneIff(zero, ports);
    StartStaffs(zero, ports);
  }

  /** The exact condition for every history, with overlapping restarts or without: each index has at most one live
      worker not marked for death at every moment if and only if every configuration is read when no unmarked worker
      is alive on an index for which it has a port. */
  lemma {:induction false} OneWorkerPerIndexIff(ports: seq<nat>, events: seq<Event>)
    ensures Always(ports, events, OnePerIndex) <==> Throughout(ports, events, IsClear)
    ensures Throughout(ports, events, IsClear) ==> Registered(Run(ports, events))
  {
    if events == [] {
      BootIsRegistered(ports);
      RegisteredMeansOne(Boot(ports));
      EmptyHistory(ports, events, OnePerIndex);
    } else {
      var front, e := events[..|events| - 1], events[|events| - 1];
      assert events == front + [e];
      OneWorkerPerIndexIff(ports, front);
      hide Run, Step, OnePerIndex, Clear, Registered, Effective, Always, Throughout;
      RunStep(ports, front, e);
      AlwaysExtends(ports, front, e, OnePerIndex);
      ThroughoutExtends(ports, front, e, IsClear);
      if Throughout(ports, front, IsClear) {
        StepKeepsRegistered(Run(ports, front), e);
        if Registered(Run(ports, events)) {
          RegisteredMeansOne(Run(ports, events));
        }
      }
    }
  }

  /** While a restart waits for its config file no unmarked worker is alive. */
  ghost predicate Orderly(s: State) {
    Registered(s) && (s.pending > 0 ==> NoneUnmarked(s)) && s.pending <= 1
  }

  lemma StepKeepsOrderly(s: State, e: Event)
    requires Orderly(s) && (e.RestartRequested? ==> s.pending == 0)
    ensures Orderly(Step(s, e))
    ensures Effective(s, e) ==> Clear(s, e.newPorts)
  {
    StepKeepsRegistered(s, e);
    match e
    case Exit(pid, code) =>
      if pid in s.live { ExitKeepsRegistered(s, pid, code); }
    case TimerFires =>
    case RestartRequested => KilledMarksAll(s);
    case StopRequested => KilledMarksAll(s);
    case ConfigRead(ports) =>
      if s.pending > 0 {
        ForksKeepCounter(s.(pending := s.pending - 1, ports := ports, numProcs := |ports|), |ports|);
      }
  }

  /** No restart is requested while another one waits for its config file. */
  ghost predicate Separate(s: State, e: Event) {
    e.RestartRequested? ==> s.pending == 0
  }

  lemma {:induction false} SeparateIsOrderly(ports: seq<nat>, events: seq<Event>)
    requires Throughout(ports, events, Separate)
    ensures Orderly(Run(ports, events)) && Throughout(ports, events, IsClear)
  {
    if events == [] {
      BootIsRegistered(ports);
      BootCounter(ports);
    } else {
      var front, e := events[..|events| - 1], events[|events| - 1];
      assert events == front + [e];
      hide Run, Step, Orderly, Clear, Effective, Throughout;
      RunStep(ports, front, e);
      ThroughoutExtends(ports, front, e, Separate);
      ThroughoutExtends(ports, front, e, IsClear);
      SeparateIsOrderly(ports, front);
      StepKeepsOrderly(Run(ports, front), e);
    }
  }

  /** In particular restarts that do not overlap keep one unmarked worker per index. */
  lemma OneWorkerPerIndex(ports: seq<nat>, events: seq<Event>)
    requires Throughout(ports, events, Separate)
    ensures Always(ports, events, OnePerIndex)
  {
    hide Run, Throughout, Always;
    SeparateIsOrderly(ports, events);
    OneWorkerPerIndexIff(ports, events);
  }

  // ---------- every index is staffed ----------

  /** No unmarked worker leaves for good: no stop, and no clean exit of an unmarked worker. */
  ghost predicate NobodyLeaves(s: State, e: Event) {
    !e.StopRequested? && (e.Exit? && e.code == 0 ==> !Unmarked(s, e.pid))
  }

  ghost predicate OnDuty(s: State) { Fresh(s) && (!s.halted && s.pending == 0 ==> Staffed(s)) }

  lemma ExitKeepsStaffed(s: State, pid: nat, code: int)
    requires Fresh(s) && Staffed(s) && pid in s.live && (code == 0 ==> s.live[pid].suicide)
    ensures Fresh(Exited(s, pid, code)) && (Exited(s, pid, code).halted || Staffed(Exited(s, pid, code)))
  {
    var t := Exited(s, pid, code);
    if !t.halted {
      forall i | 0 <= i < |t.ports| && t.ports[i] != 0 ensures StaffedAt(t, i) {
        assert StaffedAt(s, i);
        var p :| p in s.live && s.live[p] == Worker(i, false);
        if p == pid {
          assert t.live[s.nextPid] == Worker(i, false);
        } else {
          assert t.live[p] == Worker(i, false);
        }
      }
    }
  }

  lemma ExitKeepsFresh(s: State, pid: nat, code: int)
    requires Fresh(s) && pid in s.live
    ensures Fresh(Exited(s, pid, code)) && Exited(s, pid, code).pending == s.pending
  {
  }

  lemma StepKeepsOnDuty(s: State, e: Event)
    requires OnDuty(s) && NobodyLeaves(s, e)
    ensures OnDuty(Step(s, e))
  {
    match e
    case Exit(pid, code) =>
      if pid in s.live && !s.halted {
        ExitKeepsFresh(s, pid, code);
        if s.pending == 0 { ExitKeepsStaffed(s, pid, code); }
      }
    case TimerFires =>
      forall i | 0 <= i < |s.ports| && s.ports[i] != 0 && Staffed(s) ensures StaffedAt(Step(s, e), i) {
        assert StaffedAt(s, i);
      }
    case RestartRequested =>
    case StopRequested =>
    case ConfigRead(ports) =>
      if s.pending > 0 { StartStaffs(s.(pending := s.pending - 1), ports); }
  }

  /** As long as nobody leaves for good, crashes and restarts (overlapping or not) leave every index with a port
      staffed whenever no restart is waiting and the supervisor has not halted. */
  lemma {:induction false} EveryIndexIsStaffed(ports: seq<nat>, events: seq<Event>)
    requires Throughout(ports, events, NobodyLeaves)
    ensures OnDuty(Run(ports, events))
  {
    if events == [] {
      BootIsRegistered(ports);
    } else {
      var front, e := events[..|events| - 1], events[|events| - 1];
      assert events == front + [e];
      hide Run, Step, OnDuty, NobodyLeaves, Throughout;
      RunStep(ports, front, e);
      ThroughoutExtends(ports, front, e, NobodyLeaves);
      EveryIndexIsStaffed(ports, front);
      StepKeepsOnDuty(Run(ports, front), e);
    }
  }

  // ---------- overlapping restarts and orphans ----------

  /** An unmarked live worker that the array has forgotten. */
  ghost predicate Orphan(s: State, p: nat) {
    Fresh(s) && Unmarked(s, p) && p !in s.workers.Values
  }

  lemma ForkKeepsOrphan(s: State, index: nat, p: nat)
    requires Orphan(s, p)
    ensures Orphan(Fork(s, index), p)
  {
    var t := Fork(s, index);
    forall k | k in t.workers ensures t.workers[k] != p {
      assert k in s.workers ==> s.workers[k] in s.workers.Values;
    }
  }

  lemma {:induction false} ForksKeepOrphan(s: State, n: nat, p: nat)
    requires Orphan(s, p)
    ensures Orphan(ForkUpTo(s, n), p)
  {
    if n > 0 {
      ForksKeepOrphan(s, n - 1, p);
      ForkKeepsOrphan(ForkUpTo(s, n - 1), n - 1, p);
    }
  }

  lemma StepKeepsOrphan(s: State, e: Event, p: nat)
    requires Orphan(s, p) && !(e.Exit? && e.pid == p)
    ensures Orphan(Step(s, e), p)
  {
    match e
    case Exit(pid, code) =>
      if pid in s.live && !s.halted {
        var t := s.(live := s.live - {pid});
        ForkKeepsOrphan(t, s.live[pid].index, p);
        ForkKeepsOrphan(t.(timesStarted := s.timesStarted + 1), s.live[pid].index, p);
      }
    case TimerFires =>
    case RestartRequested =>
    case StopRequested =>
    case ConfigRead(ports) =>
      if s.pending > 0 {
        ForksKeepOrphan(s.(pending := s.pending - 1, ports := ports, numProcs := |ports|), |ports|, p);
      }
  }

  /** No later restart or stop ever reaches an orphan: it stays alive and unmarked until it exits by itself. */
  lemma {:induction false} OrphansAreForever(ports: seq<nat>, events: seq<Event>, more: seq<Event>, p: nat)
    requires Orphan(Run(ports, events), p)
    requires forall e :: e in more ==> !(e.Exit? && e.pid == p)
    ensures Orphan(Run(ports, events + more), p)
    decreases |more|
  {
    if more == [] {
      assert events + more == events;
    } else {
      var front, e := more[..|more| - 1], more[|more| - 1];
      assert more == front + [e];
      OrphansAreForever(ports, events, front, p);
      hide Run, Step, Orphan;
      assert events + more == events + front + [e];
      RunStep(ports, events + front, e);
      StepKeepsOrphan(Run(ports, events + front), e, p);
    }
  }

  /** Two overlapping restarts leave two unmarked workers on one port, and the first of them is an orphan. */
  lemma OverlapDoublesWorkers()
    ensures var events := [RestartRequested, RestartRequested, ConfigRead([4567]), ConfigRead([4567])];
            !OnePerIndex(Run([4567], events)) && Orphan(Run([4567], events), 1)
  {
    AfterOverlap();
    hide Run;
    var d := Run([4567], [RestartRequested, RestartRequested, ConfigRead([4567]), ConfigRead([4567])]);
    assert Unmarked(d, 1) && Unmarked(d, 2) && d.live[1].index == d.live[2].index;
    assert forall k :: k in d.workers ==> d.workers[k] == 2;
  }

  lemma AfterOverlap()
    ensures Run([4567], [RestartRequested, RestartRequested, ConfigRead([4567]), ConfigRead([4567])]) ==
            State(map[0 := Worker(0, true), 1 := Worker(0, false), 2 := Worker(0, false)], map[0 := 2], 0, 1, [4567], 0,
                  false, 3)
  {
    AfterTwoRequests();
    var ports, two := [4567], [RestartRequested, RestartRequested];
    var b := State(map[0 := Worker(0, true)], map[0 := 0], 0, 1, ports, 2, false, 1);
    var c := State(b.live[1 := Worker(0, false)], map[0 := 0][0 := 1], 0, 1, ports, 1, false, 2);
    var d := State(c.live[2 := Worker(0, false)], c.workers[0 := 2], 0, 1, ports, 0, false, 3);
    hide Run;
    ConfigReadOne(b, c);
    ConfigReadOne(c, d);
    hide Step;
    RunStep(ports, two, ConfigRead(ports));
    RunStep(ports, two + [ConfigRead(ports)], ConfigRead(ports));
    assert two + [ConfigRead(ports)] + [ConfigRead(ports)] ==
           [RestartRequested, RestartRequested, ConfigRead([4567]), ConfigRead([4567])];
  }

  /** Reading the configuration of one port again forks one worker. */
  lemma ConfigReadOne(s: State, t: State)
    requires !s.halted && s.pending > 0 && s.ports == [4567] && s.numProcs == 1
    requires t == State(s.live[s.nextPid := Worker(0, false)], s.workers[0 := s.nextPid], s.timesStarted, 1, s.ports,
                        s.pending - 1, false, s.nextPid + 1)
    ensures Step(s, ConfigRead([4567])) == t
  {
    ForkOne(s.(pending := s.pending - 1));
  }

  lemma AfterTwoRequests()
    ensures Run([4567], [RestartRequested, RestartRequested]) ==
            State(map[0 := Worker(0, true)], map[0 := 0], 0, 1, [4567], 2, false, 1)
  {
    var ports, none: seq<Event> := [4567], [];
    BootOne();
    assert Run(ports, none) == Boot(ports);
    hide Run, Boot;
    var marked := map[0 := Worker(0, true)];
    RequestOne(State(map[0 := Worker(0, false)], map[0 := 0], 0, 1, ports, 0, false, 1));
    RequestOne(State(marked, map[0 := 0], 0, 1, ports, 1, false, 1));
    hide Step;
    RunStep(ports, none, RestartRequested);
    RunStep(ports, none + [RestartRequested], RestartRequested);
    assert none + [RestartRequested] + [RestartRequested] == [RestartRequested, RestartRequested];
  }

  lemma BootOne()
    ensures Boot([4567]) == State(map[0 := Worker(0, false)], map[0 := 0], 0, 1, [4567], 0, false, 1)
  {
    ForkOne(State(map[], map[], 0, 0, [], 0, false, 0).(ports := [4567], numProcs := 1));
  }

  /** A restart request marks the only worker. */
  lemma RequestOne(s: State)
    requires !s.halted && s.live.Keys == {0} && s.live[0].index == 0 && s.workers == map[0 := 0]
    ensures Step(s, RestartRequested) == s.(live := map[0 := Worker(0, true)], pending := s.pending + 1)
  {
    assert 0 in s.workers.Values by { assert 0 in s.workers; }
    assert Killed(s).live == map[0 := Worker(0, true)];
  }

  lemma ForkOne(s: State)
    ensures ForkUpTo(s, 1) == Fork(s, 0)
  {
    assert ForkUpTo(s, 0) == s;
  }
}
