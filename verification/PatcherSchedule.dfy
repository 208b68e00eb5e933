/** `patchBlocks` as it really runs: every database query and every block fetch of
    `explorer-gmc-master/tools/patcher.js` is a callback, so scans, existence checks, fetches, the
    second existence check before a write and the writes interleave in any order, and later queries see earlier
    writes. */
module PatcherSchedule {
  import opened Patcher

  datatype Task =
    | Scan(first: int, last: int)  // a pending blockIter call
    | Find(first: int)             // a pending existence check of one number
    | Fetch(first: int)            // a pending getBlock of one number
    | Check(first: int)            // a fetched block, waiting for the existence check before its write
    | Write(first: int)            // a pending save
  {
    function Last(): int { if Scan? then last else first }

    ghost predicate Covers(n: int) { first <= n <= Last() }

    /** What this task would still request if the collection were `stored`. */
    function Outstanding(stored: set<int>): seq<int> {
      match this
      case Scan(f, l) => Requests(f, l, stored)
      case Find(n) => IfMissing(n, stored)
      case _ => []
    }

    /** The number has been requested and is on its way into the collection. */
    predicate OnItsWay() { Fetch? || Check? || Write? }
  }

  datatype State = State(tasks: seq<Task>, stored: set<int>, requested: seq<int>)

  /** The callbacks a task schedules when it runs against the current collection; `node` are the numbers for which the
      node delivers a block (no number is fetched twice). */
  function Spawned(t: Task, stored: set<int>, node: set<int>): seq<Task> {
    match t
    case Scan(f, l) =>
      if l < f then []
      else if l - f == 1 then [Find(l), Find(f)]
      else if l == f then [Find(f)]
      else
        var c := |StoredIn(f, l, stored)|;
        if c == 0 then []
        else if l - f + 1 > c then [Scan(f, Mid(f, l)), Scan(Mid(f, l) + 1, l)]
        else []
    case Find(n) => if n in stored then [] else [Fetch(n)]
    case Fetch(n) => if n in node then [Check(n)] else []
    case Check(n) => if n in stored then [] else [Write(n)]
    case Write(_) => []
  }

  /** Run task `k`. A save of a stored number is skipped. */
  function Step(s: State, k: nat, node: set<int>): State
    requires k < |s.tasks|
  {
    var t := s.tasks[k];
    State(s.tasks[..k] + Spawned(t, s.stored, node) + s.tasks[k + 1..],
          if t.Write? then s.stored + {t.first} else s.stored,
          if t.Find? && t.first !in s.stored then s.requested + [t.first] else s.requested)
  }

  /** How often `n` occurs in a list. */
  ghost function Times(list: seq<int>, n: int): nat {
    multiset(list)[n]
  }

  lemma TimesAppend(a: seq<int>, b: seq<int>, n: int)
    ensures Times(a + b, n) == Times(a, n) + Times(b, n)
  {
  }

  ghost function Sum<T>(f: T -> nat, s: seq<T>): nat {
    if s == [] then 0 else Sum(f, s[..|s| - 1]) + f(s[|s| - 1])
  }

  /** How many requests for `n` a task still owes. */
  ghost function Owes(stored: set<int>, n: int): Task -> nat {
    (t: Task) => Times(t.Outstanding(stored), n)
  }

  ghost function Owed(tasks: seq<Task>, stored: set<int>, n: int): nat {
    Sum(Owes(stored, n), tasks)
  }

  /** Tasks work on disjoint ranges, so what one of them will look at no other one can have written. */
  ghost predicate Apart(t: Task, u: Task) {
    forall n :: t.Covers(n) ==> !u.Covers(n)
  }

  ghost predicate AllApart(tasks: seq<Task>) {
    forall i, j :: 0 <= i < j < |tasks| ==> Apart(tasks[i], tasks[j])
  }

  ghost predicate Untouched(t: Task, stored: set<int>, initial: set<int>) {
    forall n :: t.Covers(n) ==> (n in stored <==> n in initial)
  }

  ghost predicate Pending(tasks: seq<Task>, n: int) {
    Fetch(n) in tasks || Check(n) in tasks || Write(n) in tasks
  }

  ghost predicate Inv(s: State, first: int, last: int, initial: set<int>, node: set<int>) {
    && AllApart(s.tasks)
    && (forall i :: 0 <= i < |s.tasks| ==> Untouched(s.tasks[i], s.stored, initial))
    && (forall n :: Times(s.requested, n) + Owed(s.tasks, initial, n) == Times(Requests(first, last, initial), n))
    && initial <= s.stored
    && (forall n :: n in s.stored ==> n in initial || (n in s.requested && n in node))
    && (forall n :: n in s.requested ==> n in s.stored || n !in node || Pending(s.tasks, n))
    && (forall n :: Pending(s.tasks, n) ==> n in s.requested)
    && (forall n :: Check(n) in s.tasks || Write(n) in s.tasks ==> n in node)
  }

  // ---------- lists of tasks ----------

  lemma {:induction false} SumAppend<T>(f: T -> nat, a: seq<T>, b: seq<T>)
    ensures Sum(f, a + b) == Sum(f, a) + Sum(f, b)
    decreases |b|
  {
    if b == [] {
      assert a + b == a;
    } else {
      var front := b[..|b| - 1];
      SumAppend(f, a, front);
      assert (a + b)[..|a + b| - 1] == a + front;
    }
  }

  lemma SumOne<T>(f: T -> nat, x: T)
    ensures Sum(f, [x]) == f(x)
  {
    assert [x][..0] == [];
  }

  lemma SumReplace<T>(f: T -> nat, s: seq<T>, k: nat, more: seq<T>)
    requires k < |s|
    ensures Sum(f, s[..k] + more + s[k + 1..]) + f(s[k]) == Sum(f, s) + Sum(f, more)
  {
    var l, r := s[..k], s[k + 1..];
    SumAppend(f, l + more, r);
    SumAppend(f, l, more);
    assert s == (l + [s[k]]) + r;
    SumAppend(f, l + [s[k]], r);
    SumAppend(f, l, [s[k]]);
    SumOne(f, s[k]);
  }

  /** Spawned tasks stay inside the range of their parent and apart from each other. */
  lemma SpawnedStaysInside(t: Task, stored: set<int>, node: set<int>)
    ensures AllApart(Spawned(t, stored, node))
    ensures forall u, n :: u in Spawned(t, stored, node) && u.Covers(n) ==> t.Covers(n)
  {
    if t.Scan? && t.last - t.first >= 2 {
      assert t.first <= Mid(t.first, t.last) < t.last;
    }
  }

  lemma ApartAfterReplace(tasks: seq<Task>, k: nat, more: seq<Task>)
    requires k < |tasks| && AllApart(tasks) && AllApart(more)
    requires forall u, n :: u in more && u.Covers(n) ==> tasks[k].Covers(n)
    ensures AllApart(tasks[..k] + more + tasks[k + 1..])
  {
    var all := tasks[..k] + more + tasks[k + 1..];
    forall i, j | 0 <= i < j < |all| ensures Apart(all[i], all[j]) {
      var x := if i < k then i else if i < k + |more| then k else i - |more| + 1;
      var y := if j < k then j else if j < k + |more| then k else j - |more| + 1;
      if x < y {
        assert Apart(tasks[x], tasks[y]);
        assert k <= i < k + |more| ==> all[i] in more;
        assert k <= j < k + |more| ==> all[j] in more;
      } else {
        assert all[i] == more[i - k] && all[j] == more[j - k];
      }
    }
  }

  lemma OwedPair(t: Task, u: Task, stored: set<int>, n: int)
    ensures Owed([t, u], stored, n) == Times(t.Outstanding(stored) + u.Outstanding(stored), n)
  {
    var f := Owes(stored, n);
    assert [t, u] == [t] + [u];
    SumAppend(f, [t], [u]);
    SumOne(f, t);
    SumOne(f, u);
    TimesAppend(t.Outstanding(stored), u.Outstanding(stored), n);
  }

  lemma LargeScanShape(f: int, l: int, stored: set<int>, node: set<int>, initial: set<int>)
    requires l - f >= 2 && Untouched(Scan(f, l), stored, initial)
    ensures var t, u := Scan(f, Mid(f, l)), Scan(Mid(f, l) + 1, l);
            || (Spawned(Scan(f, l), stored, node) == [] && Requests(f, l, initial) == [])
            || (Spawned(Scan(f, l), stored, node) == [t, u] &&
                Requests(f, l, initial) == t.Outstanding(initial) + u.Outstanding(initial))
  {
    SameStored(f, l, stored, initial);
  }

  lemma LargeScanOwes(f: int, l: int, stored: set<int>, node: set<int>, initial: set<int>, n: int)
    requires l - f >= 2 && Untouched(Scan(f, l), stored, initial)
    ensures Owed(Spawned(Scan(f, l), stored, node), initial, n) == Times(Requests(f, l, initial), n)
  {
    LargeScanShape(f, l, stored, node, initial);
    OwedPair(Scan(f, Mid(f, l)), Scan(Mid(f, l) + 1, l), initial, n);
  }

  lemma SameStored(f: int, l: int, stored: set<int>, initial: set<int>)
    requires Untouched(Scan(f, l), stored, initial)
    ensures StoredIn(f, l, stored) == StoredIn(f, l, initial)
  {
    assert forall m :: f <= m <= l ==> Scan(f, l).Covers(m);
  }

  lemma SmallScanOwes(f: int, l: int, stored: set<int>, node: set<int>, initial: set<int>, n: int)
    requires l - f < 2
    ensures Owed(Spawned(Scan(f, l), stored, node), initial, n) == Times(Requests(f, l, initial), n)
  {
    if l - f == 1 {
      OwedPair(Find(l), Find(f), initial, n);
    } else if l == f {
      SumOne(Owes(initial, n), Find(f));
    }
  }

  /** Running a scan or a check hands exactly its outstanding requests on. */
  lemma SpawnedOwes(t: Task, stored: set<int>, node: set<int>, initial: set<int>, n: int)
    requires Untouched(t, stored, initial)
    ensures Owed(Spawned(t, stored, node), initial, n) + (if t == Find(n) && n !in stored then 1 else 0) ==
            Times(t.Outstanding(initial), n)
  {
    match t
    case Scan(f, l) =>
      if l - f >= 2 {
        LargeScanOwes(f, l, stored, node, initial, n);
      } else {
        SmallScanOwes(f, l, stored, node, initial, n);
      }
    case Find(m) =>
      assert t.Covers(m);
      SumOne(Owes(initial, n), Fetch(m));
    case Fetch(m) => SumOne(Owes(initial, n), Check(m));
    case Check(m) => SumOne(Owes(initial, n), Write(m));
    case Write(_) =>
  }

  // ---------- every schedule ----------

  lemma StepConserves(s: State, k: nat, node: set<int>, initial: set<int>, n: int)
    requires k < |s.tasks| && Untouched(s.tasks[k], s.stored, initial)
    ensures var r := Step(s, k, node);
            Times(r.requested, n) + Owed(r.tasks, initial, n) == Times(s.requested, n) + Owed(s.tasks, initial, n)
  {
    var t := s.tasks[k];
    SumReplace(Owes(initial, n), s.tasks, k, Spawned(t, s.stored, node));
    SpawnedOwes(t, s.stored, node, initial, n);
    TimesAppend(s.requested, [t.first], n);
  }

  lemma StepKeepsUntouched(s: State, k: nat, node: set<int>, initial: set<int>)
    requires k < |s.tasks| && AllApart(s.tasks)
    requires forall i :: 0 <= i < |s.tasks| ==> Untouched(s.tasks[i], s.stored, initial)
    ensures var r := Step(s, k, node);
            forall i :: 0 <= i < |r.tasks| ==> Untouched(r.tasks[i], r.stored, initial)
  {
    var r := Step(s, k, node);
    var t, more := s.tasks[k], Spawned(s.tasks[k], s.stored, node);
    SpawnedStaysInside(t, s.stored, node);
    forall i | 0 <= i < |r.tasks| ensures Untouched(r.tasks[i], r.stored, initial) {
      if k <= i < k + |more| {
        assert r.tasks[i] == more[i - k] && more[i - k] in more;
      } else {
        var x := if i < k then i else i - |more| + 1;
        assert r.tasks[i] == s.tasks[x];
        assert if x < k then Apart(s.tasks[x], t) else Apart(t, s.tasks[x]);
        assert t.Covers(t.first) || t.Scan?;
      }
    }
  }

  /** A requested number stays on its way until it is stored or its fetch fails. */
  lemma StepTracksRequests(s: State, k: nat, node: set<int>, n: int)
    requires k < |s.tasks|
    ensures var r := Step(s, k, node);
            var t := s.tasks[k];
            && (Pending(r.tasks, n) ==> Pending(s.tasks, n) || (t == Find(n) && n !in s.stored))
            && (Pending(s.tasks, n) ==> Pending(r.tasks, n) || n in r.stored || n !in node)
            && (Check(n) in r.tasks || Write(n) in r.tasks ==> Check(n) in s.tasks || Write(n) in s.tasks || n in node)
            && (t == Find(n) && n !in s.stored ==> Pending(r.tasks, n))
  {
    var r := Step(s, k, node);
    var t, more := s.tasks[k], Spawned(s.tasks[k], s.stored, node);
    assert s.tasks == s.tasks[..k] + [t] + s.tasks[k + 1..];
    assert forall u :: u in r.tasks <==> u in s.tasks[..k] || u in more || u in s.tasks[k + 1..];
    assert forall u :: u in s.tasks <==> u in s.tasks[..k] || u == t || u in s.tasks[k + 1..];
    if t.OnItsWay() && t.first == n {
      assert more == [] || more[0] in r.tasks;
    }
  }

  lemma StepKeepsInv(s: State, k: nat, node: set<int>, first: int, last: int, initial: set<int>)
    requires Inv(s, first, last, initial, node) && k < |s.tasks|
    ensures Inv(Step(s, k, node), first, last, initial, node)
  {
    var t := s.tasks[k];
    SpawnedStaysInside(t, s.stored, node);
    ApartAfterReplace(s.tasks, k, Spawned(t, s.stored, node));
    StepKeepsUntouched(s, k, node, initial);
    forall n ensures var r := Step(s, k, node);
      && Times(r.requested, n) + Owed(r.tasks, initial, n) == Times(Requests(first, last, initial), n)
      && (n in r.stored ==> n in initial || (n in r.requested && n in node))
      && (n in r.requested ==> n in r.stored || n !in node || Pending(r.tasks, n))
      && (Check(n) in r.tasks || Write(n) in r.tasks ==> n in node)
      && (Pending(r.tasks, n) ==> n in r.requested)
    {
      StepConserves(s, k, node, initial, n);
      StepTracksRequests(s, k, node, n);
    }
  }

  /** A schedule picks one of the pending callbacks for each step. */
  datatype Choice = Choice(task: nat, node: set<int>)

  ghost predicate CanRun(s: State, schedule: seq<nat>, node: set<int>)
    decreases |schedule|
  {
    schedule == [] ||
    (schedule[0] < |s.tasks| && CanRun(Step(s, schedule[0], node), schedule[1..], node))
  }

  ghost function Run(s: State, schedule: seq<nat>, node: set<int>): State
    requires CanRun(s, schedule, node)
    decreases |schedule|
  {
    if schedule == [] then s
    else Run(Step(s, schedule[0], node), schedule[1..], node)
  }

  lemma {:induction false} RunKeepsInv(s: State, schedule: seq<nat>, first: int, last: int, initial: set<int>,
                                       node: set<int>)
    requires CanRun(s, schedule, node) && Inv(s, first, last, initial, node)
    ensures Inv(Run(s, schedule, node), first, last, initial, node)
    decreases |schedule|
  {
    if schedule != [] {
      StepKeepsInv(s, schedule[0], node, first, last, initial);
      RunKeepsInv(Step(s, schedule[0], node), schedule[1..], first, last, initial, node);
    }
  }

  lemma FinishedRun(s: State, first: int, last: int, initial: set<int>, node: set<int>)
    requires Inv(s, first, last, initial, node) && s.tasks == []
    ensures multiset(s.requested) == multiset(Requests(first, last, initial))
    ensures forall n :: n in s.stored <==> n in initial || (n in Requests(first, last, initial) && n in node)
  {
    var asked := Requests(first, last, initial);
    forall n ensures Times(s.requested, n) == Times(asked, n) {
      assert Owed(s.tasks, initial, n) == 0;
    }
    SameTimes(s.requested, asked);
  }

  lemma SameTimes(a: seq<int>, b: seq<int>)
    requires forall n :: Times(a, n) == Times(b, n)
    ensures multiset(a) == multiset(b)
    ensures forall n :: n in a <==> n in b
  {
    forall n ensures multiset(a)[n] == multiset(b)[n] {
      assert Times(a, n) == Times(b, n);
    }
    assert multiset(a) == multiset(b);
    assert forall n :: n in a <==> n in multiset(a);
    assert forall n :: n in b <==> n in multiset(b);
  }

  /** Whatever the interleaving, a finished run has requested exactly what the sequential scan over the
      initial collection requests, each number once, and stored exactly the delivered ones. */
  lemma EveryScheduleAgrees(first: int, last: int, initial: set<int>, schedule: seq<nat>, node: set<int>)
    requires var start := State([Scan(first, last)], initial, []);
             CanRun(start, schedule, node) && Run(start, schedule, node).tasks == []
    ensures var end := Run(State([Scan(first, last)], initial, []), schedule, node);
            && multiset(end.requested) == multiset(Requests(first, last, initial))
            && forall n :: n in end.stored <==> n in initial || (n in Requests(first, last, initial) && n in node)
  {
    var start := State([Scan(first, last)], initial, []);
    forall n ensures Owed(start.tasks, initial, n) == Times(Requests(first, last, initial), n) {
      SumOne(Owes(initial, n), Scan(first, last));
    }
    assert Inv(start, first, last, initial, node);
    RunKeepsInv(start, schedule, first, last, initial, node);
    FinishedRun(Run(start, schedule, node), first, last, initial, node);
  }

  // ---------- every schedule ends ----------

  /** An upper bound on the callbacks a task can still cause, itself included. */
  function Weight(t: Task): nat {
    match t
    case Scan(f, l) => if l < f then 1 else 6 * Size(f, l) - 1
    case Find(_) => 4
    case Fetch(_) => 3
    case Check(_) => 2
    case Write(_) => 1
  }

  ghost function WeightOf(): Task -> nat { (t: Task) => Weight(t) }

  lemma SpawnedIsLighter(t: Task, stored: set<int>, node: set<int>)
    ensures Sum(WeightOf(), Spawned(t, stored, node)) < Weight(t)
  {
    var w := WeightOf();
    var more := Spawned(t, stored, node);
    if |more| == 2 {
      assert more == [more[0]] + [more[1]];
      SumAppend(w, [more[0]], [more[1]]);
      SumOne(w, more[0]);
      SumOne(w, more[1]);
    } else if |more| == 1 {
      assert more == [more[0]];
      SumOne(w, more[0]);
    }
  }

  lemma {:induction false} RunIsBounded(s: State, schedule: seq<nat>, node: set<int>)
    requires CanRun(s, schedule, node)
    ensures |schedule| <= Sum(WeightOf(), s.tasks)
    decreases |schedule|
  {
    hide Weight, Spawned;
    if schedule != [] {
      var k := schedule[0];
      var t := s.tasks[k];
      SumReplace(WeightOf(), s.tasks, k, Spawned(t, s.stored, node));
      SpawnedIsLighter(t, s.stored, node);
      RunIsBounded(Step(s, k, node), schedule[1..], node);
    }
  }

  /** Every schedule is finite: fewer than six callbacks per block number, and one when there is no number. */
  lemma {:induction false} EveryScheduleEnds(first: int, last: int, initial: set<int>, schedule: seq<nat>,
                                             node: set<int>)
    requires CanRun(State([Scan(first, last)], initial, []), schedule, node)
    ensures last < first ==> |schedule| <= 1
    ensures first <= last ==> |schedule| < 6 * (last - first + 1)
  {
    RunIsBounded(State([Scan(first, last)], initial, []), schedule, node);
    SumOne(WeightOf(), Scan(first, last));
  }
}
