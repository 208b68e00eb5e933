/** The work-stack walker `grabBlock` of `explorer-gmc-master/tools/blockHelper.js`.

    The node's chain is the list of its blocks by number; asking for a number outside it delivers no
    block, which ends the whole walk. Entries name blocks by number, and an interval may end at
    "latest". */
module BlockWalker {

  datatype Block = Block(hash: nat, parentHash: nat)
  datatype End = At(number: int) | Latest
  datatype Entry = Single(number: int) | Interval(start: int, end: End)

  /** The number `getBlock` resolves an interval end to. */
  function Resolve(end: End, height: int): int {
    match end
    case At(n) => n
    case Latest => height
  }

  /** The number an entry asks for next. */
  function Wanted(e: Entry, height: int): int {
    match e
    case Single(n) => n
    case Interval(_, end) => Resolve(end, height)
  }

  // ---------- specification ----------

  /** The numbers from `high` down to `low`. */
  function Down(high: int, low: int): (r: seq<int>)
    decreases if high < low then 0 else high - low + 1
  {
    if high < low then [] else [high] + Down(high - 1, low)
  }

  /** What one entry covers: a number, or an interval from its end down to its start. An interval whose end is
      below its start still asks for the end. */
  function Covered(e: Entry, height: int): seq<int> {
    match e
    case Single(n) => [n]
    case Interval(s, end) =>
      var high := Resolve(end, height);
      if high > s then Down(high, s) else [high]
  }

  /** The stack is worked off from its last entry to its first. */
  function Plan(stack: seq<Entry>, height: int): seq<int> {
    if stack == [] then []
    else Covered(stack[|stack| - 1], height) + Plan(stack[..|stack| - 1], height)
  }

  predicate OnChain(n: int, chain: seq<Block>) { 0 <= n < |chain| }

  /** The plan up to the first number the node has no block for. */
  function Fetched(plan: seq<int>, chain: seq<Block>): (r: seq<int>)
    ensures forall n :: n in r ==> OnChain(n, chain)
  {
    if plan == [] || !OnChain(plan[0], chain) then []
    else [plan[0]] + Fetched(plan[1..], chain)
  }

  /** Saving a block under a number that already has a record is rejected by the unique index and skipped. */
  function Save(store: map<int, Block>, n: int, b: Block): map<int, Block> {
    if n in store then store else store[n := b]
  }

  function SaveAll(store: map<int, Block>, numbers: seq<int>, chain: seq<Block>): map<int, Block>
    requires forall n :: n in numbers ==> OnChain(n, chain)
    decreases |numbers|
  {
    if numbers == [] then store
    else
      assert OnChain(numbers[0], chain);
      SaveAll(Save(store, numbers[0], chain[numbers[0]]), numbers[1..], chain)
  }

  // ---------- the walk ----------

  class Grabber {
    var blocks: seq<Entry>
    var store: map<int, Block>

    /** `grabBlock` on one entry: fetch its end, save the block, then go on with the shortened interval or
        with the next entry of the stack. `asked` lists the delivered numbers. */
    method GrabBlock(chain: seq<Block>, current: Entry) returns (asked: seq<int>, finished: bool)
      modifies this
      ensures var plan := Covered(current, |chain| - 1) + Plan(old(blocks), |chain| - 1);
              asked == Fetched(plan, chain) && (finished <==> asked == plan)
      ensures store == SaveAll(old(store), asked, chain)
      ensures finished ==> blocks == []
      ensures blocks <= old(blocks)
      decreases |blocks|, 1, if current.Interval? then Resolve(current.end, |chain| - 1) - current.start else 0, 1
    {
      var desired := Wanted(current, |chain| - 1);
      ghost var rest := AfterFirst(current, blocks, |chain| - 1);
      PlanStarts(current, blocks, |chain| - 1);
      StepOfWalk(desired, rest, store, chain);
      assert SaveAll(store, [], chain) == store;
      hide Covered, Plan, Fetched, SaveAll, AfterFirst, Save;
      if !OnChain(desired, chain) {
        return [], false;
      }
      store := Save(store, desired, chain[desired]);
      asked, finished := GoOn(chain, current, desired);
      SameTail(desired, asked, rest);
      asked := [desired] + asked;
    }

    /** The rest of `grabBlock` once its block is saved: the shortened interval, or the next entry. */
    method GoOn(chain: seq<Block>, current: Entry, desired: int) returns (asked: seq<int>, finished: bool)
      requires desired == Wanted(current, |chain| - 1)
      modifies this
      ensures var rest := AfterFirst(current, old(blocks), |chain| - 1);
              asked == Fetched(rest, chain) && (finished <==> asked == rest)
      ensures store == SaveAll(old(store), asked, chain)
      ensures finished ==> blocks == []
      ensures blocks <= old(blocks)
      decreases |blocks|, 1, if current.Interval? then Resolve(current.end, |chain| - 1) - current.start else 0, 0
    {
      hide Covered, Plan, Fetched, SaveAll;
      if current.Interval? && desired > current.start {
        asked, finished := GrabBlock(chain, Interval(current.start, At(desired - 1)));
      } else {
        asked, finished := GrabNext(chain);
      }
    }

    /** `grabBlock(config, web3, config.blocks.pop())`. */
    method GrabNext(chain: seq<Block>) returns (asked: seq<int>, finished: bool)
      modifies this
      ensures var plan := Plan(old(blocks), |chain| - 1);
              asked == Fetched(plan, chain) && (finished <==> asked == plan)
      ensures store == SaveAll(old(store), asked, chain)
      ensures finished ==> blocks == []
      ensures blocks <= old(blocks)
      decreases |blocks|, 0
    {
      if blocks == [] {
        return [], true;
      }
      var current := blocks[|blocks| - 1];
      blocks := blocks[..|blocks| - 1];
      asked, finished := GrabBlock(chain, current);
    }
  }

  lemma SameTail(n: int, a: seq<int>, b: seq<int>)
    ensures [n] + a == [n] + b <==> a == b
  {
    assert ([n] + a)[1..] == a && ([n] + b)[1..] == b;
  }

  lemma StepOfWalk(n: int, rest: seq<int>, store: map<int, Block>, chain: seq<Block>)
    ensures Fetched([n] + rest, chain) == if OnChain(n, chain) then [n] + Fetched(rest, chain) else []
    ensures OnChain(n, chain) ==>
              forall k :: k in [n] + Fetched(rest, chain) ==> OnChain(k, chain)
    ensures OnChain(n, chain) ==>
              SaveAll(store, [n] + Fetched(rest, chain), chain) ==
              SaveAll(Save(store, n, chain[n]), Fetched(rest, chain), chain)
  {
    assert ([n] + rest)[1..] == rest;
    assert ([n] + Fetched(rest, chain))[1..] == Fetched(rest, chain);
  }

  /** What is left of the plan once the first number is done. */
  ghost function AfterFirst(e: Entry, stack: seq<Entry>, height: int): seq<int> {
    if e.Interval? && Wanted(e, height) > e.start
    then Covered(Interval(e.start, At(Wanted(e, height) - 1)), height) + Plan(stack, height)
    else Plan(stack, height)
  }

  lemma PlanStarts(e: Entry, stack: seq<Entry>, height: int)
    ensures Covered(e, height) + Plan(stack, height) == [Wanted(e, height)] + AfterFirst(e, stack, height)
  {
    if e.Interval? && Wanted(e, height) > e.start {
      var high := Wanted(e, height);
      assert Down(high, e.start) == [high] + Down(high - 1, e.start);
      assert Down(e.start, e.start) == [e.start] + Down(e.start - 1, e.start);
    }
  }

  lemma {:induction false} FetchedAll(plan: seq<int>, chain: seq<Block>)
    ensures Fetched(plan, chain) == plan <==> forall n :: n in plan ==> OnChain(n, chain)
  {
    if plan != [] {
      assert plan[0] in plan;
      FetchedAll(plan[1..], chain);
    }
  }

  // ---------- what the walk achieves ----------

  /** Existing records stay as they are; every other saved number gets the node's block. */
  lemma {:induction false} SaveAllMeaning(store: map<int, Block>, numbers: seq<int>, chain: seq<Block>)
    requires forall n :: n in numbers ==> OnChain(n, chain)
    ensures var r := SaveAll(store, numbers, chain);
            && (forall n :: n in r <==> n in store || n in numbers)
            && (forall n :: n in r ==> r[n] == if n in store then store[n] else chain[n])
    decreases |numbers|
  {
    if numbers != [] {
      assert numbers[0] in numbers;
      SaveAllMeaning(Save(store, numbers[0], chain[numbers[0]]), numbers[1..], chain);
    }
  }

  lemma {:induction false} DownMeaning(high: int, low: int)
    ensures |Down(high, low)| == if high < low then 0 else high - low + 1
    ensures forall i :: 0 <= i < |Down(high, low)| ==> Down(high, low)[i] == high - i
    decreases if high < low then 0 else high - low + 1
  {
    if high >= low {
      DownMeaning(high - 1, low);
    }
  }

  /** An interval covers each of its numbers exactly once, in descending order. */
  lemma {:induction false} CoveredMeaning(e: Entry, height: int, n: int)
    ensures var c := Covered(e, height);
            match e
            case Single(m) => c == [m]
            case Interval(s, end) =>
              // "latest" is the node's highest block
              var high := if end.Latest? then height else end.number;
              && (s <= high ==> |c| == high - s + 1 && (n in c <==> s <= n <= high))
              && (s > high ==> c == [high])
              && (forall i :: 0 <= i < |c| ==> c[i] == high - i)
  {
    if e.Interval? {
      var high := Resolve(e.end, height);
      DownMeaning(high, e.start);
      if e.start <= n <= high {
        assert e.start < high ==> Down(high, e.start)[high - n] == n;
      }
    }
  }

  ghost predicate Covers(e: Entry, height: int, n: int) {
    match e
    case Single(m) => n == m
    case Interval(s, end) =>
      var high := if end.Latest? then height else end.number;
      n == high || s <= n <= high
  }

  ghost predicate Planned(stack: seq<Entry>, height: int, n: int) {
    exists i :: 0 <= i < |stack| && Covers(stack[i], height, n)
  }

  lemma PlannedStep(front: seq<Entry>, e: Entry, height: int, n: int)
    ensures Planned(front + [e], height, n) <==> Covers(e, height, n) || Planned(front, height, n)
  {
    var stack := front + [e];
    if i :| 0 <= i < |front| && Covers(front[i], height, n) {
      assert stack[i] == front[i];
    }
    if Covers(e, height, n) {
      assert stack[|front|] == e;
    }
  }

  lemma {:induction false} PlanMeaning(stack: seq<Entry>, height: int, n: int)
    ensures n in Plan(stack, height) <==> Planned(stack, height, n)
  {
    if stack != [] {
      var front, e := stack[..|stack| - 1], stack[|stack| - 1];
      PlanMeaning(front, height, n);
      CoveredMeaning(e, height, n);
      assert stack == front + [e];
      PlannedStep(front, e, height, n);
    }
  }

  /** The walk finishes exactly when the node has every covered block. */
  lemma {:induction false} WalkFinishesIffOnChain(stack: seq<Entry>, chain: seq<Block>)
    ensures var plan := Plan(stack, |chain| - 1);
            Fetched(plan, chain) == plan <==>
            var height := |chain| - 1;
            forall n :: Planned(stack, height, n) ==> 0 <= n < |chain|
  {
    var plan, height := Plan(stack, |chain| - 1), |chain| - 1;
    FetchedAll(plan, chain);
    forall n ensures n in plan <==> Planned(stack, height, n) {
      PlanMeaning(stack, height, n);
    }
  }

  /** A finished walk leaves the old records unchanged plus exactly the covered numbers with the node's blocks. */
  lemma {:induction false} FinishedWalkCoversItsWork(stack: seq<Entry>, store: map<int, Block>,
      chain: seq<Block>, n: int)
    requires var height := |chain| - 1; forall m :: Planned(stack, height, m) ==> 0 <= m < |chain|
    ensures var after := SaveAll(store, Fetched(Plan(stack, |chain| - 1), chain), chain);
            && (n in after <==> n in store || Planned(stack, |chain| - 1, n))
            && (n in store ==> after[n] == store[n])
            && (n in after && n !in store ==> 0 <= n < |chain| && after[n] == chain[n])
  {
    WalkFinishesIffOnChain(stack, chain);
    SaveAllMeaning(store, Fetched(Plan(stack, |chain| - 1), chain), chain);
    PlanMeaning(stack, |chain| - 1, n);
  }
}
