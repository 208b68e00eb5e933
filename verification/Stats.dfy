/** The incremental statistics walker of `explorer-gmc-master/tools/stats.js`.

    A record is kept per block number and holds the block time computed from the block and its successor
    in the walk. The chain is given by its timestamps; a fetch that delivers no block ends the walk. */
module Stats {

  type Records = map<int, real>
  datatype Next = NoNext | Next(number: int)

  // ---------- one walk ----------

  /** The block time stored for `n` when the walk came from `next`. */
  function BlockTime(time: int -> int, n: int, next: int): real
    requires next != n
  {
    (time(next) - time(n)) as real / (next - n) as real
  }

  /** The records after `getStats(n, next, end)`; `lost` are the blocks no fetch delivers. */
  function Walk(db: Records, time: int -> int, n: int, next: Next, end: int, interval: int, rescan: bool,
      lost: set<int>): Records
    requires interval > 0 && (next.Next? ==> next.number == n + interval) && end >= 0
    decreases if n < end then 0 else n - end
  {
    if n <= end || n in lost then db
    else if n !in db && next.Next? then
      Walk(db[n := BlockTime(time, n, next.number)], time, n - interval, Next(n), end, interval, rescan, lost)
    else if rescan || next.NoNext? then Walk(db, time, n - interval, Next(n), end, interval, rescan, lost)
    else db
  }

  function Max(a: int, b: int): int { if a < b then b else a }

  /** The block the walk starts at. */
  function Aligned(latest: int, interval: int): int
    requires interval > 0
  {
    if interval >= 10 then latest - latest % interval else latest
  }

  /** `updateStats`: a range of 0 means 1000. */
  function Update(db: Records, time: int -> int, latest: int, range: nat, interval: int, rescan: bool,
      lost: set<int>): Records
    requires interval > 0
  {
    var top := Aligned(latest, interval);
    Walk(db, time, top, NoNext, Max(0, top - Span(range, interval)), interval, rescan, lost)
  }

  function Span(range: nat, interval: int): int {
    (if range == 0 then 1000 else range) * interval
  }

  /** The collection with its walker; each callback checks, writes one record and goes on. */
  class BlockStats {
    var records: Records

    method GetStats(time: int -> int, blockNumber: int, nextBlock: Next, endNumber: int, interval: int,
        rescan: bool, lost: set<int>)
      requires interval > 0 && (nextBlock.Next? ==> nextBlock.number == blockNumber + interval)
      modifies this
      ensures records == Walk(old(records), time, blockNumber, nextBlock, Max(0, endNumber), interval, rescan, lost)
      // even when a fetch fails: old records stay, and new ones are window blocks with their right block time
      ensures Extends(old(records), records, time, TopOf(blockNumber, nextBlock), Max(0, endNumber), interval)
      // when none fails: the window is filled exactly if it is rescanned or was closed downwards
      ensures lost == {} ==>
                (Full(records, TopOf(blockNumber, nextBlock), Max(0, endNumber), interval) <==>
                 rescan || DownClosed(old(records), TopOf(blockNumber, nextBlock), Max(0, endNumber), interval))
      decreases if blockNumber < Max(0, endNumber) then 0 else blockNumber - Max(0, endNumber)
    {
      WalkMeaning(records, time, blockNumber, nextBlock, Max(0, endNumber), interval, rescan, lost);
      hide Extends, Full, DownClosed;
      var end := if endNumber < 0 then 0 else endNumber;
      if blockNumber <= end {
        return;
      }
      if blockNumber in lost {
        return;
      }
      if blockNumber !in records && nextBlock.Next? {
        records := records[blockNumber := BlockTime(time, blockNumber, nextBlock.number)];
        GetStats(time, blockNumber - interval, Next(blockNumber), end, interval, rescan, lost);
      } else if rescan || nextBlock.NoNext? {
        GetStats(time, blockNumber - interval, Next(blockNumber), end, interval, rescan, lost);
      }
    }

    method UpdateStats(time: int -> int, latest: int, range: nat, interval: int, rescan: bool, lost: set<int>)
      requires interval > 0
      modifies this
      ensures records == Update(old(records), time, latest, range, interval, rescan, lost)
      ensures var top := Aligned(latest, interval);
              Extends(old(records), records, time, top, Max(0, top - Span(range, interval)), interval)
      ensures var top := Aligned(latest, interval);
              lost == {} ==>
                (Full(records, top, Max(0, top - Span(range, interval)), interval) <==>
                 rescan || DownClosed(old(records), top, Max(0, top - Span(range, interval)), interval))
    {
      hide Extends, Full, DownClosed, Walk;
      var blocks := if range == 0 then 1000 else range;
      var latestBlock := latest;
      if interval >= 10 {
        latestBlock := latestBlock - latestBlock % interval;
      }
      GetStats(time, latestBlock, NoNext, latestBlock - blocks * interval, interval, rescan, lost);
    }
  }

  // ---------- the numbers a walk visits ----------

  /** `n` is one of the walk's numbers below `top`: a whole number of intervals down and above `end`. */
  ghost predicate InWindow(n: int, top: int, end: int, interval: int)
    requires interval > 0
  {
    end < n < top && (top - n) % interval == 0
  }

  ghost predicate Full(db: Records, top: int, end: int, interval: int)
    requires interval > 0
  {
    forall n :: InWindow(n, top, end, interval) ==> n in db
  }

  /** Below every record of the window the window is recorded. */
  ghost predicate DownClosed(db: Records, top: int, end: int, interval: int)
    requires interval > 0
  {
    forall m, n :: InWindow(m, top, end, interval) && InWindow(n, top, end, interval) && m < n && n in db ==> m in db
  }

  lemma {:induction false} Residues(top: int, n: int, interval: int)
    requires interval > 0
    ensures (top - interval - n) % interval == (top - n) % interval
    ensures n < top < n + interval ==> (top - n) % interval != 0
  {
    var q, r := (top - n) / interval, (top - n) % interval;
    assert top - interval - n == (q - 1) * interval + r;
    UniqueDivision(top - interval - n, interval, q - 1, r);
    if n < top < n + interval {
      UniqueDivision(top - n, interval, 0, top - n);
    }
  }

  lemma {:induction false} UniqueDivision(a: int, m: int, q: int, r: int)
    requires m > 0 && 0 <= r < m && a == q * m + r
    ensures a % m == r
  {
    var d := a / m - q;
    assert a == (a / m) * m + a % m;
    assert d * m == r - a % m by {
      assert (a / m) * m - q * m == d * m;
    }
    assert d >= 1 ==> d * m >= m;
    assert d <= -1 ==> d * m <= -m;
  }

  /** One step down: the window below `top` is `top - interval` and the window below that. */
  lemma {:induction false} WindowStep(n: int, top: int, end: int, interval: int)
    requires interval > 0
    ensures InWindow(n, top, end, interval) <==>
            end < n && (n == top - interval || InWindow(n, top - interval, end, interval))
  {
    Residues(top, n, interval);
    if n == top - interval { UniqueDivision(top - n, interval, 1, 0); }
  }

  lemma {:induction false} WindowBelow(n: int, top: int, end: int, interval: int)
    requires interval > 0 && top == n + interval
    ensures forall m :: InWindow(m, top, end, interval) <==> end < m && (m == n || InWindow(m, n, end, interval))
    ensures forall m :: InWindow(m, n, end, interval) ==> end < m < n
  {
    assert forall m :: InWindow(m, n, end, interval) ==> end < m < n;
    hide InWindow;
    assert top - interval == n;
    forall m ensures InWindow(m, top, end, interval) <==> end < m && (m == n || InWindow(m, n, end, interval)) {
      WindowStep(m, top, end, interval);
    }
  }

  /** `b` records everything in `a` unchanged and otherwise only numbers of the window, with the block
      time taken against the number one interval higher. */
  ghost predicate Extends(a: Records, b: Records, time: int -> int, top: int, end: int, interval: int)
    requires interval > 0
  {
    && (forall n :: n in a ==> n in b && b[n] == a[n])
    && (forall n :: n in b && n !in a ==>
          InWindow(n, top, end, interval) && b[n] == BlockTime(time, n, n + interval))
  }

  /** Whatever happens, a walk only adds correct records inside its window. */
  lemma {:induction false} WalkExtends(db: Records, time: int -> int, n: int, end: int, interval: int,
      rescan: bool, lost: set<int>)
    requires interval > 0 && end >= 0
    ensures Extends(db, Walk(db, time, n, Next(n + interval), end, interval, rescan, lost), time, n + interval, end,
                    interval)
    decreases if n < end then 0 else n - end
  {
    hide InWindow, BlockTime;
    if n > end && n !in lost {
      WindowBelow(n, n + interval, end, interval);
      var low := n - interval;
      assert low + interval == n;
      if n !in db {
        var db1 := db[n := BlockTime(time, n, n + interval)];
        WalkExtends(db1, time, low, end, interval, rescan, lost);
        assert Walk(db, time, n, Next(n + interval), end, interval, rescan, lost) ==
               Walk(db1, time, low, Next(low + interval), end, interval, rescan, lost);
        hide Walk;
      } else if rescan {
        WalkExtends(db, time, low, end, interval, rescan, lost);
        assert Walk(db, time, n, Next(n + interval), end, interval, rescan, lost) ==
               Walk(db, time, low, Next(low + interval), end, interval, rescan, lost);
        hide Walk;
      }
    }
  }

  lemma {:induction false} UpdateExtends(db: Records, time: int -> int, latest: int, range: nat, interval: int,
      rescan: bool, lost: set<int>)
    requires interval > 0
    ensures var top := Aligned(latest, interval);
            Extends(db, Update(db, time, latest, range, interval, rescan, lost), time, top,
                    Max(0, top - Span(range, interval)), interval)
  {
    var top := Aligned(latest, interval);
    var end := Max(0, top - Span(range, interval));
    if top > end && top !in lost {
      WalkExtends(db, time, top - interval, end, interval, rescan, lost);
    }
  }

  // ---------- completed runs ----------

  lemma {:induction false} FullStep(db: Records, n: int, end: int, interval: int)
    requires interval > 0
    ensures Full(db, n + interval, end, interval) <==> n <= end || (n in db && Full(db, n, end, interval))
  {
    WindowBelow(n, n + interval, end, interval);
    hide InWindow;
  }

  lemma {:induction false} DownClosedStepMissing(db: Records, n: int, end: int, interval: int)
    requires interval > 0 && n > end && n !in db
    ensures DownClosed(db, n + interval, end, interval) <==> DownClosed(db, n, end, interval)
  {
    WindowBelow(n, n + interval, end, interval);
    hide InWindow;
  }

  lemma {:induction false} DownClosedStepKnown(db: Records, n: int, end: int, interval: int)
    requires interval > 0 && n > end && n in db
    ensures DownClosed(db, n + interval, end, interval) <==> Full(db, n, end, interval)
  {
    WindowBelow(n, n + interval, end, interval);
    hide InWindow;
    assert InWindow(n, n + interval, end, interval);
    if Full(db, n, end, interval) {
    } else {
      var m :| InWindow(m, n, end, interval) && m !in db;
      assert InWindow(m, n + interval, end, interval);
    }
  }

  lemma {:induction false} DownClosedIgnoresTop(db: Records, n: int, x: real, end: int, interval: int)
    requires interval > 0
    ensures DownClosed(db[n := x], n, end, interval) <==> DownClosed(db, n, end, interval)
  {
    assert forall m :: InWindow(m, n, end, interval) ==> (m in db[n := x] <==> m in db);
  }

  lemma {:induction false} DownClosedBelow(n: int, db: Records, end: int, interval: int)
    requires interval > 0 && n <= end
    ensures DownClosed(db, n + interval, end, interval)
  {
    WindowBelow(n, n + interval, end, interval);
    hide InWindow;
  }

  /** A completed walk fills its window exactly when the records were closed downwards there, or it rescans. */
  lemma {:induction false} CompletedWalk(db: Records, time: int -> int, n: int, end: int, interval: int, rescan: bool)
    requires interval > 0 && end >= 0
    ensures var r := Walk(db, time, n, Next(n + interval), end, interval, rescan, {});
            Full(r, n + interval, end, interval) <==> rescan || DownClosed(db, n + interval, end, interval)
    decreases if n < end then 0 else n - end
  {
    var r := Walk(db, time, n, Next(n + interval), end, interval, rescan, {});
    hide InWindow, BlockTime, Full, DownClosed;
    FullStep(r, n, end, interval);
    if n <= end {
      DownClosedBelow(n, db, end, interval);
    } else if n in db && !rescan {
      DownClosedStepKnown(db, n, end, interval);
    } else {
      var low := n - interval;
      var db1 := if n in db then db else db[n := BlockTime(time, n, n + interval)];
      assert low + interval == n;
      assert r == Walk(db1, time, low, Next(low + interval), end, interval, rescan, {});
      WalkExtends(db1, time, low, end, interval, rescan, {});
      assert n in r;
      hide Walk, Extends;
      CompletedWalk(db1, time, low, end, interval, rescan);
      if n !in db {
        DownClosedStepMissing(db, n, end, interval);
        DownClosedIgnoresTop(db, n, db1[n], end, interval);
      }
    }
  }

  /** The window of `updateStats`: from the aligned latest block down over the range, not below block 1. */
  lemma {:induction false} CompletedUpdate(db: Records, time: int -> int, latest: int, range: nat,
      interval: int, rescan: bool)
    requires interval > 0
    ensures var top := Aligned(latest, interval);
            var end := Max(0, top - Span(range, interval));
            Full(Update(db, time, latest, range, interval, rescan, {}), top, end, interval) <==>
            rescan || DownClosed(db, top, end, interval)
  {
    var top := Aligned(latest, interval);
    var end := Max(0, top - Span(range, interval));
    if top > end {
      CompletedWalk(db, time, top - interval, end, interval, rescan);
    } else {
      DownClosedBelow(top - interval, db, end, interval);
    }
  }

  /** The number just above the window of a walk: its first block, or the one it came from. */
  function TopOf(n: int, next: Next): int {
    match next
    case NoNext => n
    case Next(m) => m
  }

  /** The effect of a walk at any of its stages. */
  lemma {:induction false} WalkMeaning(db: Records, time: int -> int, n: int, next: Next, end: int, interval: int,
      rescan: bool, lost: set<int>)
    requires interval > 0 && (next.Next? ==> next.number == n + interval) && end >= 0
    ensures var r := Walk(db, time, n, next, end, interval, rescan, lost);
            && Extends(db, r, time, TopOf(n, next), end, interval)
            && (lost == {} ==>
                (Full(r, TopOf(n, next), end, interval) <==> rescan || DownClosed(db, TopOf(n, next), end, interval)))
  {
    hide InWindow, BlockTime, Full, DownClosed;
    match next
    case Next(_) =>
      WalkExtends(db, time, n, end, interval, rescan, lost);
      CompletedWalk(db, time, n, end, interval, rescan);
    case NoNext =>
      if n <= end {
        DownClosedBelow(n - interval, db, end, interval);
        FullStep(db, n - interval, end, interval);
      } else if n !in lost {
        WalkExtends(db, time, n - interval, end, interval, rescan, lost);
        CompletedWalk(db, time, n - interval, end, interval, rescan);
      }
  }

  // ---------- sequences of runs ----------

  /** The records after completed non-rescan runs at the given chain heights. */
  ghost function Runs(db: Records, time: int -> int, heights: seq<nat>, range: nat, interval: int): Records
    requires interval > 0
  {
    if heights == [] then db
    else
      var before := Runs(db, time, heights[..|heights| - 1], range, interval);
      Update(before, time, heights[|heights| - 1], range, interval, false, {})
  }

  ghost predicate Growing(heights: seq<nat>) {
    forall i, j :: 0 <= i <= j < |heights| ==> heights[i] <= heights[j]
  }

  lemma {:induction false} AlignedIsMonotone(a: nat, b: nat, interval: int)
    requires a <= b && (interval == 1 || interval >= 10)
    ensures Aligned(a, interval) % interval == 0 && Aligned(b, interval) % interval == 0
    ensures Aligned(a, interval) <= Aligned(b, interval)
  {
    if interval >= 10 {
      Multiple(a, interval);
      Multiple(b, interval);
      assert a % interval < interval && b % interval < interval;
      FloorIsMonotone(a / interval, b / interval, a, b, interval);
    }
  }

  /** Rounding down to a multiple. */
  lemma {:induction false} Multiple(a: nat, m: int)
    requires m > 0
    ensures a - a % m == (a / m) * m && (a - a % m) % m == 0
  {
    UniqueDivision((a / m) * m, m, a / m, 0);
  }

  lemma {:induction false} FloorIsMonotone(q: int, p: int, a: int, b: int, m: int)
    requires m > 0 && a <= b && q * m <= a && b < p * m + m
    ensures q * m <= p * m
  {
    assert (p + 1) * m == p * m + m;
    if p < q {
      TimesIsMonotone(p + 1, q, m);
    } else {
      TimesIsMonotone(q, p, m);
    }
  }

  lemma {:induction false} TimesIsMonotone(x: int, y: int, m: int)
    requires x <= y && m > 0
    ensures x * m <= y * m
    decreases y - x
  {
    if x < y {
      TimesIsMonotone(x + 1, y, m);
      assert (x + 1) * m == x * m + m;
    }
  }

  lemma {:induction false} SameResidue(top: int, n: int, interval: int)
    requires interval > 0 && top % interval == 0
    ensures (top - n) % interval == 0 <==> n % interval == 0
  {
    var q := top / interval;
    if n % interval == 0 {
      UniqueDivision(top - n, interval, q - n / interval, 0);
    }
    if (top - n) % interval == 0 {
      UniqueDivision(n, interval, q - (top - n) / interval, 0);
    }
  }

  /** Records at multiples of the interval below `top`, complete down to `end`, all with the right block time. */
  ghost predicate Complete(db: Records, time: int -> int, top: int, end: int, interval: int)
    requires interval > 0
  {
    && (forall n :: n in db ==> n < top && n % interval == 0 && db[n] == BlockTime(time, n, n + interval))
    && (forall n :: end < n < top && n % interval == 0 ==> n in db)
  }

  /** A complete collection stays complete under a later run, although that run stops at the first known block. */
  lemma {:induction false} RunKeepsComplete(db: Records, time: int -> int, a: nat, b: nat, range: nat, interval: int)
    requires (interval == 1 || interval >= 10) && a <= b
    requires var top := Aligned(a, interval); Complete(db, time, top, Max(0, top - Span(range, interval)), interval)
    ensures var top := Aligned(b, interval);
            Complete(Update(db, time, b, range, interval, false, {}), time, top, Max(0, top - Span(range, interval)),
                     interval)
  {
    var low, top := Aligned(a, interval), Aligned(b, interval);
    var end := Max(0, top - Span(range, interval));
    AlignedIsMonotone(a, b, interval);
    forall n ensures InWindow(n, top, end, interval) <==> end < n < top && n % interval == 0 {
      SameResidue(top, n, interval);
    }
    assert DownClosed(db, top, end, interval);
    CompletedUpdate(db, time, b, range, interval, false);
    UpdateExtends(db, time, b, range, interval, false, {});
  }

  /** After any completed non-rescan runs at growing heights, starting from an empty collection, every multiple of
      the interval strictly between the start of the range and the aligned latest block has its record. */
  lemma {:induction false} IncrementalRunsLoseNothing(time: int -> int, heights: seq<nat>, range: nat, interval: int)
    requires (interval == 1 || interval >= 10) && heights != [] && Growing(heights)
    ensures var top := Aligned(heights[|heights| - 1], interval);
            Complete(Runs(map[], time, heights, range, interval), time, top, Max(0, top - Span(range, interval)),
                     interval)
    decreases |heights|
  {
    var front, last := heights[..|heights| - 1], heights[|heights| - 1];
    if front == [] {
      assert Runs(map[], time, front, range, interval) == map[];
      RunKeepsComplete(map[], time, 0, last, range, interval);
    } else {
      IncrementalRunsLoseNothing(time, front, range, interval);
      RunKeepsComplete(Runs(map[], time, front, range, interval), time, front[|front| - 1], last, range, interval);
    }
  }

  // ---------- what the numbers mean ----------

  /** The block time times the distance is the time that passed. */
  lemma BlockTimeMeaning(time: int -> int, n: int, next: int)
    requires next > n
    ensures BlockTime(time, n, next) * (next - n) as real == (time(next) - time(n)) as real
  {
    var x, d := (time(next) - time(n)) as real, (next - n) as real;
    assert d != 0.0;
    assert x / d * d == x;
  }

  ghost function Share(db: Records, n: int, interval: int): real {
    if n in db then db[n] * interval as real else 0.0
  }

  /** The block times recorded for the `k` numbers below `n`, each counted for a whole interval. */
  ghost function RecordedTime(db: Records, n: int, interval: int, k: nat): real
    decreases k
  {
    if k == 0 then 0.0
    else
      Share(db, n - interval, interval) + RecordedTime(db, n - interval, interval, k - 1)
  }

  lemma FirstRecord(db: Records, time: int -> int, top: int, end: int, interval: int, n: int)
    requires interval > 0 && n % interval == 0 && n <= top && n - interval > end
    requires Complete(db, time, top, end, interval)
    ensures var m := n - interval;
            m % interval == 0 && m in db && Share(db, m, interval) == (time(n) - time(m)) as real
  {
    UniqueDivision(n - interval, interval, n / interval - 1, 0);
    BlockTimeMeaning(time, n - interval, n);
    hide BlockTime;
  }

  /** The number `k` intervals below `n`. */
  ghost function Below(n: int, interval: int, k: nat): int
    decreases k
  {
    if k == 0 then n else Below(n - interval, interval, k - 1)
  }

  lemma {:induction false} BelowMeaning(n: int, interval: int, k: nat)
    requires interval > 0
    ensures Below(n, interval, k) == n - k * interval <= n
    decreases k
  {
    if k > 0 {
      BelowMeaning(n - interval, interval, k - 1);
      assert k * interval == (k - 1) * interval + interval;
    }
  }

  lemma {:induction false} RecordsFrom(db: Records, time: int -> int, top: int, end: int, interval: int, n: int, k: nat)
    requires interval > 0 && n % interval == 0 && n <= top && (k > 0 ==> Below(n, interval, k) > end)
    requires Complete(db, time, top, end, interval)
    ensures RecordedTime(db, n, interval, k) == (time(n) - time(Below(n, interval, k))) as real
    decreases k
  {
    if k > 0 {
      var m := n - interval;
      BelowMeaning(m, interval, k - 1);
      FirstRecord(db, time, top, end, interval, n);
      assert m > end;
      assert RecordedTime(db, n, interval, k) == Share(db, m, interval) + RecordedTime(db, m, interval, k - 1);
      assert Below(n, interval, k) == Below(m, interval, k - 1);
      hide RecordedTime, Complete, Below, Share;
      RecordsFrom(db, time, top, end, interval, m, k - 1);
    }
  }

  /** The records of a complete collection add up: from any recorded multiple `n` over `k` intervals down they give
      exactly the time that passed on the chain. */
  lemma RecordsAddUp(db: Records, time: int -> int, top: int, end: int, interval: int, n: int, k: nat)
    requires interval > 0 && n % interval == 0 && n <= top && (k > 0 ==> n - k * interval > end)
    requires Complete(db, time, top, end, interval)
    ensures RecordedTime(db, n, interval, k) == (time(n) - time(n - k * interval)) as real
  {
    BelowMeaning(n, interval, k);
    hide RecordedTime, Complete, Below;
    RecordsFrom(db, time, top, end, interval, n, k);
  }

  /** The block a run starts at: for intervals of 10 or more the largest multiple not above the latest block. */
  lemma AlignedMeaning(latest: nat, interval: int)
    requires interval > 0
    ensures var top := Aligned(latest, interval);
            if interval >= 10 then top % interval == 0 && top <= latest < top + interval else top == latest
  {
    if interval >= 10 { Multiple(latest, interval); }
  }

  /** A completed rescan records, of the `range` blocks (1000 by default) that are whole intervals below the start, all
      but the last one and those at or below block 0. */
  lemma {:induction false} RescanRecords(db: Records, time: int -> int, latest: nat, range: nat, interval: int, k: nat)
    requires interval > 0 && k >= 1
    ensures var top := Aligned(latest, interval);
            var n := top - k * interval;
            var after := Update(db, time, latest, range, interval, true, {});
            && (n > 0 && k < (if range == 0 then 1000 else range) ==> n in after)
            && (n !in db && n in after ==> n > 0 && k < if range == 0 then 1000 else range)
            && (n !in db && n in after ==>
                after[n] * interval as real == (time(n + interval) - time(n)) as real)
  {
    var top := Aligned(latest, interval);
    var n, blocks := top - k * interval, if range == 0 then 1000 else range;
    var end := Max(0, top - Span(range, interval));
    CompletedUpdate(db, time, latest, range, interval, true);
    UpdateExtends(db, time, latest, range, interval, true, {});
    StepsInWindow(top, blocks, interval, k);
    UniqueDivision(top - n, interval, k, 0);
    assert InWindow(n, top, end, interval) <==> n > 0 && k < blocks;
    BlockTimeMeaning(time, n, n + interval);
    hide Update, BlockTime, InWindow, Aligned;
  }

  lemma StepsInWindow(top: int, blocks: nat, interval: int, k: nat)
    requires interval > 0 && k >= 1
    ensures top - k * interval < top
    ensures top - k * interval > top - blocks * interval <==> k < blocks
  {
    TimesIsMonotone(1, k, interval);
    if k < blocks {
      TimesIsMonotone(k + 1, blocks, interval);
      assert (k + 1) * interval == k * interval + interval;
    } else {
      TimesIsMonotone(blocks, k, interval);
    }
  }

  // ---------- holes ----------

  /** A walk that reaches a recorded block writes nothing at or below it. */
  lemma {:induction false} WalkStopsAtKnown(db: Records, time: int -> int, n: int, end: int, interval: int,
      lost: set<int>, known: int, below: int)
    requires interval > 0 && end >= 0 && known in db && below < known <= n && (n - known) % interval == 0
    ensures below in Walk(db, time, n, Next(n + interval), end, interval, false, lost) <==> below in db
    decreases if n < end then 0 else n - end
  {
    if n > end && n !in lost && n !in db {
      assert n != known;
      Residues(n, known, interval);
      var db1 := db[n := BlockTime(time, n, n + interval)];
      WalkStopsAtKnown(db1, time, n - interval, end, interval, lost, known, below);
    }
  }

  /** A number missing below a recorded one is never filled by non-rescan runs ... */
  lemma {:induction false} HolesArePermanent(db: Records, time: int -> int, heights: seq<nat>, range: nat,
      interval: int, known: nat, hole: int)
    requires interval == 1 || interval >= 10
    requires known in db && known % interval == 0 && hole < known && hole !in db
    requires forall i :: 0 <= i < |heights| ==> Aligned(heights[i], interval) > known
    ensures hole !in Runs(db, time, heights, range, interval) && known in Runs(db, time, heights, range, interval)
    decreases |heights|
  {
    if heights != [] {
      var front, last := heights[..|heights| - 1], heights[|heights| - 1];
      HolesArePermanent(db, time, front, range, interval, known, hole);
      var before := Runs(db, time, front, range, interval);
      var top := Aligned(last, interval);
      var end := Max(0, top - Span(range, interval));
      AlignedIsMonotone(last, last, interval);
      SameResidue(top, known, interval);
      Residues(top, known, interval);
      UpdateExtends(before, time, last, range, interval, false, {});
      if top > end {
        WalkStopsAtKnown(before, time, top - interval, end, interval, {}, known, hole);
      }
    }
  }

  /** ... and an interrupted run leaves such a hole: with interval 100, a fetch failing at block 800 lets the next
      run stop at 900, so 800 stays unrecorded inside the range. */
  lemma {:induction false} InterruptedRunLeavesHole(time: int -> int)
    ensures var first := Update(map[], time, 1000, 10, 100, false, {800});
            var second := Update(first, time, 1100, 10, 100, false, {});
            900 in second && 800 !in second && InWindow(800, 1100, Max(0, 1100 - Span(10, 100)), 100)
  {
    var empty: Records := map[];
    var t := BlockTime(time, 900, 1000);
    var one: Records := map[900 := t];
    assert empty[900 := t] == one;
    calc {
      Update(empty, time, 1000, 10, 100, false, {800});
      Walk(empty, time, 1000, NoNext, 0, 100, false, {800});
      Walk(empty, time, 900, Next(1000), 0, 100, false, {800});
      Walk(one, time, 800, Next(900), 0, 100, false, {800});
      one;
    }
    var two := one[1000 := BlockTime(time, 1000, 1100)];
    calc {
      Update(one, time, 1100, 10, 100, false, {});
      Walk(one, time, 1100, NoNext, 100, 100, false, {});
      Walk(one, time, 1000, Next(1100), 100, 100, false, {});
      Walk(two, time, 900, Next(1000), 100, 100, false, {});
      two;
    }
  }

  // ---------- interval selection ----------

  function Pow10(j: nat): (r: int)
    ensures r >= 1
  {
    if j == 0 then 1 else 10 * Pow10(j - 1)
  }

  function Log10(n: nat): nat {
    if n < 10 then 0 else 1 + Log10(n / 10)
  }

  /** `RESCAN=interval:range`: the digit-dropping loop selects a power of ten. */
  method SelectInterval(requested: nat) returns (interval: int)
    ensures interval == Pow10(Log10(requested))
    ensures interval == 1 || interval >= 10
  {
    var i, j := requested, 0;
    while i >= 10
      invariant i >= 0 && j >= 0 && j + Log10(i) == Log10(requested)
    {
      i := i / 10;
      j := j + 1;
    }
    assert j > 0 ==> Pow10(j) == 10 * Pow10(j - 1);
    interval := Pow10(j);
  }

  /** The selected interval is the largest power of ten not above the requested one. */
  lemma {:induction false} Log10Meaning(n: nat)
    requires n >= 1
    ensures Pow10(Log10(n)) <= n < Pow10(Log10(n) + 1)
  {
    if n >= 10 {
      Log10Meaning(n / 10);
      assert Pow10(Log10(n)) == 10 * Pow10(Log10(n / 10));
      assert Pow10(Log10(n) + 1) == 10 * Pow10(Log10(n / 10) + 1);
    }
  }
}
