/** Repeated runs of `explorer-gmc-master/tools/patcher.js`. Every run scans from block 0 to one below the current
    height, so a longer chain is halved at other places and a hole of one run need not be a hole of the next. Between
    runs other tools may store blocks. */
module PatcherRuns {
  import opened Patcher

  datatype Event = Patch(last: int) | Arrive(numbers: set<int>)

  /** The collection after a completed run all of whose requests were delivered, or after another tool's writes. */
  function After(stored: set<int>, e: Event): set<int> {
    match e
    case Patch(last) => stored + set n | n in Requests(0, last, stored)
    case Arrive(numbers) => stored + numbers
  }

  function History(stored: set<int>, events: seq<Event>): set<int> {
    if events == [] then stored else After(History(stored, events[..|events| - 1]), events[|events| - 1])
  }

  /** The event leaves the number out: it is not among the arrivals, outside the range of the run, or in one of its
      holes. */
  ghost predicate Skips(stored: set<int>, e: Event, n: int) {
    match e
    case Patch(last) => !(0 <= n <= last) || InHole(0, last, n, stored)
    case Arrive(numbers) => n !in numbers
  }

  lemma StepSkips(stored: set<int>, e: Event, n: int)
    ensures n !in After(stored, e) <==> n !in stored && Skips(stored, e, n)
  {
    if e.Patch? {
      RequestsAreExact(0, e.last, n, stored);
      hide Requests, InHole;
    }
  }

  ghost predicate SkippedAt(stored: set<int>, events: seq<Event>, i: nat, n: int)
    requires i < |events|
  {
    Skips(History(stored, events[..i]), events[i], n)
  }

  /** Over every history a number is missing at the end exactly when it was missing at the start and every arrival and
      every run left it out. */
  lemma {:induction false} MissingIffAlwaysSkipped(stored: set<int>, events: seq<Event>, n: int)
    ensures n !in History(stored, events) <==>
            n !in stored && forall i :: 0 <= i < |events| ==> SkippedAt(stored, events, i, n)
  {
    if events != [] {
      var front, e := events[..|events| - 1], events[|events| - 1];
      MissingIffAlwaysSkipped(stored, front, n);
      assert History(stored, events) == After(History(stored, front), e);
      StepSkips(History(stored, front), e, n);
      hide History, After, Skips;
      assert SkippedAt(stored, events, |front|, n) <==> Skips(History(stored, front), e, n);
      forall i | 0 <= i < |front| ensures SkippedAt(stored, events, i, n) <==> SkippedAt(stored, front, i, n) {
        assert front[..i] == events[..i];
      }
    }
  }

  /** After a run the missing numbers of its range are exactly those in its holes, whatever happened before. */
  lemma MissingAfterRunIsHoles(stored: set<int>, last: int, n: int)
    requires 0 <= n <= last
    ensures n !in After(stored, Patch(last)) <==> InHole(0, last, n, After(stored, Patch(last)))
  {
    RequestsAreExact(0, last, n, stored);
    if n !in After(stored, Patch(last)) {
      HolesSurviveARerun(0, last, n, stored);
    }
  }

  /** A longer chain can fill a hole: the first run skips blocks 3 to 5, a run one block later requests block 3. */
  lemma GrowthFillsAHole()
    ensures History({0}, [Patch(5)]) == {0, 1, 2} && InHole(0, 5, 3, {0, 1, 2})
    ensures History({0}, [Patch(5), Patch(6)]) == {0, 1, 2, 3}
  {
    assert History({0}, []) == {0};
    hide *;
    AfterOne({0}, [], Patch(5));
    AfterOne({0}, [Patch(5)], Patch(6));
    AfterFive();
    AfterSix();
    assert [] + [Patch(5)] == [Patch(5)] && [Patch(5)] + [Patch(6)] == [Patch(5), Patch(6)];
    ThreeIsInAHole();
  }

  lemma AfterFive()
    ensures After({0}, Patch(5)) == {0, 1, 2}
  {
    ScanOfFive();
    hide Requests;
  }

  lemma AfterSix()
    ensures After({0, 1, 2}, Patch(6)) == {0, 1, 2, 3}
  {
    ScanOfSix();
    hide Requests;
  }

  lemma AfterOne(stored: set<int>, events: seq<Event>, e: Event)
    ensures History(stored, events + [e]) == After(History(stored, events), e)
  {
    hide After;
    assert (events + [e])[..|events|] == events;
  }

  lemma ThreeIsInAHole()
    ensures InHole(0, 5, 3, {0, 1, 2})
  {
    assert BisectionRange(3, 5, 3, 5) && Mid(0, 5) == 2;
    assert Hole(0, 5, 3, 5, {0, 1, 2});
  }

  lemma ScanOfFive()
    ensures Requests(0, 5, {0}) == [1, 2]
  {
    assert StoredIn(0, 5, {0}) == {0} && StoredIn(0, 2, {0}) == {0} && StoredIn(3, 5, {0}) == {};
    assert Requests(0, 1, {0}) == [1] && Requests(2, 2, {0}) == [2];
    assert Requests(0, 2, {0}) == [1, 2];
  }

  lemma ScanOfSix()
    ensures Requests(0, 6, {0, 1, 2}) == [3]
  {
    var s := {0, 1, 2};
    assert StoredIn(0, 6, s) == s && StoredIn(0, 3, s) == s && StoredIn(4, 6, s) == {};
    assert Requests(0, 1, s) == [] && Requests(2, 3, s) == [3];
    assert Requests(0, 3, s) == [3];
  }

  // ---------- every hole can be filled ----------

  /** Every halving range of three or more that holds `n` also holds `m`. */
  ghost predicate Attached(first: int, last: int, n: int, m: int) {
    forall a, b :: BisectionRange(first, last, a, b) && b - a >= 2 && a <= n <= b ==> a <= m <= b
  }

  lemma AttachedAtEnd(first: int, last: int)
    requires first < last
    ensures Attached(first, last, last, last - 1)
  {
    forall a, b | BisectionRange(first, last, a, b) && b - a >= 2 && a <= last <= b ensures a <= last - 1 <= b {
      RangeIsInside(first, last, a, b);
    }
  }

  function Doubled(size: nat, k: nat): nat {
    if k == 0 then size else 2 * Doubled(size, k - 1)
  }

  lemma {:induction false} DoubledIsLarge(size: nat, k: nat)
    requires size >= 1
    ensures Doubled(size, k) >= size && Doubled(size, k) > k
  {
    if k > 0 { DoubledIsLarge(size, k - 1); }
  }

  /** Doubling the chain puts the old range into the lower half, where it is halved as before. */
  lemma {:induction false} AttachedInDoubled(size: nat, k: nat, n: int, m: int)
    requires size >= 2 && 0 <= n < size && 0 <= m < size && Attached(0, size - 1, n, m)
    ensures Attached(0, Doubled(size, k) - 1, n, m)
  {
    if k > 0 {
      AttachedInDoubled(size, k - 1, n, m);
      DoubledIsLarge(size, k - 1);
      var half := Doubled(size, k - 1);
      var last := 2 * half - 1;
      assert Mid(0, last) == half - 1;
      forall a, b | BisectionRange(0, last, a, b) && b - a >= 2 && a <= n <= b ensures a <= m <= b {
        if !(a == 0 && b == last) && !BisectionRange(0, half - 1, a, b) {
          RangeIsInside(half, last, a, b);
        }
      }
    }
  }

  function SizeFor(n: nat): nat { if n < 2 then 3 else 2 * n }

  /** In a chain of twice `n` blocks the upper half starts at `n`. */
  lemma AttachedToSuccessor(n: nat)
    ensures Attached(0, SizeFor(n) - 1, n, n + 1)
  {
    var last := SizeFor(n) - 1;
    forall a, b | BisectionRange(0, last, a, b) && b - a >= 2 && a <= n <= b ensures a <= n + 1 <= b {
      RangeIsInside(0, last, a, b);
      if n >= 2 {
        assert Mid(0, last) == n - 1;
        if BisectionRange(0, n - 1, a, b) {
          RangeIsInside(0, n - 1, a, b);
        } else if BisectionRange(n, last, a, b) {
          RangeIsInside(n, last, a, b);
        }
      }
    }
  }

  /** A missing number next to a stored one is requested by runs at arbitrarily large heights. */
  lemma NeighbourIsRequested(stored: set<int>, n: nat, m: nat, bound: nat) returns (last: nat)
    requires n !in stored && m in stored && (m == n - 1 || m == n + 1)
    ensures last >= bound && n in Requests(0, last, stored)
  {
    var size := if m < n then n + 1 else SizeFor(n);
    if m < n {
      AttachedAtEnd(0, n);
    } else {
      AttachedToSuccessor(n);
    }
    AttachedInDoubled(size, bound + 1, n, m);
    DoubledIsLarge(size, bound + 1);
    last := Doubled(size, bound + 1) - 1;
    assert Attached(0, last, n, m);
    hide Doubled;
    RequestsAreExact(0, last, n, stored);
  }

  /** Runs only, at increasing heights, all of them at `bound` or above. */
  ghost predicate Growing(events: seq<Event>, bound: int) {
    && (forall i :: 0 <= i < |events| ==> events[i].Patch? && events[i].last >= bound)
    && (forall i, j :: 0 <= i < j < |events| ==> events[i].last < events[j].last)
  }

  ghost function Top(events: seq<Event>, bound: nat): (top: nat)
    requires events != [] && Growing(events, bound)
    ensures top >= bound
  {
    events[|events| - 1].last
  }

  lemma GrowBy(stored: set<int>, events: seq<Event>, last: nat, bound: nat)
    requires Growing(events, bound) && last >= if events == [] then bound else Top(events, bound) + 1
    ensures Growing(events + [Patch(last)], bound)
    ensures History(stored, events + [Patch(last)]) == After(History(stored, events), Patch(last))
  {
    var more := events + [Patch(last)];
    AfterOne(stored, events, Patch(last));
    hide After, History;
    if events != [] {
      assert forall i :: 0 <= i < |events| ==> more[i] == events[i];
      assert forall i :: 0 <= i < |events| - 1 ==> events[i].last < events[|events| - 1].last;
    }
  }

  /** Runs at suitable heights eat their way from a stored number to any other one. */
  lemma {:induction false} CanBeFilled(stored: set<int>, n: nat, from: nat, bound: nat) returns (events: seq<Event>)
    requires from in stored
    ensures Growing(events, bound) && n in History(stored, events)
    decreases if n < from then from - n else n - from
  {
    if n == from {
      events := [];
    } else {
      var m := if n < from then n + 1 else n - 1;
      events := CanBeFilled(stored, m, from, bound);
      var now := History(stored, events);
      hide Requests, Growing, History;
      if n !in now {
        var above := if events == [] then bound else Top(events, bound) + 1;
        var last := NeighbourIsRequested(now, n, m, above);
        GrowBy(stored, events, last, bound);
        assert n in After(now, Patch(last));
        events := events + [Patch(last)];
      }
    }
  }

  lemma {:induction false} NothingFromNothing(stored: set<int>, events: seq<Event>, bound: nat)
    requires bound >= 2 && Growing(events, bound) && forall s: nat :: s !in stored
    ensures History(stored, events) == stored
  {
    if events != [] {
      var front, last := events[..|events| - 1], events[|events| - 1].last;
      NothingFromNothing(stored, front, bound);
      CountsAddUp(0, last, stored);
      assert Requests(0, last, stored) == [];
    }
  }

  /** No hole is final and no run starts from nothing: however long the chain already is, further growth can make the
      runs request a given number if and only if some block is stored. */
  lemma FillableIffSomethingStored(stored: set<int>, n: nat, bound: nat)
    requires bound >= 2
    ensures (exists events :: Growing(events, bound) && n in History(stored, events)) <==> exists s: nat :: s in stored
  {
    if s: nat :| s in stored {
      var events := CanBeFilled(stored, n, s, bound);
      assert Growing(events, bound) && n in History(stored, events);
    } else {
      forall events | Growing(events, bound) ensures n !in History(stored, events) {
        NothingFromNothing(stored, events, bound);
      }
    }
  }
}
