/** The missing-block bisection `blockIter` of `explorer-gmc-master/tools/patcher.js`.

    The block collection is the set of stored block numbers. */
module Patcher {

  // ---------- ranges and counts ----------

  function StoredIn(first: int, last: int, stored: set<int>): set<int> {
    set n | first <= n <= last && n in stored
  }

  function MissingIn(first: int, last: int, stored: set<int>): set<int> {
    set n | first <= n <= last && n !in stored
  }

  ghost predicate Empty(first: int, last: int, stored: set<int>) {
    forall n :: first <= n <= last ==> n !in stored
  }

  function Mid(first: int, last: int): int
    requires first <= last
  {
    first + (last - first) / 2
  }

  function Size(first: int, last: int): nat {
    if last < first then 0 else last - first + 1
  }

  ghost function Interval(first: int, last: int): (r: set<int>)
    ensures forall n :: n in r <==> first <= n <= last
    ensures |r| == Size(first, last)
    decreases Size(first, last)
  {
    if last < first then {} else Interval(first, last - 1) + {last}
  }

  lemma EmptyAndFull(first: int, last: int, stored: set<int>)
    ensures StoredIn(first, last, stored) == {} <==> Empty(first, last, stored)
    ensures MissingIn(first, last, stored) == {} <==> forall n :: first <= n <= last ==> n in stored
  {
    assert forall n :: n in StoredIn(first, last, stored) <==> first <= n <= last && n in stored;
    assert forall n :: n in MissingIn(first, last, stored) <==> first <= n <= last && n !in stored;
  }

  /** The two database counts a scan compares: stored blocks and expected blocks. */
  lemma CountsAddUp(first: int, last: int, stored: set<int>)
    ensures |StoredIn(first, last, stored)| + |MissingIn(first, last, stored)| == Size(first, last)
    ensures |StoredIn(first, last, stored)| == 0 <==> Empty(first, last, stored)
    ensures |MissingIn(first, last, stored)| == 0 <==> forall n :: first <= n <= last ==> n in stored
  {
    var s, m := StoredIn(first, last, stored), MissingIn(first, last, stored);
    assert |s| + |m| == Size(first, last) by {
      assert Interval(first, last) == s + m;
    }
    EmptyAndFull(first, last, stored);
  }

  // ---------- blockIter ----------

  function IfMissing(n: int, stored: set<int>): seq<int> {
    if n in stored then [] else [n]
  }

  /** The block numbers `blockIter` asks for, in call order, over a fixed collection. */
  function Requests(first: int, last: int, stored: set<int>): seq<int>
    decreases Size(first, last)
  {
    if last < first then []
    else if last - first == 1 then IfMissing(last, stored) + IfMissing(first, stored)
    else if last == first then IfMissing(first, stored)
    else
      var c := |StoredIn(first, last, stored)|;
      if c == 0 then []
      else if last - first + 1 > c then
        Requests(first, Mid(first, last), stored) + Requests(Mid(first, last) + 1, last, stored)
      else []
  }

  /** How often `blockIter` is entered. */
  function Calls(first: int, last: int, stored: set<int>): nat
    decreases Size(first, last)
  {
    if last - first < 2 then 1
    else
      var c := |StoredIn(first, last, stored)|;
      if c == 0 || last - first + 1 <= c then 1
      else 1 + Calls(first, Mid(first, last), stored) + Calls(Mid(first, last) + 1, last, stored)
  }

  /** `a..b` is one of the ranges obtained from `first..last` by repeated halving. */
  ghost predicate BisectionRange(first: int, last: int, a: int, b: int)
    decreases Size(first, last)
  {
    || (a == first && b == last)
    || (last - first >= 2 &&
        (BisectionRange(first, Mid(first, last), a, b) || BisectionRange(Mid(first, last) + 1, last, a, b)))
  }

  lemma {:induction false} RangeIsInside(first: int, last: int, a: int, b: int)
    requires first <= last && BisectionRange(first, last, a, b)
    ensures first <= a <= b <= last
    decreases Size(first, last)
  {
    if !(a == first && b == last) {
      if BisectionRange(first, Mid(first, last), a, b) {
        RangeIsInside(first, Mid(first, last), a, b);
      } else {
        RangeIsInside(Mid(first, last) + 1, last, a, b);
      }
    }
  }

  /** A halving range of three or more numbers without a single stored block. */
  ghost predicate Hole(first: int, last: int, a: int, b: int, stored: set<int>) {
    BisectionRange(first, last, a, b) && b - a >= 2 && Empty(a, b, stored)
  }

  ghost predicate InHole(first: int, last: int, n: int, stored: set<int>) {
    exists a, b :: Hole(first, last, a, b, stored) && a <= n <= b
  }

  lemma HoleSplits(first: int, last: int, n: int, stored: set<int>)
    requires last - first >= 2 && first <= n <= last && !Empty(first, last, stored)
    ensures var m := Mid(first, last);
            InHole(first, last, n, stored) <==>
            if n <= m then InHole(first, m, n, stored) else InHole(m + 1, last, n, stored)
  {
    var m := Mid(first, last);
    if InHole(first, last, n, stored) {
      var a, b :| Hole(first, last, a, b, stored) && a <= n <= b;
      if BisectionRange(first, m, a, b) {
        RangeIsInside(first, m, a, b);
        assert Hole(first, m, a, b, stored);
      } else {
        RangeIsInside(m + 1, last, a, b);
        assert Hole(m + 1, last, a, b, stored);
      }
    }
    if n <= m && InHole(first, m, n, stored) {
      var a, b :| Hole(first, m, a, b, stored) && a <= n <= b;
      assert Hole(first, last, a, b, stored);
    }
    if n > m && InHole(m + 1, last, n, stored) {
      var a, b :| Hole(m + 1, last, a, b, stored) && a <= n <= b;
      assert Hole(first, last, a, b, stored);
    }
  }

  lemma SmallRangesHaveNoHole(first: int, last: int, n: int, stored: set<int>)
    requires first <= last < first + 2
    ensures !InHole(first, last, n, stored)
  {
  }

  lemma {:induction false} RequestsStayInside(first: int, last: int, stored: set<int>)
    ensures forall n :: n in Requests(first, last, stored) ==> first <= n <= last
    decreases Size(first, last)
  {
    if last - first >= 2 {
      RequestsStayInside(first, Mid(first, last), stored);
      RequestsStayInside(Mid(first, last) + 1, last, stored);
    }
  }

  lemma FullOrEmptyRange(first: int, last: int, n: int, stored: set<int>)
    requires last - first >= 2 && first <= n <= last
    ensures Empty(first, last, stored) ==> InHole(first, last, n, stored)
    ensures |StoredIn(first, last, stored)| == 0 <==> Empty(first, last, stored)
    ensures |StoredIn(first, last, stored)| >= last - first + 1 ==> n in stored
  {
    CountsAddUp(first, last, stored);
    if Empty(first, last, stored) {
      assert Hole(first, last, first, last, stored);
    }
  }

  /** A scan of three or more either stops at a hole or passes each number on to its half. */
  lemma RequestsOnHalves(first: int, last: int, n: int, stored: set<int>)
    requires last - first >= 2 && first <= n <= last
    ensures Empty(first, last, stored) ==>
              n !in Requests(first, last, stored) && InHole(first, last, n, stored)
    ensures !Empty(first, last, stored) && n !in stored ==>
              (n in Requests(first, last, stored) <==>
               if n <= Mid(first, last) then n in Requests(first, Mid(first, last), stored)
               else n in Requests(Mid(first, last) + 1, last, stored))
  {
    FullOrEmptyRange(first, last, n, stored);
    RequestsStayInside(first, Mid(first, last), stored);
    RequestsStayInside(Mid(first, last) + 1, last, stored);
  }

  lemma {:induction false} StoredIsNotRequested(first: int, last: int, n: int, stored: set<int>)
    requires n in stored
    ensures n !in Requests(first, last, stored)
    decreases Size(first, last)
  {
    if last - first >= 2 {
      StoredIsNotRequested(first, Mid(first, last), n, stored);
      StoredIsNotRequested(Mid(first, last) + 1, last, n, stored);
    }
  }

  /** Exactness: a number is requested exactly when it is missing and outside every hole. */
  lemma {:induction false} RequestsAreExact(first: int, last: int, n: int, stored: set<int>)
    ensures n in Requests(first, last, stored) <==>
            first <= n <= last && n !in stored && !InHole(first, last, n, stored)
    decreases Size(first, last)
  {
    hide Requests, InHole, Empty;
    if n in stored {
      StoredIsNotRequested(first, last, n, stored);
    } else if !(first <= n <= last) {
      RequestsStayInside(first, last, stored);
    } else if last - first < 2 {
      SmallRequests(first, last, n, stored);
      SmallRangesHaveNoHole(first, last, n, stored);
    } else {
      var m := Mid(first, last);
      RequestsOnHalves(first, last, n, stored);
      if !Empty(first, last, stored) {
        HoleSplits(first, last, n, stored);
        if n <= m {
          RequestsAreExact(first, m, n, stored);
        } else {
          RequestsAreExact(m + 1, last, n, stored);
        }
      }
    }
  }

  lemma SmallRequests(first: int, last: int, n: int, stored: set<int>)
    requires first <= n <= last < first + 2
    ensures n in Requests(first, last, stored) <==> n !in stored
  {
  }

  ghost predicate NoRepeats(s: seq<int>) {
    forall i, j :: 0 <= i < j < |s| ==> s[i] != s[j]
  }

  /** No number is requested twice. */
  lemma {:induction false} RequestsDoNotRepeat(first: int, last: int, stored: set<int>)
    ensures NoRepeats(Requests(first, last, stored))
    decreases Size(first, last)
  {
    if last - first >= 2 {
      var m := Mid(first, last);
      RequestsDoNotRepeat(first, m, stored);
      RequestsDoNotRepeat(m + 1, last, stored);
      RequestsStayInside(first, m, stored);
      RequestsStayInside(m + 1, last, stored);
      var l, r := Requests(first, m, stored), Requests(m + 1, last, stored);
      assert forall i :: 0 <= i < |l| ==> l[i] in l;
      assert forall i :: 0 <= i < |r| ==> r[i] in r;
    }
  }

  /** The scan finds every missing block if and only if no halving range of three or more is empty. */
  lemma FindsAllIffNoHole(first: int, last: int, stored: set<int>)
    requires first <= last
    ensures (forall n :: first <= n <= last && n !in stored ==> n in Requests(first, last, stored)) <==>
            !exists a, b :: Hole(first, last, a, b, stored)
  {
    forall n | first <= n <= last && n !in stored
      ensures n in Requests(first, last, stored) <==> !InHole(first, last, n, stored)
    {
      RequestsAreExact(first, last, n, stored);
    }
    if a, b :| Hole(first, last, a, b, stored) {
      RangeIsInside(first, last, a, b);
      assert a !in stored && InHole(first, last, a, stored);
    }
  }

  /** In particular it finds all of them when no three consecutive numbers are missing. */
  lemma FindsScatteredGaps(first: int, last: int, stored: set<int>, n: int)
    requires forall k :: first <= k <= last - 2 ==> k in stored || k + 1 in stored || k + 2 in stored
    requires first <= n <= last && n !in stored
    ensures n in Requests(first, last, stored)
  {
    RequestsAreExact(first, last, n, stored);
    forall a, b | BisectionRange(first, last, a, b) && b - a >= 2 ensures !Empty(a, b, stored) {
      RangeIsInside(first, last, a, b);
      assert a in stored || a + 1 in stored || a + 2 in stored;
    }
  }

  /** A second run over the same range after all requested blocks were written asks for nothing. */
  lemma SecondRunIsIdle(first: int, last: int, stored: set<int>)
    ensures var later := stored + set n | n in Requests(first, last, stored);
            Requests(first, last, later) == []
  {
    var r := Requests(first, last, stored);
    var later := stored + set n | n in r;
    var again := Requests(first, last, later);
    assert again != [] ==> again[0] in again;
    forall n ensures n !in again {
      RequestsAreExact(first, last, n, later);
      RequestsAreExact(first, last, n, stored);
      if first <= n <= last && n !in later {
        var a, b :| Hole(first, last, a, b, stored) && a <= n <= b;
        HoleStaysEmpty(first, last, a, b, stored);
        assert Hole(first, last, a, b, later);
      }
    }
  }

  /** What a hole holds is missing, is not requested, and is still missing and not requested by a rerun over the same
      range after the writes of the run. */
  lemma HolesSurviveARerun(first: int, last: int, n: int, stored: set<int>)
    requires first <= n <= last && InHole(first, last, n, stored)
    ensures var later := stored + set m | m in Requests(first, last, stored);
            && n !in stored && n !in Requests(first, last, stored)
            && n !in later && n !in Requests(first, last, later) && InHole(first, last, n, later)
  {
    var later := stored + set m | m in Requests(first, last, stored);
    var a, b :| Hole(first, last, a, b, stored) && a <= n <= b;
    HoleStaysEmpty(first, last, a, b, stored);
    assert Hole(first, last, a, b, later);
    RequestsAreExact(first, last, n, stored);
    RequestsAreExact(first, last, n, later);
  }

  /** A concrete hole: with only block 0 of six stored, blocks 3 to 5 are skipped although they are missing. */
  lemma ConcreteHole(n: int)
    requires 3 <= n <= 5
    ensures n !in Requests(0, 5, {0}) && InHole(0, 5, n, {0}) && 1 in Requests(0, 5, {0})
  {
    assert BisectionRange(3, 5, 3, 5);
    assert Mid(0, 5) == 2;
    assert Hole(0, 5, 3, 5, {0});
    RequestsAreExact(0, 5, n, {0});
    forall a, b | BisectionRange(0, 5, a, b) && b - a >= 2 && a <= 1 <= b ensures !Empty(a, b, {0}) {
      assert BisectionRange(0, 2, a, b) || (a == 0 && b == 5) by {
        if BisectionRange(3, 5, a, b) { RangeIsInside(3, 5, a, b); }
      }
      if BisectionRange(0, 2, a, b) {
        assert a == 0;
      }
      assert 0 in {0};
    }
    RequestsAreExact(0, 5, 1, {0});
  }

  lemma HoleStaysEmpty(first: int, last: int, a: int, b: int, stored: set<int>)
    requires first <= last && Hole(first, last, a, b, stored)
    ensures Empty(a, b, stored + set n | n in Requests(first, last, stored))
  {
    forall n | a <= n <= b ensures n !in Requests(first, last, stored) {
      RequestsAreExact(first, last, n, stored);
    }
  }

  // ---------- cost ----------

  /** Halving depth of a range of `n` numbers. */
  function Depth(n: nat): nat {
    if n <= 2 then 0 else 1 + Depth((n + 1) / 2)
  }

  lemma {:induction false} DepthIsMonotone(m: nat, n: nat)
    requires m <= n
    ensures Depth(m) <= Depth(n)
    decreases n
  {
    if m > 2 {
      DepthIsMonotone((m + 1) / 2, (n + 1) / 2);
    }
  }

  lemma HalvesAreShallower(first: int, last: int)
    requires last - first >= 2
    ensures var n, m := Size(first, last), Mid(first, last);
            && Depth(n) == Depth((n + 1) / 2) + 1
            && Depth(Size(first, m)) <= Depth((n + 1) / 2)
            && Depth(Size(m + 1, last)) <= Depth((n + 1) / 2)
  {
    var n, m := Size(first, last), Mid(first, last);
    DepthIsMonotone(Size(first, m), (n + 1) / 2);
    DepthIsMonotone(Size(m + 1, last), (n + 1) / 2);
  }

  lemma MissingSplits(first: int, last: int, m: int, stored: set<int>)
    requires first <= m <= last
    ensures |MissingIn(first, last, stored)| == |MissingIn(first, m, stored)| + |MissingIn(m + 1, last, stored)|
  {
    assert MissingIn(first, last, stored) == MissingIn(first, m, stored) + MissingIn(m + 1, last, stored);
    assert MissingIn(first, m, stored) !! MissingIn(m + 1, last, stored);
  }

  /** The ranges for which `blockIter` is entered, in call order. */
  ghost function Entered(first: int, last: int, stored: set<int>): seq<(int, int)>
    decreases Size(first, last)
  {
    [(first, last)] +
    if last - first < 2 || Empty(first, last, stored) || MissingIn(first, last, stored) == {} then []
    else Entered(first, Mid(first, last), stored) + Entered(Mid(first, last) + 1, last, stored)
  }

  lemma {:induction false} CallsAreEntries(first: int, last: int, stored: set<int>)
    ensures Calls(first, last, stored) == |Entered(first, last, stored)|
    decreases Size(first, last)
  {
    if last - first >= 2 {
      CountsAddUp(first, last, stored);
      EmptyAndFull(first, last, stored);
      hide StoredIn, MissingIn, Empty;
      CallsAreEntries(first, Mid(first, last), stored);
      CallsAreEntries(Mid(first, last) + 1, last, stored);
    }
  }

  /** Some but not all of the three or more numbers are stored. */
  ghost predicate Mixed(first: int, last: int, stored: set<int>) {
    last - first >= 2 && !Empty(first, last, stored) && exists n :: first <= n <= last && n !in stored
  }

  /** All halving ranges that properly contain `a..b` are mixed. */
  ghost predicate BelowMixed(first: int, last: int, a: int, b: int, stored: set<int>) {
    forall p, q :: BisectionRange(first, last, p, q) && p <= a && b <= q && (p != a || q != b) ==> Mixed(p, q, stored)
  }

  lemma MixedMeans(first: int, last: int, stored: set<int>)
    ensures Mixed(first, last, stored) <==>
            !(last - first < 2 || Empty(first, last, stored) || MissingIn(first, last, stored) == {})
  {
    EmptyAndFull(first, last, stored);
  }

  lemma BelowMixedSplits(first: int, last: int, low: int, high: int, a: int, b: int, stored: set<int>)
    requires Mixed(first, last, stored) && low <= a <= b <= high
    requires (low, high) == (first, Mid(first, last)) || (low, high) == (Mid(first, last) + 1, last)
    ensures BelowMixed(first, last, a, b, stored) <==> BelowMixed(low, high, a, b, stored)
  {
    var m, next := Mid(first, last), Mid(first, last) + 1;
    hide Mixed;
    forall p, q | BisectionRange(low, high, p, q) ensures BisectionRange(first, last, p, q) {
    }
    forall p, q | BisectionRange(first, last, p, q) && p <= a && b <= q
      ensures (p == first && q == last) || BisectionRange(low, high, p, q)
    {
      if BisectionRange(first, m, p, q) { RangeIsInside(first, m, p, q); }
      if BisectionRange(next, last, p, q) { RangeIsInside(next, last, p, q); }
    }
    hide BisectionRange;
  }

  lemma EnteredAtOnce(first: int, last: int, stored: set<int>)
    requires first <= last
    ensures (first, last) in Entered(first, last, stored) && BelowMixed(first, last, first, last, stored)
    ensures BisectionRange(first, last, first, last)
  {
    forall p, q | BisectionRange(first, last, p, q) ensures first <= p && q <= last {
      RangeIsInside(first, last, p, q);
    }
  }

  lemma EnteredBelow(first: int, last: int, a: int, b: int, stored: set<int>)
    requires first <= last && (a, b) != (first, last)
    ensures (a, b) in Entered(first, last, stored) <==>
            Mixed(first, last, stored) &&
            ((a, b) in Entered(first, Mid(first, last), stored) ||
             (a, b) in Entered(Mid(first, last) + 1, last, stored))
  {
    MixedMeans(first, last, stored);
    hide Mixed, Empty, MissingIn;
  }

  lemma EnteredHalf(first: int, last: int, low: int, high: int, a: int, b: int, stored: set<int>)
    requires first <= last && Mixed(first, last, stored) && BisectionRange(low, high, a, b)
    requires (low, high) == (first, Mid(first, last)) || (low, high) == (Mid(first, last) + 1, last)
    requires (a, b) in Entered(low, high, stored) <==>
             BisectionRange(low, high, a, b) && BelowMixed(low, high, a, b, stored)
    ensures low <= a <= b <= high
    ensures (a, b) in Entered(low, high, stored) <==> BelowMixed(first, last, a, b, stored)
  {
    assert low <= high;
    hide *;
    RangeIsInside(low, high, a, b);
    BelowMixedSplits(first, last, low, high, a, b, stored);
  }

  lemma BelowUnmixed(first: int, last: int, a: int, b: int, stored: set<int>)
    requires first <= last && !Mixed(first, last, stored) && (a, b) != (first, last)
    requires BisectionRange(first, last, a, b)
    ensures !BelowMixed(first, last, a, b, stored)
  {
    RangeIsInside(first, last, a, b);
    assert BisectionRange(first, last, first, last);
  }

  lemma MixedIsLarge(first: int, last: int, stored: set<int>)
    requires Mixed(first, last, stored)
    ensures last - first >= 2
  {
  }

  lemma HalvesApart(first: int, last: int, a: int, b: int)
    requires first < last - 1 && (a, b) != (first, last)
    ensures BisectionRange(first, last, a, b) <==>
            BisectionRange(first, Mid(first, last), a, b) || BisectionRange(Mid(first, last) + 1, last, a, b)
    ensures first <= Mid(first, last) < last
    ensures BisectionRange(first, Mid(first, last), a, b) ==> !BisectionRange(Mid(first, last) + 1, last, a, b)
  {
    var m := Mid(first, last);
    if BisectionRange(first, m, a, b) { RangeIsInside(first, m, a, b); }
    if BisectionRange(m + 1, last, a, b) { RangeIsInside(m + 1, last, a, b); }
  }

  /** The recursion enters exactly the halving ranges all of whose proper containing ranges are mixed. */
  lemma {:induction false} EnteredIff(first: int, last: int, a: int, b: int, stored: set<int>)
    requires first <= last
    ensures (a, b) in Entered(first, last, stored) <==>
            BisectionRange(first, last, a, b) && BelowMixed(first, last, a, b, stored)
    decreases last - first
  {
    hide *;
    if (a, b) == (first, last) {
      EnteredAtOnce(first, last, stored);
    } else if Mixed(first, last, stored) {
      MixedIsLarge(first, last, stored);
      var m := Mid(first, last);
      HalvesApart(first, last, a, b);
      EnteredBelow(first, last, a, b, stored);
      EnteredIff(first, m, a, b, stored);
      EnteredIff(m + 1, last, a, b, stored);
      if BisectionRange(first, m, a, b) {
        EnteredHalf(first, last, first, m, a, b, stored);
      } else if BisectionRange(m + 1, last, a, b) {
        EnteredHalf(first, last, m + 1, last, a, b, stored);
      }
    } else {
      EnteredBelow(first, last, a, b, stored);
      if BisectionRange(first, last, a, b) { BelowUnmixed(first, last, a, b, stored); }
    }
  }

  function Pow2(k: nat): nat { if k == 0 then 1 else 2 * Pow2(k - 1) }

  /** The depth is the binary logarithm, rounded up, less one. */
  lemma {:induction false} DepthMeaning(n: nat)
    requires n >= 2
    ensures Pow2(Depth(n)) < n <= 2 * Pow2(Depth(n))
  {
    if n > 2 { DepthMeaning((n + 1) / 2); }
  }

  function Budget(missing: nat, depth: nat): (r: nat)
    ensures r >= 1
  {
    1 + 2 * missing * depth
  }

  lemma BudgetSplits(m1: nat, m2: nat, d1: nat, d2: nat, d: nat)
    requires d1 <= d && d2 <= d && m1 + m2 >= 1
    ensures 1 + Budget(m1, d1) + Budget(m2, d2) <= Budget(m1 + m2, d + 1)
  {
    assert m1 * d1 <= m1 * d && m2 * d2 <= m2 * d;
    assert (m1 + m2) * (d + 1) == m1 * d + m2 * d + m1 + m2;
  }

  /** Cost: with `m` missing blocks there are at most `1 + 2 * m * depth` calls. */
  lemma {:induction false} BisectionIsCheap(first: int, last: int, stored: set<int>)
    ensures Calls(first, last, stored) <= 1 + 2 * |MissingIn(first, last, stored)| * Depth(Size(first, last))
  {
    CallsWithinBudget(first, last, stored);
  }

  lemma {:induction false} CallsWithinBudget(first: int, last: int, stored: set<int>)
    ensures Calls(first, last, stored) <= Budget(|MissingIn(first, last, stored)|, Depth(Size(first, last)))
    decreases Size(first, last)
  {
    hide Budget, Depth;
    if last - first >= 2 {
      CountsAddUp(first, last, stored);
      var n := Size(first, last);
      if 0 < |StoredIn(first, last, stored)| < n {
        var m := Mid(first, last);
        CallsWithinBudget(first, m, stored);
        CallsWithinBudget(m + 1, last, stored);
        MissingSplits(first, last, m, stored);
        HalvesAreShallower(first, last);
        BudgetSplits(|MissingIn(first, m, stored)|, |MissingIn(m + 1, last, stored)|,
                     Depth(Size(first, m)), Depth(Size(m + 1, last)), Depth((n + 1) / 2));
      }
    }
  }
}
