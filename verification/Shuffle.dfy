/** The in-place shuffle of `core-master/js-api/license.js`.

    The random draws are an explicit sequence: `draws[k]` is the value of
    `Math.floor(Math.random() * i)` in the loop round `i == k + 1`, so it is legal exactly when
    it is at most `k`. */
module Shuffle {

  ghost predicate Legal(draws: seq<nat>) {
    forall k :: 0 <= k < |draws| ==> draws[k] <= k
  }

  ghost predicate Distinct<T(!new)>(s: seq<T>) {
    forall i, j :: 0 <= i < j < |s| ==> s[i] != s[j]
  }

  function Swap<T>(s: seq<T>, i: nat, j: nat): (r: seq<T>)
    requires i < |s| && j < |s|
    ensures |r| == |s|
  {
    s[i := s[j]][j := s[i]]
  }

  /** The rounds `i == n` down to `i == 1` of the countdown loop. */
  ghost function Rounds<T>(s: seq<T>, draws: seq<nat>, n: nat): (r: seq<T>)
    requires n <= |draws| && n <= |s| && Legal(draws)
    ensures |r| == |s|
    decreases n
  {
    if n == 0 then s else Rounds(Swap(s, n - 1, draws[n - 1]), draws, n - 1)
  }

  /** The order a whole shuffle leaves behind. */
  ghost function Outcome<T>(s: seq<T>, draws: seq<nat>): (r: seq<T>)
    requires |draws| == |s| && Legal(draws)
    ensures |r| == |s|
  {
    Rounds(s, draws, |s|)
  }

  method ShuffleInPlace<T>(a: array<T>, draws: seq<nat>)
    requires |draws| == a.Length && Legal(draws)
    modifies a
    ensures a[..] == Outcome(old(a[..]), draws)
  {
    var i := a.Length;
    while i != 0
      invariant 0 <= i <= a.Length
      invariant Rounds(a[..], draws, i) == Outcome(old(a[..]), draws)
    {
      ghost var before := a[..];
      var j := draws[i - 1];
      a[i - 1], a[j] := a[j], a[i - 1];
      assert a[..] == Swap(before, i - 1, j);
      i := i - 1;
    }
  }

  lemma {:induction false} RoundsKeepItems<T>(s: seq<T>, draws: seq<nat>, n: nat)
    requires n <= |draws| && n <= |s| && Legal(draws)
    ensures multiset(Rounds(s, draws, n)) == multiset(s)
    ensures Rounds(s, draws, n)[n..] == s[n..]
    decreases n
  {
    if n != 0 {
      var t := Swap(s, n - 1, draws[n - 1]);
      RoundsKeepItems(t, draws, n - 1);
      var r := Rounds(t, draws, n - 1);
      assert r[n..] == r[n - 1..][1..] && s[n..] == t[n - 1..][1..];
    }
  }

  /** Every legal sequence of draws yields a permutation of the input. */
  lemma OutcomeIsPermutation<T>(s: seq<T>, draws: seq<nat>)
    requires |draws| == |s| && Legal(draws)
    ensures multiset(Outcome(s, draws)) == multiset(s)
  {
    RoundsKeepItems(s, draws, |s|);
  }

  /** Rounds `n` down to 1 look only at the first `n` draws. */
  lemma {:induction false} RoundsIgnoreLaterDraws<T>(s: seq<T>, d: seq<nat>, j: nat, n: nat)
    requires n <= |d| && n <= |s| && Legal(d) && j <= |d|
    ensures Legal(d + [j]) && Rounds(s, d + [j], n) == Rounds(s, d, n)
    decreases n
  {
    if n != 0 {
      RoundsIgnoreLaterDraws(Swap(s, n - 1, d[n - 1]), d, j, n - 1);
    }
  }

  /** A cell below `n` holding what the target wants at `n - 1`. */
  lemma {:induction false} FindItem<T>(s: seq<T>, target: seq<T>, n: nat) returns (j: nat)
    requires 0 < n <= |s| == |target| && s[n..] == target[n..] && multiset(s) == multiset(target)
    ensures j < n && s[j] == target[n - 1]
  {
    assert s == s[..n] + s[n..] && target == target[..n] + target[n..];
    var x := target[n - 1];
    assert x == target[..n][n - 1];
    assert multiset(s)[x] == (multiset(s[..n]) + multiset(s[n..]))[x];
    assert multiset(target)[x] == (multiset(target[..n]) + multiset(target[n..]))[x];
    assert x in s[..n];
    j :| 0 <= j < n && s[j] == x;
  }

  /** Draws that bring the cells below `n` into the target order. */
  lemma {:induction false} FindDraws<T>(s: seq<T>, target: seq<T>, n: nat) returns (draws: seq<nat>)
    requires n <= |s| == |target| && s[n..] == target[n..] && multiset(s) == multiset(target)
    ensures |draws| == n && Legal(draws) && Rounds(s, draws, n) == target
    decreases n
  {
    if n == 0 {
      draws := [];
      assert s == s[0..] && target == target[0..];
    } else {
      var j := FindItem(s, target, n);
      var t := Swap(s, n - 1, j);
      assert t[n - 1..] == [t[n - 1]] + s[n..] == target[n - 1..];
      hide Rounds;
      SwapKeepsItems(s, n - 1, j);
      var front := FindDraws(t, target, n - 1);
      draws := front + [j];
      FirstRound(s, front, j);
    }
  }

  lemma SwapKeepsItems<T>(s: seq<T>, i: nat, j: nat)
    requires i < |s| && j < |s|
    ensures multiset(Swap(s, i, j)) == multiset(s)
  {
  }

  /** The first round of `front` with one more draw. */
  lemma FirstRound<T>(s: seq<T>, front: seq<nat>, j: nat)
    requires |front| < |s| && Legal(front) && j <= |front|
    ensures Legal(front + [j])
    ensures Rounds(s, front + [j], |front| + 1) == Rounds(Swap(s, |front|, j), front, |front|)
  {
    RoundsIgnoreLaterDraws(Swap(s, |front|, j), front, j, |front|);
  }

  lemma SwapKeepsDistinct<T(!new)>(s: seq<T>, i: nat, j: nat)
    requires i < |s| && j < |s| && Distinct(s)
    ensures Distinct(Swap(s, i, j))
  {
  }

  lemma RoundsFixLastCell<T>(s: seq<T>, draws: seq<nat>, n: nat)
    requires 0 < n <= |draws| && n <= |s| && Legal(draws)
    ensures Rounds(s, draws, n)[n - 1] == s[draws[n - 1]]
  {
    var t := Swap(s, n - 1, draws[n - 1]);
    RoundsKeepItems(t, draws, n - 1);
    assert Rounds(t, draws, n - 1)[n - 1..][0] == t[n - 1..][0];
  }

  /** On distinct items two different draw sequences end in different orders. */
  lemma {:induction false} RoundsAreInjective<T(!new)>(s: seq<T>, d: seq<nat>, e: seq<nat>, n: nat)
    requires n <= |s| && n <= |d| && n <= |e| && Legal(d) && Legal(e) && Distinct(s)
    requires Rounds(s, d, n) == Rounds(s, e, n)
    ensures forall k :: 0 <= k < n ==> d[k] == e[k]
    decreases n
  {
    if n != 0 {
      RoundsFixLastCell(s, d, n);
      RoundsFixLastCell(s, e, n);
      assert d[n - 1] == e[n - 1];
      SwapKeepsDistinct(s, n - 1, d[n - 1]);
      RoundsAreInjective(Swap(s, n - 1, d[n - 1]), d, e, n - 1);
    }
  }

  lemma OutcomeIsInjective<T(!new)>(s: seq<T>, d: seq<nat>, e: seq<nat>)
    requires |d| == |e| == |s| && Legal(d) && Legal(e) && Distinct(s)
    ensures Outcome(s, d) == Outcome(s, e) ==> d == e
  {
    if Outcome(s, d) == Outcome(s, e) {
      RoundsAreInjective(s, d, e, |s|);
    }
  }

  /** The shuffle is a bijection between legal draw sequences and orders of distinct items;
      with repeated items every order is still reached. */
  lemma ShuffleReaches<T(!new)>(s: seq<T>, target: seq<T>)
    ensures multiset(target) == multiset(s) <==>
            exists d: seq<nat> :: |d| == |s| && Legal(d) && Outcome(s, d) == target
    ensures Distinct(s) ==> forall d: seq<nat>, e: seq<nat> ::
              |d| == |e| == |s| && Legal(d) && Legal(e) && Outcome(s, d) == target == Outcome(s, e) ==> d == e
  {
    if multiset(target) == multiset(s) {
      assert |s| == |multiset(s)| == |multiset(target)| == |target|;
      var d := FindDraws(s, target, |s|);
    }
    forall d: seq<nat> | |d| == |s| && Legal(d) && Outcome(s, d) == target
      ensures multiset(target) == multiset(s)
    {
      OutcomeIsPermutation(s, d);
    }
    if Distinct(s) {
      forall d: seq<nat>, e: seq<nat> |
        |d| == |e| == |s| && Legal(d) && Legal(e) && Outcome(s, d) == target == Outcome(s, e)
        ensures d == e
      {
        OutcomeIsInjective(s, d, e);
      }
    }
  }

  function Factorial(n: nat): nat {
    if n == 0 then 1 else n * Factorial(n - 1)
  }

  ghost function Extend(shorter: set<seq<nat>>, n: nat): set<seq<nat>> {
    set d, j | d in shorter && 0 <= j < n :: d + [j]
  }

  /** All legal draw sequences of length `n`. */
  ghost function LegalDraws(n: nat): set<seq<nat>> {
    if n == 0 then {[]} else Extend(LegalDraws(n - 1), n)
  }

  lemma {:induction false} LegalDrawsAreAll(n: nat, d: seq<nat>)
    ensures d in LegalDraws(n) <==> |d| == n && Legal(d)
  {
    if n == 0 {
    } else if |d| == n {
      LegalDrawsAreAll(n - 1, d[..n - 1]);
      assert d == d[..n - 1] + [d[n - 1]];
      if d in LegalDraws(n) {
        var x: seq<nat>, j :| x in LegalDraws(n - 1) && 0 <= j < n && d == x + [j];
        assert x == d[..n - 1];
      }
    } else if d in LegalDraws(n) {
      var x: seq<nat>, j :| x in LegalDraws(n - 1) && 0 <= j < n && d == x + [j];
      LegalDrawsAreAll(n - 1, x);
      assert false;
    }
  }

  lemma {:induction false} LastCount(x: seq<nat>, n: nat)
    ensures |Extend({x}, n)| == n
  {
    if n == 0 {
      assert Extend({x}, n) == {};
    } else {
      LastCount(x, n - 1);
      var t := Extend({x}, n - 1);
      assert (x + [n - 1])[|x|] == n - 1;
      assert forall d | d in t :: d[|x|] < n - 1;
      assert x + [n - 1] in Extend({x}, n);
      forall d | d in Extend({x}, n) ensures d in t + {x + [n - 1]} {
        var j :| 0 <= j < n && d == x + [j];
      }
      assert Extend({x}, n) == t + {x + [n - 1]};
    }
  }

  lemma ExtendSplits(shorter: set<seq<nat>>, x: seq<nat>, n: nat)
    requires x in shorter
    ensures Extend(shorter, n) == Extend({x}, n) + Extend(shorter - {x}, n)
    ensures Extend({x}, n) !! Extend(shorter - {x}, n)
  {
    forall d | d in Extend(shorter, n) ensures d in Extend({x}, n) + Extend(shorter - {x}, n) {
      var y: seq<nat>, j :| y in shorter && 0 <= j < n && d == y + [j];
      if y == x {
        assert d in Extend({x}, n);
      } else {
        assert y in shorter - {x};
      }
    }
    assert forall d | d in Extend({x}, n) :: |d| == |x| + 1 && d[..|x|] == x;
    assert forall d | d in Extend(shorter - {x}, n) :: d[..|d| - 1] in shorter - {x};
  }

  lemma {:induction false} ExtendCount(shorter: set<seq<nat>>, n: nat)
    ensures |Extend(shorter, n)| == n * |shorter|
    decreases |shorter|
  {
    if shorter == {} {
      assert Extend(shorter, n) == {};
    } else {
      var x :| x in shorter;
      var rest := shorter - {x};
      ExtendSplits(shorter, x, n);
      LastCount(x, n);
      ExtendCount(rest, n);
      assert |shorter| == |rest| + 1;
      assert n * (|rest| + 1) == n * |rest| + n;
    }
  }

  lemma {:induction false} LegalDrawsCount(n: nat)
    ensures |LegalDraws(n)| == Factorial(n)
  {
    if n > 0 {
      LegalDrawsCount(n - 1);
      ExtendCount(LegalDraws(n - 1), n);
    }
  }

  ghost function Outcomes<T(!new)>(s: seq<T>, draws: set<seq<nat>>): set<seq<T>>
    requires forall d :: d in draws ==> |d| == |s| && Legal(d)
  {
    set d | d in draws :: Outcome(s, d)
  }

  lemma {:induction false} OutcomesCount<T(!new)>(s: seq<T>, draws: set<seq<nat>>)
    requires Distinct(s) && forall d :: d in draws ==> |d| == |s| && Legal(d)
    ensures |Outcomes(s, draws)| == |draws|
    decreases |draws|
  {
    if draws == {} {
      assert Outcomes(s, draws) == {};
    } else {
      var x :| x in draws;
      var rest := Outcomes(s, draws - {x});
      OutcomesCount(s, draws - {x});
      forall y | y in draws - {x} ensures Outcome(s, y) != Outcome(s, x) {
        OutcomeIsInjective(s, x, y);
      }
      hide Outcome;
      assert Outcome(s, x) !in rest;
      assert Outcomes(s, draws) == rest + {Outcome(s, x)};
    }
  }

  /** The `n!` equally likely draw sequences reach `n!` different orders of distinct items,
      so every order is equally likely. */
  lemma ShuffleIsUniform<T(!new)>(s: seq<T>)
    requires Distinct(s)
    ensures forall d :: d in LegalDraws(|s|) ==> |d| == |s| && Legal(d)
    ensures |LegalDraws(|s|)| == |Outcomes(s, LegalDraws(|s|))| == Factorial(|s|)
  {
    forall d | d in LegalDraws(|s|) ensures |d| == |s| && Legal(d) {
      LegalDrawsAreAll(|s|, d);
    }
    LegalDrawsCount(|s|);
    OutcomesCount(s, LegalDraws(|s|));
  }
}
