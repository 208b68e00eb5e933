/** The artist-diversifying reordering inside `getSampleOfVerifiedTracks`
    (`core-master/js-api/license.js`). Artists are identified by their numeric address. */
module Sampling {
  import Shuffle

  datatype Track = Track(artistAddress: nat, id: nat)

  function Artists(items: seq<Track>): set<nat> {
    set i | 0 <= i < |items| :: items[i].artistAddress
  }

  function Reversed(s: seq<Track>): (r: seq<Track>)
    ensures |r| == |s|
  {
    if s == [] then [] else [s[|s| - 1]] + Reversed(s[..|s| - 1])
  }

  /** The tracks whose artist does not occur earlier in the list. */
  function Firsts(items: seq<Track>): seq<Track> {
    if items == [] then []
    else
      var front, last := items[..|items| - 1], items[|items| - 1];
      if last.artistAddress in Artists(front) then Firsts(front) else Firsts(front) + [last]
  }

  /** The tracks whose artist does occur earlier in the list. */
  function Repeats(items: seq<Track>): seq<Track> {
    if items == [] then []
    else
      var front, last := items[..|items| - 1], items[|items| - 1];
      if last.artistAddress in Artists(front) then Repeats(front) + [last] else Repeats(front)
  }

  function Slice(items: seq<Track>, limit: nat): (r: seq<Track>) {
    if |items| > limit then items[..limit] else items
  }

  function Min(a: nat, b: nat): nat { if a < b then a else b }

  /** The `forEach` loop: a first track of an artist goes to the front, a repeat to the back. */
  method Reorder(items: seq<Track>) returns (newItems: seq<Track>)
    ensures newItems == Reversed(Firsts(items)) + Repeats(items)
  {
    newItems := [];
    var artists: set<nat> := {};
    assert items[..0] == [] && Artists(items[..0]) == {} && Reversed(Firsts([])) + Repeats([]) == [];
    hide *;
    for i := 0 to |items|
      invariant artists == Artists(items[..i])
      invariant newItems == Reversed(Firsts(items[..i])) + Repeats(items[..i])
    {
      var item := items[i];
      PrefixGrows(items, i);
      ReorderStep(items[..i], item);
      if item.artistAddress !in artists {
        artists := artists + {item.artistAddress};
        newItems := [item] + newItems;
      } else {
        newItems := newItems + [item];
      }
    }
    assert items[..|items|] == items;
  }

  lemma PrefixGrows(items: seq<Track>, i: nat)
    requires i < |items|
    ensures items[..i + 1] == items[..i] + [items[i]]
  {
  }

  lemma ReorderStep(front: seq<Track>, item: Track)
    ensures Artists(front + [item]) == Artists(front) + {item.artistAddress}
    ensures var before := Reversed(Firsts(front)) + Repeats(front);
            Reversed(Firsts(front + [item])) + Repeats(front + [item]) ==
            if item.artistAddress in Artists(front) then before + [item] else [item] + before
  {
    ArtistsGrow(front, item);
    hide Artists;
    assert (front + [item])[..|front|] == front;
    if item.artistAddress !in Artists(front) {
      var f := Firsts(front);
      assert (f + [item])[..|f|] == f;
      assert Reversed(f + [item]) == [item] + Reversed(f);
    }
  }

  /** Shuffle, reorder, slice: the whole selection on an array of candidate tracks. */
  method Sample(items: array<Track>, draws: seq<nat>, limit: nat) returns (chosen: seq<Track>)
    requires |draws| == items.Length && Shuffle.Legal(draws)
    modifies items
    ensures var shuffled := Shuffle.Outcome(old(items[..]), draws);
            chosen == Slice(Reversed(Firsts(shuffled)) + Repeats(shuffled), limit)
    ensures multiset(chosen) <= multiset(old(items[..]))
    ensures |Artists(chosen)| == Min(limit, |Artists(old(items[..]))|) && |chosen| == Min(limit, items.Length)
  {
    Shuffle.ShuffleInPlace(items, draws);
    ghost var before := old(items[..]);
    var newItems := Reorder(items[..]);
    chosen := Slice(newItems, limit);
    Shuffle.OutcomeIsPermutation(before, draws);
    SliceIsDiverse(items[..], limit);
    ReorderingLeadsWithEveryArtist(items[..]);
    assert |newItems| == |multiset(newItems)| == |multiset(items[..])| == items.Length;
    SameItemsSameArtists(before, items[..]);
  }

  lemma ArtistsGrow(front: seq<Track>, last: Track)
    ensures Artists(front + [last]) == Artists(front) + {last.artistAddress}
  {
    var all := front + [last];
    assert all[|front|] == last;
    forall a | a in Artists(front) ensures a in Artists(all) {
      var i :| 0 <= i < |front| && front[i].artistAddress == a;
      assert all[i].artistAddress == a;
    }
  }

  lemma SameItemsSameArtists(s: seq<Track>, t: seq<Track>)
    requires multiset(s) == multiset(t)
    ensures Artists(s) == Artists(t)
  {
    assert forall x :: x in s <==> x in multiset(s);
    assert forall x :: x in t <==> x in multiset(t);
    forall a | a in Artists(s) ensures a in Artists(t) {
      var i :| 0 <= i < |s| && s[i].artistAddress == a;
      assert s[i] in t;
    }
    forall a | a in Artists(t) ensures a in Artists(s) {
      var i :| 0 <= i < |t| && t[i].artistAddress == a;
      assert t[i] in s;
    }
  }

  /** A list never shows more artists than it has entries. */
  lemma {:induction false} ArtistsAtMostLength(s: seq<Track>)
    ensures |Artists(s)| <= |s|
  {
    if s == [] {
      assert Artists(s) == {};
    } else {
      ArtistsAtMostLength(s[..|s| - 1]);
      ArtistsGrow(s[..|s| - 1], s[|s| - 1]);
      assert s == s[..|s| - 1] + [s[|s| - 1]];
    }
  }

  ghost predicate AllDifferentArtists(s: seq<Track>) {
    forall i, j :: 0 <= i < j < |s| ==> s[i].artistAddress != s[j].artistAddress
  }

  lemma {:induction false} DifferentArtistsCount(s: seq<Track>)
    requires AllDifferentArtists(s)
    ensures |Artists(s)| == |s|
  {
    if s == [] {
      assert Artists(s) == {};
    } else {
      DifferentArtistsCount(s[..|s| - 1]);
      ArtistsGrow(s[..|s| - 1], s[|s| - 1]);
      assert s == s[..|s| - 1] + [s[|s| - 1]];
    }
  }

  lemma {:induction false} FirstsAndRepeatsAreAll(items: seq<Track>)
    ensures multiset(Firsts(items)) + multiset(Repeats(items)) == multiset(items)
  {
    if items != [] {
      var front, last := items[..|items| - 1], items[|items| - 1];
      FirstsAndRepeatsAreAll(front);
      hide Artists;
      assert items == front + [last];
    }
  }

  lemma {:induction false} FirstsShowEveryArtistOnce(items: seq<Track>)
    ensures AllDifferentArtists(Firsts(items)) && Artists(Firsts(items)) == Artists(items)
  {
    if items != [] {
      var front, last := items[..|items| - 1], items[|items| - 1];
      FirstsShowEveryArtistOnce(front);
      assert items == front + [last];
      ArtistsGrow(front, last);
      if last.artistAddress !in Artists(front) {
        assert forall i :: 0 <= i < |Firsts(front)| ==> Firsts(front)[i].artistAddress in Artists(Firsts(front));
        ArtistsGrow(Firsts(front), last);
        hide Artists;
      }
    }
  }

  lemma {:induction false} ReversedMirrors(s: seq<Track>)
    ensures forall k :: 0 <= k < |s| ==> Reversed(s)[k] == s[|s| - 1 - k]
    ensures multiset(Reversed(s)) == multiset(s)
  {
    if s != [] {
      ReversedMirrors(s[..|s| - 1]);
      assert s == s[..|s| - 1] + [s[|s| - 1]];
    }
  }

  /** The reordered list is a permutation that starts with one track of every artist. */
  lemma ReorderingLeadsWithEveryArtist(items: seq<Track>)
    ensures var f := Reversed(Firsts(items));
            && multiset(f + Repeats(items)) == multiset(items)
            && AllDifferentArtists(f) && Artists(f) == Artists(items) && |f| == |Artists(items)|
  {
    var f := Reversed(Firsts(items));
    FirstsShowEveryArtistOnce(items);
    FirstsAndRepeatsAreAll(items);
    ReversedMirrors(Firsts(items));
    SameItemsSameArtists(f, Firsts(items));
    DifferentArtistsCount(f);
  }

  // ---------- the exact order ----------

  ghost predicate IsRepeat(items: seq<Track>, i: nat)
    requires i < |items|
  {
    exists j :: 0 <= j < i && items[j].artistAddress == items[i].artistAddress
  }

  /** The positions of the tracks whose artist does, or does not, occur earlier. */
  ghost function PositionsOf(items: seq<Track>, repeats: bool, n: nat): seq<nat>
    requires n <= |items|
  {
    if n == 0 then []
    else PositionsOf(items, repeats, n - 1) + if IsRepeat(items, n - 1) == repeats then [n - 1] else []
  }

  /** The tracks `part` are those of `items` at increasing positions, namely at those that are repeats or are not. */
  ghost predicate PartAt(part: seq<Track>, items: seq<Track>, repeats: bool, n: nat, at: seq<nat>) {
    && n <= |items| && |at| == |part|
    && (forall p, q :: 0 <= p < q < |at| ==> at[p] < at[q])
    && (forall p :: 0 <= p < |at| ==> at[p] < n && part[p] == items[at[p]])
    && (forall i: nat :: i in at <==> i < n && IsRepeat(items, i) == repeats)
  }

  lemma RepeatMeansSeen(items: seq<Track>, n: nat)
    requires n < |items|
    ensures IsRepeat(items, n) <==> items[n].artistAddress in Artists(items[..n])
  {
    if IsRepeat(items, n) {
      var j :| 0 <= j < n && items[j].artistAddress == items[n].artistAddress;
      assert items[..n][j] == items[j];
    }
  }

  lemma OneMorePosition(part: seq<Track>, items: seq<Track>, repeats: bool, n: nat, at: seq<nat>)
    requires n < |items| && PartAt(part, items, repeats, n, at)
    ensures if IsRepeat(items, n) == repeats then PartAt(part + [items[n]], items, repeats, n + 1, at + [n])
            else PartAt(part, items, repeats, n + 1, at)
  {
    hide IsRepeat;
    assert forall i: nat :: i in at + [n] <==> i in at || i == n;
    assert forall p :: 0 <= p < |at| ==> at[p] in at;
  }

  lemma NextFirst(items: seq<Track>, n: nat)
    requires n < |items|
    ensures Firsts(items[..n + 1]) == if IsRepeat(items, n) then Firsts(items[..n]) else Firsts(items[..n]) + [items[n]]
    ensures Repeats(items[..n + 1]) ==
            if IsRepeat(items, n) then Repeats(items[..n]) + [items[n]] else Repeats(items[..n])
  {
    RepeatMeansSeen(items, n);
    hide Artists, IsRepeat;
    assert items[..n + 1][..n] == items[..n];
  }

  lemma {:induction false} PartsAreInOrder(items: seq<Track>, n: nat)
    requires n <= |items|
    ensures PartAt(Firsts(items[..n]), items, false, n, PositionsOf(items, false, n))
    ensures PartAt(Repeats(items[..n]), items, true, n, PositionsOf(items, true, n))
  {
    if n > 0 {
      var m := n - 1;
      var f, r := PositionsOf(items, false, m), PositionsOf(items, true, m);
      assert PositionsOf(items, false, n) == if IsRepeat(items, m) then f else f + [m];
      assert PositionsOf(items, true, n) == if IsRepeat(items, m) then r + [m] else r;
      hide *;
      PartsAreInOrder(items, m);
      NextFirst(items, m);
      OneMorePosition(Firsts(items[..m]), items, false, m, f);
      OneMorePosition(Repeats(items[..m]), items, true, m, r);
    } else {
      hide IsRepeat;
    }
  }

  ghost function Backwards(at: seq<nat>): (r: seq<nat>)
    ensures |r| == |at| && forall p :: 0 <= p < |r| ==> r[p] == at[|at| - 1 - p]
  {
    seq(|at|, p requires 0 <= p < |at| => at[|at| - 1 - p])
  }

  lemma BackwardsFalls(at: seq<nat>)
    requires forall p, q :: 0 <= p < q < |at| ==> at[p] < at[q]
    ensures forall p, q :: 0 <= p < q < |Backwards(at)| ==> Backwards(at)[p] > Backwards(at)[q]
  {
  }

  lemma BackwardsKeepsItems(at: seq<nat>, i: nat)
    ensures i in Backwards(at) <==> i in at
  {
    var r := Backwards(at);
    if p :| 0 <= p < |at| && at[p] == i {
      assert r[|at| - 1 - p] == i;
    }
  }

  /** The exact order: the first tracks of all artists, the latest first, then all other tracks as they came. */
  lemma ReorderedPositions(items: seq<Track>) returns (firsts: seq<nat>, others: seq<nat>)
    ensures forall p, q :: 0 <= p < q < |firsts| ==> firsts[p] > firsts[q]
    ensures forall p, q :: 0 <= p < q < |others| ==> others[p] < others[q]
    ensures forall i: nat :: i in firsts <==> i < |items| && !IsRepeat(items, i)
    ensures forall i: nat :: i in others <==> i < |items| && IsRepeat(items, i)
    ensures var r := Reversed(Firsts(items)) + Repeats(items);
            && |r| == |firsts| + |others|
            && (forall p :: 0 <= p < |firsts| ==> firsts[p] < |items| && r[p] == items[firsts[p]])
            && (forall p :: 0 <= p < |others| ==> others[p] < |items| && r[|firsts| + p] == items[others[p]])
  {
    var n := |items|;
    assert items[..n] == items;
    hide *;
    var at := PositionsOf(items, false, n);
    firsts, others := Backwards(at), PositionsOf(items, true, n);
    PartsAreInOrder(items, n);
    FirstPart(Firsts(items), items, n, at);
    OtherPart(Repeats(items), items, n, others);
    SecondHalf(Reversed(Firsts(items)), Repeats(items));
  }

  lemma SecondHalf(a: seq<Track>, b: seq<Track>)
    ensures forall p :: 0 <= p < |b| ==> (a + b)[|a| + p] == b[p]
    ensures forall p :: 0 <= p < |a| ==> (a + b)[p] == a[p]
  {
  }

  lemma FirstPart(part: seq<Track>, items: seq<Track>, n: nat, at: seq<nat>)
    requires PartAt(part, items, false, n, at)
    ensures var firsts := Backwards(at);
            && |firsts| == |part|
            && (forall p, q :: 0 <= p < q < |firsts| ==> firsts[p] > firsts[q])
            && (forall i: nat :: i in firsts <==> i < n && !IsRepeat(items, i))
            && (forall p :: 0 <= p < |firsts| ==> firsts[p] < |items| && Reversed(part)[p] == items[firsts[p]])
  {
    assert |at| == |part|;
    BackwardsFalls(at);
    MirroredAt(part, items, n, at);
    assert forall i: nat :: i in at <==> i < n && !IsRepeat(items, i);
    hide *;
    forall i: nat ensures i in Backwards(at) <==> i < n && !IsRepeat(items, i) {
      BackwardsKeepsItems(at, i);
    }
  }

  lemma MirroredAt(part: seq<Track>, items: seq<Track>, n: nat, at: seq<nat>)
    requires PartAt(part, items, false, n, at)
    ensures forall p :: 0 <= p < |Backwards(at)| ==>
              Backwards(at)[p] < |items| && Reversed(part)[p] == items[Backwards(at)[p]]
  {
    ReversedMirrors(part);
    hide Reversed, IsRepeat, Backwards;
    var firsts := Backwards(at);
    forall p | 0 <= p < |firsts| ensures firsts[p] < |items| && Reversed(part)[p] == items[firsts[p]] {
      var q := |at| - 1 - p;
      assert at[q] < n && part[q] == items[at[q]];
    }
  }

  lemma OtherPart(part: seq<Track>, items: seq<Track>, n: nat, at: seq<nat>)
    requires PartAt(part, items, true, n, at)
    ensures |at| == |part| && forall p, q :: 0 <= p < q < |at| ==> at[p] < at[q]
    ensures forall i: nat :: i in at <==> i < n && IsRepeat(items, i)
    ensures forall p :: 0 <= p < |at| ==> at[p] < |items| && part[p] == items[at[p]]
  {
    hide IsRepeat;
  }

  lemma SliceIsPart(all: seq<Track>, limit: nat)
    ensures multiset(Slice(all, limit)) <= multiset(all)
  {
    assert all == Slice(all, limit) + all[|Slice(all, limit)|..];
  }

  lemma SliceShows(f: seq<Track>, r: seq<Track>, limit: nat)
    requires AllDifferentArtists(f) && Artists(f) == Artists(f + r)
    ensures |Artists(Slice(f + r, limit))| == Min(limit, |f|)
  {
    if limit <= |f| {
      assert Slice(f + r, limit) == f[..limit];
      DifferentArtistsCount(f[..limit]);
    } else {
      var s := Slice(r, limit - |f|);
      assert Slice(f + r, limit) == f + s;
      PartsShowNoMore(f, s, f + r);
      DifferentArtistsCount(f);
    }
  }

  /** The slice is part of the input and shows as many artists as its size allows. */
  lemma SliceIsDiverse(items: seq<Track>, limit: nat)
    ensures var all := Reversed(Firsts(items)) + Repeats(items);
            && multiset(Slice(all, limit)) <= multiset(items)
            && |Artists(Slice(all, limit))| == Min(limit, |Artists(items)|)
  {
    var f, r := Reversed(Firsts(items)), Repeats(items);
    ReorderingLeadsWithEveryArtist(items);
    SameItemsSameArtists(f + r, items);
    SliceIsPart(f + r, limit);
    SliceShows(f, r, limit);
  }

  lemma PartsShowNoMore(f: seq<Track>, s: seq<Track>, all: seq<Track>)
    requires f + s <= all && Artists(f) == Artists(all)
    ensures Artists(f + s) == Artists(all)
  {
    forall a | a in Artists(f) ensures a in Artists(f + s) {
      var i :| 0 <= i < |f| && f[i].artistAddress == a;
      assert (f + s)[i].artistAddress == a;
    }
    assert forall i :: 0 <= i < |f + s| ==> (f + s)[i] == all[i];
  }

  /** No selection of that size from the same tracks shows more artists. */
  lemma SliceIsMostDiverse(items: seq<Track>, limit: nat, selection: seq<Track>)
    requires |selection| <= limit && forall t :: t in selection ==> t in items
    ensures |Artists(selection)| <= |Artists(Slice(Reversed(Firsts(items)) + Repeats(items), limit))|
  {
    SliceIsDiverse(items, limit);
    ArtistsAtMostLength(selection);
    forall a | a in Artists(selection) ensures a in Artists(items) {
      var i :| 0 <= i < |selection| && selection[i].artistAddress == a;
      assert selection[i] in items;
    }
    SubsetCount(Artists(selection), Artists(items));
  }

  lemma {:induction false} SubsetCount(a: set<nat>, b: set<nat>)
    requires a <= b
    ensures |a| <= |b|
  {
    assert b == a + (b - a);
  }
}
