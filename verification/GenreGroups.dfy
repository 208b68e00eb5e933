/** The greedy genre allocator inside `getNewReleasesByGenre` (`core-master/js-api/license.js`).

    A release is given by its genre list and referred to by its position in the query result. The
    allocator keeps a group order, a dictionary of groups and a counter; its specification is a plain
    list of decisions, one per examined release. */
module GenreGroups {

  datatype Option<T> = None | Some(value: T)
  datatype Placed = Placed(item: nat, genre: string)
  type Decisions = seq<Option<string>>

  const OTHER := "Other"
  const KNOWN_GENRES := [
    "Alternative Rock", "Ambient", "Classical", "Country", "Dance & EDM", "Dancehall", "Deep House", "Disco",
    "Drum & Bass", "Electronic", "Folk & Singer-Songwriter", "Hip-hop & Rap", "House", "Indie", "Jazz & Blues",
    "Latin", "Metal", "Piano", "Pop", "R&B & Soul", "Reggae", "Reggaeton", "Rock", "Soundtrack", "Techno",
    "Trance", "World", OTHER]

  // ---------- specification ----------

  /** How many of the decisions place a release under `g`. */
  function Count(a: Decisions, g: string): (n: nat)
    ensures n <= |a|
  {
    if a == [] then 0
    else Count(a[..|a| - 1], g) + if a[|a| - 1] == Some(g) then 1 else 0
  }

  /** How many of the decisions place a release anywhere. */
  function Included(a: Decisions): (n: nat)
    ensures n <= |a|
  {
    if a == [] then 0
    else Included(a[..|a| - 1]) + if a[|a| - 1].Some? then 1 else 0
  }

  /** The first genre of the list that is known and whose group still has room. */
  function Pick(genres: seq<string>, known: seq<string>, cap: int, a: Decisions): Option<string> {
    if genres == [] then None
    else if genres[0] in known && Count(a, genres[0]) < cap then Some(genres[0])
    else Pick(genres[1..], known, cap, a)
  }

  /** The decisions for all examined releases, continuing from the decisions `a` already taken. */
  function Decide(items: seq<seq<string>>, known: seq<string>, limit: int, cap: int, a: Decisions): Decisions
    decreases |items| - |a|
  {
    if |a| < |items| && Included(a) < limit
    then Decide(items, known, limit, cap, a + [Pick(items[|a|] + [OTHER], known, cap, a)])
    else a
  }

  /** The members of group `g` in input order. */
  function Group(a: Decisions, g: string): (r: seq<Placed>)
    ensures |r| == Count(a, g)
  {
    if a == [] then []
    else Group(a[..|a| - 1], g) + if a[|a| - 1] == Some(g) then [Placed(|a| - 1, g)] else []
  }

  /** The used genres, ordered by their first member. */
  function Order(a: Decisions): seq<string> {
    if a == [] then []
    else
      var front, last := Order(a[..|a| - 1]), a[|a| - 1];
      if last.Some? && last.value !in front then front + [last.value] else front
  }

  /** The groups laid out one after the other. */
  function Layout(order: seq<string>, a: Decisions): seq<Placed> {
    if order == [] then [] else Layout(order[..|order| - 1], a) + Group(a, order[|order| - 1])
  }

  // ---------- the loops of the source ----------

  ghost predicate Linked(genreOrder: seq<string>, genreItems: map<string, seq<Placed>>, a: Decisions, cap: int) {
    && (forall g :: g in genreOrder <==> g in genreItems)
    && (forall g :: g in genreItems ==> genreItems[g] == Group(a, g))
    && (forall g :: g !in genreOrder ==> Count(a, g) == 0)
    && (cap > 0 ==> genreOrder == Order(a))
    && (cap <= 0 ==> forall g :: Count(a, g) == 0)
  }

  ghost function Opened(groups: map<string, seq<Placed>>, g: string): map<string, seq<Placed>> {
    if g in groups then groups else groups[g := []]
  }

  lemma AddMember(order: seq<string>, groups: map<string, seq<Placed>>, a: Decisions, cap: int, g: string)
    requires Linked(order, groups, a, cap) && |Opened(groups, g)[g]| < cap
    ensures Linked(if g in groups then order else order + [g],
                   Opened(groups, g)[g := Opened(groups, g)[g] + [Placed(|a|, g)]], a + [Some(g)], cap)
  {
    Extended(a, Some(g));
    assert cap > 0 by { assert |Opened(groups, g)[g]| >= 0; }
  }

  lemma OpenGroup(order: seq<string>, groups: map<string, seq<Placed>>, a: Decisions, cap: int, g: string)
    requires Linked(order, groups, a, cap) && |Opened(groups, g)[g]| >= cap
    ensures Linked(if g in groups then order else order + [g], Opened(groups, g), a, cap)
  {
  }

  lemma NoMember(order: seq<string>, groups: map<string, seq<Placed>>, a: Decisions, cap: int)
    requires Linked(order, groups, a, cap)
    ensures Linked(order, groups, a + [None], cap)
  {
    Extended(a, None);
  }

  /** What the dictionary says about one genre. */
  lemma GroupSize(order: seq<string>, groups: map<string, seq<Placed>>, a: Decisions, cap: int, g: string)
    requires Linked(order, groups, a, cap)
    ensures g in order <==> g in groups
    ensures Opened(groups, g) == if g in groups then groups else groups[g := []]
    ensures |Opened(groups, g)[g]| == Count(a, g)
  {
  }

  /** The choice among the genres from position `i` on. */
  ghost function PickFrom(genres: seq<string>, i: nat, known: seq<string>, cap: int, a: Decisions): Option<string>
    requires i <= |genres|
  {
    Pick(genres[i..], known, cap, a)
  }

  lemma PickEnds(genres: seq<string>, known: seq<string>, cap: int, a: Decisions)
    ensures PickFrom(genres, 0, known, cap, a) == Pick(genres, known, cap, a)
    ensures PickFrom(genres, |genres|, known, cap, a) == None
  {
    assert genres[0..] == genres && genres[|genres|..] == [];
  }

  lemma PickNext(genres: seq<string>, i: nat, known: seq<string>, cap: int, a: Decisions)
    requires i < |genres|
    ensures PickFrom(genres, i, known, cap, a) ==
            if genres[i] in known && Count(a, genres[i]) < cap then Some(genres[i])
            else PickFrom(genres, i + 1, known, cap, a)
  {
    hide Count;
    assert genres[i..][0] == genres[i] && genres[i..][1..] == genres[i + 1..];
  }

  /** One round of the outer loop: find a group for one release, opening groups on the way. */
  method Place(i: nat, itemGenres: seq<string>, known: seq<string>, cap: int,
               genreOrder: seq<string>, genreItems: map<string, seq<Placed>>, ghost a: Decisions)
    returns (newOrder: seq<string>, newItems: map<string, seq<Placed>>, included: bool)
    requires |a| == i && Linked(genreOrder, genreItems, a, cap)
    ensures included == Pick(itemGenres, known, cap, a).Some?
    ensures Linked(newOrder, newItems, a + [Pick(itemGenres, known, cap, a)], cap)
  {
    newOrder, newItems, included := genreOrder, genreItems, false;
    PickEnds(itemGenres, known, cap, a);
    hide *;
    var g := 0;
    while g < |itemGenres|
      invariant 0 <= g <= |itemGenres|
      invariant Linked(newOrder, newItems, a, cap)
      invariant Pick(itemGenres, known, cap, a) == PickFrom(itemGenres, g, known, cap, a)
    {
      var genre := itemGenres[g];
      PickNext(itemGenres, g, known, cap, a);
      if genre in known {
        ghost var order, groups := newOrder, newItems;
        GroupSize(order, groups, a, cap, genre);
        if genre !in newOrder {
          newOrder, newItems := newOrder + [genre], newItems[genre := []];
        }
        if |newItems[genre]| < cap {
          AddMember(order, groups, a, cap, genre);
          newItems := newItems[genre := newItems[genre] + [Placed(i, genre)]];
          included := true;
          return;
        }
        OpenGroup(order, groups, a, cap, genre);
      }
      g := g + 1;
    }
    NoMember(newOrder, newItems, a, cap);
  }

  method GroupByGenre(items: seq<seq<string>>, known: seq<string>, limit: int, cap: int)
    returns (out: seq<Placed>)
    ensures var a := Decide(items, known, limit, cap, []); out == Layout(Order(a), a)
    // no release twice, groups together, in the order of their first members, and inside a group in input order
    ensures InOrder(out) && Contiguous(out) && ByFirstMember(out)
  {
    LayoutOfOrder(Decide(items, known, limit, cap, []));
    hide InOrder, Contiguous, ByFirstMember;
    var genreOrder: seq<string>, genreItems: map<string, seq<Placed>>, itemsIncluded := [], map[], 0;
    ghost var a: Decisions := [];
    var i := 0;
    while i < |items| && itemsIncluded < limit
      invariant 0 <= i == |a| <= |items| && itemsIncluded == Included(a)
      invariant Linked(genreOrder, genreItems, a, cap)
      invariant Decide(items, known, limit, cap, a) == Decide(items, known, limit, cap, [])
    {
      ghost var p := Pick(items[i] + [OTHER], known, cap, a);
      var included: bool;
      genreOrder, genreItems, included := Place(i, items[i] + [OTHER], known, cap, genreOrder, genreItems, a);
      Extended(a, p);
      itemsIncluded := itemsIncluded + if included then 1 else 0;
      a := a + [p];
      i := i + 1;
    }
    out := Flatten(genreOrder, genreItems, a, cap);
  }

  /** The final `flatten(genreOrder.map(..))`. */
  method Flatten(genreOrder: seq<string>, genreItems: map<string, seq<Placed>>, ghost a: Decisions, cap: int)
    returns (out: seq<Placed>)
    requires Linked(genreOrder, genreItems, a, cap)
    ensures out == Layout(Order(a), a)
  {
    out := [];
    for k := 0 to |genreOrder|
      invariant out == Layout(genreOrder[..k], a)
    {
      assert genreOrder[..k + 1][..k] == genreOrder[..k];
      assert genreOrder[k] in genreOrder;
      out := out + genreItems[genreOrder[k]];
    }
    assert genreOrder[..|genreOrder|] == genreOrder;
    if cap <= 0 {
      EmptyLayout(genreOrder, a);
      EmptyLayout(Order(a), a);
    }
  }

  lemma Extended(a: Decisions, p: Option<string>)
    ensures Included(a + [p]) == Included(a) + if p.Some? then 1 else 0
    ensures forall g :: Count(a + [p], g) == Count(a, g) + if p == Some(g) then 1 else 0
    ensures forall g :: Group(a + [p], g) == Group(a, g) + if p == Some(g) then [Placed(|a|, g)] else []
    ensures Order(a + [p]) == if p.Some? && p.value !in Order(a) then Order(a) + [p.value] else Order(a)
  {
    assert (a + [p])[..|a|] == a;
  }

  lemma {:induction false} EmptyLayout(order: seq<string>, a: Decisions)
    requires forall g :: Count(a, g) == 0
    ensures Layout(order, a) == []
  {
    if order != [] {
      EmptyLayout(order[..|order| - 1], a);
    }
  }

  // ---------- what the decisions guarantee ----------

  /** Decisions taken so far: each is the greedy choice, and the limit was not yet reached. */
  ghost predicate Greedy(items: seq<seq<string>>, known: seq<string>, limit: int, cap: int, a: Decisions) {
    && |a| <= |items|
    && forall i :: 0 <= i < |a| ==>
         Included(a[..i]) < limit && a[i] == Pick(items[i] + [OTHER], known, cap, a[..i])
  }

  lemma {:induction false} DecideIsGreedy(items: seq<seq<string>>, known: seq<string>, limit: int, cap: int,
      a: Decisions)
    requires Greedy(items, known, limit, cap, a)
    ensures var r := Decide(items, known, limit, cap, a);
            Greedy(items, known, limit, cap, r) && (|r| == |items| || Included(r) >= limit)
    decreases |items| - |a|
  {
    if |a| < |items| && Included(a) < limit {
      var b := a + [Pick(items[|a|] + [OTHER], known, cap, a)];
      assert forall i :: 0 <= i < |a| ==> b[..i] == a[..i];
      assert b[..|a|] == a;
      DecideIsGreedy(items, known, limit, cap, b);
    }
  }

  lemma {:induction false} PickMeaning(genres: seq<string>, known: seq<string>, cap: int, a: Decisions)
    ensures match Pick(genres, known, cap, a)
            case None => forall g :: g in genres && g in known ==> Count(a, g) >= cap
            case Some(c) =>
              && c in known && Count(a, c) < cap
              && exists k :: 0 <= k < |genres| && genres[k] == c &&
                   forall j :: 0 <= j < k && genres[j] in known ==> Count(a, genres[j]) >= cap
  {
    if genres != [] && !(genres[0] in known && Count(a, genres[0]) < cap) {
      PickMeaning(genres[1..], known, cap, a);
      match Pick(genres[1..], known, cap, a)
      case None => assert forall g :: g in genres ==> g == genres[0] || g in genres[1..];
      case Some(c) =>
        var k :| 0 <= k < |genres[1..]| && genres[1..][k] == c &&
          forall j :: 0 <= j < k && genres[1..][j] in known ==> Count(a, genres[1..][j]) >= cap;
        assert genres[k + 1] == c;
        forall j | 0 <= j < k + 1 && genres[j] in known ensures Count(a, genres[j]) >= cap {
          if j > 0 { assert genres[j] == genres[1..][j - 1]; }
        }
    }
  }

  lemma {:induction false} CountGrows(a: Decisions, i: nat, g: string)
    requires i <= |a|
    ensures Count(a[..i], g) <= Count(a, g)
    decreases |a|
  {
    if i == |a| {
      assert a[..i] == a;
    } else {
      CountGrows(a[..|a| - 1], i, g);
      assert a[..|a| - 1][..i] == a[..i];
    }
  }

  /** A group is never larger than its cap, and the total never larger than the limit. */
  lemma {:induction false} CapsHold(items: seq<seq<string>>, known: seq<string>, limit: int, cap: int,
      a: Decisions, g: string)
    requires Greedy(items, known, limit, cap, a)
    ensures Count(a, g) == 0 || Count(a, g) <= cap
    ensures Included(a) == 0 || Included(a) <= limit
    decreases |a|
  {
    if a != [] {
      var n := |a| - 1;
      var front := a[..n];
      assert forall i :: 0 <= i < n ==> front[..i] == a[..i];
      CapsHold(items, known, limit, cap, front, g);
      PickMeaning(items[n] + [OTHER], known, cap, front);
    }
  }

  /** Every examined release is under its first open known genre, or under none because all are full for good. */
  lemma GreedyMeaning(items: seq<seq<string>>, known: seq<string>, limit: int, cap: int, a: Decisions, i: nat)
    requires Greedy(items, known, limit, cap, a) && i < |a|
    ensures var genres := items[i] + [OTHER];
            match a[i]
            case None => forall g :: g in genres && g in known ==> Count(a, g) >= cap
            case Some(c) =>
              && c in known
              && exists k :: 0 <= k < |genres| && genres[k] == c &&
                   forall j :: 0 <= j < k && genres[j] in known ==> Count(a, genres[j]) >= cap
  {
    var genres := items[i] + [OTHER];
    PickMeaning(genres, known, cap, a[..i]);
    forall g | Count(a[..i], g) >= cap ensures Count(a, g) >= cap {
      CountGrows(a, i, g);
    }
    if a[i].Some? {
      var k :| 0 <= k < |genres| && genres[k] == a[i].value &&
        forall j :: 0 <= j < k && genres[j] in known ==> Count(a[..i], genres[j]) >= cap;
      assert forall j :: 0 <= j < k && genres[j] in known ==> Count(a, genres[j]) >= cap;
    }
  }

  // ---------- what the layout guarantees ----------

  ghost predicate NoRepeats(order: seq<string>) {
    forall i, j :: 0 <= i < j < |order| ==> order[i] != order[j]
  }

  lemma {:induction false} OrderMeaning(a: Decisions)
    ensures NoRepeats(Order(a))
    ensures forall i :: 0 <= i < |a| && a[i].Some? ==> a[i].value in Order(a)
  {
    if a != [] {
      var front, last := a[..|a| - 1], a[|a| - 1];
      OrderMeaning(front);
      var before := Order(front);
      assert Order(a) == if last.Some? && last.value !in before then before + [last.value] else before;
      hide Order;
      assert forall i :: 0 <= i < |front| ==> a[i] == front[i];
    }
  }

  lemma {:induction false} GroupMeaning(a: Decisions, g: string)
    ensures forall p :: 0 <= p < |Group(a, g)| ==>
              var e := Group(a, g)[p]; e.genre == g && e.item < |a| && a[e.item] == Some(g)
    ensures forall p, q :: 0 <= p < q < |Group(a, g)| ==> Group(a, g)[p].item < Group(a, g)[q].item
    ensures forall i :: 0 <= i < |a| && a[i] == Some(g) ==> Placed(i, g) in Group(a, g)
  {
    if a != [] {
      var n := |a| - 1;
      var front := a[..n];
      GroupMeaning(front, g);
      var before := Group(front, g);
      assert Group(a, g) == before + if a[n] == Some(g) then [Placed(n, g)] else [];
      hide Group, Count;
      assert forall i :: 0 <= i < n ==> front[i] == a[i];
      assert forall i :: 0 <= i < n && a[i] == Some(g) ==> Placed(i, g) in before;
    }
  }

  ghost predicate InOrder(s: seq<Placed>) {
    forall p, q :: 0 <= p < q < |s| ==>
      s[p].item != s[q].item && (s[p].genre == s[q].genre ==> s[p].item < s[q].item)
  }

  lemma {:induction false} LayoutMeaning(order: seq<string>, a: Decisions)
    requires NoRepeats(order)
    ensures forall e :: e in Layout(order, a) <==> e.genre in order && e.item < |a| && a[e.item] == Some(e.genre)
    ensures InOrder(Layout(order, a))
  {
    if order != [] {
      var front, g := order[..|order| - 1], order[|order| - 1];
      LayoutMeaning(front, a);
      GroupMeaning(a, g);
      var left, right := Layout(front, a), Group(a, g);
      assert Layout(order, a) == left + right;
      assert forall x :: x in order <==> x in front || x == g;
      assert forall p :: 0 <= p < |left| ==> left[p] in left;
      assert forall e :: e in right <==> e.genre == g && e.item < |a| && a[e.item] == Some(g);
    }
  }

  ghost predicate HasMember(a: Decisions, g: string) {
    exists f :: 0 <= f < |a| && a[f] == Some(g)
  }

  /** The first member of `g` comes before every member of `h`. */
  ghost predicate EarlierGroup(a: Decisions, g: string, h: string) {
    forall m :: 0 <= m < |a| && a[m] == Some(h) ==> HasMember(a[..m], g)
  }

  /** Every used genre has a member, and the genres are ordered by their first members. */
  ghost predicate FirstMembersFirst(a: Decisions, order: seq<string>) {
    && (forall i :: 0 <= i < |order| ==> HasMember(a, order[i]))
    && (forall i, j :: 0 <= i < j < |order| ==> EarlierGroup(a, order[i], order[j]))
  }

  lemma MemberStays(a: Decisions, p: Option<string>, g: string)
    requires HasMember(a, g)
    ensures HasMember(a + [p], g)
  {
    var f :| 0 <= f < |a| && a[f] == Some(g);
    assert (a + [p])[f] == Some(g);
  }

  lemma EarlierStays(a: Decisions, p: Option<string>, g: string, h: string)
    requires EarlierGroup(a, g, h) && HasMember(a, g)
    ensures EarlierGroup(a + [p], g, h)
  {
    var b := a + [p];
    hide HasMember;
    assert forall m :: 0 <= m <= |a| ==> b[..m] == a[..m];
    assert a[..|a|] == a;
  }

  lemma OneMoreDecision(a: Decisions, p: Option<string>, order: seq<string>)
    requires FirstMembersFirst(a, order)
    requires forall m :: 0 <= m < |a| && a[m].Some? ==> a[m].value in order
    ensures var b := a + [p];
            FirstMembersFirst(b, if p.Some? && p.value !in order then order + [p.value] else order)
  {
    var b := a + [p];
    var next := if p.Some? && p.value !in order then order + [p.value] else order;
    forall i | 0 <= i < |next| ensures HasMember(b, next[i]) {
      if i < |order| { MemberStays(a, p, order[i]); } else { assert b[|a|] == Some(next[i]); }
    }
    forall i, j | 0 <= i < j < |next| ensures EarlierGroup(b, next[i], next[j]) {
      if j == |order| {
        assert EarlierGroup(a, next[i], next[j]);
      }
      EarlierStays(a, p, next[i], next[j]);
    }
  }

  lemma OrderStep(a: Decisions, p: Option<string>)
    requires FirstMembersFirst(a, Order(a))
    ensures FirstMembersFirst(a + [p], Order(a + [p]))
  {
    OrderMeaning(a);
    OneMoreDecision(a, p, Order(a));
    assert Order(a + [p]) == if p.Some? && p.value !in Order(a) then Order(a) + [p.value] else Order(a) by {
      Extended(a, p);
    }
    hide *;
  }

  lemma {:induction false} OrderIsByFirstMember(a: Decisions)
    ensures FirstMembersFirst(a, Order(a))
  {
    if a != [] {
      hide *;
      var front, p := a[..|a| - 1], a[|a| - 1];
      OrderIsByFirstMember(front);
      OrderStep(front, p);
      assert a == front + [p];
    }
  }

  /** Of two entries of different genres the first one's group was opened before the other entry was placed. */
  ghost predicate ByFirstMember(out: seq<Placed>) {
    forall p, q :: 0 <= p < q < |out| && out[p].genre != out[q].genre ==> OpenedBefore(out, p, out[q].item)
  }

  ghost predicate OpenedBefore(out: seq<Placed>, p: nat, item: nat)
    requires p < |out|
  {
    exists f :: 0 <= f <= p && out[f].genre == out[p].genre && out[f].item < item
  }

  /** The entries of one genre stand together. */
  ghost predicate Contiguous(out: seq<Placed>) {
    forall p, q, r :: 0 <= p < q < r < |out| && out[p].genre == out[r].genre ==> out[q].genre == out[p].genre
  }

  lemma {:induction false} LayoutIsGrouped(order: seq<string>, a: Decisions)
    requires NoRepeats(order) && FirstMembersFirst(a, order)
    ensures Contiguous(Layout(order, a)) && ByFirstMember(Layout(order, a))
  {
    if order != [] {
      var front, g := order[..|order| - 1], order[|order| - 1];
      assert FirstMembersFirst(a, front) by {
        assert forall i :: 0 <= i < |front| ==> front[i] == order[i];
        hide EarlierGroup, HasMember;
      }
      LayoutIsGrouped(front, a);
      LayoutMeaning(front, a);
      GroupMeaning(a, g);
      var left, right := Layout(front, a), Group(a, g);
      assert Layout(order, a) == left + right;
      forall h | h in front ensures h != g && EarlierGroup(a, h, g) {
        var i :| 0 <= i < |front| && front[i] == h;
        assert order[i] == h;
      }
      hide Layout, Group, FirstMembersFirst, NoRepeats, EarlierGroup;
      GroupAppended(front, left, right, a, g);
      assert forall p :: 0 <= p < |left| ==> left[p] in left;
      StillContiguous(left, right, g);
    }
  }

  lemma StillContiguous(left: seq<Placed>, right: seq<Placed>, g: string)
    requires Contiguous(left)
    requires forall p :: 0 <= p < |left| ==> left[p].genre != g
    requires forall q :: 0 <= q < |right| ==> right[q].genre == g
    ensures Contiguous(left + right)
  {
    var out := left + right;
    assert forall p :: 0 <= p < |out| ==> out[p] == if p < |left| then left[p] else right[p - |left|];
    assert forall p :: 0 <= p < |out| ==> (out[p].genre == g <==> p >= |left|);
  }

  lemma GroupAppended(front: seq<string>, left: seq<Placed>, right: seq<Placed>, a: Decisions, g: string)
    requires ByFirstMember(left) && InOrder(left)
    requires forall e :: e in left <==> e.genre in front && e.item < |a| && a[e.item] == Some(e.genre)
    requires forall q :: 0 <= q < |right| ==>
               right[q].genre == g && right[q].item < |a| && a[right[q].item] == Some(g)
    requires forall h :: h in front ==> h != g && EarlierGroup(a, h, g)
    ensures ByFirstMember(left + right)
  {
    var out := left + right;
    assert forall p :: 0 <= p < |left| ==> left[p] in left;
    assert forall p :: 0 <= p < |out| ==> out[p] == if p < |left| then left[p] else right[p - |left|];
    assert forall p :: 0 <= p < |left| ==> left[p].genre in front;
    hide EarlierGroup, HasMember, InOrder;
    forall p, q | 0 <= p < q < |out| && out[p].genre != out[q].genre ensures OpenedBefore(out, p, out[q].item) {
      if q < |left| {
        assert OpenedBefore(left, p, left[q].item);
        OpenedStays(left, right, p, left[q].item);
      } else {
        var m := right[q - |left|].item;
        var f := EarlierEntry(front, left, a, g, p, m);
        assert OpenedBefore(left, p, m);
        OpenedStays(left, right, p, m);
      }
    }
    hide OpenedBefore;
  }

  lemma OpenedStays(left: seq<Placed>, right: seq<Placed>, p: nat, item: nat)
    requires p < |left| && OpenedBefore(left, p, item)
    ensures OpenedBefore(left + right, p, item)
  {
    var f :| 0 <= f <= p && left[f].genre == left[p].genre && left[f].item < item;
    assert (left + right)[f] == left[f] && (left + right)[p] == left[p];
  }

  /** The first entry of a group that was laid out before is placed before every member of a later group. */
  lemma EarlierEntry(front: seq<string>, left: seq<Placed>, a: Decisions, g: string, p: nat, m: nat) returns (f: nat)
    requires p < |left| && left[p].genre in front && InOrder(left) && m < |a| && a[m] == Some(g)
    requires forall e :: e in left <==> e.genre in front && e.item < |a| && a[e.item] == Some(e.genre)
    requires EarlierGroup(a, left[p].genre, g)
    ensures f <= p && left[f].genre == left[p].genre && left[f].item < m
  {
    var h := left[p].genre;
    assert HasMember(a[..m], h);
    var n :| 0 <= n < |a[..m]| && a[..m][n] == Some(h);
    assert Placed(n, h) in left;
    f :| 0 <= f < |left| && left[f] == Placed(n, h);
    if f > p {
      f := p;
    }
  }

  lemma {:induction false} LayoutGrows(order: seq<string>, a: Decisions, p: Option<string>)
    requires NoRepeats(order)
    ensures |Layout(order, a + [p])| == |Layout(order, a)| + if p.Some? && p.value in order then 1 else 0
  {
    if order != [] {
      var front, g := order[..|order| - 1], order[|order| - 1];
      LayoutGrows(front, a, p);
      assert |Group(a + [p], g)| == |Group(a, g)| + if p == Some(g) then 1 else 0 by { Extended(a, p); }
      hide Group, Count;
      assert forall x :: x in order <==> x in front || x == g;
    }
  }

  lemma {:induction false} LayoutSize(order: seq<string>, a: Decisions)
    requires NoRepeats(order) && forall i :: 0 <= i < |a| && a[i].Some? ==> a[i].value in order
    ensures |Layout(order, a)| == Included(a)
  {
    if a == [] {
      EmptyLayout(order, a);
    } else {
      var front, last := a[..|a| - 1], a[|a| - 1];
      assert a == front + [last];
      LayoutSize(order, front);
      LayoutGrows(order, front, last);
    }
  }

  /** Everything promised about the returned list, for every query result, genre table, limit and cap. */
  lemma GroupingIsGreedyAndCapped(items: seq<seq<string>>, known: seq<string>, limit: int, cap: int)
    ensures var a := Decide(items, known, limit, cap, []);
            var out := Layout(Order(a), a);
            // the limit holds, and examination only stops early when it is reached
            && (out == [] || |out| <= limit)
            && |a| <= |items| && (|a| < |items| ==> |out| >= limit)
            // no release twice; inside a group the input order; groups together and ordered by their first members
            && InOrder(out) && Contiguous(out) && ByFirstMember(out)
            // no group above its cap
            && (forall g :: Count(a, g) == 0 || Count(a, g) <= cap)
            && (forall g :: |Group(a, g)| == Count(a, g))
            // the entries are exactly the placed releases, each under one of its known genres or "Other"
            && (forall e :: e in out <==> e.item < |a| && a[e.item] == Some(e.genre))
            && (forall e :: e in out ==> e.genre in known && e.genre in items[e.item] + [OTHER])
            // an examined release is left out only if all its groups are full
            && (forall i, g :: 0 <= i < |a| && a[i].None? && g in items[i] + [OTHER] && g in known ==>
                  Count(a, g) >= cap)
  {
    var a := Decide(items, known, limit, cap, []);
    DecideIsGreedy(items, known, limit, cap, []);
    hide Decide, Greedy, Layout, Order, InOrder, Contiguous, ByFirstMember;
    DecisionsAreCapped(items, known, limit, cap, a);
    LayoutIsFaithful(items, known, limit, cap, a);
  }

  lemma DecisionsAreCapped(items: seq<seq<string>>, known: seq<string>, limit: int, cap: int, a: Decisions)
    requires Greedy(items, known, limit, cap, a)
    ensures Included(a) == 0 || Included(a) <= limit
    ensures forall g :: Count(a, g) == 0 || Count(a, g) <= cap
    ensures forall i, g :: 0 <= i < |a| && a[i].None? && g in items[i] + [OTHER] && g in known ==> Count(a, g) >= cap
  {
    forall g ensures Count(a, g) == 0 || Count(a, g) <= cap { CapsHold(items, known, limit, cap, a, g); }
    CapsHold(items, known, limit, cap, a, OTHER);
    assert |a| <= |items|;
    hide Greedy, Count, Included;
    forall i, g | 0 <= i < |a| && a[i].None? && g in items[i] + [OTHER] && g in known ensures Count(a, g) >= cap {
      GreedyMeaning(items, known, limit, cap, a, i);
    }
  }

  lemma LayoutIsFaithful(items: seq<seq<string>>, known: seq<string>, limit: int, cap: int, a: Decisions)
    requires Greedy(items, known, limit, cap, a)
    ensures |a| <= |items|
    ensures var out := Layout(Order(a), a);
            && InOrder(out) && Contiguous(out) && ByFirstMember(out) && |out| == Included(a)
            && (forall e :: e in out <==> e.item < |a| && a[e.item] == Some(e.genre))
            && (forall e :: e in out ==> e.genre in known && e.genre in items[e.item] + [OTHER])
  {
    assert |a| <= |items|;
    hide *;
    LayoutOfOrder(a);
    var out := Layout(Order(a), a);
    forall e | e in out ensures e.genre in known && e.genre in items[e.item] + [OTHER] {
      PlacedIsKnown(items, known, limit, cap, a, e.item);
    }
  }

  lemma LayoutOfOrder(a: Decisions)
    ensures var out := Layout(Order(a), a);
            && InOrder(out) && Contiguous(out) && ByFirstMember(out) && |out| == Included(a)
            && (forall e :: e in out <==> e.item < |a| && a[e.item] == Some(e.genre))
  {
    hide *;
    OrderMeaning(a);
    OrderIsByFirstMember(a);
    LayoutIsGrouped(Order(a), a);
    LayoutMeaning(Order(a), a);
    LayoutSize(Order(a), a);
  }

  lemma PlacedIsKnown(items: seq<seq<string>>, known: seq<string>, limit: int, cap: int, a: Decisions, i: nat)
    requires Greedy(items, known, limit, cap, a) && i < |a| <= |items| && a[i].Some?
    ensures a[i].value in known && a[i].value in items[i] + [OTHER]
  {
    hide *;
    GreedyMeaning(items, known, limit, cap, a, i);
  }

  /** With the genre table of the source a release can only be left out once "Other" is full. */
  lemma LeftOutMeansOtherIsFull(items: seq<seq<string>>, limit: int, cap: int, i: nat)
    requires var a := Decide(items, KNOWN_GENRES, limit, cap, []); i < |a| && a[i].None?
    ensures Count(Decide(items, KNOWN_GENRES, limit, cap, []), OTHER) >= cap
  {
    GroupingIsGreedyAndCapped(items, KNOWN_GENRES, limit, cap);
    assert KNOWN_GENRES[|KNOWN_GENRES| - 1] == OTHER;
    assert (items[i] + [OTHER])[|items[i]|] == OTHER;
  }
}
