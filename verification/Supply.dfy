/** Supply accounting: `getTotalSupply` of `explorer-gmc-master/routes/index.js`.

    Rewards are exact decimals in the source (`BigNumber` sums and products), so they are reals here;
    amounts are in wei. */
module Supply {

  datatype Era = Era(start: int, reward: real, uncle: real)
  datatype Segment = Segment(start: int, end: int, reward: real, uncle: real)

  // ---------- segments and miner rewards ----------

  /** The reward for a number of blocks. */
  ghost function Pay(reward: real, blocks: int): real
    decreases if blocks < 0 then -blocks else blocks
  {
    if blocks == 0 then 0.0
    else if blocks > 0 then Pay(reward, blocks - 1) + reward
    else Pay(reward, blocks + 1) - reward
  }

  lemma {:induction false} PayIsProduct(reward: real, blocks: int)
    ensures Pay(reward, blocks) == reward * blocks as real
    decreases if blocks < 0 then -blocks else blocks
  {
    if blocks > 0 {
      PayIsProduct(reward, blocks - 1);
      assert reward * blocks as real == reward * (blocks - 1) as real + reward;
    } else if blocks < 0 {
      PayIsProduct(reward, blocks + 1);
      assert reward * blocks as real == reward * (blocks + 1) as real - reward;
    }
  }

  /** The entry the `forEach` body pushes for era `i`. */
  function SegmentOf(eras: seq<Era>, i: nat, height: int): Segment
    requires i < |eras|
  {
    Segment(if eras[i].start < 0 then 0 else eras[i].start,
            if i + 1 < |eras| && height > eras[i + 1].start then eras[i + 1].start - 1 else height,
            eras[i].reward, eras[i].uncle)
  }

  /** The segments pushed for the first `n` eras. */
  function Segments(eras: seq<Era>, n: nat, height: int): seq<Segment>
    requires n <= |eras|
  {
    if n == 0 then []
    else if height > eras[n - 1].start then Segments(eras, n - 1, height) + [SegmentOf(eras, n - 1, height)]
    else Segments(eras, n - 1, height)
  }

  ghost function Rewards(segments: seq<Segment>): real {
    if segments == [] then 0.0
    else
      var s := segments[|segments| - 1];
      Rewards(segments[..|segments| - 1]) + Pay(s.reward, s.end - s.start)
  }

  lemma {:induction false} RewardsAppend(segments: seq<Segment>, s: Segment)
    ensures Rewards(segments + [s]) == Rewards(segments) + Pay(s.reward, s.end - s.start)
  {
    hide Pay;
    assert (segments + [s])[..|segments|] == segments;
  }

  function BlockReward(reward: real, blocks: int): real { reward * blocks as real }

  /** What one round of the `forEach` loop adds. */
  lemma {:induction false} NextSegment(eras: seq<Era>, i: nat, height: int)
    requires i < |eras|
    ensures var s, before := SegmentOf(eras, i, height), Segments(eras, i, height);
            if height > eras[i].start
            then && Segments(eras, i + 1, height) == before + [s]
                 && Rewards(before + [s]) == Rewards(before) + BlockReward(s.reward, s.end - s.start)
            else Segments(eras, i + 1, height) == before
  {
    var s := SegmentOf(eras, i, height);
    RewardsAppend(Segments(eras, i, height), s);
    hide Rewards, SegmentOf, Pay;
    PayIsProduct(s.reward, s.end - s.start);
  }

  /** Miner rewards reported at a height. */
  ghost function MinerRewards(eras: seq<Era>, height: int): real {
    Rewards(Segments(eras, |eras|, height))
  }

  /** The `forEach` loop over the reward table. */
  method ComputeRewards(eras: seq<Era>, blockNumber: int) returns (blocks: seq<Segment>, total: real)
    ensures blocks == Segments(eras, |eras|, blockNumber)
    ensures total == MinerRewards(eras, blockNumber)
  {
    blocks, total := [], 0.0;
    assert blocks == Segments(eras, 0, blockNumber) && Rewards(blocks) == 0.0;
    hide Pay, Rewards, Segments, BlockReward;
    for i := 0 to |eras|
      invariant blocks == Segments(eras, i, blockNumber)
      invariant total == Rewards(blocks)
    {
      var block := eras[i];
      NextSegment(eras, i, blockNumber);
      if blockNumber > block.start {
        var startBlock := block.start;
        if startBlock < 0 {
          startBlock := 0;
        }
        var endBlock := blockNumber;
        if i + 1 < |eras| && blockNumber > eras[i + 1].start {
          endBlock := eras[i + 1].start - 1;
        }
        var s := Segment(startBlock, endBlock, block.reward, block.uncle);
        assert s == SegmentOf(eras, i, blockNumber);
        blocks := blocks + [s];
        var blockNum := endBlock - startBlock;
        total := total + BlockReward(block.reward, blockNum);
      }
    }
  }

  // ---------- tiling ----------

  ghost predicate Increasing(eras: seq<Era>) {
    forall i, j :: 0 <= i < j < |eras| ==> eras[i].start < eras[j].start
  }

  ghost predicate Schedule(eras: seq<Era>) {
    |eras| > 0 && eras[0].start >= 0 && Increasing(eras)
  }

  /** How many of the first `n` eras started strictly below the height. */
  ghost function ActiveUpTo(eras: seq<Era>, n: nat, height: int): (k: nat)
    requires n <= |eras|
    ensures k <= n
  {
    if n == 0 then 0 else ActiveUpTo(eras, n - 1, height) + if eras[n - 1].start < height then 1 else 0
  }

  ghost function Active(eras: seq<Era>, height: int): (k: nat)
    ensures k <= |eras|
  {
    ActiveUpTo(eras, |eras|, height)
  }

  lemma {:induction false} ActiveErasComeFirst(eras: seq<Era>, n: nat, height: int)
    requires n <= |eras| && Increasing(eras)
    ensures forall i :: 0 <= i < n ==> (eras[i].start < height <==> i < ActiveUpTo(eras, n, height))
    ensures |Segments(eras, n, height)| == ActiveUpTo(eras, n, height)
    ensures forall i :: 0 <= i < ActiveUpTo(eras, n, height) ==>
              Segments(eras, n, height)[i] == SegmentOf(eras, i, height)
  {
    if n > 0 {
      ActiveErasComeFirst(eras, n - 1, height);
    }
  }

  /** There is one segment for every era below the height; a negative start counts as 0. */
  lemma {:induction false} ClampedSegments(eras: seq<Era>, height: int, i: nat)
    requires Increasing(eras) && i < |eras| && eras[i].start < height
    ensures var s := Segments(eras, |eras|, height);
            && i < |s| <= |eras|
            && s[i].start == (if eras[i].start < 0 then 0 else eras[i].start)
            && s[i].end == (if i + 1 < |eras| && eras[i + 1].start < height then eras[i + 1].start - 1 else height)
            && s[i].reward == eras[i].reward && s[i].uncle == eras[i].uncle
  {
    ActiveErasComeFirst(eras, |eras|, height);
    assert Segments(eras, |eras|, height)[i] == SegmentOf(eras, i, height);
  }

  lemma {:induction false} SegmentAt(eras: seq<Era>, height: int, i: nat)
    requires Schedule(eras) && i < Active(eras, height)
    ensures var s, k := Segments(eras, |eras|, height), Active(eras, height);
            && |s| == k && s[i].start == eras[i].start <= s[i].end
            && s[i].reward == eras[i].reward && s[i].uncle == eras[i].uncle
            && s[i].end == if i + 1 < k then eras[i + 1].start - 1 else height
  {
    ActiveErasComeFirst(eras, |eras|, height);
    assert Segments(eras, |eras|, height)[i] == SegmentOf(eras, i, height) && eras[i].start >= eras[0].start;
  }

  /** The segments are contiguous and disjoint and cover exactly the first start up to the height. */
  lemma {:induction false} SegmentsTile(eras: seq<Era>, height: int)
    requires Schedule(eras) && height > eras[0].start
    ensures var s, k := Segments(eras, |eras|, height), Active(eras, height);
            && |s| == k >= 1
            && s[0].start == eras[0].start && s[k - 1].end == height
            && (forall i :: 0 <= i < k ==>
                  && s[i].start == eras[i].start <= s[i].end
                  && s[i].reward == eras[i].reward && s[i].uncle == eras[i].uncle)
            && (forall i :: 0 <= i < k - 1 ==> s[i].end + 1 == s[i + 1].start)
            && (forall i, j :: 0 <= i < j < k ==> s[i].end < s[j].start)
  {
    var s, k := Segments(eras, |eras|, height), Active(eras, height);
    assert k >= 1 by { ActiveErasComeFirst(eras, |eras|, height); }
    SegmentAt(eras, height, 0);
    SegmentAt(eras, height, k - 1);
    forall i | 0 <= i < k
      ensures s[i].start == eras[i].start <= s[i].end
      ensures s[i].reward == eras[i].reward && s[i].uncle == eras[i].uncle
      ensures s[i].end == if i + 1 < k then eras[i + 1].start - 1 else height
    {
      SegmentAt(eras, height, i);
    }
    forall i, j | 0 <= i < j < k ensures s[i].end < s[j].start {
      assert eras[i + 1].start <= eras[j].start;
    }
  }

  /** Every block of the covered stretch lies in a segment (and in one only, as the segments are disjoint). */
  lemma {:induction false} EveryBlockHasItsSegment(eras: seq<Era>, height: int, b: int) returns (i: nat)
    requires Schedule(eras) && eras[0].start <= b <= height && height > eras[0].start
    ensures var s := Segments(eras, |eras|, height);
            i < |s| && s[i].start <= b <= s[i].end &&
            forall j :: 0 <= j < |s| && s[j].start <= b <= s[j].end ==> j == i
  {
    SegmentsTile(eras, height);
    var s := Segments(eras, |eras|, height);
    i := 0;
    while s[i].end < b
      invariant i < |s| && s[i].start <= b
      decreases |s| - i
    {
      i := i + 1;
    }
  }

  // ---------- the closed form and its growth ----------

  /** Rewards of the first `n` segments when they are all closed by a following era. */
  ghost function ClosedRewards(eras: seq<Era>, n: nat): real
    requires n < |eras|
  {
    if n == 0 then 0.0
    else ClosedRewards(eras, n - 1) + Pay(eras[n - 1].reward, eras[n].start - 1 - eras[n - 1].start)
  }

  lemma {:induction false} RewardsOfPrefix(eras: seq<Era>, height: int, n: nat)
    requires Schedule(eras) && height > eras[0].start && n < Active(eras, height)
    ensures |Segments(eras, |eras|, height)| > n
    ensures Rewards(Segments(eras, |eras|, height)[..n]) == ClosedRewards(eras, n)
  {
    var segments := Segments(eras, |eras|, height);
    SegmentAt(eras, height, n);
    if n > 0 {
      RewardsOfPrefix(eras, height, n - 1);
      SegmentAt(eras, height, n - 1);
      var s := segments[n - 1];
      RewardsAppend(segments[..n - 1], s);
      hide Segments, Pay, Rewards, Active;
      assert segments[..n - 1] + [s] == segments[..n];
    }
  }

  lemma {:induction false} ClosedForm(eras: seq<Era>, height: int)
    requires Schedule(eras) && height > eras[0].start
    ensures Active(eras, height) >= 1
    ensures var k := Active(eras, height) - 1;
            MinerRewards(eras, height) == ClosedRewards(eras, k) + Pay(eras[k].reward, height - eras[k].start)
  {
    var segments := Segments(eras, |eras|, height);
    assert Active(eras, height) >= 1 by { ActiveErasComeFirst(eras, |eras|, height); }
    var k := Active(eras, height) - 1;
    SegmentAt(eras, height, k);
    RewardsOfPrefix(eras, height, k);
    RewardsAppend(segments[..k], segments[k]);
    assert segments[..k] + [segments[k]] == segments;
    assert segments[k].end - segments[k].start == height - eras[k].start;
    hide Segments, Pay, Rewards, Active, ClosedRewards;
  }

  lemma {:induction false} NothingBeforeTheFirstEra(eras: seq<Era>, height: int)
    requires Schedule(eras) && height <= eras[0].start
    ensures MinerRewards(eras, height) == 0.0 && Active(eras, height) == 0
  {
    ActiveErasComeFirst(eras, |eras|, height);
  }

  /** The era that is next in line starts exactly at this height. */
  ghost predicate AtEraStart(eras: seq<Era>, height: int) {
    var k := Active(eras, height);
    k < |eras| && eras[k].start == height
  }

  lemma {:induction false} ActiveGrows(eras: seq<Era>, height: int)
    requires Schedule(eras)
    ensures Active(eras, height + 1) == Active(eras, height) + if AtEraStart(eras, height) then 1 else 0
    ensures AtEraStart(eras, height) <==> exists j :: 0 <= j < |eras| && eras[j].start == height
  {
    ActiveErasComeFirst(eras, |eras|, height);
    ActiveErasComeFirst(eras, |eras|, height + 1);
    var k, l := Active(eras, height), Active(eras, height + 1);
    assert k < |eras| ==> eras[k].start >= height;
    assert k + 1 < |eras| ==> eras[k].start < eras[k + 1].start;
    assert l < |eras| ==> eras[l].start > height;
    assert 0 < k ==> eras[k - 1].start < height;
    assert 0 < l ==> eras[l - 1].start <= height;
  }

  /** What one more block adds. Inside an era it is that era's reward; the step past an era start takes
      back one reward of the previous era and adds one of the new era. */
  lemma {:induction false} GrowthPerBlock(eras: seq<Era>, height: int)
    requires Schedule(eras) && height > eras[0].start
    ensures var k := Active(eras, height);
            k >= 1 &&
            MinerRewards(eras, height + 1) - MinerRewards(eras, height) ==
            if AtEraStart(eras, height) then eras[k].reward - eras[k - 1].reward else eras[k - 1].reward
  {
    var k := Active(eras, height);
    ClosedForm(eras, height);
    ClosedForm(eras, height + 1);
    ActiveGrows(eras, height);
    if AtEraStart(eras, height) {
      assert ClosedRewards(eras, k) ==
             ClosedRewards(eras, k - 1) + Pay(eras[k - 1].reward, height - 1 - eras[k - 1].start);
      assert Pay(eras[k].reward, 1) == Pay(eras[k].reward, 0) + eras[k].reward;
    }
  }

  /** A later era with a smaller reward than its predecessor starts at this height. */
  ghost predicate PoorerEraStarts(eras: seq<Era>, height: int) {
    exists j :: 1 <= j < |eras| && eras[j].start == height && eras[j].reward < eras[j - 1].reward
  }

  lemma {:induction false} PoorerEraIsNext(eras: seq<Era>, height: int)
    requires Schedule(eras)
    ensures var k := Active(eras, height);
            PoorerEraStarts(eras, height) <==> k >= 1 && AtEraStart(eras, height) && eras[k].reward < eras[k - 1].reward
  {
    ActiveErasComeFirst(eras, |eras|, height);
    var k := Active(eras, height);
    assert k < |eras| ==> eras[k].start >= height;
    assert forall j :: 0 <= j < |eras| && eras[j].start == height ==> j == k;
  }

  /** The reported rewards fall from one height to the next exactly at the start of a poorer later era. */
  lemma {:induction false} RewardsFallExactlyAtPoorerEras(eras: seq<Era>, height: int)
    requires Schedule(eras) && forall i :: 0 <= i < |eras| ==> eras[i].reward >= 0.0
    ensures MinerRewards(eras, height + 1) < MinerRewards(eras, height) <==> PoorerEraStarts(eras, height)
  {
    PoorerEraIsNext(eras, height);
    if height > eras[0].start {
      GrowthPerBlock(eras, height);
    } else {
      NothingBeforeTheFirstEra(eras, height);
      FirstStep(eras, height);
    }
  }

  lemma {:induction false} FirstStep(eras: seq<Era>, height: int)
    requires Schedule(eras) && height <= eras[0].start && eras[0].reward >= 0.0
    ensures MinerRewards(eras, height + 1) >= 0.0
  {
    if height == eras[0].start {
      ActiveGrows(eras, height);
      NothingBeforeTheFirstEra(eras, height);
      ClosedForm(eras, height + 1);
      assert Pay(eras[0].reward, 1) == Pay(eras[0].reward, 0) + eras[0].reward;
    } else {
      NothingBeforeTheFirstEra(eras, height + 1);
    }
  }

  // ---------- against the per-block sum ----------

  /** The reward a block earns by the table: that of the last era started at or before it. */
  ghost function RewardAt(eras: seq<Era>, n: nat, b: int): real
    requires n <= |eras|
  {
    if n == 0 then 0.0 else if eras[n - 1].start <= b then eras[n - 1].reward else RewardAt(eras, n - 1, b)
  }

  ghost function PerBlockSum(eras: seq<Era>, first: int, last: int): real
    decreases last - first
  {
    if last < first then 0.0 else PerBlockSum(eras, first, last - 1) + RewardAt(eras, |eras|, last)
  }

  ghost function OnePerEra(eras: seq<Era>, n: nat): real
    requires n <= |eras|
  {
    if n == 0 then 0.0 else OnePerEra(eras, n - 1) + eras[n - 1].reward
  }

  lemma {:induction false} RewardAtIs(eras: seq<Era>, n: nat, b: int, k: nat)
    requires Schedule(eras) && k < n <= |eras| && eras[k].start <= b && (k + 1 < |eras| ==> b < eras[k + 1].start)
    ensures RewardAt(eras, n, b) == eras[k].reward
    decreases n
  {
    if n - 1 > k {
      assert eras[n - 1].start >= eras[k + 1].start;
      RewardAtIs(eras, n - 1, b, k);
    }
  }

  /** The correction for the block at an era start, which is still counted under the previous era. */
  ghost function Boundary(eras: seq<Era>, height: int): real
    requires Active(eras, height) >= 1
  {
    var k := Active(eras, height);
    if AtEraStart(eras, height) then eras[k - 1].reward - eras[k].reward else 0.0
  }

  lemma {:induction false} TopBlock(eras: seq<Era>, height: int)
    requires Schedule(eras) && height > eras[0].start
    ensures Active(eras, height) >= 1
    ensures RewardAt(eras, |eras|, height) + Boundary(eras, height) == eras[Active(eras, height) - 1].reward
  {
    ActiveErasComeFirst(eras, |eras|, height);
    var k := Active(eras, height);
    RewardAtIs(eras, |eras|, height, if AtEraStart(eras, height) then k else k - 1);
  }

  /** Reported miner rewards plus one block per active era are the per-block sum over the covered stretch,
      up to the boundary correction, which vanishes unless the height is itself an era start. */
  lemma {:induction false} RewardsAgainstPerBlockSum(eras: seq<Era>, height: int)
    requires Schedule(eras) && height > eras[0].start
    ensures Active(eras, height) >= 1
    ensures MinerRewards(eras, height) + OnePerEra(eras, Active(eras, height)) ==
            PerBlockSum(eras, eras[0].start, height) + Boundary(eras, height)
    decreases height - eras[0].start
  {
    var h := height - 1;
    assert Active(eras, height) >= 1 by { TopBlock(eras, height); }
    if h == eras[0].start {
      FirstSum(eras, height);
    } else {
      RewardsAgainstPerBlockSum(eras, h);
      NextSum(eras, h);
    }
  }

  lemma {:induction false} FirstSum(eras: seq<Era>, height: int)
    requires Schedule(eras) && height == eras[0].start + 1
    ensures Active(eras, height) >= 1
    ensures MinerRewards(eras, height) + OnePerEra(eras, Active(eras, height)) ==
            PerBlockSum(eras, eras[0].start, height) + Boundary(eras, height)
  {
    var s0 := eras[0].start;
    TopBlock(eras, height);
    ActiveGrows(eras, s0);
    NothingBeforeTheFirstEra(eras, s0);
    ClosedForm(eras, height);
    RewardAtIs(eras, |eras|, s0, 0);
    assert Active(eras, height) == 1;
    assert Pay(eras[0].reward, 1) == Pay(eras[0].reward, 0) + eras[0].reward;
    hide Schedule, RewardAt, MinerRewards, Active, Boundary, Pay;
    assert OnePerEra(eras, 1) == OnePerEra(eras, 0) + eras[0].reward;
    assert PerBlockSum(eras, s0, s0) == PerBlockSum(eras, s0, s0 - 1) + eras[0].reward;
  }

  lemma {:induction false} NextSum(eras: seq<Era>, h: int)
    requires Schedule(eras) && h > eras[0].start && Active(eras, h) >= 1 && Active(eras, h + 1) >= 1
    requires MinerRewards(eras, h) + OnePerEra(eras, Active(eras, h)) ==
             PerBlockSum(eras, eras[0].start, h) + Boundary(eras, h)
    ensures MinerRewards(eras, h + 1) + OnePerEra(eras, Active(eras, h + 1)) ==
            PerBlockSum(eras, eras[0].start, h + 1) + Boundary(eras, h + 1)
  {
    ActiveGrows(eras, h);
    GrowthPerBlock(eras, h);
    TopBlock(eras, h);
    TopBlock(eras, h + 1);
    var s0, k := eras[0].start, Active(eras, h);
    assert PerBlockSum(eras, s0, h + 1) == PerBlockSum(eras, s0, h) + RewardAt(eras, |eras|, h + 1);
    assert AtEraStart(eras, h) ==> OnePerEra(eras, k + 1) == OnePerEra(eras, k) + eras[k].reward;
    var rise := if AtEraStart(eras, h) then eras[k].reward - eras[k - 1].reward else eras[k - 1].reward;
    assert MinerRewards(eras, h + 1) == MinerRewards(eras, h) + rise;
    assert Boundary(eras, h) == if AtEraStart(eras, h) then eras[k - 1].reward - eras[k].reward else 0.0;
    hide *;
  }

  // ---------- the default table ----------

  const MUSICOIN_ERAS := [
    Era(1, 9000000000000000000.0, 0.90625),
    Era(600000, 5000000000000000000.0, 0.90625)]

  /** With the built-in table the reported rewards are lower at 600001 than at 600000. */
  lemma {:induction false} BuiltInTable(height: int)
    ensures height > 600000 ==>
              MinerRewards(MUSICOIN_ERAS, height) ==
              9000000000000000000.0 * 599998.0 + 5000000000000000000.0 * (height - 600000) as real
    ensures MinerRewards(MUSICOIN_ERAS, height + 1) < MinerRewards(MUSICOIN_ERAS, height) <==> height == 600000
  {
    if height > 600000 {
      ClosedForm(MUSICOIN_ERAS, height);
      ActiveErasComeFirst(MUSICOIN_ERAS, 2, height);
      assert Active(MUSICOIN_ERAS, height) == 2;
      PayIsProduct(9000000000000000000.0, 599998);
      PayIsProduct(5000000000000000000.0, height - 600000);
      assert ClosedRewards(MUSICOIN_ERAS, 1) == ClosedRewards(MUSICOIN_ERAS, 0) + Pay(9000000000000000000.0, 599998);
    }
    RewardsFallExactlyAtPoorerEras(MUSICOIN_ERAS, height);
    assert MUSICOIN_ERAS[1].start == 600000;
  }

  // ---------- estimated uncle rewards ----------

  ghost function UncleRewards(segments: seq<Segment>, rate: real): real {
    if segments == [] then 0.0
    else
      var s := segments[|segments| - 1];
      UncleRewards(segments[..|segments| - 1], rate) + s.reward * ((s.end - s.start) as real * rate) * s.uncle
  }

  method EstimateUncles(blocks: seq<Segment>, rate: real) returns (totalUncleRewards: real)
    ensures totalUncleRewards == UncleRewards(blocks, rate)
  {
    totalUncleRewards := 0.0;
    for i := 0 to |blocks|
      invariant totalUncleRewards == UncleRewards(blocks[..i], rate)
    {
      var block := blocks[i];
      var blockcount := block.end - block.start;
      assert blocks[..i + 1][..i] == blocks[..i];
      totalUncleRewards := totalUncleRewards + block.reward * (blockcount as real * rate) * block.uncle;
    }
    assert blocks[..|blocks|] == blocks;
  }

  lemma {:induction false} Regroup(a: real, n: real, rate: real, u: real)
    ensures a * (n * rate) * u == rate * u * (a * n)
  {
    calc {
      a * (n * rate) * u;
      (a * n) * rate * u;
      rate * u * (a * n);
    }
  }

  lemma {:induction false} Distribute(c: real, x: real, y: real)
    ensures c * x + c * y == c * (x + y)
  {
  }

  /** With one uncle factor for all eras the estimate is a fixed share of the miner rewards. */
  lemma {:induction false} UnclesAreAFixedShare(segments: seq<Segment>, rate: real, u: real)
    requires forall i :: 0 <= i < |segments| ==> segments[i].uncle == u
    ensures UncleRewards(segments, rate) == rate * u * Rewards(segments)
  {
    if segments != [] {
      var front, s := segments[..|segments| - 1], segments[|segments| - 1];
      UnclesAreAFixedShare(front, rate, u);
      Regroup(s.reward, (s.end - s.start) as real, rate, u);
      PayIsProduct(s.reward, s.end - s.start);
      Distribute(rate * u, Rewards(front), Pay(s.reward, s.end - s.start));
    }
  }

  /** The estimate is a sum over the segments, each with its own factor. */
  lemma {:induction false} UnclesAreAdditive(a: seq<Segment>, b: seq<Segment>, rate: real)
    ensures UncleRewards(a + b, rate) == UncleRewards(a, rate) + UncleRewards(b, rate)
    decreases |b|
  {
    if b == [] {
      assert a + b == a;
    } else {
      var front, s := b[..|b| - 1], b[|b| - 1];
      UnclesAreAdditive(a, front, rate);
      assert (a + b)[..|a + b| - 1] == a + front && (a + b)[|a + b| - 1] == s;
      var share := s.reward * ((s.end - s.start) as real * rate) * s.uncle;
      assert UncleRewards(b, rate) == UncleRewards(front, rate) + share;
      assert UncleRewards(a + b, rate) == UncleRewards(a + front, rate) + share;
      hide UncleRewards;
    }
  }
}
