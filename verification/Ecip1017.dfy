/** The reward table `getTotalSupply` regenerates when `enableECIP1017` is set
    (`explorer-gmc-master/routes/index.js`), and the supply cap it implies. */
module Ecip1017 {
  import opened Supply

  const ERA_LENGTH: int := 5000000
  const FIRST_REWARD: real := 5000000000000000000.0
  const CAP: real := 125000000000000000000000000.0

  datatype Range = Range(start: int, end: int, reward: real, uncle: real)

  /** Reward of era `j`: reduced by 20% per era. */
  ghost function RewardOf(j: nat): real {
    if j == 0 then FIRST_REWARD else RewardOf(j - 1) * 0.8
  }

  ghost function UncleOf(j: nat): real {
    if j == 0 then 1.0 / 32.0 + 7.0 / 8.0 else 1.0 / 32.0 * 2.0
  }

  ghost predicate IsTable(eras: seq<Range>, height: int) {
    && |eras| >= 2
    && (forall j :: 0 <= j < |eras| ==>
          eras[j] == Range(ERA_LENGTH * j + 1, ERA_LENGTH * (j + 1), RewardOf(j), UncleOf(j)))
    // eras beyond the second exist exactly when they start below the height
    && (forall j :: 2 <= j ==> (j < |eras| <==> ERA_LENGTH * j + 1 < height))
  }

  /** The regeneration loop. */
  method Regenerate(blockNumber: int) returns (blocks: seq<Range>)
    ensures IsTable(blocks, blockNumber)
  {
    var reward := 5000000000000000000.0;
    var uncleRate := 1.0 / 32.0 + 7.0 / 8.0;
    blocks := [Range(1, 5000000, reward, uncleRate)];
    reward := reward * 0.8;
    uncleRate := 1.0 / 32.0 * 2.0;
    blocks := blocks + [Range(5000001, 10000000, reward, uncleRate)];
    var currentBlock := 10000001;
    var i := 2;
    assert RewardOf(1) == RewardOf(0) * 0.8;
    while blockNumber > currentBlock
      invariant i == |blocks| >= 2 && currentBlock == ERA_LENGTH * i + 1
      invariant reward == RewardOf(i - 1)
      invariant forall j :: 0 <= j < i ==>
                  blocks[j] == Range(ERA_LENGTH * j + 1, ERA_LENGTH * (j + 1), RewardOf(j), UncleOf(j))
      invariant i == 2 || ERA_LENGTH * (i - 1) + 1 < blockNumber
      decreases blockNumber - currentBlock
    {
      var start := blocks[i - 1].end + 1;
      var end := start + 5000000 - 1;
      reward := reward * 0.8;
      blocks := blocks + [Range(start, end, reward, blocks[i - 1].uncle)];
      i := i + 1;
      currentBlock := currentBlock + 5000000;
    }
    assert forall j :: 2 <= j < i ==> ERA_LENGTH * j + 1 <= ERA_LENGTH * (i - 1) + 1 < blockNumber;
    assert forall j :: j >= i ==> ERA_LENGTH * j + 1 >= ERA_LENGTH * i + 1 >= blockNumber;
  }

  ghost function AsEras(eras: seq<Range>): (r: seq<Era>)
    ensures |r| == |eras| && forall j :: 0 <= j < |r| ==> r[j] == Era(eras[j].start, eras[j].reward, eras[j].uncle)
  {
    seq(|eras|, j requires 0 <= j < |eras| => Era(eras[j].start, eras[j].reward, eras[j].uncle))
  }

  lemma {:induction false} RewardsArePositive(j: nat)
    ensures RewardOf(j) > 0.0
  {
    if j > 0 { RewardsArePositive(j - 1); }
  }

  /** What a full era pays. */
  ghost function EraPay(j: nat): real { RewardOf(j) * 5000000.0 }

  /** Everything `n` full eras can pay. */
  ghost function FullEras(n: nat): real {
    if n == 0 then 0.0 else FullEras(n - 1) + EraPay(n - 1)
  }

  /** Geometric sum: what `n` full eras pay and five more of the next reward per block reach the cap exactly. */
  lemma {:induction false} GeometricSum(n: nat)
    ensures FullEras(n) + 5.0 * RewardOf(n) * 5000000.0 == CAP
  {
    if n > 0 { GeometricSum(n - 1); }
  }

  lemma {:induction false} PayIsMonotone(r: real, m: int, n: int)
    requires r >= 0.0 && m <= n
    ensures Pay(r, m) <= Pay(r, n)
    decreases n - m
  {
    if m < n {
      PayIsMonotone(r, m, n - 1);
      assert n > 0 ==> Pay(r, n) == Pay(r, n - 1) + r;
      assert n <= 0 ==> Pay(r, n - 1) == Pay(r, n) - r;
    }
  }

  lemma {:induction false} PayOneEra(j: nat, n: int)
    requires n <= 5000000
    ensures Pay(RewardOf(j), n) <= EraPay(j)
  {
    RewardsArePositive(j);
    PayIsMonotone(RewardOf(j), n, 5000000);
    PayIsProduct(RewardOf(j), 5000000);
  }

  lemma {:induction false} ClosedErasBound(eras: seq<Range>, height: int, n: nat)
    requires IsTable(eras, height) && n < |eras|
    ensures ClosedRewards(AsEras(eras), n) <= FullEras(n)
  {
    if n > 0 {
      ClosedErasBound(eras, height, n - 1);
      PayOneEra(n - 1, 4999999);
      assert AsEras(eras)[n].start - 1 - AsEras(eras)[n - 1].start == 4999999;
      hide Pay, RewardOf, EraPay;
    }
  }

  /** At every height the miner rewards stay below the cap of 125 million coins. */
  lemma {:induction false} MinerRewardsStayBelowCap(eras: seq<Range>, height: int)
    requires IsTable(eras, height)
    ensures MinerRewards(AsEras(eras), height) < CAP
  {
    var e := AsEras(eras);
    assert Schedule(e);
    if height > e[0].start {
      ClosedForm(e, height);
      var k := Active(e, height) - 1;
      LastSegmentIsShort(eras, height);
      ClosedErasBound(eras, height, k);
      PayOneEra(k, height - e[k].start);
      GeometricSum(k);
      RewardsArePositive(k);
    } else {
      NothingBeforeTheFirstEra(e, height);
    }
  }

  lemma UncleFactors(eras: seq<Range>, height: int)
    requires IsTable(eras, height) && height > 1
    ensures var s := Segments(AsEras(eras), |eras|, height);
            s != [] && forall i :: 0 <= i < |s| ==> s[i].uncle == if i == 0 then 0.90625 else 0.0625
  {
    var e := AsEras(eras);
    assert Schedule(e);
    SegmentsTile(e, height);
    var s := Segments(e, |e|, height);
    hide Segments, Schedule;
    forall i | 0 <= i < |s| ensures s[i].uncle == if i == 0 then 0.90625 else 0.0625 {
      assert s[i].uncle == e[i].uncle == UncleOf(i);
    }
  }

  ghost function Share(rate: real, factor: real, rewards: real): real { rate * factor * rewards }

  /** The estimated uncle rewards: 29/32 of the rate for the first era, a sixteenth for all later ones. */
  lemma {:induction false} UnclesByEra(eras: seq<Range>, height: int, rate: real)
    requires IsTable(eras, height) && height > 1
    ensures var s := Segments(AsEras(eras), |eras|, height);
            && s != []
            && UncleRewards(s, rate) == Share(rate, 0.90625, Rewards(s[..1])) + Share(rate, 0.0625, Rewards(s[1..]))
  {
    UncleFactors(eras, height);
    hide *;
    SharesOfTwo(Segments(AsEras(eras), |eras|, height), rate, 0.90625, 0.0625);
  }

  lemma SharesOfTwo(s: seq<Segment>, rate: real, first: real, later: real)
    requires s != [] && forall i :: 0 <= i < |s| ==> s[i].uncle == if i == 0 then first else later
    ensures UncleRewards(s, rate) == Share(rate, first, Rewards(s[..1])) + Share(rate, later, Rewards(s[1..]))
  {
    hide UncleRewards, Rewards;
    UnclesAreAFixedShare(s[..1], rate, first);
    UnclesAreAFixedShare(s[1..], rate, later);
    UnclesAreAdditive(s[..1], s[1..], rate);
    assert s[..1] + s[1..] == s;
  }

  lemma {:induction false} LastSegmentIsShort(eras: seq<Range>, height: int)
    requires IsTable(eras, height) && Schedule(AsEras(eras)) && height > 1
    ensures var k := Active(AsEras(eras), height); k >= 1 && height - AsEras(eras)[k - 1].start <= 5000000
  {
    var e := AsEras(eras);
    ActiveErasComeFirst(e, |e|, height);
    var k := Active(e, height);
    if k < |e| {
      assert e[k].start >= height;
    } else {
      assert ERA_LENGTH * k + 1 >= height;
    }
  }
}
