/** The transaction-fee multiplier: its update per block, and what long runs of blocks do to it. */
module FeeMultiplier {
  import opened Powers

  type Weight = nat

  /** 75% of two seconds of execution, and 25% of that. */
  const MAX_NORMAL: Weight := 1_500_000_000_000
  const TARGET: Weight := 375_000_000_000
  const ADJUSTMENT_VARIABLE: real := 0.00001
  const MINIMUM_MULTIPLIER: real := 0.000000001

  /** Blocks per day, at one block every 3000 milliseconds. */
  const MINUTES: nat := 60 / (3000 / 1000)
  const HOURS: nat := MINUTES * 60
  const DAYS: nat := HOURS * 24

  function Max(x: real, y: real): real {
    if x < y then y else x
  }

  /** How far the block is from the target, as a share of the normal weight; block weight is cut off at the maximum. */
  function Excess(blockWeight: Weight): real {
    var m := MAX_NORMAL as real;
    var s := if blockWeight < MAX_NORMAL then blockWeight as real else m;
    s / m - TARGET as real / m
  }

  function Factor(blockWeight: Weight): real {
    var t1 := ADJUSTMENT_VARIABLE * Excess(blockWeight);
    var t2 := (ADJUSTMENT_VARIABLE * ADJUSTMENT_VARIABLE) * (Excess(blockWeight) * Excess(blockWeight)) / 2.0;
    1.0 + t1 + t2
  }

  /** The multiplier after a block; neither the old nor the new one counts for less than the minimum. */
  function Update(blockWeight: Weight, previous: real): real {
    Clamped(previous, Factor(blockWeight), MINIMUM_MULTIPLIER)
  }

  function Clamped(previous: real, factor: real, floor: real): real {
    Max(Max(previous, floor) * factor, floor)
  }

  function Run(blocks: seq<Weight>, start: real): real {
    if blocks == [] then start
    else Update(blocks[|blocks| - 1], Run(blocks[..|blocks| - 1], start))
  }

  /** The factors of an empty and of a full block. */
  const EMPTY: real := 0.999997500003125
  const FULL: real := 1.000007500028125

  // ----- One block -----

  /** 1 + t + t^2/2 rises with t on t > -1. */
  lemma QuadraticRises(t: real, u: real)
    requires -1.0 < t < u
    ensures 1.0 + t + t * t / 2.0 < 1.0 + u + u * u / 2.0
  {
    var gap, slope := u - t, 1.0 + (t + u) / 2.0;
    assert gap * slope > 0.0;
    assert gap * slope == u - t + (u * u - t * t) / 2.0;
  }

  lemma FactorAsQuadratic(w: Weight)
    ensures var t := ADJUSTMENT_VARIABLE * Excess(w);
            Factor(w) == 1.0 + t + t * t / 2.0 && -1.0 < t
  {
    var x := Excess(w);
    assert -0.25 <= x;
    assert (ADJUSTMENT_VARIABLE * x) * (ADJUSTMENT_VARIABLE * x)
        == (ADJUSTMENT_VARIABLE * ADJUSTMENT_VARIABLE) * (x * x);
  }

  /** Heavier blocks have larger factors, strictly so below the maximum. */
  lemma FactorRises(w: Weight, v: Weight)
    requires w <= v
    ensures Factor(w) <= Factor(v)
    ensures w < v && w < MAX_NORMAL ==> Factor(w) < Factor(v)
  {
    FactorAsQuadratic(w);
    FactorAsQuadratic(v);
    if Excess(w) < Excess(v) {
      QuadraticRises(ADJUSTMENT_VARIABLE * Excess(w), ADJUSTMENT_VARIABLE * Excess(v));
    }
  }

  lemma FactorRange(w: Weight)
    ensures Factor(0) == EMPTY && Factor(TARGET) == 1.0 && Factor(MAX_NORMAL) == FULL
    ensures EMPTY <= Factor(w) <= FULL
  {
    FactorRises(0, w);
    if w <= MAX_NORMAL {
      FactorRises(w, MAX_NORMAL);
    }
  }

  /**
   The factor of every block from its share of the normal weight, where a quarter is the target: the second-order
   expansion of e^t at t = 0.00001 (share - 1/4). Past the full share it is that of the full share.
   */
  lemma FactorOfShare(w: Weight, share: real, t: real)
    requires share * 1_500_000_000_000.0 == w as real && t == 0.00001 * (share - 0.25)
    ensures share <= 1.0 ==> Factor(w) == 1.0 + t + t * t / 2.0
    ensures share >= 1.0 ==> Factor(w) == Factor(1_500_000_000_000)
  {
    if share <= 1.0 {
      assert Excess(w) == share - 0.25;
      FactorAsQuadratic(w);
    }
  }

  /**
   Which way one block moves the multiplier: up exactly for a block above the target or a multiplier below the
   minimum, down exactly for a block below the target and a multiplier above the minimum.
   */
  lemma UpdateDirection(w: Weight, p: real)
    ensures Update(w, p) > p <==> w > TARGET || p < MINIMUM_MULTIPLIER
    ensures Update(w, p) < p <==> w < TARGET && p > MINIMUM_MULTIPLIER
  {
    FactorRange(w);
    var q, f := Max(p, MINIMUM_MULTIPLIER), Factor(w);
    if w < TARGET {
      FactorRises(w, TARGET);
      assert q * f < q * 1.0;
    } else if w > TARGET {
      FactorRises(TARGET, w);
      assert q * f > q * 1.0;
    }
  }

  lemma ClampedRises(p: real, q: real, f: real, g: real, floor: real)
    requires p <= q && 0.0 <= f <= g && floor > 0.0
    ensures Clamped(p, f, floor) <= Clamped(q, g, floor)
  {
    ProductRises(Max(p, floor), Max(q, floor), f, g);
  }

  lemma UpdateRisesByFactor(w: Weight, v: Weight, p: real, q: real, f: real, g: real)
    requires p <= q && f == Factor(w) && g == Factor(v) && 0.0 <= f <= g
    ensures Update(w, p) <= Update(v, q)
  {
    ClampedRises(p, q, f, g, MINIMUM_MULTIPLIER);
  }

  /** A heavier block and a higher multiplier before it never give a lower one after it. */
  lemma UpdateRises(w: Weight, v: Weight, p: real, q: real)
    requires w <= v && p <= q
    ensures Update(w, p) <= Update(v, q)
  {
    FactorRises(w, v);
    FactorRange(w);
    UpdateRisesByFactor(w, v, p, q, Factor(w), Factor(v));
  }

  // ----- Runs of blocks -----

  /** Pointwise heavier blocks and a higher start never give a lower multiplier. */
  lemma {:induction false} RunRises(blocks: seq<Weight>, heavier: seq<Weight>, p: real, q: real)
    requires |blocks| == |heavier| && p <= q
    requires forall i :: 0 <= i < |blocks| ==> blocks[i] <= heavier[i]
    ensures Run(blocks, p) <= Run(heavier, q)
  {
    if blocks != [] {
      var n := |blocks| - 1;
      RunRises(blocks[..n], heavier[..n], p, q);
      UpdateRises(blocks[n], heavier[n], Run(blocks[..n], p), Run(heavier[..n], q));
    }
  }

  /** x lies between the n-th powers of the two extreme factors times the start. */
  ghost predicate WithinPowers(n: nat, start: real, x: real) {
    Pow(EMPTY, n) * start <= x <= Pow(FULL, n) * start
  }

  lemma RangeStep(lo: real, hi: real, start: real, q: real, f: real, least: real, most: real)
    requires 0.0 <= lo <= 1.0 <= hi && start >= MINIMUM_MULTIPLIER && lo * start <= q <= hi * start
    requires 0.0 <= least <= f <= most && least <= 1.0 <= most && q >= MINIMUM_MULTIPLIER
    ensures lo * least * start <= Max(q * f, MINIMUM_MULTIPLIER) <= hi * most * start
  {
    MulMonotone(0.0, lo, start);
    ProductRises(lo * start, q, least, f);
    ProductRises(q, hi * start, f, most);
    ProductRises(1.0, hi, 1.0, most);
    MulMonotone(1.0, hi * most, start);
    assert (lo * start) * least == lo * least * start;
    assert (hi * start) * most == hi * most * start;
    assert q * f <= hi * most * start;
    assert MINIMUM_MULTIPLIER <= hi * most * start;
    assert lo * least * start <= q * f;
  }

  lemma WithinPowersStep(n: nat, start: real, p: real, w: Weight)
    requires start >= MINIMUM_MULTIPLIER && WithinPowers(n, start, Max(p, MINIMUM_MULTIPLIER))
    ensures WithinPowers(n + 1, start, Update(w, p))
  {
    FactorRange(w);
    PowPositive(EMPTY, n);
    PowInExponent(EMPTY, 0, n);
    PowInExponent(FULL, 0, n);
    RangeStep(Pow(EMPTY, n), Pow(FULL, n), start, Max(p, MINIMUM_MULTIPLIER), Factor(w), EMPTY, FULL);
  }

  /** After n blocks the multiplier lies between the n-th powers of the two extreme factors times the clamped start. */
  lemma {:induction false} RunRange(blocks: seq<Weight>, p: real)
    ensures WithinPowers(|blocks|, Max(p, MINIMUM_MULTIPLIER), Max(Run(blocks, p), MINIMUM_MULTIPLIER))
    ensures blocks != [] ==> Run(blocks, p) >= MINIMUM_MULTIPLIER
  {
    if blocks == [] {
      assert Pow(EMPTY, 0) == 1.0 == Pow(FULL, 0);
    } else {
      var n := |blocks| - 1;
      RunRange(blocks[..n], p);
      WithinPowersStep(n, Max(p, MINIMUM_MULTIPLIER), Run(blocks[..n], p), blocks[n]);
    }
  }

  /** Blocks above the target raise the multiplier at every step, whatever it starts from. */
  lemma HeavyRunGrows(blocks: seq<Weight>, p: real, i: nat)
    requires forall k :: 0 <= k < |blocks| ==> blocks[k] > TARGET
    requires i < |blocks|
    ensures Run(blocks[..i + 1], p) > Run(blocks[..i], p)
  {
    assert blocks[..i + 1][..i] == blocks[..i];
    UpdateDirection(blocks[i], Run(blocks[..i], p));
  }

  // ----- What any run amounts to -----

  /** The multiplier if nothing kept it at the minimum: the start times the factors of all blocks. */
  function FreeRun(blocks: seq<Weight>, start: real): real {
    if blocks == [] then start else FreeRun(blocks[..|blocks| - 1], start) * Factor(blocks[|blocks| - 1])
  }

  lemma {:induction false} FreeSnoc(blocks: seq<Weight>, start: real, x: real, f: real)
    requires blocks != [] && f == Factor(blocks[|blocks| - 1]) && x == FreeRun(blocks[..|blocks| - 1], start)
    ensures FreeRun(blocks, start) == x * f
  {
  }

  /** What the blocks from the i-th on make of the minimum. */
  ghost function Restart(blocks: seq<Weight>, i: int): real
    requires 0 <= i <= |blocks|
  {
    FreeRun(blocks[i..], MINIMUM_MULTIPLIER)
  }

  /** y is the largest of what all blocks make of the start and what the last ones, any number, make of the minimum. */
  ghost predicate IsLargestRestart(blocks: seq<Weight>, start: real, y: real) {
    && FreeRun(blocks, start) <= y
    && (forall i :: 0 <= i <= |blocks| ==> Restart(blocks, i) <= y)
    && (y == FreeRun(blocks, start) || exists i :: 0 <= i <= |blocks| && y == Restart(blocks, i))
  }

  lemma {:induction false} RestartStep(blocks: seq<Weight>, i: nat, x: real, f: real)
    requires i < |blocks| && f == Factor(blocks[|blocks| - 1]) && x == Restart(blocks[..|blocks| - 1], i)
    ensures Restart(blocks, i) == x * f
  {
    var n := |blocks| - 1;
    assert blocks[i..][..n - i] == blocks[..n][i..];
    FreeSnoc(blocks[i..], MINIMUM_MULTIPLIER, x, f);
  }

  lemma {:induction false} FreeStepBelow(blocks: seq<Weight>, start: real, x: real, y: real, f: real)
    requires blocks != [] && f == Factor(blocks[|blocks| - 1]) && x == FreeRun(blocks[..|blocks| - 1], start)
    requires x <= y && f > 0.0
    ensures FreeRun(blocks, start) <= y * f && (x == y ==> FreeRun(blocks, start) == y * f)
  {
    FreeSnoc(blocks, start, x, f);
    MulMonotone(x, y, f);
  }

  lemma RestartStepBelow(blocks: seq<Weight>, i: nat, x: real, y: real, f: real)
    requires i < |blocks| && f == Factor(blocks[|blocks| - 1]) && x == Restart(blocks[..|blocks| - 1], i)
    requires x <= y && f > 0.0
    ensures Restart(blocks, i) <= y * f && (x == y ==> Restart(blocks, i) == y * f)
  {
    RestartStep(blocks, i, x, f);
    MulMonotone(x, y, f);
  }

  lemma LargestRestartStep(blocks: seq<Weight>, start: real, y: real, f: real, z: real)
    requires blocks != [] && f == Factor(blocks[|blocks| - 1]) && f > 0.0
    requires IsLargestRestart(blocks[..|blocks| - 1], start, y) && z == Max(y * f, MINIMUM_MULTIPLIER)
    ensures IsLargestRestart(blocks, start, z)
  {
    var n := |blocks| - 1;
    var init := blocks[..n];
    FreeStepBelow(blocks, start, FreeRun(init, start), y, f);
    forall i | 0 <= i <= n
      ensures Restart(blocks, i) <= y * f && (Restart(init, i) == y ==> Restart(blocks, i) == y * f)
    {
      RestartStepBelow(blocks, i, Restart(init, i), y, f);
    }
    assert Restart(blocks, n + 1) == MINIMUM_MULTIPLIER;
    if z == y * f && y != FreeRun(init, start) {
      var i :| 0 <= i <= n && y == Restart(init, i);
      assert z == Restart(blocks, i);
    }
  }

  /**
   The multiplier after any run, in closed form: the largest of what the blocks make of the start, and of what the last
   k of them make of the minimum, for every k.
   */
  lemma {:induction false} RunIsLargestRestart(blocks: seq<Weight>, p: real)
    ensures IsLargestRestart(blocks, Max(p, MINIMUM_MULTIPLIER), Max(Run(blocks, p), MINIMUM_MULTIPLIER))
  {
    if blocks == [] {
      assert Restart(blocks, 0) == MINIMUM_MULTIPLIER;
    } else {
      var init, last := blocks[..|blocks| - 1], blocks[|blocks| - 1];
      var y := Max(Run(init, p), MINIMUM_MULTIPLIER);
      RunIsLargestRestart(init, p);
      LightFactor(last);
      UpdateFromClamped(last, Run(init, p), y, Factor(last));
      LargestRestartStep(blocks, Max(p, MINIMUM_MULTIPLIER), y, Factor(last), Run(blocks, p));
    }
  }

  lemma UpdateFromClamped(w: Weight, p: real, y: real, f: real)
    requires f == Factor(w) && y == Max(p, MINIMUM_MULTIPLIER)
    ensures Update(w, p) == Max(y * f, MINIMUM_MULTIPLIER) && Update(w, p) >= MINIMUM_MULTIPLIER
  {
  }

  // ----- Runs of heavy and of light blocks -----

  lemma GrowsFromFloor(y: real, f: real, floor: real)
    requires y >= floor > 0.0 && f >= 1.0
    ensures Max(y * f, floor) == y * f
  {
    MulMonotone(1.0, f, y);
  }

  lemma {:induction false} HeavyRunStep(blocks: seq<Weight>, p: real, q: real, y: real, f: real)
    requires blocks != [] && f == Factor(blocks[|blocks| - 1]) && f >= 1.0
    requires y == FreeRun(blocks[..|blocks| - 1], q)
    requires y == Max(Run(blocks[..|blocks| - 1], p), MINIMUM_MULTIPLIER)
    ensures Max(Run(blocks, p), MINIMUM_MULTIPLIER) == FreeRun(blocks, q)
  {
    UpdateFromClamped(blocks[|blocks| - 1], Run(blocks[..|blocks| - 1], p), y, f);
    GrowsFromFloor(y, f, MINIMUM_MULTIPLIER);
    FreeSnoc(blocks, q, y, f);
  }

  /** While no block is below the target, only the start is ever raised to the minimum. */
  lemma {:induction false} HeavyRun(blocks: seq<Weight>, p: real)
    requires forall k :: 0 <= k < |blocks| ==> blocks[k] >= TARGET
    ensures Max(Run(blocks, p), MINIMUM_MULTIPLIER) == FreeRun(blocks, Max(p, MINIMUM_MULTIPLIER))
  {
    if blocks != [] {
      var init, last := blocks[..|blocks| - 1], blocks[|blocks| - 1];
      var y := FreeRun(init, Max(p, MINIMUM_MULTIPLIER));
      HeavyRun(init, p);
      FactorRises(TARGET, last);
      FactorRange(last);
      HeavyRunStep(blocks, p, Max(p, MINIMUM_MULTIPLIER), y, Factor(last));
    }
  }

  lemma StaysBelow(x: real, f: real, floor: real)
    requires 0.0 < f <= 1.0 && floor > 0.0 && x <= floor
    ensures x * f <= floor
  {
    MulMonotone(f, 1.0, floor);
    assert floor * f <= floor;
    MulMonotone(x, floor, f);
  }

  lemma LightStep(p: real, x: real, f: real, floor: real)
    requires 0.0 < f <= 1.0 && floor > 0.0 && Max(p, floor) == Max(x, floor)
    ensures Clamped(p, f, floor) == Max(x * f, floor)
  {
    var q := Max(p, floor);
    if x < floor {
      StaysBelow(q, f, floor);
      StaysBelow(x, f, floor);
    }
  }

  lemma LightUpdate(w: Weight, p: real, x: real, f: real)
    requires f == Factor(w) && 0.0 < f <= 1.0 && Max(p, MINIMUM_MULTIPLIER) == Max(x, MINIMUM_MULTIPLIER)
    ensures Update(w, p) == Max(x * f, MINIMUM_MULTIPLIER)
  {
    LightStep(p, x, f, MINIMUM_MULTIPLIER);
  }

  lemma LightFactor(w: Weight)
    ensures Factor(w) > 0.0
    ensures w <= TARGET ==> Factor(w) <= 1.0
  {
    FactorRange(w);
    if w <= TARGET {
      FactorRises(w, TARGET);
    }
  }

  lemma {:induction false} LightRunStep(blocks: seq<Weight>, p: real, x: real, f: real)
    requires blocks != [] && f == Factor(blocks[|blocks| - 1]) && 0.0 < f <= 1.0
    requires x == FreeRun(blocks[..|blocks| - 1], p)
    requires Max(Run(blocks[..|blocks| - 1], p), MINIMUM_MULTIPLIER) == Max(x, MINIMUM_MULTIPLIER)
    ensures Run(blocks, p) == Max(FreeRun(blocks, p), MINIMUM_MULTIPLIER)
  {
    LightUpdate(blocks[|blocks| - 1], Run(blocks[..|blocks| - 1], p), x, f);
    assert FreeRun(blocks, p) == x * f;
  }

  /** While no block is above the target, cutting off at the minimum at every step is cutting off once at the end. */
  lemma {:induction false} LightRun(blocks: seq<Weight>, p: real)
    requires forall k :: 0 <= k < |blocks| ==> blocks[k] <= TARGET
    ensures Max(Run(blocks, p), MINIMUM_MULTIPLIER) == Max(FreeRun(blocks, p), MINIMUM_MULTIPLIER)
  {
    if blocks != [] {
      var init, last := blocks[..|blocks| - 1], blocks[|blocks| - 1];
      LightRun(init, p);
      LightFactor(last);
      LightRunStep(blocks, p, FreeRun(init, p), Factor(last));
    }
  }

  /**
   In a run of blocks below the target, from any start, exactly those steps lower the multiplier before which the
   start times the factors of the earlier blocks is still above the minimum.
   */
  lemma {:induction false} LightRunShrinks(blocks: seq<Weight>, p: real, i: nat)
    requires forall k :: 0 <= k < |blocks| ==> blocks[k] < TARGET
    requires i < |blocks|
    ensures Run(blocks[..i + 1], p) < Run(blocks[..i], p) <==> FreeRun(blocks[..i], p) > MINIMUM_MULTIPLIER
  {
    assert blocks[..i + 1][..i] == blocks[..i];
    LightRun(blocks[..i], p);
    UpdateDirection(blocks[i], Run(blocks[..i], p));
  }

  lemma FreeStep(power: real, x: real, p: real, f: real)
    requires power * p <= x && 0.0 <= power && 0.0 < p && EMPTY <= f
    ensures power * EMPTY * p <= x * f
  {
    MulMonotone(0.0, power, p);
    ProductRises(power * p, x, EMPTY, f);
    assert power * p * EMPTY == power * EMPTY * p;
  }

  lemma {:induction false} FreeRunRange(blocks: seq<Weight>, p: real)
    requires p > 0.0
    ensures Pow(EMPTY, |blocks|) * p <= FreeRun(blocks, p)
  {
    if blocks != [] {
      var n := |blocks| - 1;
      FreeRunRange(blocks[..n], p);
      FactorRange(blocks[n]);
      PowPositive(EMPTY, n);
      FreeStep(Pow(EMPTY, n), FreeRun(blocks[..n], p), p, Factor(blocks[n]));
    }
  }

  lemma PositiveFactor(x: real, y: real)
    requires x > 0.0 && x * y > 0.0
    ensures y > 0.0
  {
  }

  /** However light the blocks are, step i lowers the multiplier if i empty ones leave it above the minimum. */
  lemma {:induction false} LightRunShrinksFor(blocks: seq<Weight>, p: real, i: nat)
    requires forall k :: 0 <= k < |blocks| ==> blocks[k] < TARGET
    requires i < |blocks| && Pow(EMPTY, i) * p > MINIMUM_MULTIPLIER
    ensures Run(blocks[..i + 1], p) < Run(blocks[..i], p)
  {
    PowPositive(EMPTY, i);
    PositiveFactor(Pow(EMPTY, i), p);
    FreeRunRange(blocks[..i], p);
    LightRunShrinks(blocks, p, i);
  }

  /** A hundred blocks below the target lower a multiplier of a half at every step. */
  lemma {:induction false} HundredLightBlocks(blocks: seq<Weight>, i: nat)
    requires forall k :: 0 <= k < |blocks| ==> blocks[k] < TARGET
    requires i < |blocks| <= 100
    ensures Run(blocks[..i + 1], 0.5) < Run(blocks[..i], 0.5)
  {
    Bernoulli(EMPTY, i);
    assert i as real * (EMPTY - 1.0) >= 100.0 * (EMPTY - 1.0);
    LightRunShrinksFor(blocks, 0.5, i);
  }

  // ----- An empty chain -----

  lemma {:induction false} FreeEmptyRun(blocks: seq<Weight>)
    requires forall i :: 0 <= i < |blocks| ==> blocks[i] == 0
    ensures FreeRun(blocks, 1.0) == Pow(EMPTY, |blocks|)
  {
    if blocks != [] {
      FreeEmptyRun(blocks[..|blocks| - 1]);
      FactorRange(0);
    }
  }

  /** From 1, n empty blocks take the multiplier to the n-th power of their factor, but not below the minimum. */
  lemma {:induction false} EmptyRun(blocks: seq<Weight>, n: nat)
    requires |blocks| == n && forall i :: 0 <= i < n ==> blocks[i] == 0
    ensures Run(blocks, 1.0) == Max(Pow(EMPTY, n), MINIMUM_MULTIPLIER)
  {
    FreeEmptyRun(blocks);
    LightRun(blocks, 1.0);
    RunRange(blocks, 1.0);
  }

  lemma EmptyPowersStay()
    ensures StaysAbove(EMPTY, 8_000_000, 0.0000000016)
  {
    StaysAboveStart(EMPTY, 4000);
    StaysAboveChunk(EMPTY, 4000, 0.99, 5, 0.9509);
    StaysAboveChunk(EMPTY, 20_000, 0.9509, 5, 0.7774);
    StaysAboveChunk(EMPTY, 100_000, 0.7774, 5, 0.2839);
    StaysAboveChunk(EMPTY, 500_000, 0.2839, 4, 0.0064);
    StaysAboveChunk(EMPTY, 2_000_000, 0.0064, 4, 0.0000000016);
  }

  lemma EmptyInversePowersGrow()
    ensures GrowsAbove(1.0000025, 8_400_000, 1_000_000_000.5)
  {
    GrowsAboveStart(1.0000025, 4000);
    GrowsAboveChunk(1.0000025, 4000, 1.01, 5, 1.051);
    GrowsAboveChunk(1.0000025, 20_000, 1.051, 5, 1.282);
    GrowsAboveChunk(1.0000025, 100_000, 1.282, 4, 2.701);
    GrowsAboveChunk(1.0000025, 400_000, 2.701, 3, 19.7);
    GrowsAboveChunk(1.0000025, 1_200_000, 19.7, 7, 1_000_000_000.5);
  }

  /** Eight million empty blocks leave the multiplier above the minimum; from 8.4 million on it would be below. */
  lemma EmptyChainBracket(n: nat)
    ensures n <= 8_000_000 ==> Pow(EMPTY, n) > MINIMUM_MULTIPLIER
    ensures n >= 8_400_000 ==> Pow(EMPTY, n) < MINIMUM_MULTIPLIER
  {
    EmptyPowersStay();
    if n >= 8_400_000 {
      EmptyInversePowersGrow();
      PowInverse(EMPTY, 1.0000025, n);
      BelowInverse(Pow(EMPTY, n), Pow(1.0000025, n), 1_000_000_000.5, MINIMUM_MULTIPLIER);
    }
  }

  /** An empty chain started at 1 stays above the minimum for 8 million blocks and sits on it from 8.4 million on. */
  lemma EmptyChainDuration(blocks: seq<Weight>)
    requires forall i :: 0 <= i < |blocks| ==> blocks[i] == 0
    ensures |blocks| <= 8_000_000 ==> Run(blocks, 1.0) > 0.000000001
    ensures |blocks| >= 8_400_000 ==> Run(blocks, 1.0) == 0.000000001
  {
    EmptyRun(blocks, |blocks|);
    EmptyChainBracket(|blocks|);
  }

  /**
   The loop on an empty chain: it ends, and counts exactly the blocks that leave the multiplier above the minimum,
   more than 533,333 and in fact between 8.0 and 8.4 million.
   */
  method TimeToReachZero() returns (iterations: nat)
    ensures Pow(EMPTY, iterations + 1) <= MINIMUM_MULTIPLIER < Pow(EMPTY, iterations)
    ensures iterations > 533_333
    ensures 8_000_000 <= iterations < 8_400_000
  {
    var fm := 1.0;
    iterations := 0;
    while true
      invariant fm == Pow(EMPTY, iterations) && MINIMUM_MULTIPLIER < fm
      decreases (fm * 1_000_000_000_000_000.0).Floor
    {
      FactorRange(0);
      var next := Update(0, fm);
      fm := next;
      if fm == MINIMUM_MULTIPLIER {
        break;
      }
      iterations := iterations + 1;
    }
    EmptyChainBracket(iterations);
    EmptyChainBracket(iterations + 1);
  }

  // ----- A full chain -----

  lemma FullPowersGrow()
    ensures GrowsAbove(FULL, 28_800, 1.238)
  {
    GrowsAboveStart(FULL, 2880);
    GrowsAboveChunk(FULL, 2880, 1.0216, 10, 1.238);
  }

  lemma FullInversePowersStay()
    ensures StaysAbove(0.9999925, 28_800, 0.8054)
  {
    StaysAboveStart(0.9999925, 288);
    StaysAboveChunk(0.9999925, 288, 0.99784, 10, 0.9786);
    StaysAboveChunk(0.9999925, 2880, 0.9786, 10, 0.8054);
  }

  /** A day's worth of full blocks multiply to 1.238 at least; up to that many, to less than 1.242. */
  lemma FullChainBracket(n: nat)
    ensures n >= 28_800 ==> Pow(FULL, n) >= 1.238
    ensures n <= 28_800 ==> Pow(FULL, n) < 1.242
  {
    FullPowersGrow();
    FullInversePowersStay();
    PowInverse(FULL, 0.9999925, n);
    if n <= 28_800 {
      BelowInverse(Pow(FULL, n), Pow(0.9999925, n), 0.8054, 1.242);
    }
  }

  /** A day of full blocks raises the multiplier by more than 23.4 percent, and by less than 24.2. */
  method MinChangePerDay() returns (fm: real)
    ensures fm > 1.234
    ensures fm == Pow(FULL, DAYS) && 1.238 <= fm < 1.242
  {
    fm := 1.0;
    for i := 0 to DAYS
      invariant fm == Pow(FULL, i) && fm >= 1.0
    {
      FactorRange(MAX_NORMAL);
      assert fm * FULL >= fm * 1.0;
      var next := Update(MAX_NORMAL, fm);
      fm := next;
    }
    FullChainBracket(DAYS);
  }
}
