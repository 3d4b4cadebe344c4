/** The arithmetic of one usage tier (a `PoolChunkList`): its usage band, the
    largest request it can serve, the two free-byte thresholds that decide when a
    chunk is promoted to the next tier or demoted to the previous one, and where a
    chunk ends up when it is handed up or down the chain of tiers. */
module Tiers {
  import opened JavaInt

  /** The `null` of a tier or chunk reference. */
  const Null: int := -1

  /** The fields of `PoolChunkList` that are fixed at construction. */
  datatype Tier = Tier(
    minUsage: Int32,
    maxUsage: Int32,
    maxCapacity: Int32,
    freeMinThreshold: Int32,
    freeMaxThreshold: Int32)

  /** A chunk's usage in percent, as the comment at line 64 derives it:
      `100 - freeBytes * 100L / chunkSize`. */
  function Usage(freeBytes: int, chunkSize: int): (r: int)
    requires chunkSize > 0 && freeBytes >= 0
    ensures r <= 100 && (freeBytes <= chunkSize ==> 0 <= r)
    ensures r == 100 <==> freeBytes * 100 < chunkSize
  {
    DivNonNegative(freeBytes * 100, chunkSize);
    DivAtMost(freeBytes * 100, chunkSize, 0);
    DivAtMost(freeBytes * 100, chunkSize, 100);
    var f := if freeBytes <= chunkSize then freeBytes else chunkSize;
    MulLeq(f, chunkSize, 100);
    100 - freeBytes * 100 / chunkSize
  }

  /** `minUsage0`: the usage bound clamped to at least 1. */
  function MinUsage0(value: Int32): (r: Int32)
    ensures r >= 1 && r >= value
    ensures r == 1 || r == value
  {
    if value < 1 then 1 else value
  }

  /** `calculateMaxCapacity`: the largest buffer that a chunk of a tier with this
      `minUsage` can ever hold free. */
  function CalculateMaxCapacity(minUsage: Int32, chunkSize: Int32): (r: Int32)
    ensures MinUsage0(minUsage) == 100 ==> r == 0
    ensures MinUsage0(minUsage) < 100 && 0 <= chunkSize ==> 0 <= r <= chunkSize
  {
    var m := MinUsage0(minUsage);
    if m == 100 then 0
    else if m < 100 && 0 <= chunkSize then
      ShareOfChunk(chunkSize, 100 - m);
      LongToInt(Quot(chunkSize * (100 - m), 100))
    else LongToInt(Quot(chunkSize * (100 - m), 100))
  }

  /** A share of at most 100 percent of a non-negative size, rounded down, lies
      between 0 and the size. */
  lemma ShareOfChunk(size: int, percent: int)
    requires 0 <= size && 0 <= percent <= 100
    ensures 0 <= size * percent <= size * 100
    ensures 0 <= (size * percent) / 100 <= size
  {
    MulLeq(0, percent, size);
    MulLeq(percent, 100, size);
    DivNonNegative(size * percent, 100);
    DivAtMost(size * percent, 100, size);
  }

  /** Lines 78-79: `(bound == 100) ? 0 : (int) (chunkSize * (100.0 - bound + 0.99999999) / 100L)`.
      The double expression is evaluated here over the exact rationals:
      chunkSize * (100 - bound + 99999999 / 10^8) / 100 == chunkSize * (10099999999 - bound * 10^8) / 10^10. */
  function FreeThreshold(bound: Int32, chunkSize: Int32): (r: Int32)
    ensures bound == 100 ==> r == 0
    ensures 0 <= chunkSize && bound < 100 ==> r >= 0
    ensures 0 <= chunkSize && bound > 100 ==> r <= 0
  {
    if bound == 100 then 0
    else
      var num := chunkSize * (10_099_999_999 - bound * 100_000_000);
      if 0 <= chunkSize && bound < 100 then
        MulLeq(0, 10_099_999_999 - bound * 100_000_000, chunkSize);
        QuotMonotone(0, num, 10_000_000_000);
        DoubleToInt(num, 10_000_000_000)
      else if 0 <= chunkSize then
        MulLeq(10_099_999_999 - bound * 100_000_000, 0, chunkSize);
        QuotMonotone(num, 0, 10_000_000_000);
        DoubleToInt(num, 10_000_000_000)
      else DoubleToInt(num, 10_000_000_000)
  }

  /** The `PoolChunkList` constructor (without its links): `freeMinThreshold` comes
      from `maxUsage`, `freeMaxThreshold` and `maxCapacity` from `minUsage`. */
  function NewTier(minUsage: Int32, maxUsage: Int32, chunkSize: Int32): (t: Tier)
    requires minUsage <= maxUsage
    ensures t.minUsage == minUsage && t.maxUsage == maxUsage
    ensures maxUsage == 100 ==> t.freeMinThreshold == 0
    ensures minUsage == 100 ==> t.freeMaxThreshold == 0 && t.maxCapacity == 0
    ensures chunkSize > 0 ==> t.freeMinThreshold <= t.freeMaxThreshold
  {
    var t := Tier(minUsage, maxUsage, CalculateMaxCapacity(minUsage, chunkSize),
                  FreeThreshold(maxUsage, chunkSize), FreeThreshold(minUsage, chunkSize));
    if chunkSize <= 0 then t
    else ThresholdMonotone(minUsage, maxUsage, chunkSize); t
  }

  /** `minUsage()` as reported to metrics: at least 1. */
  function MinUsage(t: Tier): (r: Int32)
    ensures r >= 1 && r >= t.minUsage
    ensures r == 1 || r == t.minUsage
  {
    MinUsage0(t.minUsage)
  }

  /** `maxUsage()` as reported to metrics: at most 100. */
  function MaxUsage(t: Tier): (r: Int32)
    ensures r <= 100 && r <= t.maxUsage
    ensures r == 100 || r == t.maxUsage
  {
    if t.maxUsage < 100 then t.maxUsage else 100
  }

  // ---------------------------------------------------------------------------
  // Properties of the capacity and of the thresholds

  /** maxCapacity is 0 for a tier whose clamped minUsage is 100; otherwise it is
      the largest byte count that is at most (100 - minUsage)% of the chunk, so it
      never exceeds the chunk size. */
  lemma MaxCapacityIsShareOfChunk(minUsage: Int32, chunkSize: Int32, b: int)
    requires 0 <= chunkSize
    ensures var m, r := MinUsage0(minUsage), CalculateMaxCapacity(minUsage, chunkSize);
      (m == 100 ==> r == 0) &&
      (m < 100 ==> 0 <= r <= chunkSize && (b <= r <==> b * 100 <= chunkSize * (100 - m)))
  {
    var m := MinUsage0(minUsage);
    if m < 100 {
      var x := chunkSize * (100 - m);
      MulLeq(0, 100 - m, chunkSize);
      MulLeq(100 - m, 100, chunkSize);
      assert 0 <= x <= chunkSize * 100;
      var q := x / 100;
      DivBounds(x, 100);
      DivAtMost(x, 100, chunkSize);
      assert 0 <= q <= chunkSize;
      assert CalculateMaxCapacity(minUsage, chunkSize) == q;
      if b <= q {
        MulLeq(b, q, 100);
      } else {
        MulLeq(q + 1, b, 100);
      }
    }
  }

  /** Above 100 the clamped minUsage makes `chunkSize * (100 - minUsage)` negative,
      and the `(int)` cast of the long quotient wraps around: for a 1 GiB chunk and
      minUsage 301 the capacity comes out larger than the chunk. */
  lemma MaxCapacityWrapsAboveHundred()
    ensures CalculateMaxCapacity(301, 0x4000_0000) == 2_136_746_230 > 0x4000_0000
  {
    assert Quot(0x4000_0000 * (100 - 301), 100) == -2_158_221_066;
  }

  /** A higher usage bound never gives a higher threshold, 100 included. */
  lemma ThresholdMonotone(a: Int32, b: Int32, chunkSize: Int32)
    requires a <= b && chunkSize > 0
    ensures FreeThreshold(a, chunkSize) >= FreeThreshold(b, chunkSize)
  {
    var K, S, D := 10_099_999_999, 100_000_000, 10_000_000_000;
    if a != 100 && b != 100 {
      MulLeq(K - b * S, K - a * S, chunkSize);
      DoubleToIntMonotone(chunkSize * (K - b * S), chunkSize * (K - a * S), D);
    } else if a == 100 && b != 100 {
      MulLeq(K - b * S, 0, chunkSize);
      DoubleToIntMonotone(chunkSize * (K - b * S), 0, D);
    } else if a != 100 {
      MulLeq(0, K - a * S, chunkSize);
      DoubleToIntMonotone(0, chunkSize * (K - a * S), D);
    }
  }

  /** For a chunk size of at most 10^8 bytes the shift by 0.99999999 removes less
      than one hundredth, so the threshold is the integer
      (chunkSize * (101 - bound) - 1) / 100, saturated to the int range. */
  lemma ThresholdIntegerForm(bound: Int32, chunkSize: Int32)
    requires bound < 100 && 0 < chunkSize <= 100_000_000
    ensures FreeThreshold(bound, chunkSize) == Saturate((chunkSize * (101 - bound) - 1) / 100)
  {
    var S, D := 100_000_000, 10_000_000_000;
    var n := chunkSize * (101 - bound);
    MulLeq(1, 101 - bound, chunkSize);
    assert n >= chunkSize;
    var num := chunkSize * (10_099_999_999 - bound * S);
    assert num == n * S - chunkSize;
    var q, r := (n - 1) / 100, (n - 1) % 100;
    assert n - 1 == 100 * q + r && 0 <= r < 100;
    assert num == q * D + ((r + 1) * S - chunkSize);
    assert 0 <= (r + 1) * S - chunkSize < D;
    DivUnique(num, D, q);
  }

  /** Threshold alignment (lines 63-76): for a bound below 100, a chunk's free
      bytes are at or below the threshold exactly when its usage has reached the
      bound. */
  lemma ThresholdAligned(bound: Int32, chunkSize: Int32, freeBytes: int)
    requires bound < 100 && 0 < chunkSize <= 100_000_000 && 0 <= freeBytes <= chunkSize
    ensures freeBytes <= FreeThreshold(bound, chunkSize) <==> Usage(freeBytes, chunkSize) >= bound
  {
    ThresholdIntegerForm(bound, chunkSize);
    var n := chunkSize * (101 - bound);
    var t := (n - 1) / 100;
    // usage >= bound  <==>  freeBytes * 100 / chunkSize <= 100 - bound  <==>  freeBytes * 100 < n
    DivAtMost(freeBytes * 100, chunkSize, 100 - bound);
    assert (101 - bound) * chunkSize == n;
    // freeBytes <= t  <==>  freeBytes * 100 < n
    DivAtMost(n - 1, 100, freeBytes - 1);
    if t > MaxInt {
      // the threshold saturates; such a bound is at most 0 and every usage reaches it
      if bound >= 1 {
        MulLeq(101 - bound, 100, chunkSize);
        DivAtMost(n - 1, 100, chunkSize);
        assert false;
      }
      DivAtMost(freeBytes * 100, chunkSize, 100);
    }
  }

  /** A chunk is promoted out of a tier (`freeBytes <= freeMinThreshold`, lines
      121 and 175) exactly when its usage has reached the tier's maxUsage. */
  lemma PromotionMatchesUsage(minUsage: Int32, maxUsage: Int32, chunkSize: Int32, freeBytes: int)
    requires minUsage <= maxUsage < 100
    requires 0 < chunkSize <= 100_000_000 && 0 <= freeBytes <= chunkSize
    ensures freeBytes <= NewTier(minUsage, maxUsage, chunkSize).freeMinThreshold
        <==> Usage(freeBytes, chunkSize) >= maxUsage
  {
    ThresholdAligned(maxUsage, chunkSize, freeBytes);
  }

  /** A chunk is demoted out of a tier (`freeBytes > freeMaxThreshold`, lines 134
      and 147) exactly when its usage has fallen below the tier's minUsage. */
  lemma DemotionMatchesUsage(minUsage: Int32, maxUsage: Int32, chunkSize: Int32, freeBytes: int)
    requires minUsage <= maxUsage && minUsage < 100
    requires 0 < chunkSize <= 100_000_000 && 0 <= freeBytes <= chunkSize
    ensures freeBytes > NewTier(minUsage, maxUsage, chunkSize).freeMaxThreshold
        <==> Usage(freeBytes, chunkSize) < minUsage
  {
    ThresholdAligned(minUsage, chunkSize, freeBytes);
  }

  /** The example of line 75: with minUsage 1 and a 16 MiB chunk the threshold is
      16777215, so a completely free chunk (usage 0) is demoted; a plain +1 shift
      would have given 16777216 and kept it. */
  lemma CommentExample()
    ensures FreeThreshold(1, 16777216) == 16777215
    ensures 16777216 > FreeThreshold(1, 16777216) && Usage(16777216, 16777216) == 0
    ensures (16777216 * (100 - 1 + 1)) / 100 == 16777216
  {
    ThresholdIntegerForm(1, 16777216);
  }

  /** A tier whose minUsage is at most 0 never demotes: its freeMaxThreshold is at
      least the chunk size (for Integer.MIN_VALUE the cast saturates). */
  lemma LowBoundNeverDemotes(minUsage: Int32, chunkSize: Int32, freeBytes: int)
    requires minUsage <= 0 && 0 < chunkSize && freeBytes <= chunkSize
    ensures freeBytes <= FreeThreshold(minUsage, chunkSize)
  {
    var K, S, D := 10_099_999_999, 100_000_000, 10_000_000_000;
    MulLeq(D, K - minUsage * S, chunkSize);
    QuotMonotone(chunkSize * D, chunkSize * (K - minUsage * S), D);
    DivUnique(chunkSize * D, D, chunkSize);
  }

  /** A tier whose maxUsage is Integer.MAX_VALUE never promotes: its
      freeMinThreshold is negative. */
  lemma TopBoundNeverPromotes(chunkSize: Int32)
    requires 0 < chunkSize
    ensures FreeThreshold(MaxInt, chunkSize) < 0
  {
    var K, S, D := 10_099_999_999, 100_000_000, 10_000_000_000;
    MulLeq(1, chunkSize, MaxInt * S - K);
    assert chunkSize * (K - MaxInt * S) <= -D;
    QuotMonotone(chunkSize * (K - MaxInt * S), -D, D);
    assert Quot(-D, D) == -1;
  }

  /** For minUsage 1 the threshold is one byte short of the chunk, at every chunk
      size: 0.99999999 of a percent of the chunk is less than one byte short of a
      whole percent. */
  lemma MinUsageOneThreshold(chunkSize: Int32)
    requires 0 < chunkSize
    ensures FreeThreshold(1, chunkSize) == chunkSize - 1
  {
    var D := 10_000_000_000;
    var num := chunkSize * 9_999_999_999;
    assert num == chunkSize * D - chunkSize;
    assert (chunkSize - 1) * D == chunkSize * D - D;
    DivUnique(num, D, chunkSize - 1);
  }

  /** Line 166: when a chunk leaves a tier without a prevList, and that tier's
      minUsage is at most 1, the chunk is completely free (usage 0). */
  lemma BottomTierReleasesOnlyEmpty(minUsage: Int32, maxUsage: Int32, chunkSize: Int32, freeBytes: int)
    requires minUsage <= maxUsage && minUsage <= 1
    requires 0 < chunkSize && 0 <= freeBytes <= chunkSize
    requires freeBytes > NewTier(minUsage, maxUsage, chunkSize).freeMaxThreshold
    ensures freeBytes == chunkSize && Usage(freeBytes, chunkSize) == 0
  {
    ThresholdMonotone(minUsage, 1, chunkSize);
    MinUsageOneThreshold(chunkSize);
    assert freeBytes == chunkSize;
    DivUnique(chunkSize * 100, chunkSize, 100);
  }

  /** The assertion `chunk.usage() < maxUsage` of line 145, read with the formula
      of line 64, does not follow from `freeBytes > freeMinThreshold` for a tier
      whose maxUsage is 100: one free byte in a 200-byte chunk is above the
      threshold 0 and still has usage 100. The model keeps the threshold form. */
  lemma FullTierUsageRoundsUp()
    ensures 1 > FreeThreshold(100, 200) && Usage(1, 200) == 100
  {
  }

  // ---------------------------------------------------------------------------
  // The chain of tiers: tiers[t + 1] is the nextList of tiers[t]; prevLists[t]
  // is the index of tiers[t]'s prevList, or Null.

  /** The chain's tiers are those the constructor builds for one chunk size. */
  ghost predicate Configured(tiers: seq<Tier>, chunkSize: Int32)
  {
    forall t | 0 <= t < |tiers| ::
      tiers[t].minUsage <= tiers[t].maxUsage &&
      tiers[t] == NewTier(tiers[t].minUsage, tiers[t].maxUsage, chunkSize)
  }

  /** A prevList link that keeps the descent of `move0` finite: none, a lower
      tier, or the tier itself when no chunk can ever exceed its freeMaxThreshold. */
  predicate LegalPrev(tiers: seq<Tier>, chunkSize: int, t: int, p: int)
    requires 0 <= t < |tiers|
  {
    p == Null || 0 <= p < t || (p == t && tiers[t].freeMaxThreshold >= chunkSize)
  }

  predicate PrevListsLegal(tiers: seq<Tier>, prevLists: seq<int>, chunkSize: int)
  {
    |prevLists| == |tiers| &&
    forall t | 0 <= t < |tiers| :: LegalPrev(tiers, chunkSize, t, prevLists[t])
  }

  /** Promotion lands inside the next band: what is too full for tier t is not too
      empty for tier t + 1. */
  ghost predicate PromotionsOverlap(tiers: seq<Tier>)
  {
    forall t | 0 <= t < |tiers| - 1 :: tiers[t].freeMinThreshold <= tiers[t + 1].freeMaxThreshold
  }

  /** Demotion lands inside the previous band: what is too empty for tier t is not
      too full for its prevList. */
  ghost predicate DemotionsOverlap(tiers: seq<Tier>, prevLists: seq<int>)
    requires |prevLists| == |tiers|
  {
    forall t | 0 <= t < |tiers| && 0 <= prevLists[t] < t ::
      tiers[prevLists[t]].freeMinThreshold <= tiers[t].freeMaxThreshold
  }

  /** Where `add` on tier t finally links a chunk with these free bytes: `add`
      forwards to nextList while freeBytes <= freeMinThreshold (lines 173-180). */
  function PromotionTarget(tiers: seq<Tier>, t: nat, freeBytes: int): (j: nat)
    requires t < |tiers| && tiers[|tiers| - 1].freeMinThreshold < freeBytes
    decreases |tiers| - t
    ensures t <= j < |tiers| && freeBytes > tiers[j].freeMinThreshold
    ensures forall i | t <= i < j :: freeBytes <= tiers[i].freeMinThreshold
    ensures t < j && PromotionsOverlap(tiers) ==> freeBytes <= tiers[j].freeMaxThreshold
  {
    if freeBytes <= tiers[t].freeMinThreshold then PromotionTarget(tiers, t + 1, freeBytes) else t
  }

  /** Where `move0` on tier t links a chunk with these free bytes, or Null when it
      reaches a tier without prevList and the chunk is to be destroyed
      (lines 144-171). The descent visits strictly lower tiers only. */
  function DemotionTarget(tiers: seq<Tier>, prevLists: seq<int>, chunkSize: int, t: nat, freeBytes: int): (r: int)
    requires t < |tiers| && PrevListsLegal(tiers, prevLists, chunkSize)
    requires freeBytes <= chunkSize && freeBytes > tiers[t].freeMaxThreshold
    decreases t
    ensures r == Null || (0 <= r < t && freeBytes <= tiers[r].freeMaxThreshold)
    ensures r != Null && DemotionsOverlap(tiers, prevLists) ==> freeBytes > tiers[r].freeMinThreshold
  {
    var p := prevLists[t];
    if p == Null then Null
    else if freeBytes > tiers[p].freeMaxThreshold then DemotionTarget(tiers, prevLists, chunkSize, p, freeBytes)
    else p
  }

  /** The assertion of line 145, in threshold form: a chunk that `move0` hands
      from tier t to its prevList p (because it is above t's freeMaxThreshold)
      arrives in a strictly lower tier and above p's freeMinThreshold, so `move`
      on p never sees a chunk that p would promote. It follows directly from
      `LegalPrev` (a self link only where no chunk exceeds freeMaxThreshold) and
      `DemotionsOverlap`. */
  lemma DemotionArrivesBelowMax(
    tiers: seq<Tier>, prevLists: seq<int>, chunkSize: int, t: nat, freeBytes: int)
    requires t < |tiers| && PrevListsLegal(tiers, prevLists, chunkSize)
    requires DemotionsOverlap(tiers, prevLists)
    requires freeBytes <= chunkSize && freeBytes > tiers[t].freeMaxThreshold
    requires prevLists[t] != Null
    ensures 0 <= prevLists[t] < t && freeBytes > tiers[prevLists[t]].freeMinThreshold
  {
    // a self link is legal only when no chunk can exceed freeMaxThreshold
  }

  /** The assertion of line 145 as written, `chunk.usage() < maxUsage`, for a
      prevList whose maxUsage is below 100 (for 100 it fails, see
      `FullTierUsageRoundsUp`). */
  lemma DemotionArrivesBelowMaxUsage(
    tiers: seq<Tier>, prevLists: seq<int>, chunkSize: Int32, t: nat, freeBytes: int)
    requires 0 < chunkSize <= 100_000_000 && Configured(tiers, chunkSize)
    requires t < |tiers| && PrevListsLegal(tiers, prevLists, chunkSize)
    requires DemotionsOverlap(tiers, prevLists)
    requires 0 <= freeBytes <= chunkSize && freeBytes > tiers[t].freeMaxThreshold
    requires prevLists[t] != Null && tiers[prevLists[t]].maxUsage < 100
    ensures Usage(freeBytes, chunkSize) < tiers[prevLists[t]].maxUsage
  {
    var p := prevLists[t];
    DemotionArrivesBelowMax(tiers, prevLists, chunkSize, t, freeBytes);
    PromotionMatchesUsage(tiers[p].minUsage, tiers[p].maxUsage, chunkSize, freeBytes);
  }

  /** The tier reached from t by following prevList k times (Null once a tier
      without prevList is passed). */
  ghost function Down(prevLists: seq<int>, t: int, k: nat): int
    decreases k
  {
    if k == 0 then t
    else
      var d := Down(prevLists, t, k - 1);
      if 0 <= d < |prevLists| then prevLists[d] else Null
  }

  lemma {:induction false} DownShift(prevLists: seq<int>, t: int, k: nat)
    requires 0 <= t < |prevLists|
    ensures Down(prevLists, t, k + 1) == Down(prevLists, prevLists[t], k)
    decreases k
  {
    if k > 0 {
      DownShift(prevLists, t, k - 1);
    }
  }

  /** `DemotionTarget` is first fit on the prevList chain: the descent from t
      visits Down(t, 0), ..., Down(t, k - 1), each of which finds the chunk too
      empty, and then either lands on the next tier, Down(t, k), which keeps it,
      or stops at a tier without prevList and reports Null. */
  lemma {:induction false} DemotionFirstFit(
    tiers: seq<Tier>, prevLists: seq<int>, chunkSize: int, t: nat, freeBytes: int) returns (k: nat)
    requires t < |tiers| && PrevListsLegal(tiers, prevLists, chunkSize)
    requires freeBytes <= chunkSize && freeBytes > tiers[t].freeMaxThreshold
    decreases t
    ensures k >= 1
    ensures forall i | 0 <= i < k ::
      0 <= Down(prevLists, t, i) < |tiers| && freeBytes > tiers[Down(prevLists, t, i)].freeMaxThreshold
    ensures var r := DemotionTarget(tiers, prevLists, chunkSize, t, freeBytes);
      (r == Null ==> prevLists[Down(prevLists, t, k - 1)] == Null) &&
      (r != Null ==> r == Down(prevLists, t, k) && freeBytes <= tiers[r].freeMaxThreshold)
  {
    var p := prevLists[t];
    if p == Null || freeBytes <= tiers[p].freeMaxThreshold {
      k := 1;
      return;
    }
    var k' := DemotionFirstFit(tiers, prevLists, chunkSize, p, freeBytes);
    k := k' + 1;
    forall i | 0 <= i < k
      ensures 0 <= Down(prevLists, t, i) < |tiers| && freeBytes > tiers[Down(prevLists, t, i)].freeMaxThreshold
    {
      if i > 0 {
        DownShift(prevLists, t, i - 1);
      }
    }
    DownShift(prevLists, t, k' - 1);
    DownShift(prevLists, t, k');
  }

  /** A chain built from usage bands that overlap (each tier's maxUsage reaches its
      nextList's minUsage, each prevList's maxUsage reaches the tier's minUsage)
      promotes and demotes into band. */
  lemma OverlappingBands(tiers: seq<Tier>, prevLists: seq<int>, chunkSize: Int32)
    requires chunkSize > 0 && Configured(tiers, chunkSize) && |prevLists| == |tiers|
    requires forall t | 0 <= t < |tiers| - 1 :: tiers[t + 1].minUsage <= tiers[t].maxUsage
    requires forall t | 0 <= t < |tiers| && 0 <= prevLists[t] < t ::
      tiers[t].minUsage <= tiers[prevLists[t]].maxUsage
    ensures PromotionsOverlap(tiers) && DemotionsOverlap(tiers, prevLists)
  {
    forall t | 0 <= t < |tiers| - 1
      ensures tiers[t].freeMinThreshold <= tiers[t + 1].freeMaxThreshold
    {
      ThresholdMonotone(tiers[t + 1].minUsage, tiers[t].maxUsage, chunkSize);
    }
    forall t | 0 <= t < |tiers| && 0 <= prevLists[t] < t
      ensures tiers[prevLists[t]].freeMinThreshold <= tiers[t].freeMaxThreshold
    {
      ThresholdMonotone(tiers[t].minUsage, tiers[prevLists[t]].maxUsage, chunkSize);
    }
  }

  /** Line 166: if every tier without a prevList has minUsage at most 1, a chunk
      that the descent sends to destruction is completely free. */
  lemma {:induction false} DestroyedOnlyWhenEmpty(
    tiers: seq<Tier>, prevLists: seq<int>, chunkSize: Int32, t: nat, freeBytes: int)
    requires 0 < chunkSize && Configured(tiers, chunkSize)
    requires t < |tiers| && PrevListsLegal(tiers, prevLists, chunkSize)
    requires forall b | 0 <= b < |tiers| && prevLists[b] == Null :: tiers[b].minUsage <= 1
    requires 0 <= freeBytes <= chunkSize && freeBytes > tiers[t].freeMaxThreshold
    requires DemotionTarget(tiers, prevLists, chunkSize, t, freeBytes) == Null
    ensures freeBytes == chunkSize && Usage(freeBytes, chunkSize) == 0
  {
    var p := prevLists[t];
    if p == Null {
      BottomTierReleasesOnlyEmpty(tiers[t].minUsage, tiers[t].maxUsage, chunkSize, freeBytes);
    } else {
      DestroyedOnlyWhenEmpty(tiers, prevLists, chunkSize, p, freeBytes);
    }
  }
}
