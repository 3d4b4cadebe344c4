# Usage-tier chunk lists of Netty's pooled allocator

A Dafny model of `PoolChunkList`, the per-arena chain of usage tiers in Netty's
pooled buffer allocator. Each tier holds a `[minUsage, maxUsage]` band and a
`maxCapacity`. It also has two free-byte thresholds and an intrusive doubly
linked list of chunks. A chunk that becomes too full for its tier is promoted to
the tier's `nextList`. A chunk that becomes too empty is demoted down the
`prevList` links. When no `prevList` exists, the arena destroys the chunk.

The model has three modules:

- `JavaInt` (JavaInt.dfy) models the Java integer semantics the source relies
  on:
  - integer division rounds toward zero (`Quot`);
  - `(int)` of a `long` keeps the low 32 bits (`LongToInt`);
  - `(int)` of a `double` rounds toward zero and saturates (`DoubleToInt`).
- `Tiers` (Tiers.dfy) is the pure arithmetic of one tier:
  - `minUsage0`, `minUsage()`, `maxUsage()` and `calculateMaxCapacity`;
  - the threshold formulas of the constructor, evaluated over exact rationals and
    then cast as Java casts a double;
  - where `add` finally links a chunk (`PromotionTarget`) and where the
    `move0`/`move` descent ends (`DemotionTarget`).
- `PoolChunkLists` (ChunkListChain.dfy) is the imperative part, the class
  `ChunkListChain`. One object stands for all `PoolChunkList` objects of an
  arena:
  - Tier `t` is the list whose `nextList` is tier `t + 1`. Its `prevList` is
    `prevLists[t]` and its `head` is `heads[t]`.
  - Chunks are slots of an array. `prev`, `next` and `parent` hold slot and tier
    indices, with `Null` (-1) for `null`.
  - A ghost field `lists` gives each tier's chunks head to tail.
  - `Valid()` states that every list is well formed: `prev` and `next` agree
    with the sequence, no chunk repeats, and each chunk's `parent` is its tier.
    So a chunk is in at most one tier.
  - `Banded()` states that every linked chunk's free bytes lie inside its tier's
    band.

`PoolChunk` and `PoolArena` are not part of this model. Only their effect on
what `PoolChunkList` reads is modelled:

- A chunk's own `allocate` is a function `grant` from chunk to the number of
  bytes it takes, or `None` when it cannot serve the request.
- A chunk's own `free` gives back `released` bytes.
- `usage()` is `100 - freeBytes * 100 / chunkSize`, the formula in the comment
  at line 64.
- `arena.sizeIdx2size(sizeIdx)` is the `normCapacity` parameter.
- `arena.destroyChunk` calls become the sequence that `Destroy` returns.

## Model

| member | source | states |
|---|---|---|
| JavaInt.LongToInt | buffer/src/main/java/io/netty/buffer/PoolChunkList.java:101 | the `(int)` cast of a long is congruent to it modulo 2^32 and is the identity on the int range |
| JavaInt.QuotBounds | buffer/src/main/java/io/netty/buffer/PoolChunkList.java:101 | Java's `/` rounds toward zero: the quotient lies within one divisor of the exact value, below it for a non-negative numerator and above it for a negative one |
| JavaInt.QuotMonotone | buffer/src/main/java/io/netty/buffer/PoolChunkList.java:101 | rounding toward zero is monotone in the numerator |
| JavaInt.DoubleToIntMonotone | buffer/src/main/java/io/netty/buffer/PoolChunkList.java:78-79 | the truncating, saturating `(int)` cast of a double is monotone |
| Tiers.Usage | buffer/src/main/java/io/netty/buffer/PoolChunkList.java:64 | a chunk's usage is at most 100, at least 0 while its free bytes do not exceed the chunk, and exactly 100 when less than one percent of the chunk is free |
| Tiers.MinUsage0 | buffer/src/main/java/io/netty/buffer/PoolChunkList.java:229-231 | the result is `max(1, value)`: at least 1 and at least the value, and equal to one of them |
| Tiers.MinUsage | buffer/src/main/java/io/netty/buffer/PoolChunkList.java:219-222 | `minUsage()` reports at least 1, and otherwise the tier's own minUsage |
| Tiers.MaxUsage | buffer/src/main/java/io/netty/buffer/PoolChunkList.java:224-227 | `maxUsage()` reports at most 100, and otherwise the tier's own maxUsage |
| Tiers.CalculateMaxCapacity | buffer/src/main/java/io/netty/buffer/PoolChunkList.java:86-102 | maxCapacity is 0 when `max(1, minUsage)` is 100, and lies in `[0, chunkSize]` when it is below 100 (the exact value is `MaxCapacityIsShareOfChunk`) |
| Tiers.FreeThreshold | buffer/src/main/java/io/netty/buffer/PoolChunkList.java:78-79 | a threshold is 0 for the bound 100, a non-negative byte count for a bound below 100, and at most 0 above 100 (how it aligns with usage is `ThresholdAligned`, how it orders is `ThresholdMonotone`) |
| Tiers.MaxCapacityIsShareOfChunk | buffer/src/main/java/io/netty/buffer/PoolChunkList.java:86-102 | maxCapacity is 0 when `max(1, minUsage)` is 100; when `max(1, minUsage)` is below 100 it lies in `[0, chunkSize]` and a size b is at most it exactly when `100 * b <= chunkSize * (100 - max(1, minUsage))` |
| Tiers.NewTier | buffer/src/main/java/io/netty/buffer/PoolChunkList.java:54-80 | the constructor keeps both bounds; a bound of 100 gives a zero threshold, and a minUsage of 100 also gives a zero maxCapacity; freeMinThreshold never exceeds freeMaxThreshold |
| Tiers.MaxCapacityWrapsAboveHundred | buffer/src/main/java/io/netty/buffer/PoolChunkList.java:101 | for minUsage 301 and a 1 GiB chunk the `(int)` cast of the negative long quotient wraps around, giving a maxCapacity of 2136746230, larger than the chunk |
| Tiers.ThresholdMonotone | buffer/src/main/java/io/netty/buffer/PoolChunkList.java:78-79 | a higher usage bound never gives a higher free-byte threshold, 100 included |
| Tiers.ThresholdIntegerForm | buffer/src/main/java/io/netty/buffer/PoolChunkList.java:78-79 | for a chunk of at most 10^8 bytes and a bound below 100, the threshold equals the integer `(chunkSize * (101 - bound) - 1) / 100`, saturated |
| Tiers.ThresholdAligned | buffer/src/main/java/io/netty/buffer/PoolChunkList.java:63-76 | for a bound below 100, the alignment the comment claims: `freeBytes <= threshold` holds exactly when `usage >= bound` |
| Tiers.PromotionMatchesUsage | buffer/src/main/java/io/netty/buffer/PoolChunkList.java:175 | for a maxUsage below 100, `freeBytes <= freeMinThreshold` holds exactly when usage has reached maxUsage |
| Tiers.DemotionMatchesUsage | buffer/src/main/java/io/netty/buffer/PoolChunkList.java:134 | for a minUsage below 100, `freeBytes > freeMaxThreshold` holds exactly when usage is below minUsage |
| Tiers.CommentExample | buffer/src/main/java/io/netty/buffer/PoolChunkList.java:74-75 | the comment's example: minUsage 1 and a 16 MiB chunk give 16777215, so a fully free chunk (usage 0) is demoted; a plain +1 shift would give 16777216 |
| Tiers.LowBoundNeverDemotes | buffer/src/main/java/io/netty/buffer/PoolChunkList.java:79 | a tier with minUsage at most 0 (the arena's first tier) never demotes: its freeMaxThreshold is at least chunkSize |
| Tiers.TopBoundNeverPromotes | buffer/src/main/java/io/netty/buffer/PoolChunkList.java:78 | a tier with maxUsage `Integer.MAX_VALUE` never promotes: its freeMinThreshold is negative |
| Tiers.MinUsageOneThreshold | buffer/src/main/java/io/netty/buffer/PoolChunkList.java:78-79 | for minUsage 1 the freeMaxThreshold is `chunkSize - 1`, at every positive chunk size |
| Tiers.BottomTierReleasesOnlyEmpty | buffer/src/main/java/io/netty/buffer/PoolChunkList.java:161-167 | a chunk that leaves a tier with minUsage at most 1 is completely free, with usage 0 |
| Tiers.FullTierUsageRoundsUp | buffer/src/main/java/io/netty/buffer/PoolChunkList.java:145 | with the line-64 formula, a chunk above the zero threshold of a maxUsage-100 tier can still have usage 100 |
| Tiers.PromotionTarget | buffer/src/main/java/io/netty/buffer/PoolChunkList.java:173-180 | `add` links the chunk into the first tier from t upwards whose freeMinThreshold is below its free bytes; every tier it skips found it too full; if it was forwarded at least once and bands overlap, it lands at or below that tier's freeMaxThreshold |
| Tiers.DemotionTarget | buffer/src/main/java/io/netty/buffer/PoolChunkList.java:144-171 | the descent ends in a strictly lower tier that does not find the chunk too empty, or in Null (destroy); if bands overlap, that tier does not find it too full either; that it is the first fitting tier on the prevList chain is `DemotionFirstFit` |
| Tiers.DemotionFirstFit | buffer/src/main/java/io/netty/buffer/PoolChunkList.java:144-171 | the descent is first fit along the prevList chain: every tier it passes, `Down(t, 0)` to `Down(t, k - 1)`, finds the chunk too empty; the result is the next tier `Down(t, k)`, which keeps it, or Null exactly when the last tier passed has no prevList |
| Tiers.OverlappingBands | buffer/src/main/java/io/netty/buffer/PoolChunkList.java:63-79 | when each tier's maxUsage reaches the next tier's minUsage, and each prevList's maxUsage reaches the tier's minUsage, promotion and demotion land in band |
| Tiers.DemotionArrivesBelowMax | buffer/src/main/java/io/netty/buffer/PoolChunkList.java:145 | the assertion of line 145 in threshold form: when bands overlap, a chunk that `move0` hands from tier t to its prevList arrives in a strictly lower tier and above that tier's freeMinThreshold |
| Tiers.DemotionArrivesBelowMaxUsage | buffer/src/main/java/io/netty/buffer/PoolChunkList.java:145 | the assertion of line 145 as written: when bands overlap and the prevList's maxUsage is below 100, the arriving chunk's usage is below that maxUsage |
| Tiers.DestroyedOnlyWhenEmpty | buffer/src/main/java/io/netty/buffer/PoolChunkList.java:161-168 | the assertion of line 166: if every tier without prevList has minUsage at most 1, a chunk the descent sends to destruction has usage 0 |
| PoolChunkLists.Without | buffer/src/main/java/io/netty/buffer/PoolChunkList.java:202-217 | removing a member shortens the list by one, and every other member stays |
| PoolChunkLists.WithoutAt | buffer/src/main/java/io/netty/buffer/PoolChunkList.java:202-217 | in a list without repeats, removing the chunk at position k yields the list with exactly that position cut out, so the others keep their order |
| PoolChunkLists.FirstServed | buffer/src/main/java/io/netty/buffer/PoolChunkList.java:118-127 | `allocate` tries chunks head to tail: every earlier chunk refused, the one found serves |
| PoolChunkLists.Unlink | buffer/src/main/java/io/netty/buffer/PoolChunkList.java:202-217 | the table after `remove` differs only in the neighbours' bridging `next`/`prev`, and no free-byte count changes |
| PoolChunkLists.UnlinkKeepsLinks | buffer/src/main/java/io/netty/buffer/PoolChunkList.java:202-217 | after unlinking, the remaining chunks still form a consistent list, in the old order, headed by the new head |
| PoolChunkLists.RemoveKeepsChain | buffer/src/main/java/io/netty/buffer/PoolChunkList.java:202-217 | `remove` leaves every tier's list well formed, and the removed chunk is in no list |
| PoolChunkLists.AtMostOneTier | buffer/src/main/java/io/netty/buffer/PoolChunkList.java:187 | since a linked chunk's parent is its tier, no chunk is linked into two tiers |
| PoolChunkLists.Link | buffer/src/main/java/io/netty/buffer/PoolChunkList.java:185-200 | `add0` changes no free-byte count |
| PoolChunkLists.PushKeepsLinks | buffer/src/main/java/io/netty/buffer/PoolChunkList.java:185-200 | after `add0`, the list is the chunk followed by the old list, consistently linked, headed by the chunk |
| PoolChunkLists.PushKeepsChain | buffer/src/main/java/io/netty/buffer/PoolChunkList.java:185-200 | `add0` of an unlinked chunk leaves every tier's list well formed |
| PoolChunkLists.BandsAfterRemove | buffer/src/main/java/io/netty/buffer/PoolChunkList.java:202-217 | removing the one out-of-band chunk leaves every linked chunk in band |
| PoolChunkLists.BandsAfterPush | buffer/src/main/java/io/netty/buffer/PoolChunkList.java:185-200 | linking an in-band chunk keeps every linked chunk in band |
| PoolChunkLists.ChunkListChain.constructor | buffer/src/main/java/io/netty/buffer/PoolChunkList.java:54-80 | each tier is built from its band as the constructor builds it; lists are empty and prevLists unset; the chain is valid and banded |
| PoolChunkLists.ChunkListChain.SetPrevList | buffer/src/main/java/io/netty/buffer/PoolChunkList.java:104-107 | prevList is set only while unset (the assertion of line 105); nothing else changes |
| PoolChunkLists.ChunkListChain.Remove | buffer/src/main/java/io/netty/buffer/PoolChunkList.java:202-217 | the tier's list becomes the old list without the chunk, all lists stay well formed, the chunk is unlinked, and no free-byte count changes |
| PoolChunkLists.ChunkListChain.Bridge | buffer/src/main/java/io/netty/buffer/PoolChunkList.java:203-216 | the head or the predecessor skips the chunk, and the successor points back past it |
| PoolChunkLists.ChunkListChain.Add0 | buffer/src/main/java/io/netty/buffer/PoolChunkList.java:185-200 | the chunk becomes the head, with parent set, prev null and next the old head; the list becomes the chunk followed by the old list |
| PoolChunkLists.ChunkListChain.Add | buffer/src/main/java/io/netty/buffer/PoolChunkList.java:173-180 | the chunk is linked at the head of `PromotionTarget`'s tier; bands stay intact when they overlap |
| PoolChunkLists.ChunkListChain.Allocate | buffer/src/main/java/io/netty/buffer/PoolChunkList.java:109-129 | true iff `normCapacity <= maxCapacity` and some chunk serves; on false nothing changes; on true the first serving chunk, head to tail, lost the bytes it took and no other chunk changed; it stays iff it is still above freeMinThreshold, else it is at the head of the `PromotionTarget` tier; bands stay intact when they overlap |
| PoolChunkLists.ChunkListChain.FirstServing | buffer/src/main/java/io/netty/buffer/PoolChunkList.java:118-127 | walking `cur = cur.next` from the head finds exactly the chunk `FirstServed` names, or null |
| PoolChunkLists.ChunkListChain.Charge | buffer/src/main/java/io/netty/buffer/PoolChunkList.java:119-125 | the serving chunk loses the bytes taken; it stays iff it is still above freeMinThreshold, and otherwise is removed and added to nextList |
| PoolChunkLists.ChunkListChain.Promote | buffer/src/main/java/io/netty/buffer/PoolChunkList.java:121-124 | a chunk at or below freeMinThreshold leaves its tier and lands at the head of `PromotionTarget(t + 1)`; a next tier always exists |
| PoolChunkLists.ChunkListChain.Free | buffer/src/main/java/io/netty/buffer/PoolChunkList.java:131-142 | the chunk gains the released bytes; at or below freeMaxThreshold it stays and true is returned; otherwise it leaves the tier and ends at the head of the `DemotionTarget` tier, with false (and the chunk in no list) exactly when that is Null |
| PoolChunkLists.ChunkListChain.SetFreeBytes | buffer/src/main/java/io/netty/buffer/PoolChunkList.java:133 | only the one chunk's free bytes change, and the lists stay well formed |
| PoolChunkLists.ChunkListChain.Move | buffer/src/main/java/io/netty/buffer/PoolChunkList.java:144-155 | where bands overlap it requires what the assertion of line 145 guards (the chunk is above p's freeMinThreshold); a chunk that fits is linked here and true is returned; otherwise the descent continues as `DemotionTarget` says |
| PoolChunkLists.ChunkListChain.Move0 | buffer/src/main/java/io/netty/buffer/PoolChunkList.java:161-171 | false exactly when the descent reaches a tier without prevList; otherwise the chunk is at the head of the `DemotionTarget` tier |
| PoolChunkLists.ChunkListChain.Iterator | buffer/src/main/java/io/netty/buffer/PoolChunkList.java:233-249 | the snapshot is the tier's chunks head to tail, or empty for an empty list |
| PoolChunkLists.ChunkListChain.Destroy | buffer/src/main/java/io/netty/buffer/PoolChunkList.java:271-278 | every chunk of the tier goes to `destroyChunk` in head-to-tail order, then the list is empty and its head null |

## Left out

- `toString` (lines 251-269): it formats `PoolChunk` objects, whose `toString` is not part of this model.
- The `synchronized (arena)` blocks (lines 235, 254) and all concurrency: every operation runs alone on a consistent state.
- The arena reference, `PooledByteBuf`, `reqCapacity`, `sizeIdx`, `PoolThreadCache`, `handle` and `nioBuffer` arguments: they only reach `PoolChunk` and `PoolArena`, which are not part of this model.
- `PoolChunk.allocate`, `PoolChunk.free` and `PoolChunk.usage()` are abstract. `grant` stands for the first, `released` for the second, and the formula of line 64 for the third. Any real `usage()` that rounds differently is not captured.
- Tiers.FreeThreshold: the double expression of lines 78-79 is evaluated over exact rationals and then truncated and saturated. The double rounding of each step is not modelled: the inexact literal `0.99999999`, the subtraction, the addition, the multiplication and the division by `100L` each round in Java.
- Tiers.MaxCapacityIsShareOfChunk: the bounds `[0, chunkSize]` and the size test are stated only when `max(1, minUsage)` is below 100. Above 100 the `(int)` cast of line 101 wraps around, and the capacity can exceed the chunk (Tiers.MaxCapacityWrapsAboveHundred).
- Tiers.ThresholdAligned, Tiers.PromotionMatchesUsage, Tiers.DemotionMatchesUsage: stated only for a bound below 100. Lines 76-79 give the bound 100 a zero threshold, and that breaks the alignment: one free byte in a 200-byte chunk is above the threshold 0 yet has usage 100 (Tiers.FullTierUsageRoundsUp).
- Tiers.ThresholdIntegerForm, Tiers.ThresholdAligned, Tiers.PromotionMatchesUsage, Tiers.DemotionMatchesUsage, Tiers.DemotionArrivesBelowMaxUsage: proved only for chunk sizes up to 10^8 bytes. Above that, the 0.99999999 shift can cross an integer.
- PoolChunkLists.ChunkListChain.Valid: the last tier must have a negative freeMinThreshold. Otherwise Java's `nextList.add` would dereference null, and that exception is not modelled. Netty's top tier has maxUsage `Integer.MAX_VALUE`; Tiers.TopBoundNeverPromotes shows its threshold is negative.
- PoolChunkLists.ChunkListChain.SetPrevList: a prevList may only be Null, a lower tier, or the tier itself when its freeMaxThreshold is at least chunkSize (Netty's first tier). This keeps the `move0`/`move` recursion finite. Cyclic configurations, which would overflow Java's stack, are not modelled.
- PoolChunkLists.ChunkListChain.Move: the assertion `usage() < maxUsage` of line 145 is required in threshold form, `freeBytes > freeMinThreshold`, and only where demotions overlap. Under the line-64 formula the usage form can fail for a tier with maxUsage 100 (Tiers.FullTierUsageRoundsUp). Below 100 it follows from the threshold form (Tiers.DemotionArrivesBelowMaxUsage).
- PoolChunkLists.ChunkListChain.Move0: the assertion of line 166 is not checked in the method. It is proved separately, under its hypotheses, as Tiers.DestroyedOnlyWhenEmpty.
- The band invariant (`Banded`) is preserved only when consecutive bands overlap (PromotionsOverlap, DemotionsOverlap). Tiers.OverlappingBands derives this from the usage bounds.
- PoolChunkLists.ChunkListChain.Iterator: returns the chunks as a sequence rather than a Java `Iterator`. `EMPTY_METRICS` is the empty sequence.
- PoolChunkLists.ChunkListChain.Destroy: returns the chunks handed to `arena.destroyChunk`, in call order, instead of calling the arena. A destroyed or removed chunk keeps its stale `prev`/`next`/`parent` values, as in Java.
- The other files of the repository (HTTP/2 multiplexing tests, example servers, thread-local demos, allocator driver programs and an executor interface) are not part of this model. They hold no tier logic.
