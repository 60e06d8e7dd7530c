/**
 * The scan-slot bitmask of a rule set (`tidx_mask`): bit `t` is set while
 * slot `t` is reserved by a scan. The mask is 32 bits wide and a rule set
 * supports MAX_THREADS (32) concurrent scans.
 *
 * Slot indexes are kept as 6-bit values: 0 to 31 name a slot and 32 is what
 * the allocation loop ends on when every slot is taken.
 */
module SlotMask {
  import opened Types

  type Slot = bv6

  /** The single-bit mask of slot `t`, `1 << t`; past the last slot it is 0. */
  function SlotBit(t: Slot): bv32
    requires t <= 32
  {
    (1 as bv32) << t
  }

  /** Slot `t` is reserved in `mask`. */
  predicate InUse(mask: bv32, t: Slot)
    requires t < 32
  {
    mask & SlotBit(t) != 0
  }

  /** The lowest slot at or above `k` that `mask` leaves free, or 32 when there is none. */
  function LowestClearFrom(mask: bv32, k: Slot): (t: Slot)
    requires k <= 32
    ensures k <= t <= 32
    decreases 32 - k
  {
    if k == 32 || !InUse(mask, k) then k else LowestClearFrom(mask, k + 1)
  }

  /** The slot a new scan gets: the lowest free one, or 32 when every slot is reserved. */
  function LowestClearBit(mask: bv32): (t: Slot)
    ensures t <= 32
  {
    LowestClearFrom(mask, 0)
  }

  /** `LowestClearFrom` skips only reserved slots and stops on a free one. */
  lemma {:induction false} LowestClearFromIsLowest(mask: bv32, k: Slot)
    requires k <= 32
    ensures forall j: Slot :: k <= j < LowestClearFrom(mask, k) ==> InUse(mask, j)
    ensures LowestClearFrom(mask, k) < 32 ==> !InUse(mask, LowestClearFrom(mask, k))
    decreases 32 - k
  {
    if k < 32 && InUse(mask, k) {
      LowestClearFromIsLowest(mask, k + 1);
    }
  }

  /**
   * The slot handed out is free and every slot below it is reserved; it is
   * 32 exactly when all 32 slots are reserved.
   */
  lemma LowestClearBitIsLowest(mask: bv32)
    ensures forall j: Slot :: j < LowestClearBit(mask) ==> InUse(mask, j)
    ensures LowestClearBit(mask) < 32 ==> !InUse(mask, LowestClearBit(mask))
    ensures LowestClearBit(mask) == 32 <==> forall j: Slot :: j < 32 ==> InUse(mask, j)
  {
    LowestClearFromIsLowest(mask, 0);
  }

  /**
   * The search loop of slot allocation: shift a one-bit probe left until it
   * meets a clear bit of the mask. When all 32 bits are set the probe shifts
   * out to 0 and the loop stops with `tidx == 32`.
   */
  method FindFreeSlot(mask: bv32) returns (tidx: Slot, bit: bv32)
    ensures tidx == LowestClearBit(mask)
    ensures bit == SlotBit(tidx)
    ensures tidx < 32 ==> !InUse(mask, tidx)
  {
    tidx, bit := 0, 1;
    while mask & bit != 0
      invariant tidx <= 32 && bit == SlotBit(tidx)
      invariant LowestClearFrom(mask, tidx) == LowestClearBit(mask)
      decreases 32 - tidx
    {
      ProbeNext(mask, tidx, bit);
      tidx := tidx + 1;
      bit := bit << 1;
    }
    ProbeStop(mask, tidx, bit);
  }

  /** A probe on a reserved slot is not past the last slot, and shifting it gives the next slot's bit. */
  lemma ProbeNext(mask: bv32, t: Slot, bit: bv32)
    requires t <= 32 && bit == SlotBit(t) && mask & bit != 0
    ensures t < 32 && SlotBit(t + 1) == bit << 1
    ensures LowestClearFrom(mask, t + 1) == LowestClearFrom(mask, t)
  {
    SlotBitTop();
    SlotBitNext(t);
  }

  /** A probe on a clear bit has found the lowest free slot from there on. */
  lemma ProbeStop(mask: bv32, t: Slot, bit: bv32)
    requires t <= 32 && bit == SlotBit(t) && mask & bit == 0
    ensures LowestClearFrom(mask, t) == t
  {
  }

  /** Setting the bit of free slot `t` reserves `t` and leaves every other slot as it was. */
  lemma ReserveOnlyThatSlot(mask: bv32, t: Slot)
    requires t < 32 && !InUse(mask, t)
    ensures InUse(mask | SlotBit(t), t)
    ensures forall j: Slot :: j < 32 && j != t ==> InUse(mask | SlotBit(t), j) == InUse(mask, j)
  {
    SetReservesSlot(mask, t);
    forall j: Slot | j < 32 && j != t
      ensures InUse(mask | SlotBit(t), j) == InUse(mask, j)
    {
      SetLeavesOtherSlot(mask, t, j);
    }
  }

  /** Clearing the bit of slot `t` frees `t` and leaves every other slot as it was. */
  lemma ReleaseOnlyThatSlot(mask: bv32, t: Slot)
    requires t < 32
    ensures !InUse(mask & !SlotBit(t), t)
    ensures forall j: Slot :: j < 32 && j != t ==> InUse(mask & !SlotBit(t), j) == InUse(mask, j)
  {
    ClearFreesSlot(mask, t);
    forall j: Slot | j < 32 && j != t
      ensures InUse(mask & !SlotBit(t), j) == InUse(mask, j)
    {
      ClearLeavesOtherSlot(mask, t, j);
    }
  }

  /** Releasing a slot that was free before it was reserved gives back the mask the scan started from. */
  lemma ReleaseUndoesReserve(mask: bv32, t: Slot)
    requires t < 32 && !InUse(mask, t)
    ensures ClearFlag(SetFlag(mask, SlotBit(t)), SlotBit(t)) == mask
  {
    ClearUndoesSetOfClear(mask, SlotBit(t));
  }

  lemma SlotBitNext(t: Slot)
    requires t < 32
    ensures SlotBit(t + 1) == SlotBit(t) << 1
  {
  }

  lemma SlotBitTop()
    ensures SlotBit(32) == 0
  {
  }

  lemma SetReservesSlot(mask: bv32, t: Slot)
    requires t < 32
    ensures InUse(mask | SlotBit(t), t)
  {
  }

  lemma ClearFreesSlot(mask: bv32, t: Slot)
    requires t < 32
    ensures !InUse(mask & !SlotBit(t), t)
  {
  }

  lemma SetLeavesOtherSlot(mask: bv32, t: Slot, j: Slot)
    requires t < 32 && j < 32 && t != j
    ensures InUse(mask | SlotBit(t), j) == InUse(mask, j)
  {
  }

  lemma ClearLeavesOtherSlot(mask: bv32, t: Slot, j: Slot)
    requires t < 32 && j < 32 && t != j
    ensures InUse(mask & !SlotBit(t), j) == InUse(mask, j)
  {
  }
}
