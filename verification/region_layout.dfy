/** The BIOS-region layout used by `GetFirmwareUpdateInfo`: where the Top Swap,
    Redundant and Non-Redundant regions of the copy being updated start.

    The BIOS region is laid out top-down as

        Top Swap | Top Swap Backup | Redundant | Redundant Backup | Non Redundant

    with the Top Swap region ending at the top of the ROM. Copy A is made of
    the Top Swap and Redundant slots, copy B of the two backup slots; the
    Non-Redundant slot is shared. The offsets are computed with unchecked
    `UINT32` arithmetic.
 */
module RegionLayout {
  import opened Word
  import opened Extents
  import opened FlashMap

  /** The `StateMachine` field of the update policy: the two phases in which
      the Non-Redundant region is written, and every other state. */
  datatype Phase = SmPartA | SmPartB | SmOther

  /** `FIRMWARE_UPDATE_POLICY`: which copy to update and the state-machine phase. */
  datatype Policy = Policy(updatePartitionB: nat, stateMachine: Phase)

  /** The policy selects copy B exactly when its `UpdatePartitionB` field is 1. */
  predicate TargetsB(policy: Policy)
  {
    policy.updatePartitionB == 1
  }

  /** Offsets, from the bottom of the BIOS region, of the three regions to update. */
  datatype Layout = Layout(topSwap: u32, redundant: u32, nonRedundant: u32)

  /** The bytes taken, from the top of a redundant pair down to the end of
      the policy's copy, by a pair of regions of `size` bytes each: one region
      for copy A, both for copy B. */
  function PairDepth(policy: Policy, size: nat): nat
  {
    if TargetsB(policy) then 2 * size else size
  }

  /** Line 292's `RomSize - (TopSwapRegionSize + RedundantRegionSize) * 2 -
      NonRedundantRegionSize`: the offset sits both redundant pairs and its own
      size below the top of the ROM, modulo 2^32. */
  function NonRedundantOffset(romSize: u32, sizes: RegionSizes): (o: u32)
    ensures Congruent(o + 2 * (sizes.topSwap + sizes.redundant) + sizes.nonRedundant, romSize)
  {
    var ts := sizes.topSwap;
    var rs := sizes.redundant;
    var ns := sizes.nonRedundant;
    var o := Sub32(Sub32(romSize, Twice32(Add32(ts, rs))), ns);
    NonRedundantChain(romSize, ts, rs, ns);
    o
  }

  /** Lines 294 and 297-298: the Top Swap offset, one region below the top of
      the ROM, and one more for copy B. It sits the depth of its pair's used
      part below the top of the ROM, modulo 2^32. */
  function TopSwapOffset(romSize: u32, ts: u32, policy: Policy): (o: u32)
    ensures Congruent(o + PairDepth(policy, ts), romSize)
  {
    var top := Sub32(romSize, ts);
    if TargetsB(policy) then
      SubStep(top, romSize, ts, ts);
      Sub32(top, ts)
    else
      top
  }

  /** Lines 295 and 297-299: the Redundant offset, below both Top Swap slots
      and one Redundant region, and one more for copy B. */
  function RedundantOffset(romSize: u32, ts: u32, rs: u32, policy: Policy): (o: u32)
    ensures Congruent(o + 2 * ts + PairDepth(policy, rs), romSize)
  {
    var top := Sub32(romSize, ts);
    var below := Sub32(top, ts);
    SubStep(top, romSize, ts, ts);
    var redundant := Sub32(below, rs);
    SubStep(below, romSize, 2 * ts, rs);
    if TargetsB(policy) then
      SubStep(redundant, romSize, 2 * ts + rs, rs);
      Sub32(redundant, rs)
    else
      redundant
  }

  /** The region offsets of the copy the policy selects. Each offset, plus the
      sizes of all regions stacked above it in the diagram, adds up to the ROM
      size modulo 2^32. */
  function ComputeLayout(romSize: u32, sizes: RegionSizes, policy: Policy): (l: Layout)
    ensures Congruent(l.nonRedundant + 2 * (sizes.topSwap + sizes.redundant) + sizes.nonRedundant, romSize)
    ensures Congruent(l.topSwap + PairDepth(policy, sizes.topSwap), romSize)
    ensures Congruent(l.redundant + 2 * sizes.topSwap + PairDepth(policy, sizes.redundant), romSize)
  {
    var topSwap := TopSwapOffset(romSize, sizes.topSwap, policy);
    var redundant := RedundantOffset(romSize, sizes.topSwap, sizes.redundant, policy);
    var nonRedundant := NonRedundantOffset(romSize, sizes);
    Layout(topSwap, redundant, nonRedundant)
  }

  /** The computation at line 292, step by step. */
  lemma NonRedundantChain(romSize: u32, ts: u32, rs: u32, ns: u32)
    ensures Congruent(Sub32(Sub32(romSize, Twice32(Add32(ts, rs))), ns) + 2 * (ts + rs) + ns, romSize)
  {
    var sum: int := Add32(ts, rs);
    var doubled: int := Twice32(sum);
    var belowPairs: int := Sub32(romSize, doubled);
    var o: int := Sub32(belowPairs, ns);
    assert Congruent(sum, ts + rs);
    CongruentAdd(sum, ts + rs, sum, ts + rs);
    assert Congruent(doubled, 2 * sum);
    CongruentTrans(doubled, 2 * sum, 2 * (ts + rs));
    assert Congruent(o + ns, belowPairs);
    assert Congruent(belowPairs + doubled, romSize);
    SubChain(o, belowPairs, romSize, doubled, ns);
    CongruentRefl(o + ns);
    CongruentSym(doubled, 2 * (ts + rs));
    CongruentAdd(o + ns, o + ns, 2 * (ts + rs), doubled);
    CongruentTrans(o + ns + 2 * (ts + rs), o + ns + doubled, romSize);
  }

  /** Subtracting `e` from a value that sits `d` below `top` (mod 2^32) leaves
      one that sits `d + e` below it. */
  lemma SubStep(y: u32, top: u32, d: int, e: u32)
    requires Congruent(y + d, top)
    ensures Congruent(Sub32(y, e) + d + e, top)
  {
    var k :| y + d - top == Turns(k);
    if e > y {
      CongruentBy(Sub32(y, e) + d + e, top, k + 1);
    } else {
      CongruentBy(Sub32(y, e) + d + e, top, k);
    }
  }

  /** Chains two congruences: if `x` sits `e` below `y` and `y` sits `d`
      below `top` (mod 2^32), then `x` sits `d + e` below `top`. */
  lemma SubChain(x: int, y: int, top: int, d: int, e: int)
    requires Congruent(x + e, y) && Congruent(y + d, top)
    ensures Congruent(x + d + e, top)
  {
    CongruentRefl(d);
    CongruentAdd(x + e, y, d, d);
    CongruentTrans(x + e + d, y + d, top);
  }

  /** The three region sizes fit in the ROM, both copies of the redundant pair included. */
  predicate Fits(romSize: u32, sizes: RegionSizes)
  {
    2 * (sizes.topSwap + sizes.redundant) + sizes.nonRedundant <= romSize
  }

  /** No region is empty. */
  predicate NonEmpty(sizes: RegionSizes)
  {
    sizes.topSwap > 0 && sizes.redundant > 0 && sizes.nonRedundant > 0
  }

  /** When the regions fit, no subtraction wraps and the offsets are the plain
      differences of the diagram. */
  lemma {:induction false} LayoutNoWrap(romSize: u32, sizes: RegionSizes, policy: Policy)
    requires Fits(romSize, sizes)
    ensures ComputeLayout(romSize, sizes, policy).nonRedundant
            == romSize - 2 * (sizes.topSwap + sizes.redundant) - sizes.nonRedundant
    ensures ComputeLayout(romSize, sizes, policy).topSwap
            == romSize - PairDepth(policy, sizes.topSwap)
    ensures ComputeLayout(romSize, sizes, policy).redundant
            == romSize - 2 * sizes.topSwap - PairDepth(policy, sizes.redundant)
  {
    var l := ComputeLayout(romSize, sizes, policy);
    var ts := sizes.topSwap;
    var rs := sizes.redundant;
    var ns := sizes.nonRedundant;
    UniqueBelow(l.nonRedundant, 2 * (ts + rs) + ns, romSize);
    UniqueBelow(l.topSwap, PairDepth(policy, ts), romSize);
    UniqueBelow(l.redundant, 2 * ts + PairDepth(policy, rs), romSize);
  }

  /** A `UINT32` value `x` with `x + d == top (mod 2^32)` is `top - d` when `d <= top`. */
  lemma UniqueBelow(x: u32, d: nat, top: u32)
    requires d <= top
    requires Congruent(x + d, top)
    ensures x == top - d
  {
    var k :| x + d - top == Turns(k);
    CongruentBy(x, top - d, k);
    CongruentUnique(x, top - d);
  }

  /** The five slots of the BIOS-region diagram, top to bottom. */
  datatype Slot = TopSwapSlot | TopSwapBackupSlot | RedundantSlot | RedundantBackupSlot | NonRedundantSlot

  function SlotIndex(slot: Slot): (i: nat)
    ensures i < 5
  {
    match slot
    case TopSwapSlot => 0
    case TopSwapBackupSlot => 1
    case RedundantSlot => 2
    case RedundantBackupSlot => 3
    case NonRedundantSlot => 4
  }

  /** The diagram as extents: the five slots stacked down from the top of the ROM. */
  function PhysicalLayout(romSize: u32, sizes: RegionSizes): (slots: seq<Extent>)
    ensures |slots| == 5
  {
    StackDown(romSize, [sizes.topSwap, sizes.topSwap, sizes.redundant, sizes.redundant, sizes.nonRedundant])
  }

  function SlotExtent(romSize: u32, sizes: RegionSizes, slot: Slot): Extent
  {
    PhysicalLayout(romSize, sizes)[SlotIndex(slot)]
  }

  /** The Top Swap slot that the policy's copy occupies. */
  function TopSwapTarget(policy: Policy): Slot
  {
    if TargetsB(policy) then TopSwapBackupSlot else TopSwapSlot
  }

  /** The Redundant slot that the policy's copy occupies. */
  function RedundantTarget(policy: Policy): Slot
  {
    if TargetsB(policy) then RedundantBackupSlot else RedundantSlot
  }

  /** The computed offsets, with the region sizes, are exactly the diagram's
      slots for the selected copy: the primary slots for copy A, the backup
      slots for copy B, and the shared Non-Redundant slot for both. */
  lemma {:induction false} LayoutMatchesDiagram(romSize: u32, sizes: RegionSizes, policy: Policy)
    requires Fits(romSize, sizes)
    ensures Extent(ComputeLayout(romSize, sizes, policy).topSwap, sizes.topSwap)
            == SlotExtent(romSize, sizes, TopSwapTarget(policy))
    ensures Extent(ComputeLayout(romSize, sizes, policy).redundant, sizes.redundant)
            == SlotExtent(romSize, sizes, RedundantTarget(policy))
    ensures Extent(ComputeLayout(romSize, sizes, policy).nonRedundant, sizes.nonRedundant)
            == SlotExtent(romSize, sizes, NonRedundantSlot)
  {
    LayoutNoWrap(romSize, sizes, policy);
    var p := PhysicalLayout(romSize, sizes);
    assert p[0] == Extent(romSize - sizes.topSwap, sizes.topSwap);
    assert p[1] == Extent(romSize - 2 * sizes.topSwap, sizes.topSwap);
    assert p[2] == Extent(romSize - 2 * sizes.topSwap - sizes.redundant, sizes.redundant);
    assert p[3] == Extent(romSize - 2 * sizes.topSwap - 2 * sizes.redundant, sizes.redundant);
    assert p[4].size == sizes.nonRedundant;
  }

  /** Every slot of the diagram lies inside `[0, romSize)` when the regions fit,
      and distinct slots never overlap. */
  lemma {:induction false} DiagramInsideRom(romSize: u32, sizes: RegionSizes, a: Slot, b: Slot)
    requires Fits(romSize, sizes)
    ensures 0 <= SlotExtent(romSize, sizes, a).start
    ensures SlotExtent(romSize, sizes, a).End() <= romSize
    ensures SlotIndex(a) < SlotIndex(b) ==>
              Below(SlotExtent(romSize, sizes, b), SlotExtent(romSize, sizes, a))
    ensures NonEmpty(sizes) ==> SlotExtent(romSize, sizes, a).size > 0
  {
    var s := [sizes.topSwap, sizes.topSwap, sizes.redundant, sizes.redundant, sizes.nonRedundant];
    assert Sum(s) == 2 * (sizes.topSwap + sizes.redundant) + sizes.nonRedundant by {
      var s1 := s[1..];
      var s2 := s1[1..];
      var s3 := s2[1..];
      var s4 := s3[1..];
      assert Sum(s4) == sizes.nonRedundant + Sum(s4[1..]) && s4[1..] == [];
      assert Sum(s3) == sizes.redundant + Sum(s4);
      assert Sum(s2) == sizes.redundant + Sum(s3);
      assert Sum(s1) == sizes.topSwap + Sum(s2);
    }
    StackDownSpan(romSize, s, SlotIndex(a));
    if SlotIndex(a) < SlotIndex(b) {
      StackDownDescending(romSize, s, SlotIndex(a), SlotIndex(b));
    }
  }

  /** Copy B's Top Swap and Redundant offsets are copy A's moved down by one
      region size each, modulo 2^32; the Non-Redundant offset is shared. */
  lemma {:induction false} CopySymmetry(romSize: u32, sizes: RegionSizes, a: Policy, b: Policy)
    requires !TargetsB(a) && TargetsB(b)
    ensures ComputeLayout(romSize, sizes, b).topSwap
            == Sub32(ComputeLayout(romSize, sizes, a).topSwap, sizes.topSwap)
    ensures ComputeLayout(romSize, sizes, b).redundant
            == Sub32(ComputeLayout(romSize, sizes, a).redundant, sizes.redundant)
    ensures ComputeLayout(romSize, sizes, b).nonRedundant
            == ComputeLayout(romSize, sizes, a).nonRedundant
    ensures Fits(romSize, sizes) ==>
              && ComputeLayout(romSize, sizes, b).topSwap + sizes.topSwap
                 == ComputeLayout(romSize, sizes, a).topSwap
              && ComputeLayout(romSize, sizes, b).redundant + sizes.redundant
                 == ComputeLayout(romSize, sizes, a).redundant
  {
    if Fits(romSize, sizes) {
      LayoutNoWrap(romSize, sizes, a);
      LayoutNoWrap(romSize, sizes, b);
    }
  }

  /** A 16 MiB ROM with a 64 KiB Top Swap, 1 MiB Redundant and 2 MiB
      Non-Redundant region. */
  lemma ExampleLayout()
    ensures ComputeLayout(0x100_0000, RegionSizes(0x1_0000, 0x10_0000, 0x20_0000), Policy(0, SmOther))
            == Layout(0xFF_0000, 0xEE_0000, 0xBE_0000)
    ensures ComputeLayout(0x100_0000, RegionSizes(0x1_0000, 0x10_0000, 0x20_0000), Policy(1, SmOther))
            == Layout(0xFE_0000, 0xDE_0000, 0xBE_0000)
  {
    var sizes := RegionSizes(0x1_0000, 0x10_0000, 0x20_0000);
    LayoutNoWrap(0x100_0000, sizes, Policy(0, SmOther));
    LayoutNoWrap(0x100_0000, sizes, Policy(1, SmOther));
  }

  /** Nothing rejects sizes that do not fit: the Non-Redundant offset then
      wraps to the top of the 32-bit range and that region ends past the ROM. */
  lemma OversizedLayoutWraps()
    ensures var sizes := RegionSizes(0x1000, 0x10, 0x10);
            && !Fits(0x1000, sizes)
            && ComputeLayout(0x1000, sizes, Policy(0, SmPartA)).nonRedundant == 0xFFFF_EFD0
            && ComputeLayout(0x1000, sizes, Policy(0, SmPartA)).nonRedundant + sizes.nonRedundant > 0x1000
  {
  }
}
