/** `GetFirmwareUpdateInfo`: the list of regions to write for one pass of a
    firmware update.

    Each region names where in the BIOS region to write (`ToUpdateAddress`),
    how many bytes (`UpdateSize`), and where in the capsule image the new
    bytes are (`SourceAddress`). The capsule mirrors the BIOS region right
    after its header, so a region's source is the capsule's header address
    plus the header size plus the region's offset.
 */
module UpdatePlan {
  import opened Word
  import opened Efi
  import opened Extents
  import opened FlashMap
  import opened RegionLayout

  /** `FIRMWARE_UPDATE_REGION`. */
  datatype Region = Region(toUpdateAddress: u32, updateSize: u32, sourceAddress: int) {
    /** The bytes of the BIOS region this entry overwrites. */
    function Target(): Extent
    {
      Extent(toUpdateAddress, updateSize)
    }
  }

  /** The Non-Redundant region is written only in the `FW_UPDATE_SM_PART_A` and
      `FW_UPDATE_SM_PART_B` phases. */
  predicate WritesNonRedundant(phase: Phase)
  {
    phase == SmPartA || phase == SmPartB
  }

  /** The capsule address of BIOS-region offset `offset`, computed in `UINTN`
      as `(UINTN)ImageHdr + sizeof (header) + (UINTN)offset`. */
  function CapsuleSource(capsule: Capsule, offset: u32): (a: int)
    requires capsule.WellFormed()
    ensures 0 <= a < UintnModulus(capsule.arch)
    ensures var sum := capsule.header + capsule.headerSize + offset;
            sum < UintnModulus(capsule.arch) ==> a == sum
  {
    AddN(capsule.arch, AddN(capsule.arch, capsule.header, capsule.headerSize), offset)
  }

  /** The Non-Redundant region's source as line 333 computes it, casting the
      header address through `UINT32` instead of `UINTN`: the capsule address
      of `offset` for a header moved to its low 32 bits. It agrees with
      `CapsuleSource` whenever the header lies below 4 GiB. */
  function TruncatedHeaderSource(capsule: Capsule, offset: u32): (a: int)
    requires capsule.WellFormed()
    ensures 0 <= a < UintnModulus(capsule.arch)
    ensures a == CapsuleSource(Capsule(capsule.arch, capsule.header % Modulus32, capsule.headerSize), offset)
    ensures capsule.header < Modulus32 ==> a == CapsuleSource(capsule, offset)
  {
    AddN(capsule.arch, AddN(capsule.arch, Truncate32(capsule.header), capsule.headerSize), offset)
  }

  /** Every region reads its new contents from the capsule's mirror of the
      very bytes it overwrites. */
  predicate MirrorsBios(capsule: Capsule, regions: seq<Region>)
    requires capsule.WellFormed()
  {
    forall i :: 0 <= i < |regions| ==> regions[i].sourceAddress == CapsuleSource(capsule, regions[i].toUpdateAddress)
  }

  /** The region list of lines 307-335: Top Swap and Redundant always, the
      Non-Redundant region in the two phases that write it, whose source
      address is supplied by the caller. */
  function PlanRegions(capsule: Capsule, layout: Layout, sizes: RegionSizes, phase: Phase, nonRedundantSource: int)
    : (regions: seq<Region>)
    requires capsule.WellFormed()
    ensures |regions| == (if WritesNonRedundant(phase) then 3 else 2)
    ensures regions[0] == Region(layout.topSwap, sizes.topSwap, CapsuleSource(capsule, layout.topSwap))
    ensures regions[1] == Region(layout.redundant, sizes.redundant, CapsuleSource(capsule, layout.redundant))
    ensures |regions| == 3 ==> regions[2] == Region(layout.nonRedundant, sizes.nonRedundant, nonRedundantSource)
  {
    var topSwap := Region(layout.topSwap, sizes.topSwap, CapsuleSource(capsule, layout.topSwap));
    var redundant := Region(layout.redundant, sizes.redundant, CapsuleSource(capsule, layout.redundant));
    if WritesNonRedundant(phase) then
      [topSwap, redundant, Region(layout.nonRedundant, sizes.nonRedundant, nonRedundantSource)]
    else
      [topSwap, redundant]
  }

  /** The update plan for the policy's copy and phase, with line 333
      corrected: its Non-Redundant source is computed in `UINTN` like lines
      313 and 322, not through a `UINT32` cast of the header address (the code
      as written is `GetFirmwareUpdateInfoAsWritten`). NOT_FOUND without a
      flash map; otherwise 2 or 3 regions in the order Top Swap, Redundant,
      Non-Redundant, each at its layout offset with its region size, and each
      sourced from the capsule's mirror of its target bytes. */
  function GetFirmwareUpdateInfo(capsule: Capsule, policy: Policy, sizes: RegionSizes, flashMap: Option<FlashMap>)
    : (r: Result<seq<Region>>)
    requires capsule.WellFormed()
    ensures r.Failure? <==> flashMap.None?
    ensures r.Failure? ==> r.error == NotFound
    ensures r.Success? ==>
              var l := ComputeLayout(flashMap.value.romSize, sizes, policy);
              var regions := r.value;
              && |regions| == (if WritesNonRedundant(policy.stateMachine) then 3 else 2)
              && regions[0].Target() == Extent(l.topSwap, sizes.topSwap)
              && regions[1].Target() == Extent(l.redundant, sizes.redundant)
              && (|regions| == 3 ==> regions[2].Target() == Extent(l.nonRedundant, sizes.nonRedundant))
              && MirrorsBios(capsule, regions)
  {
    match flashMap
    case None => Failure(NotFound)
    case Some(map_) =>
      var layout := ComputeLayout(map_.romSize, sizes, policy);
      Success(PlanRegions(capsule, layout, sizes, policy.stateMachine,
                          CapsuleSource(capsule, layout.nonRedundant)))
  }

  /** The plan exactly as lines 291-335 build it, with line 333's `UINT32`
      cast of the header address for the Non-Redundant region. It overwrites
      the same bytes as the corrected plan, and differs from it at most in the
      Non-Redundant region's source. */
  function GetFirmwareUpdateInfoAsWritten(capsule: Capsule, policy: Policy, sizes: RegionSizes, flashMap: Option<FlashMap>)
    : (r: Result<seq<Region>>)
    requires capsule.WellFormed()
    ensures r.Failure? <==> flashMap.None?
    ensures r.Failure? ==> r.error == NotFound
    ensures r.Success? ==>
              var g := GetFirmwareUpdateInfo(capsule, policy, sizes, flashMap).value;
              && |r.value| == |g|
              && r.value[..2] == g[..2]
              && forall i :: 0 <= i < |g| ==> r.value[i].Target() == g[i].Target()
    ensures r.Success? && |r.value| == 3 ==>
              r.value[2].sourceAddress == TruncatedHeaderSource(capsule, r.value[2].toUpdateAddress)
    ensures capsule.header < Modulus32 ==> r == GetFirmwareUpdateInfo(capsule, policy, sizes, flashMap)
  {
    match flashMap
    case None => Failure(NotFound)
    case Some(map_) =>
      var layout := ComputeLayout(map_.romSize, sizes, policy);
      Success(PlanRegions(capsule, layout, sizes, policy.stateMachine,
                          TruncatedHeaderSource(capsule, layout.nonRedundant)))
  }

  /** On an IA32 build every pointer is below 4 GiB, so line 333's cast is harmless. */
  lemma AsWrittenAgreesOnIa32(capsule: Capsule, policy: Policy, sizes: RegionSizes, flashMap: Option<FlashMap>)
    requires capsule.WellFormed() && capsule.arch == Ia32
    ensures GetFirmwareUpdateInfoAsWritten(capsule, policy, sizes, flashMap)
            == GetFirmwareUpdateInfo(capsule, policy, sizes, flashMap)
  {
  }

  /** On an X64 build with the capsule header at 4 GiB, line 333's cast points the
      Non-Redundant region's source 4 GiB below the capsule, outside the
      mirror of the bytes it overwrites. */
  lemma TruncatedSourceMissesMirrorOnX64()
    ensures var capsule := Capsule(X64, 0x1_0000_0000, 0x20);
            var map_ := FlashMap(0x100_0000, ComponentEntries(Failed(NotFound), Failed(NotFound)));
            var r := GetFirmwareUpdateInfoAsWritten(capsule, Policy(0, SmPartA),
                                                   RegionSizes(0x1_0000, 0x10_0000, 0x20_0000), Some(map_));
            && r.Success? && |r.value| == 3
            && r.value[2].toUpdateAddress == 0xBE_0000
            && r.value[2].sourceAddress == 0xBE_0020
            && CapsuleSource(capsule, r.value[2].toUpdateAddress) == 0x1_00BE_0020
            && !MirrorsBios(capsule, r.value)
  {
    var sizes := RegionSizes(0x1_0000, 0x10_0000, 0x20_0000);
    LayoutNoWrap(0x100_0000, sizes, Policy(0, SmPartA));
  }

  /** For every capsule header at or above 4 GiB (so on an X64 build), the
      plan as written reads the Non-Redundant region from outside the mirror
      of the bytes it overwrites: line 333's cast moves the source down by the
      header's high part, a non-zero multiple of 4 GiB below 2^64. */
  lemma {:induction false} TruncatedSourceMissesMirror(capsule: Capsule, policy: Policy, sizes: RegionSizes, map_: FlashMap)
    requires capsule.WellFormed() && capsule.header >= Modulus32
    requires WritesNonRedundant(policy.stateMachine)
    ensures var r := GetFirmwareUpdateInfoAsWritten(capsule, policy, sizes, Some(map_));
            r.Success? && !MirrorsBios(capsule, r.value)
  {
    var r := GetFirmwareUpdateInfoAsWritten(capsule, policy, sizes, Some(map_)).value;
    assert r[2].sourceAddress == TruncatedHeaderSource(capsule, r[2].toUpdateAddress);
  }

  /** The slot of the diagram that region `i` of the plan overwrites. */
  function PlannedSlot(policy: Policy, i: nat): Slot
  {
    if i == 0 then TopSwapTarget(policy)
    else if i == 1 then RedundantTarget(policy)
    else NonRedundantSlot
  }

  /** At most three regions, region `i` overwriting exactly slot
      `PlannedSlot(policy, i)` of the diagram. */
  ghost predicate InPlannedSlots(regions: seq<Region>, romSize: u32, sizes: RegionSizes, policy: Policy)
  {
    && |regions| <= 3
    && forall i :: 0 <= i < |regions| ==> regions[i].Target() == SlotExtent(romSize, sizes, PlannedSlot(policy, i))
  }

  /** With the sizes fitting in the ROM, each planned region occupies the
      diagram slot of the policy's copy: the primary Top Swap and Redundant
      slots for copy A, the backup ones for copy B, and the shared
      Non-Redundant slot. */
  lemma {:induction false} PlanOccupiesTargetSlots(capsule: Capsule, policy: Policy, sizes: RegionSizes, map_: FlashMap)
    requires capsule.WellFormed()
    requires Fits(map_.romSize, sizes)
    ensures var r := GetFirmwareUpdateInfo(capsule, policy, sizes, Some(map_));
            r.Success? && InPlannedSlots(r.value, map_.romSize, sizes, policy)
  {
    var regions := GetFirmwareUpdateInfo(capsule, policy, sizes, Some(map_)).value;
    LayoutMatchesDiagram(map_.romSize, sizes, policy);
    forall i | 0 <= i < |regions|
      ensures regions[i].Target() == SlotExtent(map_.romSize, sizes, PlannedSlot(policy, i))
    {
    }
  }

  /** Regions in their planned slots lie inside `[0, RomSize)`. */
  lemma {:induction false} PlannedSlotsInsideRom(regions: seq<Region>, romSize: u32, sizes: RegionSizes, policy: Policy)
    requires Fits(romSize, sizes)
    requires InPlannedSlots(regions, romSize, sizes, policy)
    ensures forall i :: 0 <= i < |regions| ==> 0 <= regions[i].toUpdateAddress && regions[i].Target().End() <= romSize
  {
    forall i | 0 <= i < |regions|
      ensures 0 <= regions[i].toUpdateAddress && regions[i].Target().End() <= romSize
    {
      DiagramInsideRom(romSize, sizes, PlannedSlot(policy, i), PlannedSlot(policy, i));
    }
  }

  /** Regions in their planned slots are each wholly below the one before,
      and start strictly lower when no region is empty. */
  lemma {:induction false} PlannedSlotsDescending(regions: seq<Region>, romSize: u32, sizes: RegionSizes, policy: Policy)
    requires Fits(romSize, sizes)
    requires InPlannedSlots(regions, romSize, sizes, policy)
    ensures forall i, j :: 0 <= i < j < |regions| ==> Below(regions[j].Target(), regions[i].Target())
    ensures NonEmpty(sizes) ==>
              forall i, j :: 0 <= i < j < |regions| ==> regions[j].toUpdateAddress < regions[i].toUpdateAddress
  {
    forall i, j | 0 <= i < j < |regions|
      ensures Below(regions[j].Target(), regions[i].Target())
      ensures NonEmpty(sizes) ==> regions[j].toUpdateAddress < regions[i].toUpdateAddress
    {
      assert regions[i].Target() == SlotExtent(romSize, sizes, PlannedSlot(policy, i));
      assert regions[j].Target() == SlotExtent(romSize, sizes, PlannedSlot(policy, j));
      DiagramInsideRom(romSize, sizes, PlannedSlot(policy, j), PlannedSlot(policy, i));
      DiagramInsideRom(romSize, sizes, PlannedSlot(policy, i), PlannedSlot(policy, j));
    }
  }

  /** With the sizes fitting in the ROM, every planned region lies inside
      `[0, RomSize)`. */
  lemma {:induction false} PlanInsideRom(capsule: Capsule, policy: Policy, sizes: RegionSizes, map_: FlashMap)
    requires capsule.WellFormed()
    requires Fits(map_.romSize, sizes)
    ensures var r := GetFirmwareUpdateInfo(capsule, policy, sizes, Some(map_));
            && r.Success?
            && forall i :: 0 <= i < |r.value| ==>
                 0 <= r.value[i].toUpdateAddress && r.value[i].Target().End() <= map_.romSize
  {
    PlanOccupiesTargetSlots(capsule, policy, sizes, map_);
    PlannedSlotsInsideRom(GetFirmwareUpdateInfo(capsule, policy, sizes, Some(map_)).value, map_.romSize, sizes, policy);
  }

  /** With the sizes fitting in the ROM, each later region lies wholly below
      every earlier one, so no two regions overlap and they come in the order
      Top Swap, Redundant, Non-Redundant. When no region is empty their start
      offsets strictly decrease. */
  lemma {:induction false} PlanDisjointDescending(capsule: Capsule, policy: Policy, sizes: RegionSizes, map_: FlashMap)
    requires capsule.WellFormed()
    requires Fits(map_.romSize, sizes)
    ensures var r := GetFirmwareUpdateInfo(capsule, policy, sizes, Some(map_));
            && r.Success?
            && (forall i, j :: 0 <= i < j < |r.value| ==> Below(r.value[j].Target(), r.value[i].Target()))
            && (forall i, j :: 0 <= i < |r.value| && 0 <= j < |r.value| && i != j ==>
                  Disjoint(r.value[i].Target(), r.value[j].Target()))
            && (NonEmpty(sizes) ==>
                  forall i, j :: 0 <= i < j < |r.value| ==> r.value[j].toUpdateAddress < r.value[i].toUpdateAddress)
  {
    PlanOccupiesTargetSlots(capsule, policy, sizes, map_);
    PlannedSlotsDescending(GetFirmwareUpdateInfo(capsule, policy, sizes, Some(map_)).value, map_.romSize, sizes, policy);
  }

  /** The plan as written overwrites the same bytes as the corrected plan, so
      with the sizes fitting in the ROM its regions too lie inside
      `[0, RomSize)`, on either build. */
  lemma {:induction false} AsWrittenPlanInsideRom(capsule: Capsule, policy: Policy, sizes: RegionSizes, map_: FlashMap)
    requires capsule.WellFormed()
    requires Fits(map_.romSize, sizes)
    ensures var r := GetFirmwareUpdateInfoAsWritten(capsule, policy, sizes, Some(map_));
            && r.Success?
            && forall i :: 0 <= i < |r.value| ==>
                 0 <= r.value[i].toUpdateAddress && r.value[i].Target().End() <= map_.romSize
  {
    PlanInsideRom(capsule, policy, sizes, map_);
  }

  /** With the sizes fitting in the ROM, the regions of the plan as written are
      pairwise disjoint and come in diagram order, on either build. */
  lemma {:induction false} AsWrittenPlanDisjointDescending(capsule: Capsule, policy: Policy, sizes: RegionSizes, map_: FlashMap)
    requires capsule.WellFormed()
    requires Fits(map_.romSize, sizes)
    ensures var r := GetFirmwareUpdateInfoAsWritten(capsule, policy, sizes, Some(map_));
            && r.Success?
            && (forall i, j :: 0 <= i < j < |r.value| ==> Below(r.value[j].Target(), r.value[i].Target()))
            && (forall i, j :: 0 <= i < |r.value| && 0 <= j < |r.value| && i != j ==>
                  Disjoint(r.value[i].Target(), r.value[j].Target()))
  {
    PlanDisjointDescending(capsule, policy, sizes, map_);
  }

  /** The copy-B plan is the copy-A plan with the Top Swap region moved down by
      its own size and the Redundant region moved down by its own size; the
      region count, the sizes and the Non-Redundant region are the same. */
  lemma {:induction false} PlanCopySymmetry(capsule: Capsule, a: Policy, b: Policy, sizes: RegionSizes, map_: FlashMap)
    requires capsule.WellFormed()
    requires !TargetsB(a) && TargetsB(b) && a.stateMachine == b.stateMachine
    ensures var ra := GetFirmwareUpdateInfo(capsule, a, sizes, Some(map_)).value;
            var rb := GetFirmwareUpdateInfo(capsule, b, sizes, Some(map_)).value;
            && |ra| == |rb|
            && (forall i :: 0 <= i < |ra| ==> ra[i].updateSize == rb[i].updateSize)
            && rb[0].toUpdateAddress == Sub32(ra[0].toUpdateAddress, sizes.topSwap)
            && rb[1].toUpdateAddress == Sub32(ra[1].toUpdateAddress, sizes.redundant)
            && (|ra| == 3 ==> rb[2] == ra[2])
  {
    CopySymmetry(map_.romSize, sizes, a, b);
  }

  /** Only the state-machine phase decides whether the Non-Redundant region is
      in the plan: the first two regions do not depend on it. */
  lemma {:induction false} PhaseOnlyGatesNonRedundant(capsule: Capsule, p: Policy, q: Policy, sizes: RegionSizes, map_: FlashMap)
    requires capsule.WellFormed()
    requires p.updatePartitionB == q.updatePartitionB
    requires WritesNonRedundant(p.stateMachine) && !WritesNonRedundant(q.stateMachine)
    ensures var rp := GetFirmwareUpdateInfo(capsule, p, sizes, Some(map_)).value;
            var rq := GetFirmwareUpdateInfo(capsule, q, sizes, Some(map_)).value;
            rp == rq + [rp[2]]
  {
    assert ComputeLayout(map_.romSize, sizes, p) == ComputeLayout(map_.romSize, sizes, q);
  }
}
