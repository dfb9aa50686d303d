# Coffee Lake firmware-update library: a Dafny model

This project models the pure logic of the Coffee Lake platform's
firmware-update library (`FirmwareUpdateLib.c`) and proves properties of it.
The library supports A/B (primary/backup) firmware updates on a flash ROM. It
has three parts:

- **`GetFirmwareUpdateInfo`** plans one pass of an update. It takes the ROM
  size, the sizes of the Top Swap, Redundant and Non-Redundant regions, and an
  update policy. The policy names the copy to update (A or B) and the
  state-machine phase. From these the function computes where each region
  starts in the BIOS region, whose layout is fixed top-down as
  `Top Swap | Top Swap Backup | Redundant | Redundant Backup | Non Redundant`.
  It then emits 2 or 3 regions. Each region has a `ToUpdateAddress`, an
  `UpdateSize`, and a `SourceAddress` inside the capsule image. The
  Non-Redundant region is emitted only in the `PART_A` and `PART_B` phases.
- **`PlatformGetStage1AOffset`** locates Stage 1A. It looks the component up
  in the flash map, falling back from the backup copy to the primary copy. It
  converts the component's absolute base address, counted down from 4 GiB,
  into a ROM offset, and then into an address inside the capsule image.
- **`SetBootPartition`** sets or clears bit 0 (the Top Swap bit) of the RTC
  controller's backed-up control register. The write selects the partition
  the machine boots next.

Modules, one per file:

| module | file | contents |
|---|---|---|
| `Word` | `word.dfy` | `UINT32` and `UINTN` wrap-around arithmetic; congruence modulo 2^32 |
| `Efi` | `efi.dfy` | EFI status codes as a `Result`; nullable pointers as `Option` |
| `FlashMap` | `flash_map.dfy` | the flash map, the region sizes and the capsule, all as inputs |
| `Extents` | `extents.dfy` | byte ranges; `StackDown`, a reference layout with regions stacked downward from the ROM top |
| `RegionLayout` | `region_layout.dfy` | the offset arithmetic of `GetFirmwareUpdateInfo` and its agreement with the diagram |
| `UpdatePlan` | `update_plan.dfy` | the region list of `GetFirmwareUpdateInfo` |
| `Stage1A` | `stage1a.dfy` | `PlatformGetStage1AOffset` |
| `BootPartition` | `boot_partition.dfy` | `SetBootPartition` as a function on the register value |

All `UINT32` arithmetic is modelled with its wrap-around modulo 2^32, because
the code does not check for overflow. `UINTN` is 2^32 wide on an IA32 build
and 2^64 wide on an X64 build (`Word.Arch`). The bounds and disjointness
lemmas assume that the regions fit: `2*(TopSwap + Redundant) + NonRedundant <= RomSize`.
When the sizes fit, no subtraction wraps. `RegionLayout.OversizedLayoutWraps`
shows what happens when they do not fit.

Three facts about the code that the model keeps as they are:

- Nothing rejects sizes that do not fit in the ROM. The offsets of lines
  291-299 simply wrap modulo 2^32 (`RegionLayout.OversizedLayoutWraps`).
- A 16 MiB ROM with a 64 KiB Top Swap region, a 1 MiB Redundant region and a
  2 MiB Non-Redundant region puts copy A's regions at 0xFF0000 / 0xEE0000 /
  0xBE0000 and copy B's at 0xFE0000 / 0xDE0000 / 0xBE0000
  (`RegionLayout.ExampleLayout`).
- `SetBootPartition` returns `EFI_SUCCESS` whatever value it reads back
  (line 152).

## Model

All source paths are in `Silicon/CoffeelakePkg/Library/FirmwareUpdateLib/`.

| member | source | states |
|---|---|---|
| `Word.Sub32` | Silicon/CoffeelakePkg/Library/FirmwareUpdateLib/FirmwareUpdateLib.c:291-299 | `UINT32` subtraction: adding the subtrahend back gives the minuend modulo 2^32, and without a borrow the result is the plain difference |
| `Word.Sub32Inverse` | Silicon/CoffeelakePkg/Library/FirmwareUpdateLib/FirmwareUpdateLib.c:291-299 | `UINT32` subtraction and addition of the same value undo each other, whichever comes first, wrap-around included |
| `Word.Add32` | Silicon/CoffeelakePkg/Library/FirmwareUpdateLib/FirmwareUpdateLib.c:291-292 | `UINT32` addition gives the value congruent to the sum modulo 2^32, never above the sum |
| `Word.Twice32` | Silicon/CoffeelakePkg/Library/FirmwareUpdateLib/FirmwareUpdateLib.c:291-292 | `UINT32` doubling gives the value congruent to twice the input modulo 2^32 |
| `Word.Truncate32` | Silicon/CoffeelakePkg/Library/FirmwareUpdateLib/FirmwareUpdateLib.c:207 | a `(UINT32)` cast keeps a value below 2^32 unchanged and always keeps it modulo 2^32 |
| `Word.Sub64` | Silicon/CoffeelakePkg/Library/FirmwareUpdateLib/FirmwareUpdateLib.c:207 | `UINT64` subtraction is the plain difference, or the difference plus 2^64 when it borrows |
| `Word.AddN` | Silicon/CoffeelakePkg/Library/FirmwareUpdateLib/FirmwareUpdateLib.c:313 | `UINTN` addition stays within the build's pointer width; it is the plain sum when that fits, and the sum minus 2^32 (IA32) or 2^64 (X64) when it passes the width once |
| `Word.AddNCongruent` | Silicon/CoffeelakePkg/Library/FirmwareUpdateLib/FirmwareUpdateLib.c:213 | on either build, a `UINTN` sum agrees with the plain sum modulo 2^32 |
| `RegionLayout.NonRedundantOffset` | Silicon/CoffeelakePkg/Library/FirmwareUpdateLib/FirmwareUpdateLib.c:291-292 | the Non-Redundant offset plus both redundant pairs and its own size equals the ROM size modulo 2^32 |
| `RegionLayout.TopSwapOffset` | Silicon/CoffeelakePkg/Library/FirmwareUpdateLib/FirmwareUpdateLib.c:294-298 | the Top Swap offset lies one Top Swap size below the ROM top for copy A, and two for copy B, modulo 2^32 |
| `RegionLayout.RedundantOffset` | Silicon/CoffeelakePkg/Library/FirmwareUpdateLib/FirmwareUpdateLib.c:295-299 | the Redundant offset lies below both Top Swap slots, plus one Redundant size for copy A or two for copy B, modulo 2^32 |
| `RegionLayout.ComputeLayout` | Silicon/CoffeelakePkg/Library/FirmwareUpdateLib/FirmwareUpdateLib.c:291-300 | each of the three offsets, plus the sizes stacked above it in the diagram, equals the ROM size modulo 2^32 |
| `RegionLayout.LayoutNoWrap` | Silicon/CoffeelakePkg/Library/FirmwareUpdateLib/FirmwareUpdateLib.c:291-300 | when the regions fit: NonRedundant = RomSize − 2(TS+R) − NR; TopSwap = RomSize − TS (A) or RomSize − 2TS (B); Redundant = RomSize − 2TS − R (A) or RomSize − 2TS − 2R (B) |
| `RegionLayout.LayoutMatchesDiagram` | Silicon/CoffeelakePkg/Library/FirmwareUpdateLib/FirmwareUpdateLib.c:272-300 | when the regions fit, the computed offsets and sizes are exactly the diagram's slots: the primary slots for copy A, the backup slots for copy B, and the shared Non-Redundant slot |
| `RegionLayout.DiagramInsideRom` | Silicon/CoffeelakePkg/Library/FirmwareUpdateLib/FirmwareUpdateLib.c:272-284 | when the regions fit, every diagram slot lies in `[0, RomSize)`; a slot further down lies wholly below one further up; and no slot is empty when no size is zero |
| `RegionLayout.CopySymmetry` | Silicon/CoffeelakePkg/Library/FirmwareUpdateLib/FirmwareUpdateLib.c:297-300 | copy B's Top Swap and Redundant offsets are copy A's minus TS and minus R (modulo 2^32, and exactly when the regions fit); the Non-Redundant offset is the same for both copies |
| `RegionLayout.ExampleLayout` | Silicon/CoffeelakePkg/Library/FirmwareUpdateLib/FirmwareUpdateLib.c:291-300 | with a 16 MiB ROM and sizes 64 KiB / 1 MiB / 2 MiB, copy A is at 0xFF0000 / 0xEE0000 / 0xBE0000 and copy B at 0xFE0000 / 0xDE0000 / 0xBE0000 |
| `RegionLayout.OversizedLayoutWraps` | Silicon/CoffeelakePkg/Library/FirmwareUpdateLib/FirmwareUpdateLib.c:291-292 | nothing rejects sizes that do not fit: for such sizes the Non-Redundant offset wraps to 0xFFFFEFD0 and the region ends past the ROM |
| `Extents.StackDown` | Silicon/CoffeelakePkg/Library/FirmwareUpdateLib/FirmwareUpdateLib.c:272-284 | the reference layout keeps the sizes; the first extent ends at the top; each later extent ends where the one before it starts |
| `Extents.StackDownDescending` | Silicon/CoffeelakePkg/Library/FirmwareUpdateLib/FirmwareUpdateLib.c:272-284 | in the reference layout, every later extent lies wholly below every earlier one |
| `Extents.StackDownSpan` | Silicon/CoffeelakePkg/Library/FirmwareUpdateLib/FirmwareUpdateLib.c:272-284 | the reference layout occupies exactly the `Sum(sizes)` bytes below the top |
| `UpdatePlan.CapsuleSource` | Silicon/CoffeelakePkg/Library/FirmwareUpdateLib/FirmwareUpdateLib.c:313-322 | a region's source address is header address + header size + offset, computed in `UINTN`; it is the plain sum when that fits the pointer width |
| `UpdatePlan.TruncatedHeaderSource` | Silicon/CoffeelakePkg/Library/FirmwareUpdateLib/FirmwareUpdateLib.c:333 | the Non-Redundant source address as written: the `CapsuleSource` of a header moved to its low 32 bits (`header mod 2^32`), hence equal to `CapsuleSource` whenever the header lies below 4 GiB |
| `UpdatePlan.PlanRegions` | Silicon/CoffeelakePkg/Library/FirmwareUpdateLib/FirmwareUpdateLib.c:307-335 | the list holds 3 regions in the `PART_A` and `PART_B` phases and 2 in every other phase: first Top Swap at its offset with its size and mirrored source, then Redundant likewise, then Non-Redundant at its offset with its size and the given source |
| `UpdatePlan.GetFirmwareUpdateInfo` | Silicon/CoffeelakePkg/Library/FirmwareUpdateLib/FirmwareUpdateLib.c:285-346 | the plan with line 333 corrected to compute in `UINTN` (see Findings). NOT_FOUND exactly when there is no flash map. Otherwise the regions are (TopSwap offset, TS), (Redundant offset, R) and, iff the phase is `PART_A` or `PART_B`, (NonRedundant offset, NR); each region's source is the capsule's mirror of the bytes it overwrites |
| `UpdatePlan.GetFirmwareUpdateInfoAsWritten` | Silicon/CoffeelakePkg/Library/FirmwareUpdateLib/FirmwareUpdateLib.c:285-346 | the plan with line 333's `UINT32` cast: fails exactly when there is no flash map, and then with NOT_FOUND; otherwise it has the corrected plan's count, its first two regions, and the same target bytes for every region, and a Non-Redundant region's source is `TruncatedHeaderSource` of its offset; it is the corrected plan whenever the header lies below 4 GiB |
| `UpdatePlan.AsWrittenPlanInsideRom` | Silicon/CoffeelakePkg/Library/FirmwareUpdateLib/FirmwareUpdateLib.c:291-335 | when the regions fit, the plan as written succeeds and every region satisfies `ToUpdateAddress + UpdateSize <= RomSize`, on either build |
| `UpdatePlan.AsWrittenPlanDisjointDescending` | Silicon/CoffeelakePkg/Library/FirmwareUpdateLib/FirmwareUpdateLib.c:272-335 | when the regions fit, the regions of the plan as written each lie wholly below the one before and are pairwise disjoint, on either build |
| `UpdatePlan.AsWrittenAgreesOnIa32` | Silicon/CoffeelakePkg/Library/FirmwareUpdateLib/FirmwareUpdateLib.c:333 | on an IA32 build, line 333's cast changes nothing |
| `UpdatePlan.TruncatedSourceMissesMirrorOnX64` | Silicon/CoffeelakePkg/Library/FirmwareUpdateLib/FirmwareUpdateLib.c:333 | on X64 with the header at 4 GiB, the as-written Non-Redundant source is 0xBE0020 rather than 0x1_00BE_0020, so that region does not read the mirror of its target |
| `UpdatePlan.TruncatedSourceMissesMirror` | Silicon/CoffeelakePkg/Library/FirmwareUpdateLib/FirmwareUpdateLib.c:333 | for every capsule header at or above 4 GiB and every phase that writes the Non-Redundant region, the plan as written does not read every region from the capsule's mirror of its target |
| `UpdatePlan.PlanOccupiesTargetSlots` | Silicon/CoffeelakePkg/Library/FirmwareUpdateLib/FirmwareUpdateLib.c:272-335 | when the regions fit, the plan succeeds and region `i` covers exactly slot `PlannedSlot(policy, i)` of the diagram |
| `UpdatePlan.PlannedSlotsInsideRom` | Silicon/CoffeelakePkg/Library/FirmwareUpdateLib/FirmwareUpdateLib.c:272-284 | regions in their planned slots lie within `[0, RomSize)` |
| `UpdatePlan.PlannedSlotsDescending` | Silicon/CoffeelakePkg/Library/FirmwareUpdateLib/FirmwareUpdateLib.c:272-284 | each region in its planned slot lies wholly below the region before it, and starts strictly lower when no size is zero |
| `UpdatePlan.PlanInsideRom` | Silicon/CoffeelakePkg/Library/FirmwareUpdateLib/FirmwareUpdateLib.c:291-335 | when the regions fit, every planned region satisfies `ToUpdateAddress + UpdateSize <= RomSize`, for either copy |
| `UpdatePlan.PlanDisjointDescending` | Silicon/CoffeelakePkg/Library/FirmwareUpdateLib/FirmwareUpdateLib.c:272-335 | when the regions fit: the planned regions are pairwise disjoint; each lies below the one before it (order Top Swap, Redundant, Non-Redundant); with non-zero sizes the start offsets strictly decrease |
| `UpdatePlan.PlanCopySymmetry` | Silicon/CoffeelakePkg/Library/FirmwareUpdateLib/FirmwareUpdateLib.c:297-322 | the copy-B plan has the same count and sizes as the copy-A plan; its first two regions sit TS and R lower, modulo 2^32 (exactly when the regions fit), and its Non-Redundant region is identical |
| `UpdatePlan.PhaseOnlyGatesNonRedundant` | Silicon/CoffeelakePkg/Library/FirmwareUpdateLib/FirmwareUpdateLib.c:325-335 | a `PART_A`/`PART_B` plan is the plan of any other phase with the Non-Redundant region appended |
| `Stage1A.RomOffset` | Silicon/CoffeelakePkg/Library/FirmwareUpdateLib/FirmwareUpdateLib.c:207 | the ROM offset is `(RomSize + base) mod 2^32`; for a base inside the ROM window it is the distance from the window start, which is below RomSize |
| `Stage1A.AbsoluteAddress` | Silicon/CoffeelakePkg/Library/FirmwareUpdateLib/FirmwareUpdateLib.c:204-207 | the absolute address of a ROM offset lies in the ROM window |
| `Stage1A.RomOffsetRoundTrip` | Silicon/CoffeelakePkg/Library/FirmwareUpdateLib/FirmwareUpdateLib.c:204-207 | absolute addresses in the ROM window and ROM offsets convert back and forth without loss |
| `Stage1A.CapsuleAddress32` | Silicon/CoffeelakePkg/Library/FirmwareUpdateLib/FirmwareUpdateLib.c:209-213 | the capsule address is `(header + header size + offset) mod 2^32` on either build |
| `Stage1A.ResolveStage1A` | Silicon/CoffeelakePkg/Library/FirmwareUpdateLib/FirmwareUpdateLib.c:195-198 | a primary lookup is the primary entry; a backup lookup is the backup entry (found, or any error other than NOT_FOUND) unless that entry is NOT_FOUND, in which case it is the primary entry |
| `Stage1A.PlatformGetStage1AOffset` | Silicon/CoffeelakePkg/Library/FirmwareUpdateLib/FirmwareUpdateLib.c:183-215 | a missing out-parameter gives INVALID_PARAMETER; no flash map gives NOT_FOUND; a found copy gives its converted base and unchanged size; any other lookup error is returned unchanged, except a backup NOT_FOUND |
| `Stage1A.BackupFallsBackToPrimary` | Silicon/CoffeelakePkg/Library/FirmwareUpdateLib/FirmwareUpdateLib.c:195-198 | a backup request whose lookup reports NOT_FOUND gets exactly the answer of a primary request, errors included |
| `Stage1A.NotFoundOnlyWhenNeitherCopy` | Silicon/CoffeelakePkg/Library/FirmwareUpdateLib/FirmwareUpdateLib.c:187-202 | a backup request ends in NOT_FOUND if and only if there is no flash map or neither copy is in it |
| `Stage1A.FoundBaseInsideCapsule` | Silicon/CoffeelakePkg/Library/FirmwareUpdateLib/FirmwareUpdateLib.c:204-213 | if the base lies in the ROM window and the capsule's mirror lies below 4 GiB, the result lies inside the mirror, at the base's distance from the window start, with the size unchanged |
| `BootPartition.SetBit0` | Silicon/CoffeelakePkg/Library/FirmwareUpdateLib/FirmwareUpdateLib.c:138 | `value OR BIT0` has bit 0 set and every higher bit unchanged |
| `BootPartition.ClearBit0` | Silicon/CoffeelakePkg/Library/FirmwareUpdateLib/FirmwareUpdateLib.c:143 | `value & ~BIT0` has bit 0 clear and every higher bit unchanged |
| `BootPartition.SwitchedRegister` | Silicon/CoffeelakePkg/Library/FirmwareUpdateLib/FirmwareUpdateLib.c:134-144 | Backup sets bit 0, Primary clears it, any other value leaves the register unchanged; bits above bit 0 are always kept |
| `BootPartition.SetBootPartition` | Silicon/CoffeelakePkg/Library/FirmwareUpdateLib/FirmwareUpdateLib.c:146-152 | the switched value is written, and the status is EFI_SUCCESS whatever is read back |
| `BootPartition.SwitchSelects` | Silicon/CoffeelakePkg/Library/FirmwareUpdateLib/FirmwareUpdateLib.c:134-144 | after switching to the primary or the backup partition, the register selects that partition |
| `BootPartition.LastSwitchWins` | Silicon/CoffeelakePkg/Library/FirmwareUpdateLib/FirmwareUpdateLib.c:134-146 | of two switches, the second to the primary or backup partition, only the second counts |
| `BootPartition.SwitchIdempotent` | Silicon/CoffeelakePkg/Library/FirmwareUpdateLib/FirmwareUpdateLib.c:134-146 | switching twice to a partition writes the same value as switching once |
| `BootPartition.SwitchToSelectedIsNoOp` | Silicon/CoffeelakePkg/Library/FirmwareUpdateLib/FirmwareUpdateLib.c:134-146 | switching to the partition the register already selects leaves the register unchanged |

## Left out

- `InitializeBootMedia`, `BootMediaRead`, `BootMediaWrite` and `BootMediaErase` (lines 33-109) are left out. They are thin wrappers over the SPI flash service, which is I/O.
- `EndFirmwareUpdate` (lines 383-405) is left out. It is CMOS port I/O: it clears a non-zero byte at CMOS index 0x40 and returns success.
- `PrepareRegionsUpdate` (lines 363-368) is left out. It is a hook that does nothing and returns success.
- The MMIO access in `SetBootPartition` is left out: the register address, `MmioRead32` and `MmioWrite32`. The register's old value and the value read back are inputs. The read-back value has no effect on the result.
- `AllocateZeroPool` and `ASSERT` in `GetFirmwareUpdateInfo` are left out, and so are the `DEBUG` calls of all three functions: `SetBootPartition` (lines 132, 147 and 150), `PlatformGetStage1AOffset` (line 200) and `GetFirmwareUpdateInfo` (lines 302-304 and 339-342). The plan is a returned sequence. The model cannot express that the allocation leaks on the NOT_FOUND path: the buffer is allocated before the flash-map check at line 287.
- The bodies of `GetRegionInfo`, `GetComponentInfoByPartition` and `GetFlashMapPtr` are not part of this model, so their answers are inputs. A component lookup is either found (base, size) or fails with an error status. A non-error warning status, which the `EFI_ERROR` test at line 199 would let through, is not modelled.
- The Stage 1A lookup is modelled for the Stage 1A signature only, as the code uses it. The flash map holds only the ROM size and the Stage 1A entries.
- The declaration of `EFI_FW_MGMT_CAP_IMAGE_HEADER` is not part of this model, so `sizeof` of it is a parameter of the capsule (`headerSize`).
- `BootPartition.SwitchedRegister` models the 32-bit register as an integer in `[0, 2^32)`. Bit 0 is `value % 2` and the higher bits are `value / 2`. This is exactly the `BIT0` mask of lines 138 and 143.
- The `UpdatePartitionB` bit field is a natural number, and copy B is selected when it equals 1, as at line 297. The `StateMachine` field is reduced to `PART_A`, `PART_B` and every other value, the only distinction the code makes.
- The `FIRMWARE_UPDATE_PARTITION` header fields other than the region list and its count are left out, because this function does not set them.

## Findings

| source | as written | input that shows it | evidently intended | confidence | as-written member | corrected member |
|---|---|---|---|---|---|---|
| Silicon/CoffeelakePkg/Library/FirmwareUpdateLib/FirmwareUpdateLib.c:333 | The Non-Redundant region's `SourceAddress` casts `ImageHdr` to `UINT32` before adding the header size and offset. Lines 313 and 322 cast it to `UINTN`. | An X64 build, `ImageHdr = 0x1_0000_0000`, header size 0x20, a 16 MiB ROM with sizes 64 KiB / 1 MiB / 2 MiB, copy A, phase `PART_A`. The source is 0xBE0020, but the mirror of offset 0xBE0000 is at 0x1_00BE_0020. | The Non-Redundant source is computed in `UINTN` like the other two, so that it is the capsule's mirror of the bytes the region overwrites | not executed | `UpdatePlan.GetFirmwareUpdateInfoAsWritten`, `UpdatePlan.TruncatedSourceMissesMirror`, `UpdatePlan.TruncatedSourceMissesMirrorOnX64` | `UpdatePlan.GetFirmwareUpdateInfo` |
