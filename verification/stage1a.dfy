/** `PlatformGetStage1AOffset`: where the Stage 1A component of the new
    firmware sits inside the capsule image.

    The flash map records a component's base as an absolute address in the
    4 GiB window the flash is decoded into, so the ROM occupies
    `[2^32 - RomSize, 2^32)`. The base is turned into an offset within the
    BIOS region, and that offset into an address inside the capsule's mirror
    of the BIOS region.
 */
module Stage1A {
  import opened Word
  import opened Efi
  import opened FlashMap

  /** Stage 1A's location in the capsule and its size. */
  datatype Component = Component(base: u32, size: u32)

  /** The absolute address at which the ROM starts: it ends at 4 GiB. */
  function RomWindowStart(romSize: u32): int
  {
    Modulus32 - romSize
  }

  /** Line 207: the ROM-relative offset of absolute address `base`, computed as
      `(UINT32)(RomSize - (0x100000000ULL - base))`. Modulo 2^32 it is
      `RomSize + base`; for a base inside the ROM window it is the distance
      from the window's start, hence below the ROM size. */
  function RomOffset(romSize: u32, base: u32): (off: u32)
    ensures off == (romSize + base) % Modulus32
    ensures RomWindowStart(romSize) <= base ==> off == base - RomWindowStart(romSize) < romSize
  {
    var wide := Sub64(romSize, Modulus32 - base);
    assert Congruent(wide, romSize + base) by {
      if Modulus32 - base <= romSize {
        CongruentBy(wide, romSize + base, -1);
      } else {
        CongruentBy(wide, romSize + base, 0xFFFF_FFFF);
      }
    }
    CongruentMods(wide, romSize + base);
    CongruentValue(wide, Truncate32(wide));
    Truncate32(wide)
  }

  /** The inverse of `RomOffset`: the absolute address of a ROM offset. */
  function AbsoluteAddress(romSize: u32, off: u32): (base: u32)
    requires off < romSize
    ensures RomWindowStart(romSize) <= base
  {
    RomWindowStart(romSize) + off
  }

  /** Absolute addresses inside the ROM window and ROM offsets correspond one to one. */
  lemma RomOffsetRoundTrip(romSize: u32, base: u32, off: u32)
    requires RomWindowStart(romSize) <= base
    requires off < romSize
    ensures AbsoluteAddress(romSize, RomOffset(romSize, base)) == base
    ensures RomOffset(romSize, AbsoluteAddress(romSize, off)) == off
  {
  }

  /** Line 213: the capsule address of ROM offset `off`, computed in `UINTN` as
      `(UINTN)ImageHdr + sizeof (header) + off` and then truncated to the
      `UINT32` out-parameter. The result is the same on every build. */
  function CapsuleAddress32(capsule: Capsule, off: u32): (a: u32)
    requires capsule.WellFormed()
    ensures a == (capsule.header + capsule.headerSize + off) % Modulus32
  {
    var arch := capsule.arch;
    var inner := AddN(arch, capsule.header, capsule.headerSize);
    var outer := AddN(arch, inner, off);
    AddNCongruent(arch, capsule.header, capsule.headerSize);
    AddNCongruent(arch, inner, off);
    CongruentRefl(off);
    CongruentAdd(inner, capsule.header + capsule.headerSize, off, off);
    CongruentTrans(outer, inner + off, capsule.header + capsule.headerSize + off);
    CongruentMods(outer, capsule.header + capsule.headerSize + off);
    CongruentValue(outer, Truncate32(outer));
    Truncate32(outer)
  }

  /** Lines 195-198: the backup copy's lookup, falling back once to the
      primary copy when the backup is reported NOT_FOUND. */
  function ResolveStage1A(map_: FlashMap, isBackup: bool): (found: Lookup)
    ensures !isBackup ==> found == map_.stage1A.primary
    ensures isBackup && map_.stage1A.backup != Failed(NotFound) ==> found == map_.stage1A.backup
    ensures isBackup && map_.stage1A.backup == Failed(NotFound) ==> found == map_.stage1A.primary
  {
    var first := GetComponentInfoByPartition(map_, isBackup);
    if isBackup && first == Failed(NotFound) then GetComponentInfoByPartition(map_, false) else first
  }

  /** Stage 1A's address in the capsule and its size.

      A missing out-parameter is INVALID_PARAMETER and a missing flash map is
      NOT_FOUND. When the requested copy is found, the result is that copy's
      base converted to a capsule address, with its size unchanged. Any error
      of that lookup is returned as is, except that a backup lookup reporting
      NOT_FOUND is decided by the primary copy (see `BackupFallsBackToPrimary`). */
  function PlatformGetStage1AOffset(capsule: Capsule, isBackup: bool, baseSlot: bool, sizeSlot: bool,
                                    flashMap: Option<FlashMap>): (r: Result<Component>)
    requires capsule.WellFormed()
    ensures !baseSlot || !sizeSlot ==> r == Failure(InvalidParameter)
    ensures baseSlot && sizeSlot && flashMap.None? ==> r == Failure(NotFound)
    ensures baseSlot && sizeSlot && flashMap.Some? ==>
              var map_ := flashMap.value;
              match GetComponentInfoByPartition(map_, isBackup)
              case Found(base, size) =>
                r == Success(Component(CapsuleAddress32(capsule, RomOffset(map_.romSize, base)), size))
              case Failed(e) => (isBackup && e == NotFound) || r == Failure(e)
  {
    if !baseSlot || !sizeSlot then Failure(InvalidParameter)
    else match flashMap
      case None => Failure(NotFound)
      case Some(map_) =>
        match ResolveStage1A(map_, isBackup)
        case Failed(e) => Failure(e)
        case Found(base, size) =>
          Success(Component(CapsuleAddress32(capsule, RomOffset(map_.romSize, base)), size))
  }

  /** A backup request whose lookup reports NOT_FOUND is answered exactly as a
      request for the primary copy. */
  lemma BackupFallsBackToPrimary(capsule: Capsule, baseSlot: bool, sizeSlot: bool, map_: FlashMap)
    requires capsule.WellFormed()
    requires map_.stage1A.backup == Failed(NotFound)
    ensures PlatformGetStage1AOffset(capsule, true, baseSlot, sizeSlot, Some(map_))
            == PlatformGetStage1AOffset(capsule, false, baseSlot, sizeSlot, Some(map_))
  {
  }

  /** With valid out-parameters, a backup request ends in NOT_FOUND exactly
      when there is no flash map, or neither copy is in it. */
  lemma NotFoundOnlyWhenNeitherCopy(capsule: Capsule, flashMap: Option<FlashMap>)
    requires capsule.WellFormed()
    ensures PlatformGetStage1AOffset(capsule, true, true, true, flashMap) == Failure(NotFound)
            <==> (flashMap.None?
                  || (flashMap.value.stage1A.backup == Failed(NotFound)
                      && flashMap.value.stage1A.primary == Failed(NotFound)))
  {
  }

  /** A Stage 1A base inside the ROM window lands inside the capsule's mirror
      of the BIOS region, at the base's distance from the window start, as
      long as that mirror lies below 4 GiB. */
  lemma {:induction false} FoundBaseInsideCapsule(capsule: Capsule, isBackup: bool, map_: FlashMap)
    requires capsule.WellFormed()
    requires ResolveStage1A(map_, isBackup).Found?
    requires RomWindowStart(map_.romSize) <= ResolveStage1A(map_, isBackup).base
    requires capsule.header + capsule.headerSize + map_.romSize <= Modulus32
    ensures var found := ResolveStage1A(map_, isBackup);
            var r := PlatformGetStage1AOffset(capsule, isBackup, true, true, Some(map_));
            && r == Success(r.value)
            && r.value.size == found.size
            && r.value.base - (capsule.header + capsule.headerSize) == found.base - RomWindowStart(map_.romSize)
            && capsule.header + capsule.headerSize <= r.value.base < capsule.header + capsule.headerSize + map_.romSize
  {
    var found := ResolveStage1A(map_, isBackup);
    var off := RomOffset(map_.romSize, found.base);
    assert off < map_.romSize;
    assert CapsuleAddress32(capsule, off) == capsule.header + capsule.headerSize + off;
  }
}
