/** The platform flash map and the in-memory capsule image, as the update
    library receives them.

    The flash-map accessors (`GetFlashMapPtr`, `GetRegionInfo`,
    `GetComponentInfoByPartition`) are not part of this model: their answers
    are inputs here.
 */
module FlashMap {
  import opened Word
  import opened Efi

  /** What `GetComponentInfoByPartition` reports for one copy of a component:
      its absolute base address (counted down from 4 GiB) and its size, or the
      error status the lookup returned. */
  datatype Lookup = Found(base: u32, size: u32) | Failed(error: EfiError)

  /** The flash-map entries of the Stage 1A component, one per redundant copy. */
  datatype ComponentEntries = ComponentEntries(primary: Lookup, backup: Lookup)

  /** The flash map: the size of the BIOS region in flash, and the Stage 1A entries. */
  datatype FlashMap = FlashMap(romSize: u32, stage1A: ComponentEntries)

  /** The sizes `GetRegionInfo` reports for the three kinds of BIOS region. */
  datatype RegionSizes = RegionSizes(topSwap: u32, redundant: u32, nonRedundant: u32)

  /** The Stage 1A lookup for the primary (`isBackup == false`) or the backup copy. */
  function GetComponentInfoByPartition(map_: FlashMap, isBackup: bool): Lookup
  {
    if isBackup then map_.stage1A.backup else map_.stage1A.primary
  }

  /** The capsule image in memory: the address of its
      `EFI_FW_MGMT_CAP_IMAGE_HEADER`, that header's size, and the build whose
      `UINTN` width applies to pointer arithmetic on it. The header is followed
      by a byte-for-byte mirror of the BIOS region. */
  datatype Capsule = Capsule(arch: Arch, header: int, headerSize: int) {
    /** Both the header address and its size are `UINTN` values. */
    predicate WellFormed()
    {
      && 0 <= header < UintnModulus(arch)
      && 0 <= headerSize < UintnModulus(arch)
    }
  }
}
