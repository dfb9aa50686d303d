/** `SetBootPartition`: selecting which redundant copy boots next.

    Bit 0 of the RTC controller's backed-up control register is the Top Swap
    bit: set, the backup copy boots; clear, the primary copy boots. The
    function reads the register, changes bit 0 and writes the value back. The
    memory-mapped access itself is not modelled: the register's previous
    value and the value read back after the write are inputs.

    The register is a `UINT32`; its bit 0 is `value % 2` and the bits above it
    are `value / 2`.
 */
module BootPartition {
  import opened Word
  import opened Efi

  /** `BOOT_PARTITION`: the two partitions, and any other value of the enum. */
  datatype BootPartition = PrimaryPartition | BackupPartition | OtherPartition

  /** `value | BIT0`. */
  function SetBit0(value: u32): (r: u32)
    ensures r % 2 == 1 && r / 2 == value / 2
  {
    if value % 2 == 1 then value else value + 1
  }

  /** `value & ~BIT0`. */
  function ClearBit0(value: u32): (r: u32)
    ensures r % 2 == 0 && r / 2 == value / 2
  {
    value - value % 2
  }

  /** The register value written for `partition`: the Top Swap bit set for the
      backup partition, cleared for the primary one, and the value unchanged
      for any other; every other bit is always preserved. */
  function SwitchedRegister(register: u32, partition: BootPartition): (written: u32)
    ensures partition == BackupPartition ==> written % 2 == 1
    ensures partition == PrimaryPartition ==> written % 2 == 0
    ensures partition == OtherPartition ==> written == register
    ensures written / 2 == register / 2
  {
    match partition
    case BackupPartition => SetBit0(register)
    case PrimaryPartition => ClearBit0(register)
    case OtherPartition => register
  }

  /** The partition a register value selects. */
  function SelectedPartition(register: u32): BootPartition
  {
    if register % 2 == 1 then BackupPartition else PrimaryPartition
  }

  /** What `SetBootPartition` does: the value written to the register, and
      the status returned. */
  datatype Switch = Switch(written: u32, status: Result<()>)

  /** The status is EFI_SUCCESS whatever `readBack`, the value read after the
      write, shows. */
  function SetBootPartition(register: u32, partition: BootPartition, readBack: u32): (r: Switch)
    ensures r.written == SwitchedRegister(register, partition)
    ensures r.status == Success(())
  {
    Switch(SwitchedRegister(register, partition), Success(()))
  }

  /** Two register values with the same bits above bit 0 and the same bit 0 are equal. */
  lemma SameBitsSameValue(a: u32, b: u32)
    requires a / 2 == b / 2 && a % 2 == b % 2
    ensures a == b
  {
  }

  /** After switching to the primary or the backup partition, the register
      selects that partition. */
  lemma SwitchSelects(register: u32, partition: BootPartition)
    requires partition != OtherPartition
    ensures SelectedPartition(SwitchedRegister(register, partition)) == partition
  {
  }

  /** Of two switches to the primary or backup partition, only the last one counts. */
  lemma {:induction false} LastSwitchWins(register: u32, first: BootPartition, second: BootPartition)
    requires second != OtherPartition
    ensures SwitchedRegister(SwitchedRegister(register, first), second)
            == SwitchedRegister(register, second)
  {
    var twice := SwitchedRegister(SwitchedRegister(register, first), second);
    var once := SwitchedRegister(register, second);
    SameBitsSameValue(twice, once);
  }

  /** Switching to a partition twice writes the same value as switching once. */
  lemma {:induction false} SwitchIdempotent(register: u32, partition: BootPartition)
    ensures SwitchedRegister(SwitchedRegister(register, partition), partition)
            == SwitchedRegister(register, partition)
  {
    if partition != OtherPartition {
      LastSwitchWins(register, partition, partition);
    }
  }

  /** A switch to the partition the register already selects leaves it unchanged. */
  lemma {:induction false} SwitchToSelectedIsNoOp(register: u32)
    ensures SwitchedRegister(register, SelectedPartition(register)) == register
  {
    SameBitsSameValue(SwitchedRegister(register, SelectedPartition(register)), register);
  }
}
