/** Unsigned machine integers, as ranges of the natural numbers. */
module MachineInts {

  type byte = n: nat | n < 0x100
  type u32 = n: nat | n < 0x1_0000_0000
  type u64 = n: nat | n < 0x1_0000_0000_0000_0000
}
