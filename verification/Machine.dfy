/** Constants of the machine and its memory map (include/miaow/memory.h, kernel/abi.h). */
module Machine {
  const PAGE_SIZE: nat := 0x1000
  /** One past the largest 64-bit word. */
  const WORD: nat := 0x1_0000_0000_0000_0000

  /** The largest `int`. */
  const INT_MAX: nat := 0x7fff_ffff

  const PHYS_OFFSET: nat := 0x4000_0000
  const PAGE_OFFSET: nat := 0xffff_ffc0_0000_0000
  const IO_OFFSET: nat := 0xffff_ff80_0000_0000

  const APP_FIRST: nat := 0x4100_0000
  const APP_SLOT_SIZE: nat := 0x2_0000
  const APP_IMAGE_SIZE: nat := 0x1_0000
  const APP_STACK_SIZE: nat := 0x4000
  const APP_COUNT: nat := 3
}
