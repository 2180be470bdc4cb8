/** Address space layout, word size and error numbers of the x86_64 port. */
module Layout {
  const PAGE_SIZE: nat := 4096

  /** The kernel heap window, up to the end of the address space. */
  const HEAP_START: nat := 0xffff_e000_0000_0000
  const HEAP_END: nat := 0x1_0000_0000_0000_0000

  /** First address above user space. */
  const USER_BREAK: nat := 0x8000_0000_0000

  /** Arithmetic on addresses and sizes is modulo this. */
  const WORD: nat := 0x1_0000_0000_0000_0000

  type Word = x: nat | x < WORD

  /** All ones: a break that could not be determined, a block that cannot be named. */
  const INVALID: nat := 0xffff_ffff_ffff_ffff

  const ENOENT: int := 2
  const EIO: int := 5

  /** The first page that starts at or above an address. */
  function PageUp(addr: nat): nat {
    if addr % 4096 != 0 then addr / 4096 + 1 else addr / 4096
  }
}
