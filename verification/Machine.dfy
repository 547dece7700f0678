/** Sizes of the machine: pages, and the words that addresses and counters are kept in. */
module Machine {
  const PAGE_SIZE := 4096
  const TWO32 := 0x1_0000_0000
  const TWO63 := 0x8000_0000_0000_0000
  const TWO64 := 0x1_0000_0000_0000_0000
}
