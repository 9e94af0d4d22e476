/** The sizes of machine integers. */
module MachineWords {
  const TWO_31: int := 0x8000_0000
  const TWO_32: int := 0x1_0000_0000
  const TWO_63: int := 0x8000_0000_0000_0000
  const TWO_64: int := 0x1_0000_0000_0000_0000
  const MAX_32: nat := TWO_32 - 1
  const MAX_64: nat := TWO_64 - 1
}
