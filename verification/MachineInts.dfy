/** The fixed-width integers the modelled Go code stores: bytes and 32-bit words. */
module MachineInts {
  const TWO_TO_THE_8 := 0x100
  const TWO_TO_THE_32 := 0x1_0000_0000

  newtype uint8 = x: int | 0 <= x < TWO_TO_THE_8
  newtype uint32 = x: int | 0 <= x < TWO_TO_THE_32
}
