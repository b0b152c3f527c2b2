/**
 Types that several modules share.
 */
module Common {
  type byte = x: int | 0 <= x < 256

  datatype Option<+T> = None | Some(value: T)

  const SIZE_T: nat := 0x1_0000_0000_0000_0000
}
