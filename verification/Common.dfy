/** Words, bytes and options, as all components use them. */
module Common {
  datatype Option<+T> = None | Some(value: T)

  type Byte = x: int | 0 <= x < 256

  type Word = x: int | 0 <= x < 0x1_0000_0000

  const TWO31 := 0x8000_0000
  const TWO32 := 0x1_0000_0000
}
