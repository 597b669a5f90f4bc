/** Types shared by the models of the maze game, the serial driver and the kernel. */
module Common {
  type byte = x: int | 0 <= x < 256

  /** Arithmetic on uint32_t wraps here. */
  const WORD := 0x1_0000_0000

  datatype Option<+T> = None | Some(value: T)
}
