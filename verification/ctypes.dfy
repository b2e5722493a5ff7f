/** Machine integer types of the C sources. */
module CTypes {
  /** unsigned int on the platforms the engine targets. */
  type Uint32 = x: int | 0 <= x < 0x1_0000_0000
}
