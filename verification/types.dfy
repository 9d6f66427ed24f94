/** Machine integer ranges and the optional-value wrapper shared by the model. */
module Types {

  /** One byte on a socket or in a frame buffer. */
  type uint8 = x: int | 0 <= x < 0x100

  /** C `uint32_t`: frame length headers and IPv4 addresses in host order. */
  type uint32 = x: int | 0 <= x < 0x1_0000_0000

  /** C `int64_t`. */
  type int64 = x: int | -0x8000_0000_0000_0000 <= x < 0x8000_0000_0000_0000

  /** C `uint64_t`. */
  type uint64 = x: int | 0 <= x < 0x1_0000_0000_0000_0000

  /** A value that may be absent (a NULL pointer in the C structures). */
  datatype Option<+T> = None | Some(value: T) {
    function GetOr(default: T): T {
      match this
      case Some(v) => v
      case None => default
    }
  }
}
