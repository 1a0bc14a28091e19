/** The public types of the capture library (include/wcap.hpp), and the small
    value types the rest of the model shares. */
module WcapTypes {

  /** An unsigned 32-bit integer, as the portal's node ids and response codes are. */
  newtype uint32 = x: int | 0 <= x < 0x1_0000_0000

  datatype Option<T> = None | Some(value: T)

  /** What the caller asks to capture: a monitor, a window, or let the user pick either. */
  datatype CaptureType = Screen | Window | Any

  /** A captured frame: `height` rows of `3 * width` bytes, row-major, with no
      gap between rows. get_frame fills each row with the first `3 * width`
      bytes of the crop's row in the 4-bytes-per-pixel BGRx source buffer, so
      a row holds the padding byte of every pixel it covers and misses the
      tail of the last ones. */
  datatype Frame = Frame(width: int, height: int, data: seq<bv8>)

  /** The end-of-stream / failure sentinel returned by get_frame. */
  const EmptyFrame := Frame(0, 0, [])
}
