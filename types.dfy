/** Types and frame geometry shared by the capture controller and the command protocol. */
module Types {

  /** An unsigned 8-bit quantity: a pixel byte, a datagram byte, an `unsigned char` setting. */
  type Byte = b: int | 0 <= b < 256

  datatype Option<+T> = None | Some(value: T)

  /** Fixed capture/display geometry: 800 x 480 pixels of 4 bytes (CV_8UC4). */
  const FRAME_WIDTH: nat := 800
  const FRAME_HEIGHT: nat := 480
  const BYTES_PER_PIXEL: nat := 4
  const FRAME_PIXELS: nat := FRAME_WIDTH * FRAME_HEIGHT
  /** Bytes of one frame: the size of one capture slot and of the overlay image. */
  const FRAME_BYTES: nat := FRAME_PIXELS * BYTES_PER_PIXEL

  /** A sequence of `n` zero bytes. */
  function Zeros(n: nat): (z: seq<Byte>)
    ensures |z| == n && forall i :: 0 <= i < n ==> z[i] == 0
  {
    seq(n, _ => 0)
  }
}
