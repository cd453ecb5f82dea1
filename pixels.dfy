/** RGBA pixels as the image buffers of the captcha generator hold them (`Rgba<u8>`). */
module Pixels {

  /** One unsigned 8-bit channel value. */
  newtype byte = x: int | 0 <= x < 256

  /** A pixel with red, green, blue and alpha channels; alpha 0 is fully transparent. */
  datatype Pixel = Rgba(r: byte, g: byte, b: byte, a: byte)

  /** `Rgba([0, 0, 0, 0])`: the fill of every fresh buffer and of the area a rotation exposes. */
  const Transparent: Pixel := Rgba(0, 0, 0, 0)
}
