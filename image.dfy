/**
 * The small part of the `image` crate that both tools rely on: an RGB colour
 * with 8-bit channels, the two sentinel colours, and a freshly allocated
 * RgbImage, whose pixels are all zero (that is, BLACK).
 *
 * An image is an `array2<Color>` indexed `[x, y]`, so `Length0` is the
 * width and `Length1` the height, as with `put_pixel(x, y, c)`.
 */
module Image {

  newtype Byte = v: int | 0 <= v < 256

  /** An RGB pixel; the tools only ever compare colours for equality. */
  datatype Color = Rgb(r: Byte, g: Byte, b: Byte)

  const BLACK: Color := Rgb(0, 0, 0)
  const WHITE: Color := Rgb(255, 255, 255)

  /** True when every pixel of `img` is `c`. */
  ghost predicate Filled(img: array2<Color>, c: Color)
    reads img
  {
    forall x, y :: 0 <= x < img.Length0 && 0 <= y < img.Length1 ==> img[x, y] == c
  }

  /** `RgbImage::new(width, height)`: a new zero-filled image. */
  method NewImage(width: nat, height: nat) returns (img: array2<Color>)
    ensures fresh(img)
    ensures img.Length0 == width && img.Length1 == height
    ensures Filled(img, BLACK)
  {
    img := new Color[width, height]((x, y) => BLACK);
  }
}
