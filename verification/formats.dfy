/** What the converter accepts before it packs anything: the decoded image's
    bit depth and colour type, and the requested rotation angle.
 */
module Formats {

  /** PNG colour type codes, as the decoder reports them. */
  const COLOR_TYPE_GRAY: nat := 0
  const COLOR_TYPE_RGB: nat := 2
  const COLOR_TYPE_PALETTE: nat := 3
  const COLOR_TYPE_GRAY_ALPHA: nat := 4
  const COLOR_TYPE_RGB_ALPHA: nat := 6

  /** Bit depth and colour type of the decoded image. */
  datatype Format = Format(bitDepth: nat, colorType: nat)

  /** The ways a conversion can be refused. */
  datatype Error = UnsupportedFormat | InvalidRotation

  datatype Result<T> = Ok(value: T) | Err(error: Error)

  /** The converter takes any 1-bit image, and 8-bit images that are RGB or RGBA. */
  predicate Supported(f: Format) {
    || f.bitDepth == 1
    || (f.bitDepth == 8 && (f.colorType == COLOR_TYPE_RGB || f.colorType == COLOR_TYPE_RGB_ALPHA))
  }

  /** A 1-bit image is accepted whatever its colour type, grey or palette; an
      8-bit grey, grey-and-alpha or palette image is refused. */
  lemma SupportedColorTypes()
    ensures Supported(Format(1, COLOR_TYPE_GRAY)) && Supported(Format(1, COLOR_TYPE_PALETTE))
    ensures !Supported(Format(8, COLOR_TYPE_GRAY)) && !Supported(Format(8, COLOR_TYPE_GRAY_ALPHA))
    ensures !Supported(Format(8, COLOR_TYPE_PALETTE))
  {
  }

  /** The rotations, in degrees clockwise, that the converter accepts. */
  predicate ValidAngle(angle: int) {
    angle == 0 || angle == 90 || angle == 180 || angle == 270
  }

  /** Bytes per decoded pixel of an 8-bit colour image: the alpha byte of RGBA
      is carried along but never looked at. */
  function BytesPerPixel(colorType: nat): (bpp: nat)
    requires colorType == COLOR_TYPE_RGB || colorType == COLOR_TYPE_RGB_ALPHA
    ensures 3 <= bpp <= 4
    ensures bpp == 4 <==> colorType == COLOR_TYPE_RGB_ALPHA
  {
    if colorType == COLOR_TYPE_RGB then 3 else 4
  }
}
