# png2bin in Dafny

png2bin turns a PNG image into a raw 1-bit-per-pixel bitmap for small
monochrome displays. Each output row is `ceil(width / 8)` bytes. Pixels are
stored most significant bit first, and a set bit means dark. The converter
accepts two kinds of decoded image:

- a 1-bit image, which arrives bit-packed with 1 meaning light, so every byte
  is inverted and the bits past `width` are masked off;
- an 8-bit RGB or RGBA image, where a pixel is dark exactly when its red,
  green and blue bytes are all zero (alpha is ignored).

The packed bitmap can then be turned clockwise by 90, 180 or 270 degrees before
it is written, row 0 first.

This project models that core and proves its properties:

- `Bits` holds the stride `ceil(w/8)` and MSB-first bit addressing inside a
  packed row. It also holds `WriteBit`, the `|= mask` / `&= ~mask` update.
- `Bitmaps` holds the packed bitmap (`Bitmap`). Its predicates say that a
  bitmap is well formed (`Valid`) and that its padding bits are zero
  (`PaddingClean`). `Flatten` gives the flat file image.
- `Formats` holds the format check (`Supported`), the angle check
  (`ValidAngle`) and the error results.
- `Packer` holds the monochrome path (trailing mask, inversion) and the
  RGB/RGBA classification as functions. Two of the C loops also appear as
  loops, each proved equal to its function: the trailing-mask loop
  (`BuildTrailMask`) and the per-pixel classification loop with its byte
  cursor and shifting mask (`ClassifyRow`). The byte-inversion loop appears
  only as the function `PackMonoRow`.
- `Rotator` holds the rotation as a function (`Rotate`, defined through the
  inverse pixel map). It also holds the three rotation loops
  (`RotateBinImage`), proved equal to `Rotate`, and the round trips.
- `Converter` holds the end-to-end conversion (`Convert`): angle check, then
  format check, then pack, then rotate. It also holds the buffer-size finding
  below.

The decoder's output is a parameter: the rows it delivers (`decoded`), the
image size and its bit depth and colour type.

## Model

| member | source | states |
|---|---|---|
| Bits.Stride | src/png2bin.c:151-155 | the row stride is the least byte count holding `width` bits: `width <= 8*s < width+8`, and it is non-zero for a non-empty row |
| Bits.MaskIsShift | src/png2bin.c:297-299 | the mask table used for pixel `k` of a byte is `0x80 >> k` |
| Bits.WriteBit | src/png2bin.c:300-304 | setting one pixel of a packed row (or-assign of its mask) or clearing it (and-assign of the complemented mask) gives that pixel the copied value and changes no other pixel |
| Bitmaps.FlattenLength | src/png2bin.c:158 | a buffer of `hbyte` rows of `wbyte` bytes has `wbyte*hbyte` bytes |
| Bitmaps.FlattenAt | src/png2bin.c:180-184 | byte `i` of row `y` sits at offset `wbyte*y + i` of the flat buffer |
| Bitmaps.FromPixels | src/png2bin.c:294-305 | a zero-filled bitmap with each in-range pixel set from a rule is well formed, has zero padding, and has exactly the rule's pixels |
| Packer.TrailMask | src/png2bin.c:168-177 | the last-byte mask keeps exactly the bits of the row's last byte that lie inside `width` |
| Packer.BuildTrailMask | src/png2bin.c:168-177 | the mask loop (start at `0x80`, widen by `mask >> 1` `width%8 - 1` times, `0xFF` for a whole byte) yields that mask |
| Packer.HighBitsGrow | src/png2bin.c:172 | or-ing a run of `n` high bits with itself shifted right by one gives the run of `n+1` high bits |
| Packer.PackMonoRow | src/png2bin.c:181-184 | each in-range pixel of a packed monochrome row is the complement of the decoded sample, and every padding bit is zero |
| Packer.PackMono | src/png2bin.c:179-185 | a packed 1-bit image has the input's size, is well formed, has zero padding, and each pixel is the complemented sample |
| Packer.AllLightPacksToZero | src/png2bin.c:179-185 | an all-light 1-bit image packs to all-zero bytes, whatever the bits past `width` held |
| Packer.AllDarkPacksToOnes | src/png2bin.c:179-185 | an all-dark 1-bit image packs to `0xFF` bytes, and the last byte of each row is exactly the trailing mask |
| Formats.BytesPerPixel | src/png2bin.c:188-193 | a decoded colour pixel occupies 3 bytes for RGB and 4 for RGBA |
| Packer.PackRgbRow | src/png2bin.c:196-219 | pixel `x` of a packed colour row is dark iff bytes `x*bpp`, `x*bpp+1`, `x*bpp+2` are all zero, and the padding bits are zero |
| Packer.ClassifyRow | src/png2bin.c:201-219 | the loop over one row, writing each pixel through the byte cursor `xb` and the shifting mask, produces exactly `PackRgbRow` |
| Packer.ClassifyStep | src/png2bin.c:205-218 | one pass of the loop, with the cursor at `(x/8, 0x80 >> x%8)`, sets or clears pixel `x` by its class and extends the classified prefix by that pixel |
| Packer.PackRgb | src/png2bin.c:186-223 | a packed colour image has the input's size, is well formed, has zero padding, and each pixel is dark iff its RGB bytes are zero |
| Packer.AlphaIgnored | src/png2bin.c:206 | two RGBA rows that differ only in alpha bytes pack to the same row |
| Formats.SupportedColorTypes | src/png2bin.c:140 | a 1-bit grey or palette image is accepted; an 8-bit grey, grey-and-alpha or palette image is refused |
| Packer.Pack | src/png2bin.c:140-223 | the packer fails with `UnsupportedFormat` exactly when the image is neither 1-bit nor 8-bit RGB/RGBA; otherwise it gives a well-formed, clean bitmap with the monochrome or colour pixel meaning |
| Rotator.Dest | src/png2bin.c:296-350 | the destination of an in-range source pixel lies inside the rotated bitmap |
| Rotator.Source | src/png2bin.c:296-350 | the source of an in-range destination pixel lies inside the original bitmap |
| Rotator.SourceOfDest | src/png2bin.c:296-350 | the inverse map undoes the loops' pixel placement |
| Rotator.DestOfSource | src/png2bin.c:296-350 | the loops' pixel placement undoes the inverse map, so the mapping is a bijection of the pixel grid |
| Rotator.Rotate | src/png2bin.c:280-355 | a rotation is well formed, swaps width and height for 90 and 270 and keeps them for 180, has zero padding after a quarter-turn multiple, and is the identity for 0 and every other angle |
| Rotator.RotatePixel | src/png2bin.c:296-350 | each destination pixel of a rotation equals its source pixel |
| Rotator.RotateMapsPixel | src/png2bin.c:296-350 | source pixel `(rx, ry)` lands at `(H-1-ry, rx)` for 90, `(W-1-rx, H-1-ry)` for 180, `(ry, W-1-rx)` for 270, and stays put otherwise |
| Rotator.RotatedByteCount | src/png2bin.c:285-293 | the rotated file image has `Stride(W') * H'` bytes, the stride being recomputed from the new width |
| Rotator.Rotate90Then270 | src/png2bin.c:280-355 | rotating by 90 then by 270 gives back any well-formed bitmap with zero padding |
| Rotator.Rotate270Then90 | src/png2bin.c:280-355 | rotating by 270 then by 90 gives back any well-formed bitmap with zero padding |
| Rotator.Rotate180Twice | src/png2bin.c:308-323 | two half turns give back any well-formed bitmap with zero padding |
| Rotator.Rotate90Twice | src/png2bin.c:281-325 | two quarter turns are one half turn, for every well-formed bitmap |
| Rotator.Rotate90FourTimes | src/png2bin.c:281-307 | four quarter turns give back any well-formed bitmap with zero padding |
| Rotator.ProgressStep | src/png2bin.c:298-304 | copying one source bit to its destination extends the set of already-copied pixels by exactly that pixel |
| Rotator.RotateBinImage | src/png2bin.c:255-360 | the zero-filled destination plus the three counter-driven copy loops, with their `wx`/`wy` stepping, compute exactly `Rotate`; any other angle leaves the bitmap unchanged |
| Converter.AllocBytes | src/png2bin.c:158 | the untruncated buffer size `Stride(w) * h` holds all `w*h` pixel bits, with less than one spare byte per row |
| Converter.BytesFitAlloc | src/png2bin.c:240 | the file image of every well-formed bitmap is exactly `AllocBytes` of its size |
| Converter.Convert | src/png2bin.c:77-240 | the conversion fails with `InvalidRotation` for an angle outside 0/90/180/270 before looking at the image; otherwise it fails with `UnsupportedFormat` exactly when the format is unsupported; otherwise it yields a well-formed, clean bitmap of the rotated size whose file image is `AllocBytes` long |
| Converter.ConvertPixel | src/png2bin.c:163-226 | every decoded pixel reappears at its rotated position in the output, dark exactly when the packer reads it as dark |
| Converter.ConvertIgnoresAlpha | src/png2bin.c:206 | two RGBA images that differ only in their alpha bytes convert to the same output, whatever the angle |
| Converter.AllocBytesAsWritten | src/png2bin.c:150-158 | the buffer size as the code computes it, with stride and height held in `uint16_t`, never exceeds the true size |
| Converter.AllocAsWrittenShort | src/png2bin.c:150-158 | for a non-empty bitmap the 16-bit buffer never exceeds its file image, and equals it iff both the stride and the height are below 65536 |
| Converter.TallImageOverflows | src/png2bin.c:156-158 | every 8 by 65536 bitmap has a 65536-byte file image, but the code sizes its buffer at 0 |

The angle check (line 77) is the predicate `Formats.ValidAngle`, and the format
check (line 140) is `Formats.Supported`. Their meaning is stated through
`Converter.Convert` and `Packer.Pack`.

Line 140 accepts only 1-bit images (of any colour type) and 8-bit RGB or RGBA
images. Lines 186-223 pack a colour image to the same 1-bit layout as a
monochrome one, `Stride(width)` bytes per row.

## Left out

- Command-line parsing, the help text and the output file name (lines 24-75) are left out. The rotation is given to `Convert` as an integer, so `atoi` parsing is not modelled.
- PNG signature checking, libpng decoding and file reading and writing are left out. The decoded rows, size, bit depth and colour type are parameters.
- Interlaced images are left out. The code reads each row once with `png_read_row` and does not turn on interlace handling, and the model takes the decoder's rows as final.
- `malloc` failure paths and the freeing of buffers are left out: memory is not modelled.
- The disabled debug printer in `RotateBinImage` (lines 362-381) is left out.
- A 1-bit palette image is packed like a 1-bit grey image, by complementing the sample bit, as the code does. Palette colours are not modelled.
- Packer.Pack: requires `width > 0` (through `RowsFit`). The monochrome path indexes byte `wbyte - 1` of each row, and the PNG decoder never delivers a zero-width image.
- Converter.Convert: sizes are unbounded, so the output is the untruncated bitmap. The code's `uint16_t` stride and height are stated separately in `AllocBytesAsWritten` (see Findings).
- The `uint32_t` rotation counters wrap past zero after the last step of a decrementing loop. The model uses unbounded counters, because the wrapped value is never used.
- The product `wbyte*hbyte` is computed in `int` after promotion of its `uint16_t` factors, so a product of 2^31 or more is undefined behaviour. That overflow is not modelled.

## Findings

| source | as written | input that shows it | evidently intended | confidence | as-written member | corrected member |
|---|---|---|---|---|---|---|
| src/png2bin.c:150-158 | `wbyte` and `hbyte` are `uint16_t`, so the buffer `wbyte*hbyte` is sized from the stride and height reduced modulo 65536; the rows stored into it, and the rotated copies (lines 256-293), use the same truncated sizes | an 8 by 65536 image: `hbyte` is 0, the buffer is 0 bytes, and 65536 bytes of rows are then stored | a buffer of `Stride(width) * height` bytes | high; not executed | Converter.TallImageOverflows | Converter.BytesFitAlloc |

`Converter.AllocBytesAsWritten` is the code's size computation. `Converter.AllocAsWrittenShort`
shows it falls short exactly when the stride or the height reaches 65536. The
model itself uses the untruncated `Converter.AllocBytes`, and
`Converter.Convert` states its output length through it.
