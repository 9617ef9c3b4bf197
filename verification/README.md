# Floyd–Steinberg dithering of a video frame, in Dafny

This project models `FloydSteinbergDithering` from the pixlzr web app
(`src/pixlzr.tsx`). The function takes the RGBA bytes of one 640×480 video
frame, an `ImageData` buffer backed by a `Uint8ClampedArray`. It visits the
pixels in raster order, left to right and top to bottom. At each pixel it:

- turns each of red, green and blue into 0 or 255, using
  `Math.round(v / 255) * 255`;
- pushes the three quantization errors forward, with weights 7, 3, 5 and 1
  sixteenths, to the pixels (x+1, y), (x-1, y+1), (x, y+1) and (x+1, y+1).

Every store into the buffer goes through the typed array's ToUint8Clamp
conversion. That conversion is section 7.1.11 of ECMA-262, 6th edition: it
clamps to 0..255 and rounds half to even.

The model follows the code as written, including its quirks:

- **Blue reads the green slot.** The blue store into a target reads the
  target's green byte, which the green store has just written, instead of its
  blue byte.
- **Targets wrap across rows.** Targets are computed by linear pixel numbering
  (`x + y * width`). So (x+1, y) at the end of a row is the first pixel of the
  next row, and (x-1, y+1) at x = 0 is the last pixel of the current row.
- **Only the buffer end drops stores.** A store is dropped only when its
  target lies past the end of the buffer, because a typed array ignores
  out-of-range stores.
- **Every store clamps.** Because the buffer is a Uint8ClampedArray, the
  values that accumulate in not-yet-visited pixels stay within 0..255.
- **Narrow frames diffuse oddly.** With width 1, pixel (x-1, y+1) is the
  current pixel itself, so that pixel receives 3/16 of its own error after
  being quantized. A 1×1 frame therefore does not end quantized
  (DitherExamples.WidthOneLeavesGrey). With width 2, (x+1, y) and (x-1, y+1)
  are the same pixel, which receives two successive clamped rounds.

Each stored value is an integer plus a multiple of 1/16. The model therefore
represents it exactly, as an integer count of sixteenths, and needs no
floating point.

Modules, in dependency order:

- `Uint8Clamped` (`uint8_clamped.dfy`): the byte type and ToUint8Clamp on
  sixteenths.
- `Quantization` (`quantization.dfy`): `Math.round(v / 255) * 255` and the
  error `v - q`.
- `Rgba` (`rgba.dfy`): pixels, and the flat byte layout of the buffer.
- `Dither` (`dither.dfy`): the four targets and the clamped stores into one
  target (`Received`, `Diffuse`). Also one raster step (`Step`) and the pass
  over the first `n` pixels (`Dithered`).
- `DitherProperties` (`dither_properties.dfy`): locality, alpha preservation,
  quantization of visited pixels, the blue store's reading of green, and the
  width 1 and width 2 behaviour.
- `ErrorShares` (`error_shares.dfy`): how much of an error is added into
  targets inside the buffer, as arithmetic on the shares. The buffer never
  holds that total, because every store clamps and rounds.
- `DitherExamples` (`dither_examples.dfy`): two worked frames.
- `ByteStores` (`byte_stores.dfy`): the source's `index(x, y)` addressing and
  its byte stores into the typed array. `VisitBytes` is one iteration of the
  loop body on the byte buffer. It is proved to lay out `Step` on the pixel
  view.
- `FloydSteinberg` (`floyd_steinberg.dfy`): the source's nested loops as
  methods on the flat byte buffer, with `VisitPixel` as the loop body. They
  are proved to lay out the functional pass `Dithered`.

## Model

| member | source | states |
|---|---|---|
| Uint8Clamped.ToUint8Clamp | src/pixlzr.tsx:150-157 | A store of n/16 gives 0 at or below 0 and 255 at or above 255. In between it gives a byte within half a unit of n/16, with an exact half going to the even byte, and it gives n/16 itself when that is whole. |
| Uint8Clamped.ToUint8ClampIsNearestEven | src/pixlzr.tsx:150-187 | A byte is the stored value of n/16 exactly when it is the nearest byte to n/16 clamped to 0..255, with ties going to the even byte. Both directions are proved. |
| Quantization.RoundOver255 | src/pixlzr.tsx:137 | `Math.round(v / 255)` is the integer n with n - 1/2 <= v/255 < n + 1/2, so halves round up. |
| Quantization.Quantize | src/pixlzr.tsx:137-139 | The quantized channel is 0 or 255. It is 255 exactly when v >= 128. It is always the nearer of the two levels. |
| Quantization.QuantError | src/pixlzr.tsx:145-147 | The error `v - new` lies in -127..127. It is zero exactly when v is already 0 or 255, and positive exactly when 0 < v < 128. |
| Rgba.FlattenAt | src/pixlzr.tsx:129-133 | Byte `4*q + c` of the buffer is channel c of pixel q, as with the source's `index(x, y) + c`. |
| Rgba.FlattenUnflatten | src/pixlzr.tsx:125-133 | Viewing a byte buffer as pixels and writing it back gives the same bytes. |
| Rgba.UnflattenFlatten | src/pixlzr.tsx:125-133 | Writing pixels as bytes and reading them back gives the same pixels. |
| Dither.Diffuse | src/pixlzr.tsx:150-157 | The stores into one target keep the buffer length. They change no other pixel and leave the target's alpha byte alone. |
| DitherProperties.SpreadBetween | src/pixlzr.tsx:149-187 | Targets that are not pixel q leave pixel q unchanged. |
| DitherProperties.SpreadFrame | src/pixlzr.tsx:149-187 | Diffusing the errors of pixel p changes only p's four targets. |
| DitherProperties.SpreadKeepsAlpha | src/pixlzr.tsx:149-187 | No diffusion store changes an alpha byte. |
| DitherProperties.TargetsFollow | src/pixlzr.tsx:149-187 | For width >= 2, every target of pixel p comes after p in raster order, so p is not its own target. |
| DitherProperties.StepFrame | src/pixlzr.tsx:128-187 | A visit to pixel p changes only p and its four targets. |
| DitherProperties.StepKeepsAlpha | src/pixlzr.tsx:141-187 | A visit leaves every alpha byte unchanged. |
| DitherProperties.DitheredKeepsAlpha | src/pixlzr.tsx:127-189 | The whole pass leaves every alpha byte unchanged. |
| DitherProperties.StepQuantizesCurrent | src/pixlzr.tsx:137-143 | For width >= 2, a visit leaves pixel p at exactly its quantized colour. |
| DitherProperties.StepKeepsVisited | src/pixlzr.tsx:149-187 | For width >= 1, a visit never changes an already visited pixel. |
| DitherProperties.DitheredKeepsQuantized | src/pixlzr.tsx:127-189 | For width >= 2, once the pass is past pixel q, q holds the quantized value of what it held when visited. |
| DitherProperties.DitheredIsTwoLevel | src/pixlzr.tsx:127-189 | For width >= 2, every red, green and blue byte of a visited pixel is 0 or 255. |
| DitherProperties.StepNeighbour | src/pixlzr.tsx:149-187 | For width >= 3, each target inside the buffer receives exactly one round of stores, with weight 7, 3, 5 or 1 sixteenths. |
| DitherProperties.StepWidthOne | src/pixlzr.tsx:159-167 | For width 1, the visited pixel ends at its quantized colour plus 3/16 of its own error, clamped and rounded. |
| DitherProperties.StepWidthTwo | src/pixlzr.tsx:149-167 | For width 2, pixel p+1 receives two clamped rounds, 7/16 then 3/16 of the error. |
| DitherProperties.StepBlueFromGreen | src/pixlzr.tsx:149-187 | At any width, a target inside the buffer ends with blue equal to ToUint8Clamp of its final green plus the blue share of the last round that writes it. Its own blue value is lost. |
| DitherProperties.DitheredWidthOne | src/pixlzr.tsx:127-189 | For width 1, every visited pixel ends at its quantized colour plus 3/16 of its own errors, clamped and rounded. No later visit changes it. |
| ErrorShares.OfferedIsWholeError | src/pixlzr.tsx:149-187 | The four shares 7, 3, 5 and 1 sixteenths add up to the whole error. |
| ErrorShares.DeliveredBounds | src/pixlzr.tsx:149-187 | Before clamping, the error that reaches in-buffer targets has the sign of the error and is at most what was offered. It is all of it when every target is in the buffer. |
| ErrorShares.AllTargetsInside | src/pixlzr.tsx:149-187 | For width >= 1, all four targets are inside the buffer exactly when the last one, p + width + 1, is. |
| ErrorShares.DeliveredWholeIff | src/pixlzr.tsx:149-187 | For width >= 1 and a non-zero error, the whole error reaches the buffer exactly when p + width + 1 is inside it. Otherwise only part of it does. |
| DitherExamples.WidthOneLeavesGrey | src/pixlzr.tsx:159-167 | In a 1×1 frame, red 100 ends at 19, not at a level. |
| DitherExamples.GreyFirstStep | src/pixlzr.tsx:137-167 | In a grey 128 frame 4 wide, pixel 0 becomes white. Pixel 1 becomes (72, 72, 16) because blue reads the new green. Pixel 3, at the end of row 0, receives the (x-1, y+1) share. |
| ByteStores.FlattenUpdate | src/pixlzr.tsx:125-133 | Replacing pixel q is replacing bytes 4q to 4q+3 of the buffer. |
| ByteStores.StoreTargetIsDiffuse | src/pixlzr.tsx:149-157 | The three byte stores at `index` of a target, the blue one reading the green byte, lay out the pixel-level diffusion into that target. Past the buffer's end they change nothing. |
| ByteStores.QuantizeBytesIsQuantizePixel | src/pixlzr.tsx:137-143 | The three colour stores at `index(x, y)` lay out pixel (x, y) replaced by its quantized colour. |
| ByteStores.VisitBytesIsStep | src/pixlzr.tsx:129-187 | The loop body's byte reads and twelve byte stores at (x, y), in source order, lay out the pixel-level step at pixel `x + y * width`, for every buffer. |
| FloydSteinberg.PixelInFrame | src/pixlzr.tsx:125-129 | Pixel (x, y) of the frame is pixel `x + y * width`, which lies inside the buffer. |
| FloydSteinberg.VisitPixel | src/pixlzr.tsx:129-187 | When the buffer holds the pass up to pixel `x + y * width`, one iteration of the loop body at (x, y) advances it by that pixel. |
| FloydSteinberg.DitherRowBytes | src/pixlzr.tsx:128-188 | The inner loop over row y advances the pass from the row's first pixel to the next row's first pixel. |
| FloydSteinberg.DitheredBytes | src/pixlzr.tsx:127-189 | The finished pass, read as bytes, keeps every alpha byte. For width >= 2, every other byte is 0 or 255. |
| FloydSteinberg.FloydSteinbergDithering | src/pixlzr.tsx:120-190 | On the byte buffer, the result is the pass written back as bytes. Every alpha byte is kept. For width >= 2, every other byte ends at 0 or 255. |

## Left out

- The React component, the camera stream, the canvas calls and the error
  boundary are outside the filter (`src/pixlzr.tsx:1-118` and `192-212`, and
  `src/main.tsx`). So are `isVideoTrack` and the fixed 640×480 frame size.
  Width and height are parameters here.
- The in-place mutation of `imageData.data` is not modelled. The model maps an
  input buffer to an output buffer, and the output equals the mutated buffer.
- FloydSteinberg.FloydSteinbergDithering: requires the buffer to hold exactly
  `4 * width * height` bytes. The only caller obtains it from
  `getImageData(0, 0, width, height)` with the same width and height
  (`src/pixlzr.tsx:41-58`). With that length, the reads of the current pixel
  (`src/pixlzr.tsx:131-133`) are always in range, so their `?? 0` defaults
  never apply. A target read past the buffer's end gives `undefined` and so
  NaN, but the store that uses it goes to an address just as far past the
  end and is dropped. `ByteStores.Store` still writes such a NaN as 0, as
  ToUint8Clamp does.
- Floating point is not modelled. Every value the filter computes is a whole
  number of sixteenths, which a double holds exactly, so integers model it
  exactly.
