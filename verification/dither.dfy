/** The Floyd–Steinberg error-diffusion filter of src/pixlzr.tsx:120-190,
    acting on the pixels of one frame in raster order.

    Pixels are addressed linearly: pixel (x, y) is pixel `x + y * width`.
    The four diffusion targets of pixel `p` are the pixels `p+1`,
    `p+width-1`, `p+width` and `p+width+1`; a horizontal overflow is not
    clamped, so it lands in the neighbouring row.  A target beyond the end of
    the buffer is dropped, as a Uint8ClampedArray ignores such stores. */
module Dither {
  import opened Uint8Clamped
  import opened Quantization
  import opened Rgba

  /** The three stores into a diffusion target, given the shares of the
      red, green and blue errors in sixteenths, each store going through
      ToUint8Clamp: red and green add their share to their own old value,
      while the blue store reads the target's green slot (src/pixlzr.tsx:157),
      which the green store has just written. */
  function Received(px: Pixel, shareR: int, shareG: int, shareB: int): Pixel
  {
    var green := ToUint8Clamp(16 * px.g + shareG);
    Pixel(ToUint8Clamp(16 * px.r + shareR), green, ToUint8Clamp(16 * green + shareB), px.a)
  }

  /** Diffusion into target pixel `t`; a target outside the buffer is left
      alone, as the typed array ignores stores past its end. */
  function Diffuse(ps: seq<Pixel>, t: int, shareR: int, shareG: int, shareB: int): (r: seq<Pixel>)
    ensures |r| == |ps|
    ensures forall q :: 0 <= q < |ps| && q != t ==> r[q] == ps[q]
    ensures 0 <= t < |ps| ==> r[t].a == ps[t].a
  {
    if 0 <= t < |ps| then ps[t := Received(ps[t], shareR, shareG, shareB)] else ps
  }

  /** Number of diffusion targets per pixel. */
  const TargetCount: nat := 4

  /** Target `n` (0-based, in the order the source writes them) of pixel `p`:
      (x+1, y), (x-1, y+1), (x, y+1), (x+1, y+1) in linear pixel numbering. */
  function Target(width: int, p: int, n: nat): int
    requires n < TargetCount
  {
    if n == 0 then p + 1
    else if n == 1 then p + width - 1
    else if n == 2 then p + width
    else p + width + 1
  }

  /** Share of the error `e` that target `n` receives, in sixteenths: the
      source's `(err * k) / 16` with k = 7, 3, 5, 1. */
  function Share(n: nat, e: int): int
    requires n < TargetCount
  {
    if n == 0 then e * 7 else if n == 1 then e * 3 else if n == 2 then e * 5 else e * 1
  }

  /** Weight of target `n`, in sixteenths of the error. */
  function Weight(n: nat): int
    requires n < TargetCount
  {
    Share(n, 1)
  }

  /** Pixel `q` is one of the diffusion targets of pixel `p`. */
  predicate IsTarget(width: int, p: int, q: int)
  {
    exists n :: 0 <= n < TargetCount && q == Target(width, p, n)
  }

  /** The buffer after the first `n` targets of pixel `p` have received their
      share of the three errors. */
  function Spread(ps: seq<Pixel>, width: int, p: int, n: nat, errR: int, errG: int, errB: int): (r: seq<Pixel>)
    requires n <= TargetCount
    ensures |r| == |ps|
  {
    if n == 0 then ps
    else
      var m := n - 1;
      Diffuse(Spread(ps, width, p, m, errR, errG, errB), Target(width, p, m), Share(m, errR), Share(m, errG), Share(m, errB))
  }

  /** The current pixel with its red, green and blue bytes quantized. */
  function QuantizePixel(px: Pixel): Pixel
  {
    Pixel(Quantize(px.r), Quantize(px.g), Quantize(px.b), px.a)
  }

  /** One iteration of the raster loop at pixel `p`: quantize its red, green
      and blue bytes in place, then diffuse the three errors into the four
      targets. */
  function Step(ps: seq<Pixel>, width: int, p: nat): (r: seq<Pixel>)
    requires p < |ps|
    ensures |r| == |ps|
  {
    var px := ps[p];
    Spread(ps[p := QuantizePixel(px)], width, p, TargetCount, QuantError(px.r), QuantError(px.g), QuantError(px.b))
  }

  /** The buffer after the raster loop has processed pixels 0 .. n-1. */
  function Dithered(ps: seq<Pixel>, width: int, n: nat): (r: seq<Pixel>)
    requires n <= |ps|
    ensures |r| == |ps|
  {
    if n == 0 then ps
    else Step(Dithered(ps, width, n - 1), width, n - 1)
  }
}
