/** Per-channel quantization of the dithering filter (src/pixlzr.tsx:135-147).
    The source computes `Math.round((factor * v) / 255) * (255 / factor)` with
    the factor fixed at 1, so every channel collapses to one of the two levels
    0 and 255. */
module Quantization {
  import opened Uint8Clamped

  /** `Math.round(v / 255)`: Math.round rounds to the nearest integer with
      halves going up, i.e. it is floor(v / 255 + 1/2). */
  function RoundOver255(v: byte): (n: int)
    ensures 510 * n - 255 <= 2 * v < 510 * n + 255
  {
    (2 * v + 255) / 510
  }

  /** `Math.round(v / 255) * 255`: a byte becomes 255 exactly when it is at
      least 128, and 0 otherwise; that is the nearer of the two levels. */
  function Quantize(v: byte): (q: byte)
    ensures q == 0 || q == 255
    ensures q == 255 <==> v >= 128
    ensures q == 0 ==> v <= 255 - v
    ensures q == 255 ==> 255 - v <= v
  {
    RoundOver255(v) * 255
  }

  /** Quantization error `v - q` of one channel: at most 127 either way, and
      zero exactly on the two levels. */
  function QuantError(v: byte): (e: int)
    ensures -127 <= e <= 127
    ensures e == 0 <==> v == 0 || v == 255
    ensures e > 0 <==> 0 < v < 128
  {
    v - Quantize(v)
  }
}
