/** Storage semantics of a Uint8ClampedArray: every value written to the pixel
    buffer goes through ToUint8Clamp (ECMA-262, 6th edition, section 7.1.11),
    which clamps to [0, 255] and then rounds half to even.

    Every value the dithering filter stores is an integer plus a multiple of
    1/16 (an integer error times a weight over 16), so a stored value is
    represented exactly by its numerator over 16 and no floating point is
    needed. */
module Uint8Clamped {

  /** One element of a Uint8ClampedArray. */
  type byte = x: int | 0 <= x < 256

  /** Largest byte value, in sixteenths. */
  const MaxSixteenths: int := 16 * 255

  /** ToUint8Clamp(n / 16), following the steps of section 7.1.11: values at or
      below 0 give 0, values at or above 255 give 255, otherwise take the floor
      f and round the fractional part, sending an exact half to the even
      neighbour. */
  function ToUint8Clamp(n: int): (r: byte)
    ensures n <= 0 ==> r == 0
    ensures n >= MaxSixteenths ==> r == 255
    ensures 0 <= n <= MaxSixteenths ==> 16 * r - 8 <= n <= 16 * r + 8
    ensures 0 <= n <= MaxSixteenths && n % 16 == 8 ==> r % 2 == 0
    ensures n % 16 == 0 && 0 <= n <= MaxSixteenths ==> r == n / 16
  {
    if n <= 0 then 0
    else if n >= MaxSixteenths then 255
    else
      var f := n / 16;
      var frac := n % 16;
      if frac > 8 then f + 1
      else if frac < 8 then f
      else if f % 2 == 1 then f + 1
      else f
  }

  /** The value n / 16 clamped into [0, 255], still in sixteenths. */
  function ClampSixteenths(n: int): int
  {
    if n < 0 then 0 else if n > MaxSixteenths then MaxSixteenths else n
  }

  /** Reference definition: `r` is the byte nearest to the clamped value of
      n / 16, and an exact tie is resolved towards the even byte. */
  ghost predicate IsClampedRounding(n: int, r: int)
  {
    var c := ClampSixteenths(n);
    0 <= r <= 255 &&
    -8 <= 16 * r - c <= 8 &&
    ((16 * r - c == 8 || 16 * r - c == -8) ==> r % 2 == 0)
  }

  /** ToUint8Clamp computes exactly the clamped, round-half-to-even value:
      it satisfies the reference definition and is the only byte that does. */
  lemma ToUint8ClampIsNearestEven(n: int, r: int)
    ensures IsClampedRounding(n, r) <==> r == ToUint8Clamp(n)
  {
    var c := ClampSixteenths(n);
    var t := ToUint8Clamp(n);
    assert ToUint8Clamp(c) == t;
    assert IsClampedRounding(n, t);
  }
}
