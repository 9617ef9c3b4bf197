/** How much of a pixel's quantization error reaches the buffer before any
    clamping (src/pixlzr.tsx:149-187).  The four targets take 7, 3, 5 and 1
    sixteenths of the error, together the whole error; a target beyond the
    end of the buffer is dropped together with its share. */
module ErrorShares {
  import opened Dither

  /** Sixteenths of the error `e` offered to targets 0 .. n-1, whether or not
      they lie inside the buffer. */
  function Offered(n: nat, e: int): int
    requires n <= TargetCount
  {
    if n == 0 then 0 else Offered(n - 1, e) + Share(n - 1, e)
  }

  /** Sixteenths of the error `e` that targets 0 .. n-1 of pixel `p` actually
      receive in a buffer of `count` pixels: a store whose target falls
      outside 0 .. count-1 is dropped, exactly as `Diffuse` drops it. */
  function Delivered(count: int, width: int, p: int, n: nat, e: int): int
    requires n <= TargetCount
  {
    if n == 0 then 0
    else
      var t := Target(width, p, n - 1);
      Delivered(count, width, p, n - 1, e) + (if 0 <= t < count then Share(n - 1, e) else 0)
  }

  /** The weights 7, 3, 5 and 1 add up to 16: the four shares together carry
      the whole error. */
  lemma OfferedIsWholeError(e: int)
    ensures Offered(TargetCount, e) == 16 * e
    ensures Weight(0) + Weight(1) + Weight(2) + Weight(3) == 16
  {
    assert Offered(1, e) == 7 * e;
    assert Offered(2, e) == 10 * e;
    assert Offered(3, e) == 15 * e;
  }

  /** What reaches the buffer has the sign of the error and is at most what
      was offered; with every target inside the buffer it is all of it. */
  lemma {:induction false} DeliveredBounds(count: int, width: int, p: int, n: nat, e: int)
    requires n <= TargetCount
    ensures e >= 0 ==> 0 <= Delivered(count, width, p, n, e) <= Offered(n, e)
    ensures e <= 0 ==> Offered(n, e) <= Delivered(count, width, p, n, e) <= 0
    ensures (forall m :: 0 <= m < n ==> 0 <= Target(width, p, m) < count) ==>
              Delivered(count, width, p, n, e) == Offered(n, e)
  {
    if n > 0 {
      DeliveredBounds(count, width, p, n - 1, e);
    }
  }

  /** For width >= 1 every target of pixel `p` is inside a buffer of `count`
      pixels exactly when the last one, `p + width + 1`, is. */
  lemma AllTargetsInside(count: int, width: int, p: nat)
    requires width >= 1
    ensures (forall m :: 0 <= m < TargetCount ==> 0 <= Target(width, p, m) < count) <==> p + width + 1 < count
  {
    if p + width + 1 >= count {
      assert !(0 <= Target(width, p, 3) < count);
    }
  }

  /** For width >= 1, the sixteenths delivered for a non-zero error are the
      whole error (16 sixteenths of it) exactly when the pixel's last target
      is inside the buffer; otherwise part of the error is lost. */
  lemma DeliveredWholeIff(count: int, width: int, p: nat, e: int)
    requires width >= 1
    requires e != 0
    ensures Delivered(count, width, p, TargetCount, e) == 16 * e <==> p + width + 1 < count
    ensures e > 0 ==> 0 <= Delivered(count, width, p, TargetCount, e) <= 16 * e
    ensures e < 0 ==> 16 * e <= Delivered(count, width, p, TargetCount, e) <= 0
  {
    OfferedIsWholeError(e);
    AllTargetsInside(count, width, p);
    DeliveredBounds(count, width, p, TargetCount, e);
    if p + width + 1 >= count {
      DeliveredBounds(count, width, p, 3, e);
      assert Delivered(count, width, p, TargetCount, e) == Delivered(count, width, p, 3, e);
    }
  }
}
