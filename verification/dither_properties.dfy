/** Properties of one step and of the raster pass of the dithering filter
    (src/pixlzr.tsx:125-190). */
module DitherProperties {
  import opened Uint8Clamped
  import opened Quantization
  import opened Rgba
  import opened Dither

  /** Targets `lo .. hi-1` that do not name pixel `q` leave it as it was. */
  lemma {:induction false} SpreadBetween(ps: seq<Pixel>, width: int, p: int, lo: nat, hi: nat, q: int,
                                         errR: int, errG: int, errB: int)
    requires lo <= hi <= TargetCount
    requires 0 <= q < |ps|
    requires forall m :: lo <= m < hi ==> Target(width, p, m) != q
    ensures Spread(ps, width, p, hi, errR, errG, errB)[q] == Spread(ps, width, p, lo, errR, errG, errB)[q]
    decreases hi
  {
    if lo < hi {
      SpreadBetween(ps, width, p, lo, hi - 1, q, errR, errG, errB);
    }
  }

  /** Target `n` inside the buffer receives the three clamped stores of
      round `n`. */
  lemma SpreadTarget(ps: seq<Pixel>, width: int, p: int, n: nat, errR: int, errG: int, errB: int)
    requires n < TargetCount
    requires 0 <= Target(width, p, n) < |ps|
    ensures
      var t := Target(width, p, n);
      Spread(ps, width, p, n + 1, errR, errG, errB)[t]
        == Received(Spread(ps, width, p, n, errR, errG, errB)[t], Share(n, errR), Share(n, errG), Share(n, errB))
  {
  }

  /** Spreading the errors of pixel `p` changes only its targets. */
  lemma SpreadFrame(ps: seq<Pixel>, width: int, p: int, q: int, errR: int, errG: int, errB: int)
    requires 0 <= q < |ps|
    requires !IsTarget(width, p, q)
    ensures Spread(ps, width, p, TargetCount, errR, errG, errB)[q] == ps[q]
  {
    SpreadBetween(ps, width, p, 0, TargetCount, q, errR, errG, errB);
  }

  /** No store of the diffusion touches an alpha byte. */
  lemma {:induction false} SpreadKeepsAlpha(ps: seq<Pixel>, width: int, p: int, n: nat, errR: int, errG: int, errB: int)
    requires n <= TargetCount
    ensures forall q :: 0 <= q < |ps| ==> Spread(ps, width, p, n, errR, errG, errB)[q].a == ps[q].a
  {
    if n > 0 {
      SpreadKeepsAlpha(ps, width, p, n - 1, errR, errG, errB);
    }
  }

  /** For width >= 2 every target of pixel `p` lies strictly after it. */
  lemma TargetsFollow(width: int, p: int)
    requires width >= 2
    ensures forall m :: 0 <= m < TargetCount ==> Target(width, p, m) > p
    ensures !IsTarget(width, p, p)
  {
  }

  /** A step changes only pixel `p` and its targets. */
  lemma StepFrame(ps: seq<Pixel>, width: int, p: nat)
    requires p < |ps|
    ensures forall q :: 0 <= q < |ps| && q != p && !IsTarget(width, p, q) ==> Step(ps, width, p)[q] == ps[q]
  {
    var px := ps[p];
    var start := ps[p := QuantizePixel(px)];
    forall q | 0 <= q < |ps| && q != p && !IsTarget(width, p, q)
      ensures Step(ps, width, p)[q] == ps[q]
    {
      SpreadFrame(start, width, p, q, QuantError(px.r), QuantError(px.g), QuantError(px.b));
    }
  }

  /** A step leaves every alpha byte as it was. */
  lemma StepKeepsAlpha(ps: seq<Pixel>, width: int, p: nat)
    requires p < |ps|
    ensures forall q :: 0 <= q < |ps| ==> Step(ps, width, p)[q].a == ps[q].a
  {
    var px := ps[p];
    SpreadKeepsAlpha(ps[p := QuantizePixel(px)], width, p, TargetCount, QuantError(px.r), QuantError(px.g), QuantError(px.b));
  }

  /** The raster pass leaves every alpha byte as it was. */
  lemma {:induction false} DitheredKeepsAlpha(ps: seq<Pixel>, width: int, n: nat)
    requires n <= |ps|
    ensures forall q :: 0 <= q < |ps| ==> Dithered(ps, width, n)[q].a == ps[q].a
  {
    if n > 0 {
      DitheredKeepsAlpha(ps, width, n - 1);
      StepKeepsAlpha(Dithered(ps, width, n - 1), width, n - 1);
    }
  }

  /** For width >= 2 a step leaves the current pixel quantized: its red,
      green and blue bytes are each 0 or 255 (the nearer level) and no store
      of the diffusion reaches it. */
  lemma StepQuantizesCurrent(ps: seq<Pixel>, width: int, p: nat)
    requires width >= 2
    requires p < |ps|
    ensures Step(ps, width, p)[p] == QuantizePixel(ps[p])
  {
    var px := ps[p];
    TargetsFollow(width, p);
    SpreadFrame(ps[p := QuantizePixel(px)], width, p, p, QuantError(px.r), QuantError(px.g), QuantError(px.b));
  }

  /** For width >= 1 a step never changes an already visited pixel: no
      target of pixel `p` lies before it. */
  lemma StepKeepsVisited(ps: seq<Pixel>, width: int, p: nat)
    requires width >= 1
    requires p < |ps|
    ensures forall q :: 0 <= q < p ==> Step(ps, width, p)[q] == ps[q]
  {
    assert forall m :: 0 <= m < TargetCount ==> Target(width, p, m) >= p;
    StepFrame(ps, width, p);
  }

  /** For width >= 2, once the loop has passed pixel `q`, that pixel stays at
      the quantized value of what it held when it was visited. */
  lemma {:induction false} DitheredKeepsQuantized(ps: seq<Pixel>, width: int, n: nat, q: nat)
    requires width >= 2
    requires n <= |ps|
    requires q < n
    ensures Dithered(ps, width, n)[q] == QuantizePixel(Dithered(ps, width, q)[q])
  {
    if q == n - 1 {
      StepQuantizesCurrent(Dithered(ps, width, q), width, q);
    } else {
      DitheredKeepsQuantized(ps, width, n - 1, q);
      StepKeepsVisited(Dithered(ps, width, n - 1), width, n - 1);
    }
  }

  /** A byte that is 0 or 255. */
  predicate IsLevel(v: int)
  {
    v == 0 || v == 255
  }

  /** A pixel whose red, green and blue bytes are each 0 or 255. */
  predicate IsTwoLevel(px: Pixel)
  {
    IsLevel(px.r) && IsLevel(px.g) && IsLevel(px.b)
  }

  /** For width >= 2, after the loop has processed pixels 0 .. n-1 every red,
      green and blue byte of those pixels is 0 or 255. */
  lemma DitheredIsTwoLevel(ps: seq<Pixel>, width: int, n: nat)
    requires width >= 2
    requires n <= |ps|
    ensures forall q :: 0 <= q < n ==> IsTwoLevel(Dithered(ps, width, n)[q])
  {
    forall q | 0 <= q < n
      ensures IsTwoLevel(Dithered(ps, width, n)[q])
    {
      DitheredKeepsQuantized(ps, width, n, q);
    }
  }

  /** For width >= 3 the four targets are distinct pixels other than `p`, so
      each target inside the buffer receives exactly one round of stores: red
      and green become the clamped, rounded sum of their old value and `k/16`
      of the error, and blue that of the target's NEW green value and `k/16`
      of the blue error. */
  lemma StepNeighbour(ps: seq<Pixel>, width: int, p: nat, n: nat)
    requires width >= 3
    requires p < |ps|
    requires n < TargetCount
    requires Target(width, p, n) < |ps|
    ensures
      var t := Target(width, p, n);
      var px := ps[p];
      Step(ps, width, p)[t]
        == Received(ps[t], Share(n, QuantError(px.r)), Share(n, QuantError(px.g)), Share(n, QuantError(px.b)))
  {
    var t := Target(width, p, n);
    var px := ps[p];
    var eR, eG, eB := QuantError(px.r), QuantError(px.g), QuantError(px.b);
    var start := ps[p := QuantizePixel(px)];
    SpreadBetween(start, width, p, 0, n, t, eR, eG, eB);
    SpreadTarget(start, width, p, n, eR, eG, eB);
    SpreadBetween(start, width, p, n + 1, TargetCount, t, eR, eG, eB);
  }

  /** For width 1 the target (x-1, y+1) is pixel `p` itself, so the step
      leaves `p` NOT at its quantized value but at the quantized value after
      receiving 3/16 of its own errors (blue again fed from the new green). */
  lemma StepWidthOne(ps: seq<Pixel>, p: nat)
    requires p < |ps|
    ensures
      var px := ps[p];
      Step(ps, 1, p)[p] == Received(QuantizePixel(px), QuantError(px.r) * 3, QuantError(px.g) * 3, QuantError(px.b) * 3)
  {
    var px := ps[p];
    var eR, eG, eB := QuantError(px.r), QuantError(px.g), QuantError(px.b);
    var start := ps[p := QuantizePixel(px)];
    SpreadBetween(start, 1, p, 0, 1, p, eR, eG, eB);
    SpreadTarget(start, 1, p, 1, eR, eG, eB);
    SpreadBetween(start, 1, p, 2, TargetCount, p, eR, eG, eB);
  }

  /** For width 2 the targets (x+1, y) and (x-1, y+1) are both pixel `p+1`,
      which therefore receives two successive rounds of clamped stores: 7/16
      of the errors, then 3/16. */
  lemma StepWidthTwo(ps: seq<Pixel>, p: nat)
    requires p + 1 < |ps|
    ensures
      var px := ps[p];
      var eR, eG, eB := QuantError(px.r), QuantError(px.g), QuantError(px.b);
      Step(ps, 2, p)[p + 1] == Received(Received(ps[p + 1], eR * 7, eG * 7, eB * 7), eR * 3, eG * 3, eB * 3)
  {
    var px := ps[p];
    var eR, eG, eB := QuantError(px.r), QuantError(px.g), QuantError(px.b);
    var start := ps[p := QuantizePixel(px)];
    SpreadTarget(start, 2, p, 0, eR, eG, eB);
    SpreadTarget(start, 2, p, 1, eR, eG, eB);
    SpreadBetween(start, 2, p, 2, TargetCount, p + 1, eR, eG, eB);
  }

  /** Whatever the width, the blue byte of a target inside the buffer ends
      at the clamped sum of that target's FINAL green byte and the blue share
      of the last round that writes it: the blue store reads the green slot
      (src/pixlzr.tsx:156-157), so the target's own blue value is lost. */
  lemma StepBlueFromGreen(ps: seq<Pixel>, width: int, p: nat, n: nat)
    requires p < |ps|
    requires n < TargetCount
    requires 0 <= Target(width, p, n) < |ps|
    requires forall m :: n < m < TargetCount ==> Target(width, p, m) != Target(width, p, n)
    ensures
      var t := Target(width, p, n);
      var r := Step(ps, width, p);
      r[t].b == ToUint8Clamp(16 * r[t].g + Share(n, QuantError(ps[p].b)))
  {
    var t := Target(width, p, n);
    var px := ps[p];
    var eR, eG, eB := QuantError(px.r), QuantError(px.g), QuantError(px.b);
    var start := ps[p := QuantizePixel(px)];
    SpreadTarget(start, width, p, n, eR, eG, eB);
    SpreadBetween(start, width, p, n + 1, TargetCount, t, eR, eG, eB);
  }

  /** For width 1 every pixel of the pass ends not at its quantized value but
      at that value after receiving 3/16 of its own errors, and no later
      visit changes it again. */
  lemma {:induction false} DitheredWidthOne(ps: seq<Pixel>, n: nat, q: nat)
    requires n <= |ps|
    requires q < n
    ensures
      var px := Dithered(ps, 1, q)[q];
      Dithered(ps, 1, n)[q]
        == Received(QuantizePixel(px), QuantError(px.r) * 3, QuantError(px.g) * 3, QuantError(px.b) * 3)
  {
    if q == n - 1 {
      StepWidthOne(Dithered(ps, 1, q), q);
    } else {
      DitheredWidthOne(ps, n - 1, q);
      StepKeepsVisited(Dithered(ps, 1, n - 1), 1, n - 1);
    }
  }
}
