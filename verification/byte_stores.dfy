/** The filter's stores as the source writes them, on the flat byte buffer
    (src/pixlzr.tsx:125-187): every address is `index(x, y) + c`, and every
    store into a Uint8ClampedArray clamps and rounds its value and is dropped
    when the address is past the end.  The lemmas connect these byte stores
    with the pixel view of module Dither. */
module ByteStores {
  import opened Uint8Clamped
  import opened Quantization
  import opened Rgba
  import opened Dither

  /** The source's `index(x, y)`: the address of the red byte of pixel
      (x, y) in a frame `width` pixels wide. */
  function Index(width: int, x: int, y: int): int
  {
    (x + y * width) * 4
  }

  /** The store `data[j] = data[src] + share / 16` into a Uint8ClampedArray:
      the value is clamped and rounded by ToUint8Clamp, and a store past
      either end of the buffer is ignored.  A read past the end gives
      `undefined`, the sum is then NaN, and ToUint8Clamp stores NaN as 0. */
  function Store(d: seq<byte>, j: int, src: int, share: int): (r: seq<byte>)
    ensures |r| == |d|
  {
    if 0 <= j < |d| then d[j := if 0 <= src < |d| then ToUint8Clamp(16 * d[src] + share) else 0]
    else d
  }

  /** The three stores into diffusion target `j` (the address of its red
      byte), in source order; the blue store reads the green byte at
      `j + 1`. */
  function StoreTarget(d: seq<byte>, j: int, shareR: int, shareG: int, shareB: int): (r: seq<byte>)
    ensures |r| == |d|
  {
    var d1 := Store(d, j, j, shareR);
    var d2 := Store(d1, j + 1, j + 1, shareG);
    Store(d2, j + 2, j + 1, shareB)
  }

  /** Replacing pixel `q` is replacing bytes `4q .. 4q+3` of the layout. */
  lemma FlattenUpdate(ps: seq<Pixel>, q: int, v: Pixel)
    requires 0 <= q < |ps|
    ensures Flatten(ps[q := v])
              == Flatten(ps)[4 * q := v.r][4 * q + 1 := v.g][4 * q + 2 := v.b][4 * q + 3 := v.a]
  {
    var lhs := Flatten(ps[q := v]);
    var rhs := Flatten(ps)[4 * q := v.r][4 * q + 1 := v.g][4 * q + 2 := v.b][4 * q + 3 := v.a];
    forall i | 0 <= i < |lhs|
      ensures lhs[i] == rhs[i]
    {
      var k, c := i / 4, i % 4;
      assert i == 4 * k + c;
      FlattenAt(ps[q := v], k, c);
      FlattenAt(ps, k, c);
    }
  }

  /** The source's three byte stores into target pixel `t` lay out exactly
      the pixel-level diffusion `Diffuse`, inside the buffer and past its
      end alike. */
  lemma StoreTargetIsDiffuse(ps: seq<Pixel>, t: int, shareR: int, shareG: int, shareB: int)
    ensures StoreTarget(Flatten(ps), 4 * t, shareR, shareG, shareB) == Flatten(Diffuse(ps, t, shareR, shareG, shareB))
  {
    if 0 <= t < |ps| {
      StoreTargetInside(ps, t, shareR, shareG, shareB);
    } else {
      assert StoreTarget(Flatten(ps), 4 * t, shareR, shareG, shareB) == Flatten(ps);
    }
  }

  /** The three stores into a target inside the buffer write the bytes of
      `Received`. */
  lemma StoreTargetInside(ps: seq<Pixel>, t: int, shareR: int, shareG: int, shareB: int)
    requires 0 <= t < |ps|
    ensures StoreTarget(Flatten(ps), 4 * t, shareR, shareG, shareB) == Flatten(ps[t := Received(ps[t], shareR, shareG, shareB)])
  {
    var d := Flatten(ps);
    var j := 4 * t;
    FlattenAt(ps, t, 0);
    FlattenAt(ps, t, 1);
    FlattenAt(ps, t, 3);
    var v := Received(ps[t], shareR, shareG, shareB);
    var e1: seq<byte> := d[j := v.r];
    var e2: seq<byte> := e1[j + 1 := v.g];
    var e3: seq<byte> := e2[j + 2 := v.b];
    var d1 := Store(d, j, j, shareR);
    assert d1 == e1;
    var d2 := Store(d1, j + 1, j + 1, shareG);
    assert d2 == e2;
    var d3 := Store(d2, j + 2, j + 1, shareB);
    assert d3 == e3;
    FlattenUpdate(ps, t, v);
    assert e3[j + 3 := v.a] == e3;
  }

  /** Target `n` of the step at pixel `p`, written as the source's three
      byte stores at address `j`, lays out the next round of `Spread`. */
  lemma TargetRound(s0: seq<Pixel>, width: int, p: int, n: nat, j: int, errR: int, errG: int, errB: int)
    requires n < TargetCount
    requires j == 4 * Target(width, p, n)
    ensures StoreTarget(Flatten(Spread(s0, width, p, n, errR, errG, errB)), j, Share(n, errR), Share(n, errG), Share(n, errB))
              == Flatten(Spread(s0, width, p, n + 1, errR, errG, errB))
  {
    StoreTargetIsDiffuse(Spread(s0, width, p, n, errR, errG, errB), Target(width, p, n), Share(n, errR), Share(n, errG), Share(n, errB));
  }

  /** The colour stores at the current pixel: red, green and blue of the
      pixel at address `i` are replaced by their quantized values. */
  function QuantizeBytes(d: seq<byte>, i: int): (r: seq<byte>)
    requires 0 <= i && i + 2 < |d|
    ensures |r| == |d|
  {
    d[i := Quantize(d[i])][i + 1 := Quantize(d[i + 1])][i + 2 := Quantize(d[i + 2])]
  }

  /** Quantizing the colour bytes at address `4p` lays out the pixel view
      with pixel `p` quantized. */
  lemma QuantizeBytesIsQuantizePixel(ps: seq<Pixel>, p: nat)
    requires p < |ps|
    ensures QuantizeBytes(Flatten(ps), 4 * p) == Flatten(ps[p := QuantizePixel(ps[p])])
  {
    var d := Flatten(ps);
    FlattenAt(ps, p, 0);
    FlattenAt(ps, p, 1);
    FlattenAt(ps, p, 2);
    FlattenAt(ps, p, 3);
    FlattenUpdate(ps, p, QuantizePixel(ps[p]));
    assert QuantizeBytes(d, 4 * p)[4 * p + 3 := ps[p].a] == QuantizeBytes(d, 4 * p);
  }

  /** The twelve diffusion stores of one iteration, in source order: 7, 3,
      5 and 1 sixteenths of the three errors into the targets whose red
      bytes are at `j0`, `j1`, `j2` and `j3`. */
  function Rounds(d: seq<byte>, j0: int, j1: int, j2: int, j3: int, errR: int, errG: int, errB: int): (r: seq<byte>)
    ensures |r| == |d|
  {
    var d1 := StoreTarget(d, j0, errR * 7, errG * 7, errB * 7);
    var d2 := StoreTarget(d1, j1, errR * 3, errG * 3, errB * 3);
    var d3 := StoreTarget(d2, j2, errR * 5, errG * 5, errB * 5);
    StoreTarget(d3, j3, errR * 1, errG * 1, errB * 1)
  }

  /** One iteration of the source's inner loop on the byte buffer, at pixel
      (x, y): read the colour bytes at `index(x, y)`, store their quantized
      values, then store the shares of the three errors into (x+1, y),
      (x-1, y+1), (x, y+1) and (x+1, y+1), each at its `index(..)`. */
  function VisitBytes(d: seq<byte>, width: nat, x: nat, y: nat): (r: seq<byte>)
    requires 0 <= Index(width, x, y) && Index(width, x, y) + 2 < |d|
    ensures |r| == |d|
  {
    var i := Index(width, x, y);
    Rounds(QuantizeBytes(d, i),
           Index(width, x + 1, y), Index(width, x - 1, y + 1), Index(width, x, y + 1), Index(width, x + 1, y + 1),
           QuantError(d[i]), QuantError(d[i + 1]), QuantError(d[i + 2]))
  }

  /** The source's addresses of pixel (x, y), the pixel `p = x + y * width`,
      and of its four targets are four times their linear pixel numbers. */
  lemma IndexTargets(width: nat, x: nat, y: nat, p: int)
    requires p == x + y * width
    ensures Index(width, x, y) == 4 * p
    ensures Index(width, x + 1, y) == 4 * Target(width, p, 0)
    ensures Index(width, x - 1, y + 1) == 4 * Target(width, p, 1)
    ensures Index(width, x, y + 1) == 4 * Target(width, p, 2)
    ensures Index(width, x + 1, y + 1) == 4 * Target(width, p, 3)
  {
    assert (y + 1) * width == y * width + width;
  }

  /** The four rounds of target stores, at the addresses of the four
      targets, lay out the four rounds of `Spread`. */
  lemma StoreRoundsAreSpread(s0: seq<Pixel>, width: int, p: int, j0: int, j1: int, j2: int, j3: int,
                             eR: int, eG: int, eB: int)
    requires j0 == 4 * Target(width, p, 0) && j1 == 4 * Target(width, p, 1)
    requires j2 == 4 * Target(width, p, 2) && j3 == 4 * Target(width, p, 3)
    ensures Rounds(Flatten(s0), j0, j1, j2, j3, eR, eG, eB) == Flatten(Spread(s0, width, p, TargetCount, eR, eG, eB))
  {
    TargetRound(s0, width, p, 0, j0, eR, eG, eB);
    var d1 := StoreTarget(Flatten(s0), j0, eR * 7, eG * 7, eB * 7);
    assert d1 == Flatten(Spread(s0, width, p, 1, eR, eG, eB));
    TargetRound(s0, width, p, 1, j1, eR, eG, eB);
    var d2 := StoreTarget(d1, j1, eR * 3, eG * 3, eB * 3);
    assert d2 == Flatten(Spread(s0, width, p, 2, eR, eG, eB));
    TargetRound(s0, width, p, 2, j2, eR, eG, eB);
    var d3 := StoreTarget(d2, j2, eR * 5, eG * 5, eB * 5);
    assert d3 == Flatten(Spread(s0, width, p, 3, eR, eG, eB));
    TargetRound(s0, width, p, 3, j3, eR, eG, eB);
  }

  /** Quantizing the colour bytes at address `4p` and then making the four
      rounds of target stores, at the addresses of the targets of `p`, lays
      out the step at pixel `p`. */
  lemma StepBytes(ps: seq<Pixel>, width: int, p: nat, j0: int, j1: int, j2: int, j3: int)
    requires p < |ps|
    requires j0 == 4 * Target(width, p, 0) && j1 == 4 * Target(width, p, 1)
    requires j2 == 4 * Target(width, p, 2) && j3 == 4 * Target(width, p, 3)
    ensures 4 * p + 2 < |Flatten(ps)|
    ensures
      var d := Flatten(ps);
      Rounds(QuantizeBytes(d, 4 * p), j0, j1, j2, j3, QuantError(d[4 * p]), QuantError(d[4 * p + 1]), QuantError(d[4 * p + 2]))
        == Flatten(Step(ps, width, p))
  {
    var px := ps[p];
    FlattenAt(ps, p, 0);
    FlattenAt(ps, p, 1);
    FlattenAt(ps, p, 2);
    QuantizeBytesIsQuantizePixel(ps, p);
    StoreRoundsAreSpread(ps[p := QuantizePixel(px)], width, p, j0, j1, j2, j3,
                         QuantError(px.r), QuantError(px.g), QuantError(px.b));
  }

  /** `VisitBytes` at (x, y) is the step at pixel `p` when the source's
      addresses of (x, y) and of its targets are those of `p` and its
      targets. */
  lemma VisitBytesAt(ps: seq<Pixel>, width: nat, x: nat, y: nat, p: nat)
    requires p < |ps|
    requires Index(width, x, y) == 4 * p
    requires Index(width, x + 1, y) == 4 * Target(width, p, 0)
    requires Index(width, x - 1, y + 1) == 4 * Target(width, p, 1)
    requires Index(width, x, y + 1) == 4 * Target(width, p, 2)
    requires Index(width, x + 1, y + 1) == 4 * Target(width, p, 3)
    ensures Index(width, x, y) + 2 < |Flatten(ps)|
    ensures VisitBytes(Flatten(ps), width, x, y) == Flatten(Step(ps, width, p))
  {
    StepBytes(ps, width, p, Index(width, x + 1, y), Index(width, x - 1, y + 1),
              Index(width, x, y + 1), Index(width, x + 1, y + 1));
  }

  /** The source's byte-addressed loop body computes the pixel-level step:
      on the layout of any pixel sequence, `VisitBytes` at (x, y) is the
      layout of `Step` at pixel `p`, the pixel `x + y * width`. */
  lemma VisitBytesIsStep(ps: seq<Pixel>, width: nat, x: nat, y: nat, p: nat)
    requires x < width
    requires p == x + y * width
    requires p < |ps|
    ensures 0 <= Index(width, x, y) && Index(width, x, y) + 2 < |Flatten(ps)|
    ensures VisitBytes(Flatten(ps), width, x, y) == Flatten(Step(ps, width, p))
  {
    IndexTargets(width, x, y, p);
    VisitBytesAt(ps, width, x, y, p);
  }
}
