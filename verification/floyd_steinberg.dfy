/** The raster loop of src/pixlzr.tsx:120-190 as imperative methods on the
    flat RGBA byte buffer: two nested loops over rows and columns whose body,
    `VisitPixel`, makes the source's twelve byte stores at the source's own
    addresses.  The loops are shown to lay out the functional pass
    `Dithered`, from which they inherit the pass's properties. */
module FloydSteinberg {
  import opened Uint8Clamped
  import opened Quantization
  import opened Rgba
  import opened Dither
  import opened DitherProperties
  import opened ByteStores

  /** Pixel (x, y) of a width x height frame is pixel `x + y * width`, which
      lies inside the frame. */
  lemma PixelInFrame(x: nat, y: nat, width: nat, height: nat)
    requires x < width && y < height
    ensures 0 <= y * width
    ensures x + y * width < width * height
  {
    NextRow(y, width);
    MulMonotone(y + 1, height, width);
  }

  /** The order of the factors of a product does not matter. */
  lemma MulCommutes(width: nat, height: nat)
    ensures height * width == width * height
  {
  }

  /** Multiplying by a natural number keeps the order. */
  lemma {:induction false} MulMonotone(a: nat, b: nat, c: nat)
    requires a <= b
    ensures a * c <= b * c
  {
    if a < b {
      MulMonotone(a, b - 1, c);
      assert b * c == (b - 1) * c + c;
    }
  }

  /** Row `y + 1` starts `width` pixels after row `y`. */
  lemma NextRow(y: nat, width: nat)
    ensures (y + 1) * width == y * width + width
  {
  }

  /** FloydSteinbergDithering on the flat RGBA byte buffer of a width x height
      frame: the source's nested loops, the byte-addressed body `VisitBytes`
      run once per pixel.  The
      result is the pass over the buffer's pixels, written back as bytes.
      Every fourth (alpha) byte is kept, and for frames at least two pixels
      wide every other byte ends at 0 or 255. */
  method FloydSteinbergDithering(data: seq<byte>, width: nat, height: nat) returns (out: seq<byte>)
    requires |data| == 4 * (width * height)
    ensures out == Flatten(Dithered(Unflatten(data), width, width * height))
    ensures |out| == |data|
    ensures forall i :: 0 <= i < |data| && i % 4 == 3 ==> out[i] == data[i]
    ensures width >= 2 ==> forall i :: 0 <= i < |data| && i % 4 != 3 ==> IsLevel(out[i])
  {
    ghost var ps := Unflatten(data);
    FlattenUnflatten(data);
    out := data;
    ghost var start := 0;
    var y := 0;
    while y < height
      invariant 0 <= y <= height
      invariant start == y * width <= |ps|
      invariant out == Flatten(Dithered(ps, width, start))
    {
      PixelRows(y, width, height);
      out := DitherRowBytes(out, ps, width, y, start, start + width);
      start := start + width;
      y := y + 1;
    }
    MulCommutes(width, height);
    DitheredBytes(ps, width);
  }

  /** The inner loop of the byte-level pass: row `y`, whose first pixel is
      `start`, pixel by pixel with the loop body `VisitPixel`.  It
      carries the laid-out pass from the start of the row to the start of
      the next. */
  method DitherRowBytes(d: seq<byte>, ghost ps: seq<Pixel>, width: nat, y: nat, ghost start: nat, ghost next: nat)
    returns (out: seq<byte>)
    requires start == y * width && next == start + width
    requires next <= |ps|
    requires d == Flatten(Dithered(ps, width, start))
    ensures out == Flatten(Dithered(ps, width, next))
  {
    out := d;
    ghost var n := start;
    var x := 0;
    while x < width
      invariant 0 <= x <= width
      invariant n == start + x
      invariant out == Flatten(Dithered(ps, width, n))
    {
      out := VisitPixel(out, ps, width, x, y, n);
      n := n + 1;
      x := x + 1;
    }
    SamePass(ps, width, n, next);
  }

  /** The laid-out pass is determined by how many pixels it has visited. */
  lemma SamePass(ps: seq<Pixel>, width: nat, n: nat, m: nat)
    requires n == m <= |ps|
    ensures Flatten(Dithered(ps, width, n)) == Flatten(Dithered(ps, width, m))
  {
  }

  /** One iteration of the inner loop, at pixel (x, y): the source's
      twelve byte stores `VisitBytes`, at the source's addresses.  When the
      pass has reached the pixel `n = x + y * width`, they advance it by
      that pixel. */
  method VisitPixel(d: seq<byte>, ghost ps: seq<Pixel>, width: nat, x: nat, y: nat, ghost n: nat) returns (r: seq<byte>)
    requires x < width && n == x + y * width && n < |ps|
    requires d == Flatten(Dithered(ps, width, n))
    ensures r == Flatten(Dithered(ps, width, n + 1))
  {
    VisitBytesAdvances(ps, width, x, y, n);
    r := VisitBytes(d, width, x, y);
  }

  /** Row `y` of a frame `height` rows high ends at or before the end of the
      frame, and the next row starts `width` pixels later. */
  lemma PixelRows(y: nat, width: nat, height: nat)
    requires y < height
    ensures 0 <= y * width
    ensures (y + 1) * width == y * width + width
    ensures (y + 1) * width <= width * height
  {
    NextRow(y, width);
    MulMonotone(y + 1, height, width);
  }

  /** The byte-addressed body at (x, y) advances the laid-out pass by one
      pixel when the pass has reached pixel `n`, the pixel `x + y * width`. */
  lemma VisitBytesAdvances(ps: seq<Pixel>, width: nat, x: nat, y: nat, n: nat)
    requires x < width
    requires n == x + y * width
    requires n < |ps|
    ensures 0 <= Index(width, x, y) && Index(width, x, y) + 2 < |Flatten(Dithered(ps, width, n))|
    ensures VisitBytes(Flatten(Dithered(ps, width, n)), width, x, y) == Flatten(Dithered(ps, width, n + 1))
  {
    VisitBytesIsStep(Dithered(ps, width, n), width, x, y, n);
  }

  /** The pass over a frame's pixels, laid out as bytes, keeps every fourth
      (alpha) byte of the frame's layout, and for frames at least two pixels
      wide leaves every other byte at 0 or 255. */
  lemma DitheredBytes(ps: seq<Pixel>, width: nat)
    ensures
      var before := Flatten(ps);
      var after := Flatten(Dithered(ps, width, |ps|));
      |after| == |before| &&
      (forall i :: 0 <= i < |before| && i % 4 == 3 ==> after[i] == before[i]) &&
      (width >= 2 ==> forall i :: 0 <= i < |before| && i % 4 != 3 ==> IsLevel(after[i]))
  {
    var pixels := Dithered(ps, width, |ps|);
    var before, after := Flatten(ps), Flatten(pixels);
    DitheredKeepsAlpha(ps, width, |ps|);
    if width >= 2 {
      DitheredIsTwoLevel(ps, width, |ps|);
    }
    forall i | 0 <= i < |before|
      ensures i % 4 == 3 ==> after[i] == before[i]
      ensures width >= 2 && i % 4 != 3 ==> IsLevel(after[i])
    {
      var q, c := i / 4, i % 4;
      assert i == 4 * q + c;
      FlattenAt(pixels, q, c);
      FlattenAt(ps, q, c);
    }
  }
}
