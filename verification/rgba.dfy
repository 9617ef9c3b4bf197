/** The frame buffer: `ImageData.data`, a flat row-major byte array holding
    four bytes (red, green, blue, alpha) per pixel.  The model views it as a
    sequence of pixels; `Flatten` and `Unflatten` convert between the two
    views and are inverse to each other. */
module Rgba {
  import opened Uint8Clamped

  /** One pixel: four consecutive bytes of the buffer. */
  datatype Pixel = Pixel(r: byte, g: byte, b: byte, a: byte)

  /** Channel `c` (0 red, 1 green, 2 blue, 3 alpha) of a pixel, i.e. the byte
      at offset `c` from the pixel's index. */
  function Channel(px: Pixel, c: int): byte
    requires 0 <= c < 4
  {
    if c == 0 then px.r else if c == 1 then px.g else if c == 2 then px.b else px.a
  }

  /** The flat byte layout of a sequence of pixels. */
  function Flatten(ps: seq<Pixel>): (bytes: seq<byte>)
    ensures |bytes| == 4 * |ps|
  {
    if ps == [] then []
    else [ps[0].r, ps[0].g, ps[0].b, ps[0].a] + Flatten(ps[1..])
  }

  /** The pixels of a flat byte buffer whose length is a multiple of four. */
  function Unflatten(bytes: seq<byte>): (ps: seq<Pixel>)
    requires |bytes| % 4 == 0
    ensures 4 * |ps| == |bytes|
  {
    if bytes == [] then []
    else [Pixel(bytes[0], bytes[1], bytes[2], bytes[3])] + Unflatten(bytes[4..])
  }

  /** Byte `4q + c` of the flat buffer is channel `c` of pixel `q`: the
      source's addressing `(x + y * width) * 4 + c`. */
  lemma {:induction false} FlattenAt(ps: seq<Pixel>, q: int, c: int)
    requires 0 <= q < |ps| && 0 <= c < 4
    ensures Flatten(ps)[4 * q + c] == Channel(ps[q], c)
  {
    if q > 0 {
      FlattenAt(ps[1..], q - 1, c);
    }
  }

  /** Viewing a buffer as pixels and laying the pixels out again gives back
      the buffer. */
  lemma {:induction false} FlattenUnflatten(bytes: seq<byte>)
    requires |bytes| % 4 == 0
    ensures Flatten(Unflatten(bytes)) == bytes
    decreases |bytes|
  {
    if bytes != [] {
      FlattenUnflatten(bytes[4..]);
      var ps := Unflatten(bytes);
      assert ps[1..] == Unflatten(bytes[4..]);
    }
  }

  /** Laying out pixels and reading them back gives the same pixels. */
  lemma {:induction false} UnflattenFlatten(ps: seq<Pixel>)
    ensures Unflatten(Flatten(ps)) == ps
  {
    if ps != [] {
      UnflattenFlatten(ps[1..]);
      var bytes := Flatten(ps);
      assert bytes[4..] == Flatten(ps[1..]);
    }
  }
}
