/** Two small frames worked through the model, showing the quirks of
    src/pixlzr.tsx:149-187 on concrete bytes. */
module DitherExamples {
  import opened Uint8Clamped
  import opened Quantization
  import opened Rgba
  import opened Dither
  import opened DitherProperties

  /** A frame one pixel wide: the pixel is its own (x-1, y+1) target, so the
      pass leaves red 100 not at 0 but at 3/16 of the error, rounded:
      100 * 3 / 16 = 18.75, stored as 19. */
  lemma WidthOneLeavesGrey(alpha: byte)
    ensures Dithered([Pixel(100, 0, 0, alpha)], 1, 1) == [Pixel(19, 0, 0, alpha)]
  {
    var ps := [Pixel(100, 0, 0, alpha)];
    assert QuantError(100) == 100;
    assert ToUint8Clamp(300) == 19;
    StepWidthOne(ps, 0);
  }

  /** A 4 x 2 frame of mid grey 128 (any alpha).  Pixel 0 becomes white and
      carries the error -127.  Its right neighbour, pixel 1, receives 7/16 of
      it: red and green 2048 - 889 sixteenths, 72.4375, stored as 72; blue is
      computed from that new green, 1152 - 889 sixteenths, stored as 16.  The
      (x-1, y+1) target of pixel (0, 0) is pixel 3, the END of the first row,
      which receives 3/16 of the error. */
  lemma GreyFirstStep(alpha: byte)
    ensures
      var ps := seq(8, _ => Pixel(128, 128, 128, alpha));
      var r := Step(ps, 4, 0);
      r[0] == Pixel(255, 255, 255, alpha) &&
      r[1] == Pixel(72, 72, 16, alpha) &&
      r[3] == Pixel(104, 104, 80, alpha) &&
      r[2] == ps[2] && r[6] == ps[6]
  {
    var ps := seq(8, _ => Pixel(128, 128, 128, alpha));
    assert Quantize(128) == 255;
    assert QuantError(128) == -127;
    StepQuantizesCurrent(ps, 4, 0);
    StepNeighbour(ps, 4, 0, 0);
    StepNeighbour(ps, 4, 0, 1);
    assert ToUint8Clamp(2048 - 889) == 72;
    assert ToUint8Clamp(1152 - 889) == 16;
    assert ToUint8Clamp(2048 - 381) == 104;
    assert ToUint8Clamp(1664 - 381) == 80;
    StepFrame(ps, 4, 0);
    assert !IsTarget(4, 0, 2) && !IsTarget(4, 0, 6);
  }
}
