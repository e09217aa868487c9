/** Pixels as the encodings write them, and the client's primitive framebuffer operations. */
module Pixels {
  import opened Bytes
  import opened Rectangles
  import opened CopyRects

  /** Bytes per pixel: 8, 16 or 32 bits. */
  type Depth = n: nat | n == 1 || n == 2 || n == 4 witness 1

  function PixelLimit(d: Depth): nat {
    if d == 1 then 0x100 else if d == 2 then 0x1_0000 else 0x1_0000_0000
  }

  predicate IsPixel(v: int, d: Depth) {
    0 <= v < PixelLimit(d)
  }

  /** A pixel in memory order, which is the order both ends store it in. */
  function PixelBytes(v: nat, d: Depth): (b: Bytestring)
    requires IsPixel(v, d)
    ensures |b| == d
  {
    if d == 1 then [v]
    else if d == 2 then [v % 256, v / 256]
    else [v % 256, v / 256 % 256, v / 65536 % 256, v / 16777216]
  }

  function ReadPixel(s: Bytestring, i: nat, d: Depth): (v: nat)
    requires i + d <= |s|
    ensures IsPixel(v, d)
  {
    if d == 1 then s[i]
    else if d == 2 then s[i] as int + s[i + 1] as int * 256
    else s[i] as int + s[i + 1] as int * 256 + s[i + 2] as int * 65536 + s[i + 3] as int * 16777216
  }

  lemma ReadWritten(s: Bytestring, i: nat, v: nat, d: Depth)
    requires IsPixel(v, d) && At(s, i, PixelBytes(v, d))
    ensures i + d <= |s| && ReadPixel(s, i, d) == v
  {
    var b := PixelBytes(v, d);
    AtIndex(s, i, b, 0);
    AtIndex(s, i, b, |b| - 1);
    if d == 4 {
      AtIndex(s, i, b, 1);
      AtIndex(s, i, b, 2);
    }
  }

  // ---------------------------------------------------------------- filling

  /** `now` is `was` with the rectangle filled with one colour. */
  ghost predicate ShowsFill(now: Picture, was: Picture, r: Rect, colour: int) {
    forall p :: now(p) == if InRect(p, r) then colour else was(p)
  }

  /** `FillRectangle` */
  method FillRectangle(fb: Frame, x: int, y: int, w: nat, h: nat, colour: int)
    requires RectOnScreen(fb, Rect(x, y, x + w, y + h))
    modifies fb
    ensures ShowsFill(Shown(fb), old(Shown(fb)), Rect(x, y, x + w, y + h), colour)
  {
    for j := y to y + h
      invariant forall v, u :: 0 <= v < fb.Length0 && 0 <= u < fb.Length1 ==>
                  fb[v, u] == if y <= v < j && x <= u < x + w then colour else old(fb[v, u])
    {
      for i := x to x + w
        invariant forall v, u :: 0 <= v < fb.Length0 && 0 <= u < fb.Length1 ==>
                    fb[v, u] == if (y <= v < j && x <= u < x + w) || (v == j && x <= u < i) then colour else old(fb[v, u])
      {
        fb[j, i] := colour;
      }
    }
  }
}
