/**
 * ZRLE tiles (section 7.7.6 of RFC 6143) as bytes: raw, solid, packed palette, plain run lengths
 * and palette run lengths. A tile is its pixels in reading order.
 */
module ZrleFormat {
  import opened Bytes
  import opened Pixels

  // ---------------------------------------------------------------- pixels

  predicate AllPixels(data: seq<nat>, d: Depth) {
    forall v :: v in data ==> IsPixel(v, d)
  }

  function PixelsBytes(data: seq<nat>, d: Depth): (b: Bytestring)
    requires AllPixels(data, d)
    ensures |b| == |data| * d
  {
    if data == [] then []
    else
      assert |data| * d == (|data| - 1) * d + d;
      PixelsBytes(data[..|data| - 1], d) + PixelBytes(data[|data| - 1], d)
  }

  lemma {:induction false} PixelOfBytes(s: Bytestring, i: nat, data: seq<nat>, d: Depth, k: nat)
    requires AllPixels(data, d) && At(s, i, PixelsBytes(data, d)) && k < |data|
    ensures i + k * d + d <= |s| && ReadPixel(s, i + k * d, d) == data[k]
  {
    hide PixelBytes;
    hide ReadPixel;
    var n := |data| - 1;
    AtConcat(s, i, PixelsBytes(data[..n], d), PixelBytes(data[n], d));
    if k < n {
      PixelOfBytes(s, i, data[..n], d, k);
    } else {
      ReadWritten(s, i + n * d, data[n], d);
    }
  }

  // ---------------------------------------------------------------- run lengths

  /** A length less one, in bytes of at most 255 that end with a smaller one. */
  function LenBytes(n: nat): (b: Bytestring)
    ensures |b| == n / 255 + 1
  {
    if n >= 255 then [255] + LenBytes(n - 255) else [n]
  }

  /** How often the first pixel repeats. */
  function RunLength(data: seq<nat>): (n: nat)
    requires data != []
    ensures 1 <= n <= |data| && forall k :: 0 <= k < n ==> data[k] == data[0]
    ensures n == |data| || data[n] != data[0]
  {
    if |data| == 1 || data[1] != data[0] then 1
    else
      var n := RunLength(data[1..]);
      assert forall k :: 1 <= k < n + 1 ==> data[k] == data[1..][k - 1];
      n + 1
  }

  function IndexOf(pal: seq<nat>, v: nat): (k: nat)
    requires v in pal
    ensures k < |pal| && pal[k] == v
  {
    if pal[0] == v then 0 else IndexOf(pal[1..], v) + 1
  }

  /** Without a palette any pixel can be written, with one only its colours. */
  predicate Codable(data: seq<nat>, pal: seq<nat>, d: Depth) {
    AllPixels(data, d) && AllPixels(pal, d) && |pal| <= 127 && (pal != [] ==> forall v :: v in data ==> v in pal)
  }

  /** How many pixels the next code stands for: two equal pixels are cheaper one by one when there is a palette. */
  function Step(data: seq<nat>, pal: seq<nat>): (n: nat)
    requires data != []
    ensures 1 <= n <= |data| && forall k :: 0 <= k < n ==> data[k] == data[0]
  {
    var n := RunLength(data);
    if pal != [] && n <= 2 then 1 else n
  }

  function StepBytes(data: seq<nat>, pal: seq<nat>, d: Depth): Bytestring
    requires data != [] && Codable(data, pal, d)
  {
    var n := Step(data, pal);
    if pal == [] then PixelBytes(data[0], d) + LenBytes(n - 1)
    else if n == 1 then [IndexOf(pal, data[0])]
    else [IndexOf(pal, data[0]) + 128] + LenBytes(n - 1)
  }

  function RunsBytes(data: seq<nat>, pal: seq<nat>, d: Depth): Bytestring
    requires Codable(data, pal, d)
  {
    if data == [] then [] else StepBytes(data, pal, d) + RunsBytes(data[Step(data, pal)..], pal, d)
  }

  // ---------------------------------------------------------------- packed pixels

  /** `bitsPerPackedPixel` */
  function BitsPerPackedPixel(size: nat): (b: nat)
    requires 0 < size <= 16
    ensures b == 0 || b == 1 || b == 2 || b == 4
  {
    if size == 1 then 0 else if size == 2 then 1 else if size <= 4 then 2 else 4
  }

  type Bits = b: nat | b == 1 || b == 2 || b == 4 witness 1

  function Pow2(n: nat): (p: nat)
    requires n <= 8
    ensures p > 0
  {
    if n == 0 then 1 else if n == 1 then 2 else if n == 2 then 4 else if n == 3 then 8 else if n == 4 then 16
    else if n == 5 then 32 else if n == 6 then 64 else if n == 7 then 128 else 256
  }

  predicate AllBelow(idx: seq<nat>, b: Bits) {
    forall k :: 0 <= k < |idx| ==> idx[k] < Pow2(b)
  }

  /** Indices in a row, the first in the highest place. */
  function Value(idx: seq<nat>, b: Bits): (v: nat)
    requires AllBelow(idx, b) && b * |idx| <= 8
    ensures v < Pow2(b * |idx|)
  {
    if idx == [] then 0
    else
      PowSplits(b, |idx|);
      Value(idx[..|idx| - 1], b) * Pow2(b) + idx[|idx| - 1]
  }

  lemma PowSplits(b: Bits, n: nat)
    requires 0 < n && b * n <= 8
    ensures b * (n - 1) <= 8 && Pow2(b * n) == Pow2(b * (n - 1)) * Pow2(b)
  {
  }

  /** The last byte of a row is filled up with zeros. */
  function PackedByte(idx: seq<nat>, b: Bits): byte
    requires AllBelow(idx, b) && b * |idx| <= 8
  {
    PowComplement(b, |idx|, Value(idx, b));
    Value(idx, b) * Pow2(8 - b * |idx|)
  }

  lemma PowComplement(b: Bits, n: nat, v: nat)
    requires b * n <= 8 && v < Pow2(b * n)
    ensures v * Pow2(8 - b * n) < 256
  {
  }

  function PerByte(b: Bits): nat {
    8 / b
  }

  function RowSize(w: nat, b: Bits): nat {
    (w + PerByte(b) - 1) / PerByte(b)
  }

  /** A row of pixels starts at a byte of its own. */
  function Packed(idx: seq<nat>, b: Bits): (bytes: Bytestring)
    requires AllBelow(idx, b)
    ensures |bytes| == RowSize(|idx|, b)
  {
    if idx == [] then []
    else if |idx| <= PerByte(b) then [PackedByte(idx, b)]
    else [PackedByte(idx[..PerByte(b)], b)] + Packed(idx[PerByte(b)..], b)
  }

  function Indices(data: seq<nat>, pal: seq<nat>): (idx: seq<nat>)
    requires forall v :: v in data ==> v in pal
    ensures |idx| == |data|
  {
    seq(|data|, k requires 0 <= k < |data| => IndexOf(pal, data[k]))
  }

  function BitsFor(pal: seq<nat>): Bits
    requires 2 <= |pal| <= 16
  {
    BitsPerPackedPixel(|pal|)
  }

  lemma IndicesFit(data: seq<nat>, pal: seq<nat>)
    requires 2 <= |pal| <= 16 && forall v :: v in data ==> v in pal
    ensures AllBelow(Indices(data, pal), BitsFor(pal))
  {
  }

  lemma OneRowLess(h: nat, n: nat)
    requires h > 0
    ensures h * n == (h - 1) * n + n && n <= h * n
  {
  }

  function RowsBytes(data: seq<nat>, w: nat, h: nat, pal: seq<nat>): (b: Bytestring)
    requires |data| == h * w && 2 <= |pal| <= 16 && forall v :: v in data ==> v in pal
    ensures |b| == h * RowSize(w, BitsFor(pal))
    decreases h
  {
    if h == 0 then []
    else
      OneRowLess(h, w);
      OneRowLess(h, RowSize(w, BitsFor(pal)));
      IndicesFit(data[..w], pal);
      Packed(Indices(data[..w], pal), BitsFor(pal)) + RowsBytes(data[w..], w, h - 1, pal)
  }

  lemma NextRow(data: seq<nat>, w: nat, h: nat, pal: seq<nat>)
    requires |data| == h * w && h > 0 && 2 <= |pal| <= 16 && forall v :: v in data ==> v in pal
    ensures w <= |data| && |data[w..]| == (h - 1) * w && AllBelow(Indices(data[..w], pal), BitsFor(pal))
    ensures RowsBytes(data, w, h, pal) == Packed(Indices(data[..w], pal), BitsFor(pal)) + RowsBytes(data[w..], w, h - 1, pal)
  {
    OneRowLess(h, w);
    IndicesFit(data[..w], pal);
  }

  lemma NoPackedRows(w: nat, pal: seq<nat>)
    requires 2 <= |pal| <= 16
    ensures 0 * w == 0 && RowsBytes([], w, 0, pal) == []
  {
  }

  // ---------------------------------------------------------------- a tile

  /** What the encoder decided on: run lengths or not, and the palette it uses, if any. */
  datatype Mode = Mode(rle: bool, pal: seq<nat>)

  predicate Legal(m: Mode, data: seq<nat>, w: nat, h: nat, d: Depth) {
    |data| == h * w && w > 0 && h > 0 && Codable(data, m.pal, d) && if m.rle then |m.pal| != 1 else |m.pal| <= 16
  }

  function TypeByte(m: Mode): byte
    requires |m.pal| <= 127
  {
    (if m.rle then 128 else 0) + |m.pal|
  }

  function Body(m: Mode, data: seq<nat>, w: nat, h: nat, d: Depth): Bytestring
    requires Legal(m, data, w, h, d)
  {
    if m.rle then RunsBytes(data, m.pal, d)
    else if m.pal == [] then PixelsBytes(data, d)
    else if |m.pal| == 1 then []
    else RowsBytes(data, w, h, m.pal)
  }

  function TileBytes(m: Mode, data: seq<nat>, w: nat, h: nat, d: Depth): Bytestring
    requires Legal(m, data, w, h, d)
  {
    [TypeByte(m)] + PixelsBytes(m.pal, d) + Body(m, data, w, h, d)
  }
}
