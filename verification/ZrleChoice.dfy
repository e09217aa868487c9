/**
 * How the tile encoder settles on a mode: by estimates, which are never above what is written and
 * not far below it.
 */
module ZrleChoice {
  import opened Arithmetic
  import opened Bytes
  import opened Palette
  import opened Pixels
  import opened ZrleFormat

  // ---------------------------------------------------------------- what is counted

  /** Runs of two pixels or more, and pixels on their own. */
  datatype Counts = Counts(runs: nat, singlePixels: nat)

  function CountRuns(data: seq<nat>): Counts {
    if data == [] then Counts(0, 0)
    else
      var n := RunLength(data);
      var rest := CountRuns(data[n..]);
      if n == 1 then rest.(singlePixels := rest.singlePixels + 1) else rest.(runs := rest.runs + 1)
  }

  /** The length of a run is determined by where it ends. */
  lemma RunLengthIs(data: seq<nat>, n: nat)
    requires 1 <= n <= |data| && (forall k :: 0 <= k < n ==> data[k] == data[0]) && (n == |data| || data[n] != data[0])
    ensures RunLength(data) == n
  {
    assert RunLength(data) >= n && n >= RunLength(data);
  }

  ghost function ColoursOf(data: seq<nat>): set<nat> {
    set v | v in data
  }

  /** How many colours there are. */
  ghost function ColourCount(data: seq<nat>): nat {
    |ColoursOf(data)|
  }

  /** The last colour has been there before, and another since. */
  ghost predicate Recurs(data: seq<nat>) {
    exists i, j :: 0 <= i < j < |data| && data[i] == data[|data| - 1] != data[j]
  }

  /**
   * The palette takes 127 colours. Once it is full any further run makes it overflow, though it
   * be of a colour that is in it.
   */
  ghost predicate PaletteFits(data: seq<nat>) {
    ColourCount(data) < ZRLE_PALETTE_MAX_SIZE || (ColourCount(data) == ZRLE_PALETTE_MAX_SIZE && !Recurs(data))
  }

  lemma {:induction false} DistinctCount(s: seq<nat>)
    requires Distinct(s)
    ensures ColourCount(s) == |s|
  {
    if s != [] {
      var n := |s| - 1;
      DistinctCount(s[..n]);
      assert s == s[..n] + [s[n]];
      assert ColoursOf(s) == ColoursOf(s[..n]) + {s[n]};
      assert s[n] !in s[..n];
    }
  }

  lemma {:induction false} NoMoreColours(s: seq<nat>)
    ensures ColourCount(s) <= |s|
  {
    if s != [] {
      var n := |s| - 1;
      NoMoreColours(s[..n]);
      assert s == s[..n] + [s[n]];
      assert ColoursOf(s) == ColoursOf(s[..n]) + {s[n]};
    }
  }

  lemma SubsetCount(a: set<nat>, b: set<nat>)
    requires a <= b
    ensures |a| <= |b| && (|a| == |b| ==> a == b)
  {
    assert b == a + (b - a);
  }

  lemma FewerColours(data: seq<nat>, pal: seq<nat>)
    requires forall v :: v in data ==> v in pal
    ensures ColourCount(data) <= ColourCount(pal) && (ColourCount(data) == ColourCount(pal) ==> ColoursOf(data) == ColoursOf(pal))
  {
    SubsetCount(ColoursOf(data), ColoursOf(pal));
  }

  // ---------------------------------------------------------------- the choice

  /** What the encoder thinks a mode costs, ignoring row padding and lengths beyond 255. */
  function Estimate(rle: bool, palette: bool, w: nat, h: nat, d: Depth, size: nat, c: Counts): nat
    requires palette && !rle ==> 0 < size <= 16
  {
    if rle && palette then d * size + 2 * c.runs + c.singlePixels
    else if rle then (d + 1) * (c.runs + c.singlePixels)
    else if palette then d * size + w * h * BitsPerPackedPixel(size) / 8
    else w * h * d
  }

  /** The modes that can be considered at all. */
  ghost predicate Considered(rle: bool, palette: bool, data: seq<nat>) {
    palette ==> if rle then PaletteFits(data) else 0 < ColourCount(data) <= 16
  }

  /** What the encoder expects of a mode for these pixels. */
  ghost function Expected(rle: bool, palette: bool, data: seq<nat>, w: nat, h: nat, d: Depth): nat
    requires Considered(rle, palette, data)
  {
    Estimate(rle, palette, w, h, d, ColourCount(data), CountRuns(data))
  }

  /** One colour is sent as such; or else no mode is expected to be cheaper, and raw only if all others are dearer or alike. */
  ghost predicate IsChosen(m: Mode, data: seq<nat>, w: nat, h: nat, d: Depth) {
    if ColourCount(data) == 1 then !m.rle && |m.pal| == 1
    else
      (m.pal != [] ==> |m.pal| == ColourCount(data)) && Considered(m.rle, m.pal != [], data) &&
      (forall r, p :: Considered(r, p, data) ==> Expected(m.rle, m.pal != [], data, w, h, d) <= Expected(r, p, data, w, h, d)) &&
      (m.rle || m.pal != [] ==> Expected(m.rle, m.pal != [], data, w, h, d) < Expected(false, false, data, w, h, d))
  }

  // ---------------------------------------------------------------- run lengths

  /** What the encoder writes for a run. */
  function CodeBytes(v: nat, len: nat, pal: seq<nat>, d: Depth): Bytestring
    requires len > 0 && IsPixel(v, d) && |pal| <= 127 && (pal != [] ==> v in pal)
  {
    if pal == [] then PixelBytes(v, d) + LenBytes(len - 1)
    else if len <= 2 then (if len == 2 then [IndexOf(pal, v)] else []) + [IndexOf(pal, v)]
    else [IndexOf(pal, v) + 128] + LenBytes(len - 1)
  }

  lemma RunsUnfold(data: seq<nat>, pal: seq<nat>, d: Depth)
    requires data != [] && Codable(data, pal, d)
    ensures Codable(data[Step(data, pal)..], pal, d)
    ensures RunsBytes(data, pal, d) == StepBytes(data, pal, d) + RunsBytes(data[Step(data, pal)..], pal, d)
  {
    hide StepBytes;
    hide Step;
  }

  /** Two pixels of a palette are two codes of one. */
  lemma TwoPixels(data: seq<nat>, pal: seq<nat>, d: Depth)
    requires data != [] && Codable(data, pal, d) && pal != [] && RunLength(data) == 2
    ensures Codable(data[2..], pal, d)
    ensures RunsBytes(data, pal, d) == [IndexOf(pal, data[0]), IndexOf(pal, data[0])] + RunsBytes(data[2..], pal, d)
  {
    hide RunsBytes;
    hide LenBytes;
    hide IndexOf;
    RunLengthIs(data[1..], 1);
    assert data[1..][1..] == data[2..];
    RunsUnfold(data, pal, d);
    RunsUnfold(data[1..], pal, d);
  }

  /** Any other run is one code. */
  lemma OneRun(data: seq<nat>, pal: seq<nat>, d: Depth)
    requires data != [] && Codable(data, pal, d) && !(pal != [] && RunLength(data) == 2)
    ensures Step(data, pal) == RunLength(data) && StepBytes(data, pal, d) == CodeBytes(data[0], RunLength(data), pal, d)
  {
    hide PixelBytes;
    hide LenBytes;
    hide IndexOf;
    hide RunLength;
  }

  /** Run by run, that is the format. */
  lemma NextCode(data: seq<nat>, pal: seq<nat>, d: Depth)
    requires data != [] && Codable(data, pal, d)
    ensures Codable(data[RunLength(data)..], pal, d)
    ensures RunsBytes(data, pal, d) == CodeBytes(data[0], RunLength(data), pal, d) + RunsBytes(data[RunLength(data)..], pal, d)
  {
    hide RunsBytes;
    hide StepBytes;
    hide Step;
    hide LenBytes;
    hide RunLength;
    if pal != [] && RunLength(data) == 2 {
      TwoPixels(data, pal, d);
    } else {
      RunsUnfold(data, pal, d);
      OneRun(data, pal, d);
    }
  }

  // ---------------------------------------------------------------- what is expected and what is written

  /** The estimate for the codes alone. */
  function CodesEstimate(pal: seq<nat>, d: Depth, c: Counts): nat {
    if pal == [] then (d + 1) * (c.runs + c.singlePixels) else 2 * c.runs + c.singlePixels
  }

  function CodeEstimate(pal: seq<nat>, d: Depth, n: nat): nat {
    if pal == [] then d + 1 else if n == 1 then 1 else 2
  }

  lemma EstimateNext(data: seq<nat>, pal: seq<nat>, d: Depth)
    requires data != []
    ensures var n := RunLength(data);
            CodesEstimate(pal, d, CountRuns(data)) == CodeEstimate(pal, d, n) + CodesEstimate(pal, d, CountRuns(data[n..]))
  {
    hide RunLength;
    var rest := CountRuns(data[RunLength(data)..]);
    assert (d + 1) * (rest.runs + rest.singlePixels + 1) == (d + 1) * (rest.runs + rest.singlePixels) + (d + 1);
  }

  lemma CodeIsEstimated(v: nat, len: nat, pal: seq<nat>, d: Depth)
    requires len > 0 && IsPixel(v, d) && |pal| <= 127 && (pal != [] ==> v in pal)
    ensures 255 * |CodeBytes(v, len, pal, d)| <= 255 * CodeEstimate(pal, d, len) + len
  {
    hide LenBytes;
    hide PixelBytes;
    hide IndexOf;
    assert 255 * ((len - 1) / 255) <= len - 1;
  }

  lemma NoRuns(pal: seq<nat>, d: Depth)
    requires Codable([], pal, d)
    ensures RunsBytes([], pal, d) == []
  {
  }

  /** The estimate is short only by the bytes that lengths beyond 255 take. */
  lemma {:induction false} RunsAreEstimated(data: seq<nat>, pal: seq<nat>, d: Depth)
    requires Codable(data, pal, d)
    ensures 255 * |RunsBytes(data, pal, d)| <= 255 * CodesEstimate(pal, d, CountRuns(data)) + |data|
  {
    hide CodesEstimate;
    hide CodeEstimate;
    hide CountRuns;
    hide CodeBytes;
    hide RunsBytes;
    hide RunLength;
    if data == [] {
      NoRuns(pal, d);
    } else {
      var n := RunLength(data);
      NextCode(data, pal, d);
      EstimateNext(data, pal, d);
      RunsAreEstimated(data[n..], pal, d);
      CodeIsEstimated(data[0], n, pal, d);
    }
  }

  /** Nothing is written in less than it is expected to take. */
  lemma CodeIsNoCheaper(v: nat, len: nat, pal: seq<nat>, d: Depth)
    requires len > 0 && IsPixel(v, d) && |pal| <= 127 && (pal != [] ==> v in pal)
    ensures CodeEstimate(pal, d, len) <= |CodeBytes(v, len, pal, d)|
  {
    hide LenBytes;
    hide PixelBytes;
    hide IndexOf;
    assert (len - 1) / 255 >= 0;
  }

  lemma {:induction false} RunsAreNoCheaper(data: seq<nat>, pal: seq<nat>, d: Depth)
    requires Codable(data, pal, d)
    ensures CodesEstimate(pal, d, CountRuns(data)) <= |RunsBytes(data, pal, d)|
  {
    hide CodeEstimate;
    hide CodeBytes;
    hide RunsBytes;
    hide RunLength;
    if data != [] {
      hide CountRuns;
      hide CodesEstimate;
      var n := RunLength(data);
      NextCode(data, pal, d);
      EstimateNext(data, pal, d);
      RunsAreNoCheaper(data[n..], pal, d);
      CodeIsNoCheaper(data[0], n, pal, d);
    }
  }

  /** A row is padded with less than a byte. */
  lemma RowInBits(w: nat, b: Bits)
    ensures w * b <= 8 * RowSize(w, b) <= w * b + 7
  {
    assert PerByte(b) == 8 || PerByte(b) == 4 || PerByte(b) == 2;
  }

  lemma ManyRows(h: nat, a: nat, n: nat)
    requires a <= 8 * n <= a + 7
    ensures h * a <= 8 * (h * n) <= h * a + 7 * h
  {
    ProductAtMost(a, 8 * n, h);
    ProductAtMost(8 * n, a + 7, h);
  }

  /** Rows padded to bytes take no less than their bits, and less than a byte more each. */
  lemma RowsInBits(w: nat, h: nat, b: Bits)
    ensures w * h * b / 8 <= h * RowSize(w, b) <= w * h * b / 8 + h
  {
    hide RowSize;
    RowInBits(w, b);
    ManyRows(h, w * b, RowSize(w, b));
    assert h * (w * b) == w * h * b;
  }

  ghost predicate HasEstimate(m: Mode) {
    m.pal != [] && !m.rle ==> |m.pal| <= 16
  }

  /** With the palette that a mode uses, its estimate is a lower bound; long runs and padded rows are what it leaves out. */
  lemma WrittenAsEstimated(m: Mode, data: seq<nat>, w: nat, h: nat, d: Depth)
    requires Legal(m, data, w, h, d)
    ensures HasEstimate(m)
    ensures var e := 1 + Estimate(m.rle, m.pal != [], w, h, d, |m.pal|, CountRuns(data));
            e <= |TileBytes(m, data, w, h, d)| <= e + w * h / 255 + h
  {
    hide RunsBytes;
    hide RowsBytes;
    hide PixelsBytes;
    hide CountRuns;
    hide Codable;
    hide RowSize;
    hide TileBytes;
    PaletteSize(m, data, w, h, d);
    assert |data| == h * w == w * h;
    if m.rle {
      RunsAreNoCheaper(data, m.pal, d);
      RunsAreEstimated(data, m.pal, d);
    } else if |m.pal| > 1 {
      RowsInBits(w, h, BitsFor(m.pal));
    } else {
      PlainBody(m, data, w, h, d);
    }
  }

  lemma PlainBody(m: Mode, data: seq<nat>, w: nat, h: nat, d: Depth)
    requires Legal(m, data, w, h, d) && !m.rle && |m.pal| <= 1
    ensures |Body(m, data, w, h, d)| == if m.pal == [] then w * h * d else 0
  {
    hide PixelsBytes;
    assert |data| == w * h;
  }

  /** More colours in the palette are not expected to be cheaper. */
  lemma MoreColoursCostMore(rle: bool, palette: bool, w: nat, h: nat, d: Depth, size: nat, size': nat, c: Counts)
    requires 0 < size <= size' && (palette && !rle ==> size' <= 16)
    ensures Estimate(rle, palette, w, h, d, size, c) <= Estimate(rle, palette, w, h, d, size', c)
  {
    ProductAtMost(size, size', d);
    if palette && !rle {
      ProductAtMost(BitsPerPackedPixel(size), BitsPerPackedPixel(size'), w * h);
    }
  }

  /** Where there is a pixel there is a run. */
  lemma SomeRun(data: seq<nat>)
    requires data != []
    ensures CountRuns(data).runs + CountRuns(data).singlePixels >= 1
  {
  }

  /** Any way of writing the tile takes what is expected of it, at least. */
  lemma NoneIsCheaper(m: Mode, data: seq<nat>, w: nat, h: nat, d: Depth)
    requires Legal(m, data, w, h, d) && (m.pal != [] ==> PaletteFits(data)) && data != []
    ensures Considered(m.rle, m.pal != [], data) && 1 + Expected(m.rle, m.pal != [], data, w, h, d) <= |TileBytes(m, data, w, h, d)|
    ensures 1 + d <= |TileBytes(m, data, w, h, d)|
  {
    hide CountRuns;
    hide TileBytes;
    hide PaletteFits;
    WrittenAsEstimated(m, data, w, h, d);
    SizeIsPositive(w, h, d);
    SomeRun(data);
    assert ColourCount(data) > 0 by {
      assert data[0] in ColoursOf(data);
    }
    if m.pal != [] {
      FewerColours(data, m.pal);
      NoMoreColours(m.pal);
      MoreColoursCostMore(m.rle, true, w, h, d, ColourCount(data), |m.pal|, CountRuns(data));
      ProductAtMost(1, |m.pal|, d);
    } else if m.rle {
      ProductAtMost(1, CountRuns(data).runs + CountRuns(data).singlePixels, d + 1);
    }
  }

  /**
   * No way of writing the tile is much shorter than the one chosen: by a byte for every 255 pixels
   * and every row at most. Only for 127 colours may a palette be missed.
   */
  lemma ChosenIsNearlyShortest(m: Mode, other: Mode, data: seq<nat>, w: nat, h: nat, d: Depth)
    requires Legal(m, data, w, h, d) && IsChosen(m, data, w, h, d)
    requires Legal(other, data, w, h, d) && (other.pal != [] ==> PaletteFits(data))
    ensures |TileBytes(m, data, w, h, d)| <= |TileBytes(other, data, w, h, d)| + w * h / 255 + h
  {
    hide CountRuns;
    hide TileBytes;
    hide PaletteFits;
    hide Estimate;
    SizeIsPositive(w, h, d);
    assert data != [];
    NoneIsCheaper(other, data, w, h, d);
    WrittenAsEstimated(m, data, w, h, d);
    if ColourCount(data) == 1 {
      OneColourIsExpected(w, h, d, CountRuns(data));
    } else if m.pal == [] {
      NoPaletteNoSize(m.rle, w, h, d, 0, ColourCount(data), CountRuns(data));
    }
  }

  lemma NoPaletteNoSize(rle: bool, w: nat, h: nat, d: Depth, size: nat, size': nat, c: Counts)
    ensures Estimate(rle, false, w, h, d, size, c) == Estimate(rle, false, w, h, d, size', c)
  {
  }

  lemma OneColourIsExpected(w: nat, h: nat, d: Depth, c: Counts)
    ensures Estimate(false, true, w, h, d, 1, c) == d
  {
  }

  /** No byte holds less than a pixel of a row, so padding cannot make a row longer than its width. */
  lemma RowIsShort(w: nat, b: Bits)
    ensures RowSize(w, b) <= w
  {
    if w > 0 {
      assert PerByte(b) == 8 || PerByte(b) == 4 || PerByte(b) == 2;
    }
  }

  /** The arithmetic behind the bound: `n` pixels of `nd` bytes, `p` bytes of palette. */
  lemma RlePart(n: nat, nd: nat, p: nat, codes: nat, written: nat)
    requires n <= nd && p + codes < nd && 255 * written <= 255 * codes + n
    ensures 1 + p + written <= 2 * nd
  {
  }

  lemma RunsAreShort(m: Mode, data: seq<nat>, w: nat, h: nat, d: Depth)
    requires Legal(m, data, w, h, d) && m.rle && w * h >= 1
    requires Estimate(m.rle, m.pal != [], w, h, d, |m.pal|, CountRuns(data)) < w * h * d
    ensures 1 + d * |m.pal| + |RunsBytes(data, m.pal, d)| <= 2 * (w * h * d)
  {
    hide RunsBytes;
    hide CountRuns;
    hide AllPixels;
    assert |data| == w * h;
    RunsAreEstimated(data, m.pal, d);
    SizeIsPositive(w, h, d);
    RlePart(w * h, w * h * d, d * |m.pal|, CodesEstimate(m.pal, d, CountRuns(data)), |RunsBytes(data, m.pal, d)|);
  }

  /** The same for packed rows. */
  lemma PackedPart(n: nat, nd: nat, p: nat, rows: nat)
    requires rows <= n <= nd && p < nd
    ensures 1 + p + rows <= 2 * nd
  {
  }

  lemma PackedIsShort(m: Mode, data: seq<nat>, w: nat, h: nat, d: Depth)
    requires Legal(m, data, w, h, d) && !m.rle && |m.pal| > 1
    requires Estimate(false, true, w, h, d, |m.pal|, CountRuns(data)) < w * h * d
    ensures 1 + d * |m.pal| + |RowsBytes(data, w, h, m.pal)| <= 2 * (w * h * d)
  {
    hide RowsBytes;
    hide CountRuns;
    hide AllPixels;
    hide RowSize;
    hide BitsPerPackedPixel;
    assert |data| == w * h;
    RowIsShort(w, BitsFor(m.pal));
    ProductAtMost(RowSize(w, BitsFor(m.pal)), w, h);
    SizeIsPositive(w, h, d);
    PackedPart(w * h, w * h * d, d * |m.pal|, |RowsBytes(data, w, h, m.pal)|);
  }

  /** Raw pixels, or one colour. */
  lemma PlainIsShort(m: Mode, data: seq<nat>, w: nat, h: nat, d: Depth)
    requires Legal(m, data, w, h, d) && !m.rle && |m.pal| <= 1 && w * h >= 1
    ensures 1 + d * |m.pal| + |Body(m, data, w, h, d)| <= 2 * (w * h * d)
  {
    hide PixelsBytes;
    hide AllPixels;
    SizeIsPositive(w, h, d);
    if m.pal == [] {
      assert |data| == w * h;
    }
  }

  lemma BodyIsShort(m: Mode, data: seq<nat>, w: nat, h: nat, d: Depth, estimate: nat)
    requires Legal(m, data, w, h, d) && (|m.pal| == 1 || estimate == Estimate(m.rle, m.pal != [], w, h, d, |m.pal|, CountRuns(data)))
    requires |m.pal| == 1 ==> !m.rle
    requires m.rle || |m.pal| > 1 ==> estimate < w * h * d
    ensures w * h >= 1 && 1 + d * |m.pal| + |Body(m, data, w, h, d)| <= 2 * (w * h * d)
  {
    hide RunsBytes;
    hide RowsBytes;
    hide PixelsBytes;
    hide CountRuns;
    hide Codable;
    hide Estimate;
    hide RowSize;
    SizeIsPositive(w, h, d);
    if m.rle {
      RunsAreShort(m, data, w, h, d);
    } else if |m.pal| > 1 {
      PackedIsShort(m, data, w, h, d);
    } else {
      PlainIsShort(m, data, w, h, d);
    }
  }

  /** Whatever `Choose` settles on takes at most twice the room of the pixels. */
  lemma TileIsShort(m: Mode, data: seq<nat>, w: nat, h: nat, d: Depth, estimate: nat)
    requires Legal(m, data, w, h, d) && (|m.pal| == 1 || estimate == Estimate(m.rle, m.pal != [], w, h, d, |m.pal|, CountRuns(data)))
    requires |m.pal| == 1 ==> !m.rle
    requires m.rle || |m.pal| > 1 ==> estimate < w * h * d
    ensures |TileBytes(m, data, w, h, d)| <= 2 * (w * h * d)
  {
    hide TileBytes;
    hide Body;
    hide Estimate;
    PaletteSize(m, data, w, h, d);
    BodyIsShort(m, data, w, h, d, estimate);
  }

  lemma PaletteSize(m: Mode, data: seq<nat>, w: nat, h: nat, d: Depth)
    requires Legal(m, data, w, h, d)
    ensures |TileBytes(m, data, w, h, d)| == 1 + d * |m.pal| + |Body(m, data, w, h, d)|
  {
    hide Body;
  }

  lemma SizeIsPositive(w: nat, h: nat, d: Depth)
    requires w > 0 && h > 0
    ensures w * h >= 1 && h * w == w * h && w * h * d >= w * h && w * h * d >= d
  {
    assert w * h >= w;
  }
}
