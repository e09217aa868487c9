/** The client's tile decoder. */
module ZrleDecode {
  import opened Arithmetic
  import opened Bytes
  import opened Rectangles
  import opened CopyRects
  import opened Pixels
  import opened RawRects
  import opened ZrleFormat
  import opened ZrlePacking

  // ---------------------------------------------------------------- pixels in reading order

  function FlatAt(data: seq<nat>, w: int, u: int, v: int): nat {
    if 0 <= v * w + u < |data| then data[v * w + u] else 0
  }

  /** Painted so far: the rows before `j` of the tile, and `i` pixels of row `j`. */
  predicate Painted(p: Pt, r: Rect, i: int, j: int) {
    InRect(p, r) && (p.y - r.y1 < j || (p.y - r.y1 == j && p.x - r.x1 < i))
  }

  ghost predicate ShowsFlat(now: Picture, was: Picture, r: Rect, data: seq<nat>, i: int, j: int) {
    forall p :: now(p) == if Painted(p, r, i, j) then FlatAt(data, r.x2 - r.x1, p.x - r.x1, p.y - r.y1) else was(p)
  }

  lemma NothingPainted(pic: Picture, r: Rect, data: seq<nat>)
    ensures ShowsFlat(pic, pic, r, data, 0, 0)
  {
  }

  /** The next pixel in reading order. */
  lemma OneMorePixel(now: Picture, mid: Picture, was: Picture, r: Rect, data: seq<nat>, i: nat, j: nat, v: nat)
    requires ShowsFlat(mid, was, r, data, i, j) && i < r.x2 - r.x1 && j < r.y2 - r.y1
    requires forall p :: now(p) == if p == Pt(r.x1 + i, r.y1 + j) then v else mid(p)
    requires v == FlatAt(data, r.x2 - r.x1, i, j)
    ensures ShowsFlat(now, was, r, data, i + 1, j)
  {
    forall p
      ensures now(p) == if Painted(p, r, i + 1, j) then FlatAt(data, r.x2 - r.x1, p.x - r.x1, p.y - r.y1) else was(p)
    {
      assert mid(p) == if Painted(p, r, i, j) then FlatAt(data, r.x2 - r.x1, p.x - r.x1, p.y - r.y1) else was(p);
      assert Painted(p, r, i + 1, j) <==> Painted(p, r, i, j) || p == Pt(r.x1 + i, r.y1 + j);
    }
  }

  lemma RowPainted(now: Picture, was: Picture, r: Rect, data: seq<nat>, j: nat)
    requires ShowsFlat(now, was, r, data, r.x2 - r.x1, j)
    ensures ShowsFlat(now, was, r, data, 0, j + 1)
  {
    forall p
      ensures now(p) == if Painted(p, r, 0, j + 1) then FlatAt(data, r.x2 - r.x1, p.x - r.x1, p.y - r.y1) else was(p)
    {
      assert Painted(p, r, 0, j + 1) <==> Painted(p, r, r.x2 - r.x1, j);
    }
  }

  method WritePixel(fb: Frame, x: int, y: int, v: nat)
    requires OnScreen(fb, Pt(x, y))
    modifies fb
    ensures forall p :: Shown(fb)(p) == if p == Pt(x, y) then v else old(Shown(fb))(p)
  {
    fb[y, x] := v;
  }

  method PaintPixel(fb: Frame, r: Rect, i: nat, j: nat, v: nat, ghost data: seq<nat>, ghost was: Picture)
    requires RectOnScreen(fb, r) && i < r.x2 - r.x1 && j < r.y2 - r.y1 && ShowsFlat(Shown(fb), was, r, data, i, j)
    requires v == FlatAt(data, r.x2 - r.x1, i, j)
    modifies fb
    ensures ShowsFlat(Shown(fb), was, r, data, i + 1, j)
  {
    hide ShowsFlat;
    hide FlatAt;
    ghost var mid := Shown(fb);
    WritePixel(fb, r.x1 + i, r.y1 + j, v);
    OneMorePixel(Shown(fb), mid, was, r, data, i, j, v);
  }

  // ---------------------------------------------------------------- run lengths

  /** Pixel `k` of the tile is at column `i` of row `j`. */
  ghost predicate Standing(k: nat, i: nat, j: nat, w: nat, h: nat) {
    k == j * w + i && i < w && j <= h && (j == h ==> i == 0)
  }

  lemma StandingNext(k: nat, i: nat, j: nat, w: nat, h: nat)
    requires Standing(k, i, j, w, h) && j < h
    ensures k < h * w && if i + 1 >= w then Standing(k + 1, 0, j + 1, w, h) else Standing(k + 1, i + 1, j, w, h)
  {
    RowAfter(j, w);
    ProductAtMost(j + 1, h, w);
  }

  lemma RowAfter(j: nat, w: nat)
    ensures (j + 1) * w == j * w + w
  {
  }

  lemma StandingInside(k: nat, i: nat, j: nat, w: nat, h: nat)
    requires Standing(k, i, j, w, h)
    ensures k < h * w <==> j < h
  {
    if j < h {
      StandingNext(k, i, j, w, h);
    }
  }

  /** The loop that paints one run, from row to row. */
  method PaintRun(fb: Frame, r: Rect, i0: nat, j0: nat, colour: nat, length0: nat, ghost k0: nat, ghost data: seq<nat>, ghost was: Picture)
    returns (i: nat, j: nat)
    requires RectOnScreen(fb, r) && |data| == (r.y2 - r.y1) * (r.x2 - r.x1) && Standing(k0, i0, j0, r.x2 - r.x1, r.y2 - r.y1)
    requires k0 + length0 <= |data| && forall k :: k0 <= k < k0 + length0 ==> data[k] == colour
    requires ShowsFlat(Shown(fb), was, r, data, i0, j0)
    modifies fb
    ensures Standing(k0 + length0, i, j, r.x2 - r.x1, r.y2 - r.y1) && ShowsFlat(Shown(fb), was, r, data, i, j)
  {
    hide ShowsFlat;
    hide Standing;
    hide FlatAt;
    hide Shown;
    i, j := i0, j0;
    var w: nat, h: nat, length := r.x2 - r.x1, r.y2 - r.y1, length0;
    ghost var k := k0;
    while j < h && length > 0
      invariant k == k0 + (length0 - length) && 0 <= length <= length0
      invariant Standing(k, i, j, w, h) && ShowsFlat(Shown(fb), was, r, data, i, j)
      decreases length
    {
      StandingNext(k, i, j, w, h);
      StandsInRow(k, i, j, w, h, data);
      PaintPixel(fb, r, i, j, colour, data, was);
      length := length - 1;
      i := i + 1;
      if i >= w {
        RowPainted(Shown(fb), was, r, data, j);
        i := 0;
        j := j + 1;
      }
      k := k + 1;
    }
    StandingInside(k, i, j, w, h);
  }

  lemma StandsInRow(k: nat, i: nat, j: nat, w: nat, h: nat, data: seq<nat>)
    requires Standing(k, i, j, w, h) && k < |data|
    ensures i < w && FlatAt(data, w, i, j) == data[k]
  {
  }

  /** The bytes of a length: any number of 255, and one more. Fails when they do not end before `bufferEnd`. */
  method ReadLength(s: Bytestring, i: nat, bufferEnd: nat, ghost n: nat) returns (length: nat, next: nat, result: int)
    requires At(s, i, LenBytes(n)) && i + |LenBytes(n)| <= bufferEnd <= |s|
    ensures result == 0 && length == n + 1 && next == i + |LenBytes(n)|
  {
    length, next, result := 1, i, 0;
    ghost var left: nat := n;
    LenAt(s, i, n);
    while result == 0 && s[next] == 255
      invariant result == 0 && left <= n && length == 1 + n - left && At(s, next, LenBytes(left)) && next < |s|
      invariant s[next] == 255 <==> left >= 255
      invariant next + |LenBytes(left)| == i + |LenBytes(n)|
      decreases left
    {
      LenAt(s, next, left);
      if next + 1 >= bufferEnd {
        result := -8;
      } else {
        length := length + s[next];
        next := next + 1;
      }
      left := left - 255;
      LenAt(s, next, left);
    }
    LenAt(s, next, left);
    if result == 0 {
      length := length + s[next];
      next := next + 1;
    }
  }

  lemma LenAt(s: Bytestring, i: nat, n: nat)
    requires At(s, i, LenBytes(n))
    ensures i < |s| && (s[i] == 255 <==> n >= 255) && (n < 255 ==> s[i] == n)
    ensures n >= 255 ==> At(s, i + 1, LenBytes(n - 255))
  {
    AtIndex(s, i, LenBytes(n), 0);
    if n >= 255 {
      AtConcat(s, i, [255], LenBytes(n - 255));
    }
  }

  /** Where the next code is, and what is behind it. */
  lemma CodeAt(s: Bytestring, i: nat, data: seq<nat>, pal: seq<nat>, d: Depth)
    requires data != [] && Codable(data, pal, d) && At(s, i, RunsBytes(data, pal, d))
    ensures At(s, i, StepBytes(data, pal, d)) && Codable(data[Step(data, pal)..], pal, d)
    ensures At(s, i + |StepBytes(data, pal, d)|, RunsBytes(data[Step(data, pal)..], pal, d))
    ensures |RunsBytes(data, pal, d)| == |StepBytes(data, pal, d)| + |RunsBytes(data[Step(data, pal)..], pal, d)|
  {
    hide StepBytes;
    hide Step;
    hide Codable;
    CodableRest(data, pal, d, Step(data, pal));
    AtConcat(s, i, StepBytes(data, pal, d), RunsBytes(data[Step(data, pal)..], pal, d));
  }

  lemma CodableRest(data: seq<nat>, pal: seq<nat>, d: Depth, n: nat)
    requires Codable(data, pal, d) && n <= |data|
    ensures Codable(data[n..], pal, d)
  {
  }

  lemma PlainParts(s: Bytestring, i: nat, d: Depth, data: seq<nat>)
    requires data != [] && Codable(data, [], d) && At(s, i, StepBytes(data, [], d))
    ensures IsPixel(data[0], d) && At(s, i, PixelBytes(data[0], d)) && At(s, i + d, LenBytes(Step(data, []) - 1))
    ensures |StepBytes(data, [], d)| == d + |LenBytes(Step(data, []) - 1)|
  {
    hide PixelBytes;
    hide LenBytes;
    hide Step;
    AtConcat(s, i, PixelBytes(data[0], d), LenBytes(Step(data, []) - 1));
  }

  /** One code without a palette. */
  method ReadPlain(s: Bytestring, i: nat, bufferEnd: nat, d: Depth, ghost data: seq<nat>) returns (colour: nat, length: nat, next: nat, result: int)
    requires data != [] && Codable(data, [], d) && At(s, i, StepBytes(data, [], d)) && i + |StepBytes(data, [], d)| <= bufferEnd <= |s|
    ensures result == 0 && colour == data[0] && length == Step(data, []) && next == i + |StepBytes(data, [], d)|
  {
    hide PixelBytes;
    hide ReadPixel;
    hide LenBytes;
    hide StepBytes;
    hide Step;
    hide Codable;
    PlainParts(s, i, d, data);
    ReadWritten(s, i, data[0], d);
    colour, length, next, result := 0, 1, i, 0;
    if i + d + 1 > bufferEnd {
      result := -7;
    } else {
      colour := ReadPixel(s, i, d);
      length, next, result := ReadLength(s, i + d, bufferEnd, Step(data, []) - 1);
    }
  }

  lemma PalettedParts(s: Bytestring, i: nat, d: Depth, pal: seq<nat>, data: seq<nat>)
    requires data != [] && pal != [] && Codable(data, pal, d) && At(s, i, StepBytes(data, pal, d))
    ensures var n, k := Step(data, pal), IndexOf(pal, data[0]);
            k < 128 && i < |s| &&
            if n == 1 then s[i] == k && |StepBytes(data, pal, d)| == 1
            else s[i] == k + 128 && At(s, i + 1, LenBytes(n - 1)) && |StepBytes(data, pal, d)| == 1 + |LenBytes(n - 1)|
  {
    hide LenBytes;
    hide Step;
    hide IndexOf;
    hide PixelBytes;
    hide AllPixels;
    var n, k := Step(data, pal), IndexOf(pal, data[0]);
    if n == 1 {
      AtIndex(s, i, [k], 0);
    } else {
      AtConcat(s, i, [k + 128], LenBytes(n - 1));
      AtIndex(s, i, [k + 128], 0);
    }
  }

  /** One code with a palette: its highest bit tells whether a length follows. */
  method ReadPaletted(s: Bytestring, i: nat, bufferEnd: nat, d: Depth, palette: seq<nat>, ghost data: seq<nat>)
    returns (colour: nat, length: nat, next: nat, result: int)
    requires data != [] && palette != [] && Codable(data, palette, d)
    requires At(s, i, StepBytes(data, palette, d)) && i + |StepBytes(data, palette, d)| <= bufferEnd <= |s|
    ensures result == 0 && colour == data[0] && length == Step(data, palette) && next == i + |StepBytes(data, palette, d)|
  {
    hide StepBytes;
    hide Step;
    hide LenBytes;
    PalettedParts(s, i, d, palette, data);
    colour, length, next, result := 0, 1, i, 0;
    if i >= bufferEnd {
      result := -10;
    } else {
      colour := palette[s[i] as int % 128];
      next := i + 1;
      if s[i] >= 128 {
        if i + 1 >= bufferEnd {
          result := -11;
        } else {
          length, next, result := ReadLength(s, i + 1, bufferEnd, Step(data, palette) - 1);
        }
      }
    }
  }

  /** The two loops over runs. */
  method HandleRuns(fb: Frame, s: Bytestring, start: nat, bufferEnd: nat, r: Rect, d: Depth, palette: seq<nat>, ghost data: seq<nat>, ghost was: Picture)
    returns (next: nat, result: int)
    requires RectOnScreen(fb, r) && |data| == (r.y2 - r.y1) * (r.x2 - r.x1) && r.x1 < r.x2 && Codable(data, palette, d)
    requires At(s, start, RunsBytes(data, palette, d)) && start + |RunsBytes(data, palette, d)| <= bufferEnd <= |s|
    requires ShowsFlat(Shown(fb), was, r, data, 0, 0)
    modifies fb
    ensures result == 0 && next == start + |RunsBytes(data, palette, d)| && ShowsFlat(Shown(fb), was, r, data, 0, r.y2 - r.y1)
  {
    hide ShowsFlat;
    hide Standing;
    hide Codable;
    hide RunsBytes;
    hide StepBytes;
    hide Shown;
    var w: nat, h: nat := r.x2 - r.x1, r.y2 - r.y1;
    var i, j: nat := 0, 0;
    ghost var k: nat := 0;
    next, result := start, 0;
    StandingFirst(w, h);
    assert data[0..] == data;
    while result == 0 && j < h
      invariant result == 0 && k <= |data| && Standing(k, i, j, w, h) && ShowsFlat(Shown(fb), was, r, data, i, j)
      invariant Codable(data[k..], palette, d) && At(s, next, RunsBytes(data[k..], palette, d))
      invariant next + |RunsBytes(data[k..], palette, d)| == start + |RunsBytes(data, palette, d)|
      decreases |data| - k
    {
      StandingInside(k, i, j, w, h);
      ghost var rest, n := data[k..], Step(data[k..], palette);
      CodeAt(s, next, rest, palette, d);
      var colour, length;
      if palette == [] {
        colour, length, next, result := ReadPlain(s, next, bufferEnd, d, rest);
      } else {
        colour, length, next, result := ReadPaletted(s, next, bufferEnd, d, palette, rest);
      }
      RunColours(data, k, palette);
      if result == 0 {
        i, j := PaintRun(fb, r, i, j, colour, length, k, data, was);
      }
      assert rest[n..] == data[k + n..];
      k := k + n;
    }
    StandingInside(k, i, j, w, h);
    StandsLast(k, i, j, w, h);
    NoRunsLeft(data[k..], palette, d);
  }

  lemma StandingFirst(w: nat, h: nat)
    requires w > 0
    ensures Standing(0, 0, 0, w, h)
  {
  }

  lemma StandsLast(k: nat, i: nat, j: nat, w: nat, h: nat)
    requires Standing(k, i, j, w, h) && j >= h
    ensures k == h * w && i == 0 && j == h
  {
  }

  lemma RunColours(data: seq<nat>, k: nat, pal: seq<nat>)
    requires k < |data|
    ensures var n := Step(data[k..], pal); k + n <= |data| && forall m :: k <= m < k + n ==> data[m] == data[k..][0]
  {
    var n := Step(data[k..], pal);
    forall m | k <= m < k + n
      ensures data[m] == data[k..][0]
    {
      assert data[k..][m - k] == data[k..][0];
    }
  }

  lemma NoRunsLeft(data: seq<nat>, pal: seq<nat>, d: Depth)
    requires data == [] && Codable(data, pal, d)
    ensures RunsBytes(data, pal, d) == []
  {
  }

  // ---------------------------------------------------------------- packed pixels

  /** Where the byte of the next pixels is, and what is behind it. */
  lemma PackedAt(s: Bytestring, i: nat, idx: seq<nat>, b: Bits)
    requires AllBelow(idx, b) && idx != [] && At(s, i, Packed(idx, b))
    ensures var n := if |idx| <= PerByte(b) then |idx| else PerByte(b);
            b * n <= 8 && n > 0 && AllBelow(idx[..n], b) && AllBelow(idx[n..], b) && i < |s| && s[i] == PackedByte(idx[..n], b) &&
            At(s, i + 1, Packed(idx[n..], b)) && |Packed(idx, b)| == 1 + |Packed(idx[n..], b)|
  {
    hide PackedByte;
    var n := if |idx| <= PerByte(b) then |idx| else PerByte(b);
    assert b * PerByte(b) == 8 && b * n <= 8;
    if |idx| <= PerByte(b) {
      assert idx[..n] == idx && idx[n..] == [];
      AtIndex(s, i, [PackedByte(idx, b)], 0);
    } else {
      AtConcat(s, i, [PackedByte(idx[..n], b)], Packed(idx[n..], b));
      AtIndex(s, i, [PackedByte(idx[..n], b)], 0);
    }
  }

  /**
   * Reading a row: `full` pixels from bytes read before, then those up to `ptr` from the byte at
   * `next`, whose `n` pixels come from the highest bits down.
   */
  ghost predicate RowReading(s: Bytestring, idx: seq<nat>, b: Bits, full: nat, ptr: nat, next: nat, shift: int, start: nat) {
    AllBelow(idx, b) && full <= ptr <= |idx| && AllBelow(idx[full..], b) && At(s, next, Packed(idx[full..], b)) &&
    next + |Packed(idx[full..], b)| == start + |Packed(idx, b)| && shift == 8 - b - b * (ptr - full) >= 0 && (ptr == |idx| ==> full == ptr || shift < 8 - b)
  }

  lemma ReadingStarts(s: Bytestring, idx: seq<nat>, b: Bits, start: nat)
    requires AllBelow(idx, b) && At(s, start, Packed(idx, b))
    ensures RowReading(s, idx, b, 0, 0, start, 8 - b, start)
  {
    assert idx[0..] == idx;
  }

  /** Which of the pixels of a byte comes next. */
  lemma PlaceInByte(b: Bits, q: nat)
    requires 8 - b - b * q >= 0
    ensures q < PerByte(b) && (8 - b - b * q - b < 0 <==> q + 1 == PerByte(b)) && 8 - b - b * (q + 1) == 8 - b - b * q - b
  {
  }

  /** The pixel taken out is the next of the row. */
  lemma ReadingPixel(s: Bytestring, idx: seq<nat>, b: Bits, full: nat, ptr: nat, next: nat, shift: int, start: nat)
    requires RowReading(s, idx, b, full, ptr, next, shift, start) && ptr < |idx|
    ensures 0 <= shift <= 8 && next < |s| && Extract(s[next], shift, b) == idx[ptr]
  {
    hide Extract;
    hide PackedByte;
    hide Packed;
    hide PerByte;
    var rest := idx[full..];
    PackedAt(s, next, rest, b);
    var n := if |rest| <= PerByte(b) then |rest| else PerByte(b);
    PlaceInByte(b, ptr - full);
    ExtractAt(rest[..n], b, ptr - full);
  }

  /** Then the byte may be used up. */
  lemma ReadingNext(s: Bytestring, idx: seq<nat>, b: Bits, full: nat, ptr: nat, next: nat, shift: int, start: nat)
    requires RowReading(s, idx, b, full, ptr, next, shift, start) && ptr < |idx|
    ensures if shift - b < 0 then RowReading(s, idx, b, ptr + 1, ptr + 1, next + 1, 8 - b, start)
            else RowReading(s, idx, b, full, ptr + 1, next, shift - b, start)
  {
    hide PackedByte;
    hide Packed;
    hide PerByte;
    var rest := idx[full..];
    PlaceInByte(b, ptr - full);
    if shift - b < 0 {
      PackedAt(s, next, rest, b);
      assert rest[ptr + 1 - full..] == idx[ptr + 1..];
    }
  }

  lemma ReadingLast(s: Bytestring, idx: seq<nat>, b: Bits, full: nat, next: nat, shift: int, start: nat)
    requires RowReading(s, idx, b, full, |idx|, next, shift, start)
    ensures full <= |idx| && AllBelow(idx, b) && AllBelow(idx[full..], b) && |idx| - full <= PerByte(b)
    ensures next + |Packed(idx[full..], b)| == start + |Packed(idx, b)| && (shift < 8 - b <==> full < |idx|)
  {
    hide Packed;
    hide PerByte;
    hide AllBelow;
    PlaceInByte(b, |idx| - full);
    BitsOfMany(b, |idx| - full);
  }

  lemma BitsOfMany(b: Bits, n: nat)
    ensures b * n > 0 <==> n > 0
  {
  }

  /** At the end of a row, the rest of a byte begun is skipped. */
  lemma ReadingEnds(s: Bytestring, idx: seq<nat>, b: Bits, full: nat, next: nat, shift: int, start: nat)
    requires RowReading(s, idx, b, full, |idx|, next, shift, start)
    ensures AllBelow(idx, b) && (if shift < 8 - b then next + 1 else next) == start + |Packed(idx, b)|
  {
    hide Packed;
    hide PerByte;
    hide RowReading;
    hide AllBelow;
    ReadingLast(s, idx, b, full, next, shift, start);
    LastOfRow(idx[full..], b);
  }

  lemma LastOfRow(idx: seq<nat>, b: Bits)
    requires AllBelow(idx, b) && |idx| <= PerByte(b)
    ensures |Packed(idx, b)| == if idx == [] then 0 else 1
  {
  }

  /** Row `j` of the tile. */
  ghost predicate IsRow(row: seq<nat>, data: seq<nat>, w: nat, j: nat) {
    |row| == w && forall u :: 0 <= u < w ==> row[u] == FlatAt(data, w, u, j)
  }

  lemma RowPixel(row: seq<nat>, data: seq<nat>, w: nat, j: nat, pal: seq<nat>, u: nat)
    requires IsRow(row, data, w, j) && u < w && forall v :: v in row ==> v in pal
    ensures Indices(row, pal)[u] < |pal| && pal[Indices(row, pal)[u]] == FlatAt(data, w, u, j)
  {
    assert row[u] in row;
  }

  /** The pixels of a row. */
  method HandleRow(fb: Frame, s: Bytestring, start: nat, r: Rect, j: nat, b: Bits, palette: seq<nat>, ghost row: seq<nat>, ghost data: seq<nat>, ghost was: Picture)
    returns (next: nat)
    requires RectOnScreen(fb, r) && j < r.y2 - r.y1 && IsRow(row, data, r.x2 - r.x1, j) && forall v :: v in row ==> v in palette
    requires AllBelow(Indices(row, palette), b) && At(s, start, Packed(Indices(row, palette), b))
    requires ShowsFlat(Shown(fb), was, r, data, 0, j)
    modifies fb
    ensures next == start + |Packed(Indices(row, palette), b)| && ShowsFlat(Shown(fb), was, r, data, 0, j + 1)
  {
    hide ShowsFlat;
    hide Shown;
    hide FlatAt;
    hide RowReading;
    hide Extract;
    hide Packed;
    hide IsRow;
    hide AllBelow;
    ghost var idx, full := Indices(row, palette), 0;
    var w: nat := r.x2 - r.x1;
    RowWidth(row, data, w, j);
    ReadingStarts(s, idx, b, start);
    hide Indices;
    var shift: int, i: nat := 8 - b, 0;
    next := start;
    while i < w
      invariant i <= w && RowReading(s, idx, b, full, i, next, shift, start) && ShowsFlat(Shown(fb), was, r, data, i, j)
    {
      ReadingPixel(s, idx, b, full, i, next, shift, start);
      ReadingNext(s, idx, b, full, i, next, shift, start);
      RowPixel(row, data, w, j, palette, i);
      PaintPixel(fb, r, i, j, palette[Extract(s[next], shift, b)], data, was);
      i := i + 1;
      shift := shift - b;
      if shift < 0 {
        shift, full := 8 - b, i;
        next := next + 1;
      }
    }
    ReadingEnds(s, idx, b, full, next, shift, start);
    if shift < 8 - b {
      next := next + 1;
    }
    RowPainted(Shown(fb), was, r, data, j);
  }

  lemma RowWidth(row: seq<nat>, data: seq<nat>, w: nat, j: nat)
    requires IsRow(row, data, w, j)
    ensures |row| == w
  {
  }

  lemma RowOfRest(data: seq<nat>, w: nat, h: nat, j: nat, rest: seq<nat>)
    requires |data| == h * w && j < h && |rest| == (h - j) * w && rest == data[|data| - |rest|..]
    ensures w <= |rest| && IsRow(rest[..w], data, w, j)
  {
    RowsLeft(h, j, w);
    assert forall u :: 0 <= u < w ==> rest[..w][u] == data[j * w + u];
  }

  lemma RowsLeft(h: nat, j: nat, w: nat)
    requires j < h
    ensures (h - j) * w == h * w - j * w && w <= (h - j) * w && 0 <= j * w <= h * w - w
  {
    RowAfter(h - j - 1, w);
    assert (h - j) * w + j * w == h * w;
  }

  /** The packed rows. */
  method HandlePacked(fb: Frame, s: Bytestring, start: nat, r: Rect, w: nat, h: nat, palette: seq<nat>, ghost data: seq<nat>, ghost was: Picture)
    returns (next: nat)
    requires RectOnScreen(fb, r) && w == r.x2 - r.x1 && h == r.y2 - r.y1
    requires |data| == h * w && 2 <= |palette| <= 16 && forall v :: v in data ==> v in palette
    requires At(s, start, RowsBytes(data, w, h, palette)) && ShowsFlat(Shown(fb), was, r, data, 0, 0)
    modifies fb
    ensures next == start + |RowsBytes(data, w, h, palette)| && ShowsFlat(Shown(fb), was, r, data, 0, h)
  {
    hide ShowsFlat;
    hide Shown;
    hide IsRow;
    hide Indices;
    hide AllBelow;
    hide Packed;
    hide RowsBytes;
    var bpp: Bits := if |palette| > 4 then 4 else if |palette| > 2 then 2 else 1;
    ghost var rest := data;
    next := start;
    for j := 0 to h
      invariant |rest| == (h - j) * w <= |data| && rest == data[|data| - |rest|..] && forall v :: v in rest ==> v in palette
      invariant At(s, next, RowsBytes(rest, w, h - j, palette)) && ShowsFlat(Shown(fb), was, r, data, 0, j)
      invariant next + |RowsBytes(rest, w, h - j, palette)| == start + |RowsBytes(data, w, h, palette)|
    {
      RowOfRest(data, w, h, j, rest);
      NextRow(rest, w, h - j, palette);
      assert forall v :: v in rest[..w] ==> v in rest;
      AtConcat(s, next, Packed(Indices(rest[..w], palette), bpp), RowsBytes(rest[w..], w, h - j - 1, palette));
      next := HandleRow(fb, s, next, r, j, bpp, palette, rest[..w], data, was);
      rest := rest[w..];
    }
    NoPackedRows(w, palette);
    assert rest == [];
  }

  // ---------------------------------------------------------------- a tile

  method ReadPalette(s: Bytestring, i: nat, n: nat, d: Depth, ghost pal: seq<nat>) returns (palette: seq<nat>)
    requires n == |pal| && AllPixels(pal, d) && At(s, i, PixelsBytes(pal, d))
    ensures palette == pal
  {
    hide ReadPixel;
    hide PixelsBytes;
    palette := [];
    for k := 0 to n
      invariant palette == pal[..k]
    {
      PixelOfBytes(s, i, pal, d, k);
      palette := palette + [ReadPixel(s, i + k * d, d)];
    }
  }

  lemma OffsetIsFlat(u: nat, v: nat, w: nat, d: Depth)
    ensures PixelOffset(u, v, w, d) == (v * w + u) * d
  {
  }

  lemma FlatIndex(u: nat, v: nat, w: nat, h: nat)
    requires u < w && v < h
    ensures v * w + u < h * w
  {
    RowAfter(v, w);
    ProductAtMost(v + 1, h, w);
  }

  /** Raw pixels, read in reading order. */
  lemma RawIsFlat(now: Picture, was: Picture, s: Bytestring, i: nat, r: Rect, d: Depth, data: seq<nat>)
    requires |data| == (r.y2 - r.y1) * (r.x2 - r.x1) && r.x1 <= r.x2 && r.y1 <= r.y2 && AllPixels(data, d) && At(s, i, PixelsBytes(data, d))
    requires ShowsRead(now, was, r, r.y2 - r.y1, s, i, d)
    ensures ShowsFlat(now, was, r, data, 0, r.y2 - r.y1)
  {
    hide ReadPixel;
    hide PixelsBytes;
    hide PixelOffset;
    var w: nat, h: nat := r.x2 - r.x1, r.y2 - r.y1;
    forall p
      ensures now(p) == if Painted(p, r, 0, h) then FlatAt(data, w, p.x - r.x1, p.y - r.y1) else was(p)
    {
      assert now(p) == if InRect(p, r) && p.y < r.y1 + h then PixelIn(s, i, r, d, p) else was(p);
      if InRect(p, r) {
        var u: nat, v: nat := p.x - r.x1, p.y - r.y1;
        FlatIndex(u, v, w, h);
        OffsetIsFlat(u, v, w, d);
        PixelOfBytes(s, i, data, d, v * w + u);
      }
    }
  }

  lemma SolidIsFlat(now: Picture, was: Picture, r: Rect, data: seq<nat>, colour: nat)
    requires |data| == (r.y2 - r.y1) * (r.x2 - r.x1) && r.x1 <= r.x2 && r.y1 <= r.y2 && forall v :: v in data ==> v == colour
    requires ShowsFill(now, was, r, colour)
    ensures ShowsFlat(now, was, r, data, 0, r.y2 - r.y1)
  {
    var w: nat, h: nat := r.x2 - r.x1, r.y2 - r.y1;
    forall p
      ensures now(p) == if Painted(p, r, 0, h) then FlatAt(data, w, p.x - r.x1, p.y - r.y1) else was(p)
    {
      if InRect(p, r) {
        var u: nat, v: nat := p.x - r.x1, p.y - r.y1;
        FlatIndex(u, v, w, h);
        assert data[v * w + u] in data;
      }
    }
  }

  lemma AreaBytes(w: nat, h: nat, d: Depth)
    ensures h * (w * d) == (h * w) * d
  {
  }

  method HandleRawPixels(fb: Frame, s: Bytestring, i: nat, r: Rect, d: Depth, ghost data: seq<nat>) returns (next: nat)
    requires RectOnScreen(fb, r) && |data| == (r.y2 - r.y1) * (r.x2 - r.x1) && AllPixels(data, d) && At(s, i, PixelsBytes(data, d))
    modifies fb
    ensures next == i + |PixelsBytes(data, d)| && ShowsFlat(Shown(fb), old(Shown(fb)), r, data, 0, r.y2 - r.y1)
  {
    hide ShowsRead;
    hide ShowsFlat;
    hide PixelsBytes;
    hide AllPixels;
    var w: nat, h: nat := r.x2 - r.x1, r.y2 - r.y1;
    AreaBytes(w, h, d);
    NothingRead(Shown(fb), r, s, i, d);
    CopyLines(fb, s, i, i, r, 0, h, d, Shown(fb));
    RawIsFlat(Shown(fb), old(Shown(fb)), s, i, r, d, data);
    next := i + h * (w * d);
  }

  /** One colour, if there is room for it before `bufferEnd`. */
  method HandleSolid(fb: Frame, s: Bytestring, i: nat, bufferLength: nat, r: Rect, d: Depth, ghost colour: nat, ghost data: seq<nat>)
    returns (next: nat, result: int)
    requires RectOnScreen(fb, r) && |data| == (r.y2 - r.y1) * (r.x2 - r.x1) && AllPixels([colour], d) && At(s, i, PixelsBytes([colour], d))
    requires (forall v :: v in data ==> v == colour) && 1 + d <= bufferLength
    modifies fb
    ensures result == 0 && next == i + d && ShowsFlat(Shown(fb), old(Shown(fb)), r, data, 0, r.y2 - r.y1)
  {
    hide ShowsFlat;
    hide ShowsFill;
    hide ReadPixel;
    hide PixelsBytes;
    PixelOfBytes(s, i, [colour], d, 0);
    var color := ReadPixel(s, i, d);
    result := if 1 + d > bufferLength then -4 else 0;
    if result == 0 {
      FillRectangle(fb, r.x1, r.y1, r.x2 - r.x1, r.y2 - r.y1, color);
    }
    SolidIsFlat(Shown(fb), old(Shown(fb)), r, data, colour);
    next := i + d;
  }

  /** The parts of a tile. */
  lemma TileAtParts(s: Bytestring, i: nat, m: Mode, data: seq<nat>, w: nat, h: nat, d: Depth)
    requires Legal(m, data, w, h, d) && At(s, i, TileBytes(m, data, w, h, d))
    ensures i < |s| && s[i] == TypeByte(m) && At(s, i + 1, PixelsBytes(m.pal, d))
    ensures At(s, i + 1 + |m.pal| * d, Body(m, data, w, h, d))
    ensures |TileBytes(m, data, w, h, d)| == 1 + |m.pal| * d + |Body(m, data, w, h, d)|
  {
    hide PixelsBytes;
    hide Body;
    AtConcat(s, i, [TypeByte(m)] + PixelsBytes(m.pal, d), Body(m, data, w, h, d));
    AtConcat(s, i, [TypeByte(m)], PixelsBytes(m.pal, d));
    AtIndex(s, i, [TypeByte(m)], 0);
  }

  lemma OneColour(m: Mode, data: seq<nat>, w: nat, h: nat, d: Depth)
    requires Legal(m, data, w, h, d) && |m.pal| == 1
    ensures m.pal == [m.pal[0]] && AllPixels([m.pal[0]], d) && forall v :: v in data ==> v == m.pal[0]
  {
  }

  /** What the type byte tells. */
  lemma TileCases(m: Mode, data: seq<nat>, w: nat, h: nat, d: Depth)
    requires Legal(m, data, w, h, d)
    ensures |data| == h * w && AllPixels(data, d) && AllPixels(m.pal, d) && Codable(data, m.pal, d) && TypeByte(m) as int % 128 == |m.pal|
    ensures TypeByte(m) == 0 ==> m.pal == [] && Body(m, data, w, h, d) == PixelsBytes(data, d)
    ensures TypeByte(m) == 1 ==> |m.pal| == 1 && Body(m, data, w, h, d) == []
    ensures 2 <= TypeByte(m) <= 127 ==> 2 <= |m.pal| <= 16 && (forall v :: v in data ==> v in m.pal) && Body(m, data, w, h, d) == RowsBytes(data, w, h, m.pal)
    ensures 128 <= TypeByte(m) ==> Body(m, data, w, h, d) == RunsBytes(data, m.pal, d)
  {
    hide PixelsBytes;
    hide RunsBytes;
    hide RowsBytes;
    hide AllPixels;
  }

  /** How long the parts are. */
  lemma TileSizes(m: Mode, data: seq<nat>, w: nat, h: nat, d: Depth)
    requires Legal(m, data, w, h, d)
    ensures TypeByte(m) != 129 && |TileBytes(m, data, w, h, d)| == 1 + |m.pal| * d + |Body(m, data, w, h, d)|
    ensures 2 <= TypeByte(m) <= 127 ==> |Body(m, data, w, h, d)| == RowSize(w, BitsFor(m.pal)) * h
    ensures 128 <= TypeByte(m) ==> |Body(m, data, w, h, d)| >= 1
  {
    hide PixelsBytes;
    hide RowSize;
    hide AllPixels;
    hide StepBytes;
    ProductNotEmpty(h, w);
    if m.rle {
      StepIsThere(data, m.pal, d);
    }
  }

  lemma ProductNotEmpty(h: nat, w: nat)
    requires h > 0 && w > 0
    ensures h * w > 0
  {
  }

  lemma StepIsThere(data: seq<nat>, pal: seq<nat>, d: Depth)
    requires data != [] && Codable(data, pal, d)
    ensures |StepBytes(data, pal, d)| >= 1
  {
    hide LenBytes;
    hide PixelBytes;
  }

  /** Palette and packed rows, or the palette and runs, behind the type. */
  method HandlePaletted(fb: Frame, s: Bytestring, i: nat, bufferLength: nat, r: Rect, d: Depth, ghost m: Mode, ghost data: seq<nat>)
    returns (next: nat, result: int)
    requires RectOnScreen(fb, r) && r.x1 < r.x2 && r.y1 < r.y2 && Legal(m, data, r.x2 - r.x1, r.y2 - r.y1, d)
    requires At(s, i, TileBytes(m, data, r.x2 - r.x1, r.y2 - r.y1, d)) && TypeByte(m) >= 2
    requires |TileBytes(m, data, r.x2 - r.x1, r.y2 - r.y1, d)| <= bufferLength && i + bufferLength <= |s|
    modifies fb
    ensures result == 0 && next == i + |TileBytes(m, data, r.x2 - r.x1, r.y2 - r.y1, d)|
    ensures ShowsFlat(Shown(fb), old(Shown(fb)), r, data, 0, r.y2 - r.y1)
  {
    hide ShowsFlat;
    hide PixelsBytes;
    hide RunsBytes;
    hide RowsBytes;
    hide TileBytes;
    hide TypeByte;
    hide Body;
    hide Legal;
    hide Codable;
    hide AllPixels;
    hide RowSize;
    hide Shown;
    var w: nat, h: nat := r.x2 - r.x1, r.y2 - r.y1;
    TileCases(m, data, w, h, d);
    TileAtParts(s, i, m, data, w, h, d);
    TileSizes(m, data, w, h, d);
    NothingPainted(Shown(fb), r, data);
    var tileType, buffer := s[i], i + 1;
    var n := tileType as int % 128;
    next := i;
    if tileType <= 127 {
      result := if 1 + n * d + RowSize(w, if n > 4 then 4 else if n > 2 then 2 else 1) * h > bufferLength then -5 else 0;
    } else if tileType == 128 {
      result := 0;
    } else if tileType == 129 {
      result := -8;
    } else {
      result := if 2 + n * d > bufferLength then -9 else 0;
    }
    if result == 0 {
      var palette := ReadPalette(s, buffer, n, d, m.pal);
      buffer := buffer + n * d;
      if tileType <= 127 {
        next := HandlePacked(fb, s, buffer, r, w, h, palette, data, Shown(fb));
      } else {
        next, result := HandleRuns(fb, s, buffer, i + bufferLength, r, d, palette, data, Shown(fb));
      }
    }
  }

  /**
   * `HandleZRLETile` on a buffer that holds the whole tile: none of the tests for its end fires,
   * exactly the bytes of the tile are used up, and it shows its pixels.
   */
  method HandleZRLETile(fb: Frame, s: Bytestring, i: nat, bufferLength: nat, r: Rect, d: Depth, ghost m: Mode, ghost data: seq<nat>)
    returns (result: int)
    requires RectOnScreen(fb, r) && r.x1 < r.x2 && r.y1 < r.y2 && Legal(m, data, r.x2 - r.x1, r.y2 - r.y1, d)
    requires At(s, i, TileBytes(m, data, r.x2 - r.x1, r.y2 - r.y1, d))
    requires |TileBytes(m, data, r.x2 - r.x1, r.y2 - r.y1, d)| <= bufferLength && i + bufferLength <= |s|
    modifies fb
    ensures result == |TileBytes(m, data, r.x2 - r.x1, r.y2 - r.y1, d)| > 0
    ensures ShowsFlat(Shown(fb), old(Shown(fb)), r, data, 0, r.y2 - r.y1)
  {
    hide ShowsFlat;
    hide PixelsBytes;
    hide RunsBytes;
    hide RowsBytes;
    hide TileBytes;
    hide TypeByte;
    hide Body;
    hide Legal;
    hide Codable;
    hide AllPixels;
    hide Shown;
    TileCases(m, data, r.x2 - r.x1, r.y2 - r.y1, d);
    TileAtParts(s, i, m, data, r.x2 - r.x1, r.y2 - r.y1, d);
    TileSizes(m, data, r.x2 - r.x1, r.y2 - r.y1, d);
    if bufferLength < 1 {
      result := -2;
    } else {
      var tileType, next := s[i], i;
      result := 0;
      if tileType == 0 {
        next := HandleRawPixels(fb, s, i + 1, r, d, data);
      } else if tileType == 1 {
        OneColour(m, data, r.x2 - r.x1, r.y2 - r.y1, d);
        next, result := HandleSolid(fb, s, i + 1, bufferLength, r, d, m.pal[0], data);
      } else {
        next, result := HandlePaletted(fb, s, i, bufferLength, r, d, m, data);
      }
      if result == 0 {
        result := next - i;
      }
    }
  }
}
