/** The server's tile encoder. */
module ZrleEncode {
  import opened Bytes
  import opened Palette
  import opened Pixels
  import opened ZrleChoice
  import opened ZrleFormat
  import opened ZrlePacking

  // ---------------------------------------------------------------- counting runs

  /** The buffer has one pixel more than the tile, different from the last, so that the loops end. */
  predicate HasSentinel(buf: seq<nat>, n: nat) {
    |buf| == n + 1 && (n > 0 ==> buf[n] != buf[n - 1])
  }

  /** The end of the run at `start`, as the counting loop finds it. */
  method RunEnd(buf: seq<nat>, start: nat, ghost n: nat) returns (ptr: nat, single: bool)
    requires HasSentinel(buf, n) && start < n
    ensures start < ptr <= n && ptr - start == RunLength(buf[start..n]) && (single <==> ptr == start + 1)
  {
    var pix := buf[start];
    ptr := start + 1;
    single := buf[ptr] != pix;
    if !single {
      ptr := ptr + 1;
      while buf[ptr] == pix
        invariant start + 1 < ptr <= n && forall k :: start <= k < ptr ==> buf[k] == pix
        decreases n - ptr
      {
        ptr := ptr + 1;
      }
    }
    RunLengthIs(buf[start..n], ptr - start);
  }

  /**
   * Everything looked at is in the palette, if it is still small enough, and nothing else is. It
   * is not once another run comes when it is full.
   */
  ghost predicate Collected(size: nat, colours: seq<nat>, data: seq<nat>) {
    Distinct(colours) && (forall c :: c in colours ==> c in data) && (data != [] ==> size > 0) &&
    if size <= ZRLE_PALETTE_MAX_SIZE
    then |colours| == size && (forall v :: v in data ==> v in colours) && (size == ZRLE_PALETTE_MAX_SIZE ==> !Recurs(data))
    else |colours| == ZRLE_PALETTE_MAX_SIZE && ((forall v :: v in data ==> v in colours) ==> Recurs(data))
  }

  /** The palette is in use exactly if it took all the colours. */
  lemma CollectedCount(size: nat, colours: seq<nat>, data: seq<nat>)
    requires Collected(size, colours, data)
    ensures size <= ZRLE_PALETTE_MAX_SIZE <==> PaletteFits(data)
    ensures if size <= ZRLE_PALETTE_MAX_SIZE then ColourCount(data) == size else ColourCount(data) >= ZRLE_PALETTE_MAX_SIZE
  {
    DistinctCount(colours);
    FewerColours(colours, data);
    if forall v :: v in data ==> v in colours {
      FewerColours(data, colours);
    } else {
      var v :| v in data && v !in colours;
      assert v in ColoursOf(data) && v !in ColoursOf(colours);
    }
  }

  /** What the next run does to the list, and to the count. */
  ghost predicate RunInserted(size: nat, colours: seq<nat>, size': nat, colours': seq<nat>, v: nat) {
    if size >= ZRLE_PALETTE_MAX_SIZE then size' == size + 1 && colours' == colours
    else size' == |colours'| && colours' == if v in colours then colours else colours + [v]
  }

  /** A run whose colour was there before, and which another came in front of. */
  lemma ColourRecurs(data: seq<nat>, start: nat, ptr: nat)
    requires start < ptr <= |data| && (forall k :: start <= k < ptr ==> data[k] == data[start])
    requires data[start] in data[..start] && data[start - 1] != data[start]
    ensures Recurs(data[..ptr])
  {
    var d := data[..ptr];
    var i :| 0 <= i < start && data[i] == data[start];
    assert d[i] == d[|d| - 1] != d[start - 1];
  }

  /** A run whose colour was not there before. */
  lemma ColourIsNew(data: seq<nat>, start: nat, ptr: nat)
    requires start < ptr <= |data| && (forall k :: start <= k < ptr ==> data[k] == data[start])
    requires data[start] !in data[..start]
    ensures !Recurs(data[..ptr])
  {
    var d := data[..ptr];
    assert d[|d| - 1] == data[start];
    assert forall i :: 0 <= i < start ==> data[..start][i] == d[i] != data[start];
  }

  lemma AndTheRun(data: seq<nat>, start: nat, ptr: nat, v: nat)
    requires start < ptr <= |data| && forall k :: start <= k < ptr ==> data[k] == data[start]
    ensures v in data[..ptr] <==> v in data[..start] || v == data[start]
  {
    if v in data[..ptr] {
      var k :| 0 <= k < ptr && data[k] == v;
      assert k < start ==> data[..start][k] == v;
    }
    if v in data[..start] {
      var k :| 0 <= k < start && data[k] == v;
      assert data[..ptr][k] == v;
    }
    assert data[..ptr][start] == data[start];
  }

  lemma CollectedMore(size: nat, colours: seq<nat>, size': nat, colours': seq<nat>, data: seq<nat>, start: nat, ptr: nat)
    requires start < ptr <= |data| && Collected(size, colours, data[..start])
    requires (forall k :: start <= k < ptr ==> data[k] == data[start]) && (start > 0 ==> data[start - 1] != data[start])
    requires RunInserted(size, colours, size', colours', data[start])
    ensures Collected(size', colours', data[..ptr])
  {
    hide Recurs;
    forall v
      ensures v in data[..ptr] <==> v in data[..start] || v == data[start]
    {
      AndTheRun(data, start, ptr, v);
    }
    if data[start] in data[..start] {
      ColourRecurs(data, start, ptr);
    } else {
      ColourIsNew(data, start, ptr);
    }
    assert |data[..ptr]| > 0;
  }

  /** The colour of a run goes into the palette. */
  method Collect(ph: PaletteHelper, buf: seq<nat>, start: nat, ghost ptr: nat, ghost n: nat)
    requires n <= |buf| && start < ptr <= n && ptr - start == RunLength(buf[start..n]) && buf[start] < 0x1_0000_0000
    requires start > 0 ==> buf[start - 1] != buf[start]
    requires ph.Valid() && Collected(ph.size, ph.Colours(), buf[..start])
    modifies ph, ph.palette, ph.index, ph.key
    ensures ph.Valid() && Collected(ph.size, ph.Colours(), buf[..ptr]) && (ptr < n ==> buf[ptr - 1] != buf[ptr])
  {
    hide PaletteHelper.Valid;
    hide Collected;
    SizeIsLength(ph);
    ghost var size, colours := ph.size, ph.Colours();
    ph.Insert(buf[start]);
    forall k | start <= k < ptr
      ensures buf[k] == buf[start]
    {
      assert buf[start..n][k - start] == buf[start..n][0];
    }
    assert ptr < n ==> buf[start..n][ptr - start] == buf[ptr];
    SizeIsLength(ph);
    CollectedMore(size, colours, ph.size, ph.Colours(), buf, start, ptr);
  }

  lemma SizeIsLength(ph: PaletteHelper)
    requires ph.Valid()
    ensures |ph.Colours()| == if ph.size < ZRLE_PALETTE_MAX_SIZE then ph.size else ZRLE_PALETTE_MAX_SIZE
  {
  }

  lemma CountNext(data: seq<nat>, start: nat, ptr: nat)
    requires start < ptr <= |data| && ptr - start == RunLength(data[start..])
    ensures var now, rest := CountRuns(data[start..]), CountRuns(data[ptr..]);
            now == if ptr == start + 1 then rest.(singlePixels := rest.singlePixels + 1) else rest.(runs := rest.runs + 1)
  {
    assert data[start..][ptr - start..] == data[ptr..];
  }

  /** The first pass: the palette and the number of runs. */
  method Scan(buf: seq<nat>, n: nat, ph: PaletteHelper, d: Depth) returns (runs: nat, singlePixels: nat)
    requires HasSentinel(buf, n) && AllPixels(buf[..n], d) && ph.Valid() && ph.size == 0 && ph.Colours() == []
    modifies ph, ph.palette, ph.index, ph.key
    ensures ph.Valid() && Counts(runs, singlePixels) == CountRuns(buf[..n]) && Collected(ph.size, ph.Colours(), buf[..n])
  {
    hide PaletteHelper.Valid;
    hide PaletteHelper.Colours;
    hide Collected;
    hide CountRuns;
    ghost var data := buf[..n];
    NothingYet(data);
    var ptr: nat := 0;
    runs, singlePixels := 0, 0;
    while ptr < n
      invariant ptr <= n && ph.Valid() && Collected(ph.size, ph.Colours(), buf[..ptr]) && (0 < ptr < n ==> buf[ptr - 1] != buf[ptr])
      invariant var rest := CountRuns(data[ptr..]); Counts(runs + rest.runs, singlePixels + rest.singlePixels) == CountRuns(data)
      decreases n - ptr
    {
      var start := ptr;
      var single;
      ptr, single := RunEnd(buf, start, n);
      assert buf[start..n] == data[start..];
      CountNext(data, start, ptr);
      if single {
        singlePixels := singlePixels + 1;
      } else {
        runs := runs + 1;
      }
      assert buf[start] in data by {
        assert data[start] == buf[start];
      }
      Collect(ph, buf, start, ptr, n);
    }
    assert data[n..] == [];
  }

  lemma NothingYet(data: seq<nat>)
    ensures Collected(0, [], data[..0]) && data[0..] == data && CountRuns([]) == Counts(0, 0)
  {
  }

  // ---------------------------------------------------------------- choosing a mode

  /** The modes that can be considered at all, by the palette's count. */
  predicate Possible(rle: bool, palette: bool, size: nat) {
    palette ==> if rle then size < 128 else 0 < size < 17
  }

  /** Cheapest of the four. */
  lemma Cheapest(e: nat, w: nat, h: nat, d: Depth, size: nat, c: Counts)
    requires size > 0 && e <= Estimate(false, false, w, h, d, size, c) && e <= Estimate(true, false, w, h, d, size, c)
    requires size < 128 ==> e <= Estimate(true, true, w, h, d, size, c)
    requires size < 17 ==> e <= Estimate(false, true, w, h, d, size, c)
    ensures forall r, p :: Possible(r, p, size) ==> e <= Estimate(r, p, w, h, d, size, c)
  {
  }

  /** The cheapest possible mode by the estimates; raw unless another is strictly cheaper. */
  method Choose(w: nat, h: nat, d: Depth, size: nat, c: Counts) returns (useRle: bool, usePalette: bool, estimatedBytes: nat)
    requires size > 0
    ensures Possible(useRle, usePalette, size) && estimatedBytes == Estimate(useRle, usePalette, w, h, d, size, c)
    ensures forall r, p :: Possible(r, p, size) ==> estimatedBytes <= Estimate(r, p, w, h, d, size, c)
    ensures useRle || usePalette ==> estimatedBytes < Estimate(false, false, w, h, d, size, c)
  {
    hide Estimate;
    useRle, usePalette := false, false;
    var rawBytes, plainRleBytes := Estimate(false, false, w, h, d, size, c), Estimate(true, false, w, h, d, size, c);
    estimatedBytes := rawBytes;
    if plainRleBytes < estimatedBytes {
      useRle := true;
      estimatedBytes := plainRleBytes;
    }
    if size < 128 {
      var paletteRleBytes := Estimate(true, true, w, h, d, size, c);
      if paletteRleBytes < estimatedBytes {
        useRle, usePalette := true, true;
        estimatedBytes := paletteRleBytes;
      }
      if size < 17 {
        var packedBytes := Estimate(false, true, w, h, d, size, c);
        if packedBytes < estimatedBytes {
          useRle, usePalette := false, true;
          estimatedBytes := packedBytes;
        }
      }
    }
    Cheapest(estimatedBytes, w, h, d, size, c);
  }

  lemma PossibleIsConsidered(size: nat, colours: seq<nat>, data: seq<nat>, rle: bool, palette: bool, w: nat, h: nat, d: Depth)
    requires Collected(size, colours, data) && size > 0
    ensures Possible(rle, palette, size) <==> Considered(rle, palette, data)
    ensures Considered(rle, palette, data) ==>
              Estimate(rle, palette, w, h, d, size, CountRuns(data)) == Expected(rle, palette, data, w, h, d)
  {
    hide CountRuns;
    hide Collected;
    CollectedCount(size, colours, data);
  }

  /** What is chosen by the palette's count is what is to be chosen for the pixels. */
  lemma ChosenForPixels(size: nat, colours: seq<nat>, data: seq<nat>, w: nat, h: nat, d: Depth, m: Mode, e: nat)
    requires Collected(size, colours, data) && size > 1 && |m.pal| == (if m.pal != [] then size else 0)
    requires Possible(m.rle, m.pal != [], size) && e == Estimate(m.rle, m.pal != [], w, h, d, size, CountRuns(data))
    requires forall r, p :: Possible(r, p, size) ==> e <= Estimate(r, p, w, h, d, size, CountRuns(data))
    requires m.rle || m.pal != [] ==> e < Estimate(false, false, w, h, d, size, CountRuns(data))
    ensures IsChosen(m, data, w, h, d)
  {
    hide CountRuns;
    hide Collected;
    hide Estimate;
    hide Possible;
    hide Considered;
    hide Expected;
    CollectedCount(size, colours, data);
    forall r, p
      ensures Possible(r, p, size) <==> Considered(r, p, data)
      ensures Possible(r, p, size) && p && !r ==> 0 < size <= 16
      ensures Possible(r, p, size) ==> Estimate(r, p, w, h, d, size, CountRuns(data)) == Expected(r, p, data, w, h, d)
    {
      PossibleHasEstimate(r, p, size);
      PossibleIsConsidered(size, colours, data, r, p, w, h, d);
    }
    assert Considered(false, false, data) by {
      NoPaletteIsConsidered(data);
    }
    PaletteIsUsed(size, data, m);
  }

  lemma PossibleHasEstimate(rle: bool, palette: bool, size: nat)
    ensures Possible(rle, palette, size) && palette && !rle ==> 0 < size <= 16
  {
  }

  lemma NoPaletteIsConsidered(data: seq<nat>)
    ensures Considered(false, false, data)
  {
  }

  lemma PaletteIsUsed(size: nat, data: seq<nat>, m: Mode)
    requires m.pal != [] ==> Considered(m.rle, true, data) && |m.pal| == size
    requires if size <= ZRLE_PALETTE_MAX_SIZE then ColourCount(data) == size else ColourCount(data) >= ZRLE_PALETTE_MAX_SIZE
    requires (size <= ZRLE_PALETTE_MAX_SIZE <==> PaletteFits(data)) && size > 1
    ensures ColourCount(data) != 1 && (m.pal != [] ==> |m.pal| == ColourCount(data))
  {
  }

  // ---------------------------------------------------------------- run lengths

  lemma {:induction false} IndexOfDistinct(pal: seq<nat>, r: nat)
    requires Distinct(pal) && r < |pal|
    ensures IndexOf(pal, pal[r]) == r
  {
    if r > 0 {
      IndexOfDistinct(pal[1..], r - 1);
    }
  }

  /** What the encoder asks of the palette when it uses it. */
  ghost predicate Looks(ph: PaletteHelper, pal: seq<nat>)
    reads ph, ph.palette, ph.index, ph.key
  {
    ph.Valid() && ph.size <= ZRLE_PALETTE_MAX_SIZE && pal == ph.Colours() && |pal| <= ZRLE_PALETTE_MAX_SIZE
  }

  method IndexOfPixel(ph: PaletteHelper, v: nat, ghost pal: seq<nat>) returns (index: byte)
    requires Looks(ph, pal) && v in pal && v < 0x1_0000_0000
    ensures index < 128 && index == IndexOf(pal, v)
  {
    var r := ph.Lookup(v);
    IndexOfDistinct(pal, r);
    index := r;
  }

  /** The length of a run beyond its first pixel. */
  method PutLength(n: nat) returns (out: Bytestring)
    ensures out == LenBytes(n)
  {
    var len := n;
    out := [];
    while len >= 255
      invariant out + LenBytes(len) == LenBytes(n)
    {
      out := out + [255];
      len := len - 255;
    }
    out := out + [len];
  }

  /** One run. */
  method PutCode(v: nat, len: nat, usePalette: bool, ph: PaletteHelper, d: Depth, ghost pal: seq<nat>) returns (out: Bytestring)
    requires len > 0 && IsPixel(v, d) && |pal| <= 127 && (if usePalette then Looks(ph, pal) && v in pal else pal == [])
    ensures out == CodeBytes(v, len, pal, d)
  {
    hide Looks;
    hide PixelBytes;
    hide LenBytes;
    if len <= 2 && usePalette {
      var index := IndexOfPixel(ph, v, pal);
      out := [];
      if len == 2 {
        out := out + [index];
      }
      out := out + [index];
      return;
    }
    if usePalette {
      var index := IndexOfPixel(ph, v, pal);
      out := [index + 128];
    } else {
      out := PixelBytes(v, d);
    }
    var rest := PutLength(len - 1);
    out := out + rest;
  }

  /** The end of the run at `start`, as the writing loop finds it. */
  method NextRun(buf: seq<nat>, start: nat, n: nat) returns (ptr: nat)
    requires HasSentinel(buf, n) && start < n
    ensures start < ptr <= n && ptr - start == RunLength(buf[start..n])
  {
    var pix := buf[start];
    ptr := start + 1;
    while buf[ptr] == pix && ptr < n
      invariant start < ptr <= n && forall k :: start <= k < ptr ==> buf[k] == pix
    {
      ptr := ptr + 1;
    }
    RunLengthIs(buf[start..n], ptr - start);
  }

  lemma CodableRest(data: seq<nat>, pal: seq<nat>, d: Depth, i: nat)
    requires Codable(data, pal, d) && i <= |data|
    ensures Codable(data[i..], pal, d)
    ensures i < |data| ==> IsPixel(data[i], d) && (pal != [] ==> data[i] in pal)
  {
  }

  lemma SlicesAgree(buf: seq<nat>, n: nat, i: nat, j: nat)
    requires i <= j <= n <= |buf|
    ensures buf[i..n] == buf[..n][i..] && buf[..n][i..][j - i..] == buf[..n][j..]
  {
  }

  /** The loop over the runs. */
  method PutRuns(buf: seq<nat>, n: nat, usePalette: bool, ph: PaletteHelper, d: Depth, ghost pal: seq<nat>) returns (out: Bytestring)
    requires HasSentinel(buf, n) && Codable(buf[..n], pal, d) && (if usePalette then Looks(ph, pal) && pal != [] else pal == [])
    ensures out == RunsBytes(buf[..n], pal, d)
  {
    hide Looks;
    hide Codable;
    hide RunsBytes;
    hide CodeBytes;
    hide HasSentinel;
    Sizes(buf, n, pal, d);
    ghost var data := buf[..n];
    var ptr: nat := 0;
    out := [];
    CodableRest(data, pal, d, 0);
    assert data[0..] == data;
    while ptr < n
      invariant ptr <= n && Codable(data[ptr..], pal, d) && out + RunsBytes(data[ptr..], pal, d) == RunsBytes(data, pal, d)
    {
      var start := ptr;
      ptr := NextRun(buf, start, n);
      SlicesAgree(buf, n, start, ptr);
      CodableRest(data, pal, d, start);
      CodableRest(data, pal, d, ptr);
      NextCode(data[start..], pal, d);
      var code := PutCode(buf[start], ptr - start, usePalette, ph, d, pal);
      out := out + code;
    }
    NoRuns(pal, d);
    assert data[n..] == [];
  }

  lemma Sizes(buf: seq<nat>, n: nat, pal: seq<nat>, d: Depth)
    requires HasSentinel(buf, n) && Codable(buf[..n], pal, d)
    ensures n <= |buf| && |pal| <= 127
  {
  }

  // ---------------------------------------------------------------- packed pixels

  /** A byte is full. */
  lemma NextByte(idx: seq<nat>, full: nat, i: nat, b: Bits, acc: byte)
    requires full < i <= |idx| && b * (i - full) == 8 && AllBelow(idx, b) && Holds(acc, idx[full..i], b)
    ensures Packed(idx[full..], b) == [acc] + Packed(idx[i..], b)
  {
    hide Value;
    hide Pow2;
    hide PackedByte;
    assert i - full == PerByte(b);
    var rest := idx[full..];
    assert rest[..PerByte(b)] == idx[full..i] && rest[PerByte(b)..] == idx[i..];
    assert i == |idx| ==> rest == idx[full..i] && idx[i..] == [];
    FullByte(acc, idx[full..i], b);
  }

  lemma PackedEnd(idx: seq<nat>, b: Bits)
    requires AllBelow(idx, b) && |idx| <= PerByte(b)
    ensures b * |idx| <= 8 && Packed(idx, b) == if idx == [] then [] else [PackedByte(idx, b)]
  {
    hide PackedByte;
    hide PerByte;
    BitsFit(b, |idx|);
  }

  lemma BitsFit(b: Bits, n: nat)
    requires n <= PerByte(b)
    ensures b * n <= 8
  {
  }

  lemma FewBits(b: Bits, n: nat)
    requires b * n < 8
    ensures n <= PerByte(b) && (b * n == 0 <==> n == 0)
  {
  }

  /** The row ends within a byte. */
  lemma RowEnds(idx: seq<nat>, full: nat, b: Bits, acc: byte)
    requires full <= |idx| && b * (|idx| - full) < 8 && AllBelow(idx, b) && Holds(acc, idx[full..], b)
    ensures full == |idx| ==> Packed(idx[full..], b) == []
    ensures full < |idx| ==> Packed(idx[full..], b) == [(acc as int * Pow2(8 - b * (|idx| - full))) % 256]
  {
    hide Holds;
    hide Packed;
    hide PerByte;
    hide PackedByte;
    hide Pow2;
    FewBits(b, |idx| - full);
    PackedEnd(idx[full..], b);
    LastByte(acc, idx[full..], b);
  }

  /** Whatever is left in the accumulator is no longer of interest. */
  lemma NothingLeft(acc: byte, b: Bits)
    ensures Holds(acc, [], b)
  {
  }

  /** After `ptr` pixels of a row, of which those from `full` on are still in the accumulator. */
  ghost predicate RowState(idx: seq<nat>, b: Bits, full: nat, ptr: nat, acc: byte, nbits: nat, out: Bytestring) {
    AllBelow(idx, b) && full <= ptr <= |idx| && Holds(acc, idx[full..ptr], b) && nbits == b * (ptr - full) < 8 &&
    out + Packed(idx[full..], b) == Packed(idx, b)
  }

  lemma RowStarts(idx: seq<nat>, b: Bits)
    requires AllBelow(idx, b)
    ensures RowState(idx, b, 0, 0, 0, 0, [])
  {
    assert idx[0..] == idx;
  }

  lemma OneMoreHeld(idx: seq<nat>, b: Bits, full: nat, ptr: nat, acc: byte)
    requires full <= ptr < |idx| && AllBelow(idx, b) && Holds(acc, idx[full..ptr], b) && b * (ptr - full) < 8
    ensures Holds(Shift(acc, idx[ptr], b), idx[full..ptr + 1], b) && b * (ptr + 1 - full) == b * (ptr - full) + b <= 8
  {
    hide Holds;
    hide Shift;
    assert idx[full..ptr] + [idx[ptr]] == idx[full..ptr + 1];
    WholeBits(b, ptr - full);
    ShiftHolds(acc, idx[full..ptr], b, idx[ptr]);
  }

  /** What is below a byte leaves room for one more. */
  lemma WholeBits(b: Bits, n: nat)
    requires b * n < 8
    ensures b * (n + 1) == b * n + b <= 8
  {
  }

  /** One more pixel, which may complete a byte. */
  lemma RowStep(idx: seq<nat>, b: Bits, full: nat, ptr: nat, acc: byte, nbits: nat, out: Bytestring)
    requires RowState(idx, b, full, ptr, acc, nbits, out) && ptr < |idx|
    ensures var acc' := Shift(acc, idx[ptr], b);
            if nbits + b >= 8 then RowState(idx, b, ptr + 1, ptr + 1, acc', 0, out + [acc'])
            else RowState(idx, b, full, ptr + 1, acc', nbits + b, out)
  {
    hide Holds;
    hide Shift;
    hide Packed;
    hide Pow2;
    var acc' := Shift(acc, idx[ptr], b);
    OneMoreHeld(idx, b, full, ptr, acc);
    if nbits + b >= 8 {
      NextByte(idx, full, ptr + 1, b, acc');
      NothingLeft(acc', b);
      assert idx[ptr + 1..ptr + 1] == [];
    }
  }

  lemma RowFinish(idx: seq<nat>, b: Bits, full: nat, acc: byte, nbits: nat, out: Bytestring)
    requires RowState(idx, b, full, |idx|, acc, nbits, out)
    ensures out + (if nbits > 0 then [(acc as int * Pow2(8 - nbits)) % 256] else []) == Packed(idx, b)
  {
    hide RowState;
    hide Packed;
    hide Pow2;
    hide AllBelow;
    RowHeld(idx, b, full, acc, nbits, out);
    RowEnds(idx, full, b, acc);
  }

  lemma RowHeld(idx: seq<nat>, b: Bits, full: nat, acc: byte, nbits: nat, out: Bytestring)
    requires RowState(idx, b, full, |idx|, acc, nbits, out)
    ensures full <= |idx| && AllBelow(idx, b) && AllBelow(idx[full..], b) && Holds(acc, idx[full..], b)
    ensures nbits == b * (|idx| - full) < 8 && (nbits == 0 <==> full == |idx|) && out + Packed(idx[full..], b) == Packed(idx, b)
  {
    hide Holds;
    hide Packed;
    assert idx[full..|idx|] == idx[full..];
    FewBits(b, |idx| - full);
  }

  /** Every pixel of the row has an index that fits. */
  ghost predicate RowOk(row: seq<nat>, pal: seq<nat>, b: Bits) {
    2 <= |pal| <= 16 && b == BitsFor(pal) && forall v :: v in row ==> v in pal && v < 0x1_0000_0000
  }

  lemma RowIndex(row: seq<nat>, pal: seq<nat>, b: Bits, i: nat)
    requires RowOk(row, pal, b) && i < |row|
    ensures row[i] in pal && row[i] < 0x1_0000_0000
    ensures AllBelow(Indices(row, pal), b) && Indices(row, pal)[i] == IndexOf(pal, row[i]) && IndexOf(pal, row[i]) < Pow2(b)
  {
    IndicesFit(row, pal);
  }

  /** The pixels of a row. */
  method PutRow(row: seq<nat>, ph: PaletteHelper, bppp: Bits, ghost pal: seq<nat>) returns (out: Bytestring)
    requires Looks(ph, pal) && RowOk(row, pal, bppp) && row != []
    ensures AllBelow(Indices(row, pal), bppp) && out == Packed(Indices(row, pal), bppp)
  {
    hide Looks;
    hide RowOk;
    hide RowState;
    hide Shift;
    hide Pow2;
    hide IndexOf;
    hide Packed;
    KnownColours(row, pal, bppp);
    RowIndex(row, pal, bppp, 0);
    ghost var idx, full := Indices(row, pal), 0;
    var nbits: nat, acc: byte, ptr: nat := 0, 0, 0;
    out := [];
    RowStarts(idx, bppp);
    while ptr < |row|
      invariant ptr <= |row| && RowState(idx, bppp, full, ptr, acc, nbits, out)
    {
      RowIndex(row, pal, bppp, ptr);
      var index := IndexOfPixel(ph, row[ptr], pal);
      RowStep(idx, bppp, full, ptr, acc, nbits, out);
      acc := Shift(acc, index, bppp);
      ptr := ptr + 1;
      nbits := nbits + bppp;
      if nbits >= 8 {
        out := out + [acc];
        nbits, full := 0, ptr;
      }
    }
    BitsLeft(idx, bppp, full, acc, nbits, out);
    RowFinish(idx, bppp, full, acc, nbits, out);
    if nbits > 0 {
      acc := (acc as int * Pow2(8 - nbits)) % 256;
      out := out + [acc];
    }
  }

  lemma BitsLeft(idx: seq<nat>, b: Bits, full: nat, acc: byte, nbits: nat, out: Bytestring)
    requires RowState(idx, b, full, |idx|, acc, nbits, out)
    ensures nbits < 8
  {
  }

  lemma KnownColours(row: seq<nat>, pal: seq<nat>, b: Bits)
    requires RowOk(row, pal, b)
    ensures forall v :: v in row ==> v in pal
  {
  }

  /** The loop over the rows. */
  method PutRows(data: seq<nat>, w: nat, h: nat, ph: PaletteHelper, ghost pal: seq<nat>) returns (out: Bytestring)
    requires |data| == h * w && w > 0 && Looks(ph, pal) && 2 <= |pal| <= 16 && forall v :: v in data ==> v in pal && v < 0x1_0000_0000
    requires ph.size == |pal|
    ensures out == RowsBytes(data, w, h, pal)
  {
    hide Looks;
    hide RowsBytes;
    hide Packed;
    hide Indices;
    hide AllBelow;
    var bppp: Bits := BitsPerPackedPixel(ph.size);
    var rest := data;
    out := [];
    for i := 0 to h
      invariant |rest| == (h - i) * w && forall v :: v in rest ==> v in pal && v < 0x1_0000_0000
      invariant out + RowsBytes(rest, w, h - i, pal) == RowsBytes(data, w, h, pal)
    {
      NextRow(rest, w, h - i, pal);
      assert forall v :: v in rest[..w] || v in rest[w..] ==> v in rest;
      var row := PutRow(rest[..w], ph, bppp, pal);
      out := out + row;
      rest := rest[w..];
    }
    NoPackedRows(w, pal);
    assert rest == [];
  }

  // ---------------------------------------------------------------- a tile

  method PutPalette(ph: PaletteHelper, n: nat, d: Depth, ghost pal: seq<nat>) returns (out: Bytestring)
    requires Looks(ph, pal) && AllPixels(pal, d) && n == |pal|
    ensures out == PixelsBytes(pal, d)
  {
    hide PixelBytes;
    out := [];
    for i := 0 to n
      invariant AllPixels(pal[..i], d) && out == PixelsBytes(pal[..i], d)
    {
      assert ph.palette[i] == pal[i] && pal[i] in pal;
      assert pal[..i + 1][..i] == pal[..i];
      out := out + PixelBytes(ph.palette[i], d);
    }
    assert pal[..n] == pal;
  }

  method PutPixels(data: seq<nat>, d: Depth) returns (out: Bytestring)
    requires AllPixels(data, d)
    ensures out == PixelsBytes(data, d)
  {
    hide PixelBytes;
    out := [];
    for i := 0 to |data|
      invariant AllPixels(data[..i], d) && out == PixelsBytes(data[..i], d)
    {
      assert data[..i + 1][..i] == data[..i];
      out := out + PixelBytes(data[i], d);
    }
    assert data[..|data|] == data;
  }

  /** The pixels behind type and palette. */
  method PutBody(buf: seq<nat>, w: nat, h: nat, d: Depth, ph: PaletteHelper, useRle: bool, usePalette: bool, ghost m: Mode) returns (out: Bytestring)
    requires HasSentinel(buf, h * w) && Legal(m, buf[..h * w], w, h, d) && m.rle == useRle && |m.pal| != 1
    requires if usePalette then Looks(ph, m.pal) && ph.size == |m.pal| > 1 else m.pal == []
    ensures out == Body(m, buf[..h * w], w, h, d)
  {
    hide Looks;
    hide PixelsBytes;
    hide RunsBytes;
    hide RowsBytes;
    if useRle {
      out := PutRuns(buf, h * w, usePalette, ph, d, m.pal);
    } else if usePalette {
      out := PutRows(buf[..h * w], w, h, ph, m.pal);
    } else {
      out := PutPixels(buf[..h * w], d);
    }
  }

  /** The mode is one the format knows. */
  lemma ModeIsLegal(data: seq<nat>, w: nat, h: nat, d: Depth, rle: bool, usePalette: bool, size: nat, colours: seq<nat>)
    requires |data| == h * w && w > 0 && h > 0 && AllPixels(data, d) && Collected(size, colours, data)
    requires Possible(rle, usePalette, size) && (size == 1 ==> !rle)
    requires size == 1 ==> usePalette
    ensures var m := Mode(rle, if usePalette then colours else []);
            Legal(m, data, w, h, d) && |m.pal| == (if usePalette then size else 0) && size > 0
  {
    assert data != [] by {
      assert h * w >= 1;
    }
  }

  /** The complement of a pixel is not that pixel. */
  lemma SentinelDiffers(data: seq<nat>, d: Depth)
    requires data != [] && AllPixels(data, d)
    ensures var buf := data + [Complement(data[|data| - 1], d)]; HasSentinel(buf, |data|) && buf[..|data|] == data
  {
  }

  function Complement(v: nat, d: Depth): nat
    requires IsPixel(v, d)
  {
    PixelLimit(d) - 1 - v
  }

  /** A tile of one colour. */
  method PutSolid(ghost data: seq<nat>, ghost w: nat, ghost h: nat, d: Depth, ph: PaletteHelper) returns (out: Bytestring, ghost m: Mode)
    requires |data| == h * w && w > 0 && h > 0 && AllPixels(data, d) && ph.Valid() && ph.size == 1 && Collected(ph.size, ph.Colours(), data)
    ensures Legal(m, data, w, h, d) && out == TileBytes(m, data, w, h, d) && |out| <= 2 * (w * h * d) && IsChosen(m, data, w, h, d)
  {
    hide PixelBytes;
    hide Collected;
    CollectedCount(1, ph.Colours(), data);
    ModeIsLegal(data, w, h, d, false, true, 1, ph.Colours());
    m := Mode(false, ph.Colours());
    TileIsShort(m, data, w, h, d, 0);
    assert m.pal[..0] == [] && PixelsBytes(m.pal, d) == PixelBytes(m.pal[0], d);
    out := [1] + PixelBytes(ph.palette[0], d);
  }

  lemma ChosenIsShort(m: Mode, data: seq<nat>, w: nat, h: nat, d: Depth, size: nat, rle: bool, usePalette: bool, estimate: nat, c: Counts)
    requires Legal(m, data, w, h, d) && m.rle == rle && |m.pal| == (if usePalette then size else 0) && size > 1 && c == CountRuns(data)
    requires Possible(rle, usePalette, size) && estimate == Estimate(rle, usePalette, w, h, d, size, c)
    requires rle || usePalette ==> estimate < Estimate(false, false, w, h, d, size, c)
    ensures |TileBytes(m, data, w, h, d)| <= 2 * (w * h * d)
  {
    hide TileBytes;
    hide CountRuns;
    hide Legal;
    TileIsShort(m, data, w, h, d, estimate);
  }

  /** Mode, type, palette and pixels; the source sets the palette's size to nothing when it is not used. */
  method PutTile(buf: seq<nat>, data: seq<nat>, w: nat, h: nat, d: Depth, ph: PaletteHelper, c: Counts) returns (out: Bytestring, ghost m: Mode)
    requires |data| == h * w && w > 0 && h > 0 && AllPixels(data, d) && HasSentinel(buf, h * w) && buf[..h * w] == data
    requires ph.Valid() && ph.size > 1 && Collected(ph.size, ph.Colours(), data) && c == CountRuns(data)
    ensures Legal(m, data, w, h, d) && out == TileBytes(m, data, w, h, d) && |out| <= 2 * (w * h * d) && IsChosen(m, data, w, h, d)
  {
    hide PaletteHelper.Colours;
    hide HasSentinel;
    hide Collected;
    hide CountRuns;
    hide Estimate;
    hide IsChosen;
    hide Body;
    hide PixelsBytes;
    hide AllPixels;
    hide RunsBytes;
    var useRle, usePalette, estimatedBytes := Choose(w, h, d, ph.size, c);
    ModeIsLegal(data, w, h, d, useRle, usePalette, ph.size, ph.Colours());
    m := Mode(useRle, if usePalette then ph.Colours() else []);
    ChosenIsShort(m, data, w, h, d, ph.size, useRle, usePalette, estimatedBytes, c);
    ChosenForPixels(ph.size, ph.Colours(), data, w, h, d, m, estimatedBytes);
    var size := if usePalette then ph.size else 0;
    out := [(if useRle then 128 else 0) + size];
    var palette := [];
    if usePalette {
      palette := PutPalette(ph, size, d, m.pal);
    }
    NoPixels(d);
    var body := PutBody(buf, w, h, d, ph, useRle, usePalette, m);
    out := out + palette + body;
  }

  lemma NotEmpty(size: nat, colours: seq<nat>, data: seq<nat>)
    requires Collected(size, colours, data) && data != []
    ensures size > 0
  {
  }

  lemma NoPixels(d: Depth)
    ensures AllPixels([], d) && PixelsBytes([], d) == []
  {
  }

  /** `ZRLE_ENCODE_TILE` */
  method EncodeTile(data: seq<nat>, w: nat, h: nat, d: Depth, ph: PaletteHelper) returns (out: Bytestring, ghost m: Mode)
    requires |data| == h * w && w > 0 && h > 0 && AllPixels(data, d) && ph.Shape()
    modifies ph, ph.palette, ph.index, ph.key
    ensures ph.Shape() && Legal(m, data, w, h, d) && out == TileBytes(m, data, w, h, d) && |out| <= 2 * (w * h * d)
    ensures IsChosen(m, data, w, h, d)
  {
    hide IsChosen;
    hide PaletteHelper.Colours;
    hide HasSentinel;
    hide Collected;
    hide CountRuns;
    hide Estimate;
    hide Legal;
    hide Body;
    assert h * w >= 1;
    SentinelDiffers(data, d);
    var buf := data + [Complement(data[h * w - 1], d)];
    ph.Init();
    var runs, singlePixels := Scan(buf, h * w, ph, d);
    if ph.size == 1 {
      out, m := PutSolid(data, w, h, d, ph);
    } else {
      NotEmpty(ph.size, ph.Colours(), data);
      out, m := PutTile(buf, data, w, h, d, ph, Counts(runs, singlePixels));
    }
  }
}
