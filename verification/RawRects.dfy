/** Raw pixels (section 7.7.1 of RFC 6143): what every encoding falls back to. */
module RawRects {
  import opened Arithmetic
  import opened Bytes
  import opened Rectangles
  import opened CopyRects
  import opened Pixels
  import opened UpdateBuffers

  const RFB_BUFFER_SIZE: nat := 640 * 480

  /** All pixels of a rectangle can be written in `d` bytes. */
  ghost predicate InDepth(pic: Picture, r: Rect, d: Depth) {
    forall p :: InRect(p, r) ==> IsPixel(pic(p), d)
  }

  /** `now` is `pic` in the rectangle and `was` outside it: what every decoder has to achieve. */
  ghost predicate ShowsPart(now: Picture, was: Picture, r: Rect, pic: Picture) {
    forall p :: now(p) == if InRect(p, r) then pic(p) else was(p)
  }

  ghost function RowBytes(pic: Picture, x: int, y: int, n: nat, d: Depth): (b: Bytestring)
    requires InDepth(pic, Rect(x, y, x + n, y + 1), d)
    ensures |b| == n * d
  {
    if n == 0 then []
    else
      assert InRect(Pt(x + n - 1, y), Rect(x, y, x + n, y + 1));
      RowBytes(pic, x, y, n - 1, d) + PixelBytes(pic(Pt(x + n - 1, y)), d)
  }

  ghost function RectBytes(pic: Picture, x: int, y: int, w: nat, h: nat, d: Depth): (b: Bytestring)
    requires InDepth(pic, Rect(x, y, x + w, y + h), d)
    ensures |b| == h * (w * d)
  {
    if h == 0 then [] else RectBytes(pic, x, y, w, h - 1, d) + RowBytes(pic, x, y + h - 1, w, d)
  }

  /** Where the pixel of column `u` and row `v` lies. */
  function PixelOffset(u: nat, v: nat, w: nat, d: Depth): nat {
    v * (w * d) + u * d
  }

  lemma {:induction false} RowPixelAt(s: Bytestring, i: nat, pic: Picture, x: int, y: int, n: nat, d: Depth, u: nat)
    requires InDepth(pic, Rect(x, y, x + n, y + 1), d) && At(s, i, RowBytes(pic, x, y, n, d)) && u < n
    ensures IsPixel(pic(Pt(x + u, y)), d) && At(s, i + u * d, PixelBytes(pic(Pt(x + u, y)), d))
  {
    hide PixelBytes;
    assert InRect(Pt(x + n - 1, y), Rect(x, y, x + n, y + 1));
    AtConcat(s, i, RowBytes(pic, x, y, n - 1, d), PixelBytes(pic(Pt(x + n - 1, y)), d));
    if u < n - 1 {
      RowPixelAt(s, i, pic, x, y, n - 1, d, u);
    }
  }

  lemma {:induction false} RectPixelAt(s: Bytestring, i: nat, pic: Picture, x: int, y: int, w: nat, h: nat, d: Depth, u: nat, v: nat)
    requires InDepth(pic, Rect(x, y, x + w, y + h), d) && At(s, i, RectBytes(pic, x, y, w, h, d)) && u < w && v < h
    ensures IsPixel(pic(Pt(x + u, y + v)), d)
    ensures At(s, i + PixelOffset(u, v, w, d), PixelBytes(pic(Pt(x + u, y + v)), d))
  {
    hide PixelBytes;
    hide RowBytes;
    AtConcat(s, i, RectBytes(pic, x, y, w, h - 1, d), RowBytes(pic, x, y + h - 1, w, d));
    if v < h - 1 {
      RectPixelAt(s, i, pic, x, y, w, h - 1, d, u, v);
    } else {
      RowPixelAt(s, i + v * (w * d), pic, x, y + v, w, d, u);
    }
  }

  // ---------------------------------------------------------------- sending

  method RawRow(fb: Frame, x: nat, y: nat, w: nat, d: Depth) returns (row: Bytestring)
    requires RectOnScreen(fb, Rect(x, y, x + w, y + 1)) && InDepth(Shown(fb), Rect(x, y, x + w, y + 1), d)
    ensures row == RowBytes(Shown(fb), x, y, w, d)
  {
    hide PixelBytes;
    row := [];
    for i := 0 to w
      invariant row == RowBytes(Shown(fb), x, y, i, d)
    {
      assert InRect(Pt(x + i, y), Rect(x, y, x + w, y + 1));
      row := row + PixelBytes(fb[y, x + i], d);
    }
  }

  /** `translateFn` into the send buffer, with the server's pixels already in the client's format. */
  method RawPixels(fb: Frame, x: nat, y: nat, w: nat, h: nat, d: Depth) returns (out: Bytestring)
    requires RectOnScreen(fb, Rect(x, y, x + w, y + h)) && InDepth(Shown(fb), Rect(x, y, x + w, y + h), d)
    ensures out == RectBytes(Shown(fb), x, y, w, h, d)
  {
    hide RowBytes;
    hide Shown;
    out := [];
    for j := 0 to h
      invariant out == RectBytes(Shown(fb), x, y, w, j, d)
    {
      var row := RawRow(fb, x, y + j, w, d);
      out := out + row;
    }
  }

  lemma {:induction false} RowsJoin(pic: Picture, x: int, y: int, w: nat, m: nat, n: nat, d: Depth)
    requires InDepth(pic, Rect(x, y, x + w, y + m + n), d)
    ensures RectBytes(pic, x, y, w, m + n, d) == RectBytes(pic, x, y, w, m, d) + RectBytes(pic, x, y + m, w, n, d)
  {
    hide RowBytes;
    if n > 0 {
      RowsJoin(pic, x, y, w, m, n - 1, d);
    }
  }

  /** Positions and sizes are written in 16 bits. */
  predicate OnWire(r: Rect) {
    0 <= r.x1 <= r.x2 < 0x1_0000 && 0 <= r.y1 <= r.y2 < 0x1_0000
  }

  function HeaderOf(r: Rect, encoding: nat): Bytestring
    requires OnWire(r) && encoding < 0x1_0000_0000
  {
    RectHeader(r.x1, r.y1, r.x2 - r.x1, r.y2 - r.y1, encoding)
  }

  const ENCODING_RAW: nat := 0

  /** The lines that the buffer has room for; what is left is how far the rectangle has to go on. */
  method PutLines(ub: UpdateBuffer, fb: Frame, x: nat, y: nat, w: nat, ghost h: nat, j: nat, n: nat, d: Depth, ghost before: Bytestring)
    requires ub.Valid() && RectOnScreen(fb, Rect(x, y, x + w, y + h)) && InDepth(Shown(fb), Rect(x, y, x + w, y + h), d)
    requires j + n <= h && ub.ublen + n * (w * d) <= UPDATE_BUF_SIZE
    requires ub.Stream() == before + RectBytes(Shown(fb), x, y, w, j, d)
    modifies ub, ub.updateBuf
    ensures ub.Valid() && ub.Stream() == before + RectBytes(Shown(fb), x, y, w, j + n, d)
    ensures ub.ublen == old(ub.ublen) + n * (w * d)
  {
    hide RectBytes;
    var bytes := RawPixels(fb, x, y + j, w, n, d);
    RowsJoin(Shown(fb), x, y, w, j, n, d);
    ub.Put(bytes);
  }

  /**
   * The loop of `rfbSendRectEncodingRaw`. Its first pass may put no line at all, the header having
   * taken the room.
   */
  method PutRows(ub: UpdateBuffer, fb: Frame, x: nat, y: nat, w: nat, height: nat, d: Depth) returns (ok: bool)
    requires ub.Valid() && ub.ublen > 0 && RectOnScreen(fb, Rect(x, y, x + w, y + height))
    requires InDepth(Shown(fb), Rect(x, y, x + w, y + height), d) && w > 0 && height > 0
    modifies ub, ub.updateBuf
    ensures ub.Valid() && (ok <==> w * d <= UPDATE_BUF_SIZE)
    ensures ok ==> ub.Stream() == old(ub.Stream()) + RectBytes(Shown(fb), x, y, w, height, d)
  {
    hide Lines;
    hide RectBytes;
    hide Shown;
    hide UpdateBuffer.Stream;
    ghost var before := ub.Stream();
    var bytesPerLine, h := w * d, height;
    var nlines := Lines(UPDATE_BUF_SIZE - ub.ublen, bytesPerLine);
    NoRows(Shown(fb), x, y, w, d);
    while true
      invariant ub.Valid() && 0 < h <= height && nlines == Lines(UPDATE_BUF_SIZE - ub.ublen, bytesPerLine)
      invariant ub.Stream() == before + RectBytes(Shown(fb), x, y, w, height - h, d)
      invariant nlines == 0 ==> ub.ublen > 0
      decreases h, ub.ublen
    {
      LinesFit(UPDATE_BUF_SIZE - ub.ublen, bytesPerLine);
      if nlines > h {
        ProductAtMost(h, nlines, bytesPerLine);
        nlines := h;
      }
      PutLines(ub, fb, x, y, w, height, height - h, nlines, d, before);
      h := h - nlines;
      if h == 0 {
        ProductAtMost(1, nlines, bytesPerLine);
        return true;
      }
      ub.SendUpdateBuf();
      nlines := Lines(UPDATE_BUF_SIZE, bytesPerLine);
      LinesFit(UPDATE_BUF_SIZE, bytesPerLine);
      if nlines == 0 {
        return false;
      }
    }
  }

  /** `rfbSendRectEncodingRaw`: fails only when a single line is longer than the whole buffer. */
  method SendRectEncodingRaw(ub: UpdateBuffer, fb: Frame, x: nat, y: nat, w: nat, h: nat, d: Depth) returns (ok: bool)
    requires ub.Valid() && RectOnScreen(fb, Rect(x, y, x + w, y + h)) && OnWire(Rect(x, y, x + w, y + h))
    requires InDepth(Shown(fb), Rect(x, y, x + w, y + h), d) && w > 0 && h > 0
    modifies ub, ub.updateBuf
    ensures ub.Valid() && (ok <==> w * d <= UPDATE_BUF_SIZE)
    ensures ok ==> ub.Stream() == old(ub.Stream()) + (HeaderOf(Rect(x, y, x + w, y + h), ENCODING_RAW) + RectBytes(Shown(fb), x, y, w, h, d))
  {
    hide RectBytes;
    hide RectHeader;
    if ub.ublen > 0 {
      ub.SendUpdateBuf();
    }
    ub.Put(HeaderOf(Rect(x, y, x + w, y + h), ENCODING_RAW));
    ok := PutRows(ub, fb, x, y, w, h, d);
  }

  lemma NoRows(pic: Picture, x: int, y: int, w: nat, d: Depth)
    ensures InDepth(pic, Rect(x, y, x + w, y), d) && RectBytes(pic, x, y, w, 0, d) == []
  {
  }

  /** How many lines there is room for. */
  function Lines(room: nat, line: nat): nat
    requires line > 0
  {
    room / line
  }

  lemma LinesFit(room: nat, line: nat)
    requires line > 0
    ensures Lines(room, line) * line <= room && (Lines(room, line) == 0 <==> room < line)
  {
  }

  // ---------------------------------------------------------------- receiving

  /** The pixel at `p` when the pixels of `r` lie from position `i` on; zero where `s` has ended. */
  function PixelIn(s: Bytestring, i: nat, r: Rect, d: Depth, p: Pt): nat
    requires InRect(p, r)
  {
    var at := i + PixelOffset(p.x - r.x1, p.y - r.y1, r.x2 - r.x1, d);
    if at + d <= |s| then ReadPixel(s, at, d) else 0
  }

  /** The first `h` rows of `r` are read. */
  ghost predicate ShowsRead(now: Picture, was: Picture, r: Rect, h: nat, s: Bytestring, i: nat, d: Depth) {
    forall p :: now(p) == if InRect(p, r) && p.y < r.y1 + h then PixelIn(s, i, r, d, p) else was(p)
  }

  /** One row of `CopyRectangle`: a `memcpy`. */
  method CopyPixels(fb: Frame, s: Bytestring, i: nat, x: nat, y: nat, w: nat, d: Depth)
    requires RectOnScreen(fb, Rect(x, y, x + w, y + 1)) && i + w * d <= |s|
    modifies fb
    ensures ShowsRead(Shown(fb), old(Shown(fb)), Rect(x, y, x + w, y + 1), 1, s, i, d)
  {
    hide ReadPixel;
    for k := 0 to w
      invariant forall v, u :: 0 <= v < fb.Length0 && 0 <= u < fb.Length1 ==>
                  fb[v, u] == if v == y && x <= u < x + k then PixelIn(s, i, Rect(x, y, x + w, y + 1), d, Pt(u, v))
                              else old(fb[v, u])
    {
      assert k * d + d == (k + 1) * d <= w * d;
      fb[y, x + k] := ReadPixel(s, i + k * d, d);
      assert PixelIn(s, i, Rect(x, y, x + w, y + 1), d, Pt(x + k, y)) == ReadPixel(s, i + k * d, d);
    }
  }

  lemma OneMoreRow(now: Picture, mid: Picture, was: Picture, r: Rect, j: nat, s: Bytestring, i: nat, at: nat, d: Depth)
    requires ShowsRead(mid, was, r, j, s, i, d) && r.x1 <= r.x2 && r.y1 + j < r.y2
    requires at == i + PixelOffset(0, j, r.x2 - r.x1, d)
    requires ShowsRead(now, mid, Rect(r.x1, r.y1 + j, r.x2, r.y1 + j + 1), 1, s, at, d)
    ensures ShowsRead(now, was, r, j + 1, s, i, d)
  {
    var row := Rect(r.x1, r.y1 + j, r.x2, r.y1 + j + 1);
    forall p
      ensures now(p) == if InRect(p, r) && p.y < r.y1 + j + 1 then PixelIn(s, i, r, d, p) else was(p)
    {
      assert mid(p) == if InRect(p, r) && p.y < r.y1 + j then PixelIn(s, i, r, d, p) else was(p);
      assert now(p) == if InRect(p, row) then PixelIn(s, at, row, d, p) else mid(p);
    }
  }

  /** One row of the rectangle. */
  method CopyRowOf(fb: Frame, s: Bytestring, ghost i: nat, at: nat, r: Rect, j: nat, d: Depth, ghost was: Picture)
    requires RectOnScreen(fb, r) && r.y1 + j < r.y2
    requires at == i + PixelOffset(0, j, r.x2 - r.x1, d) && at + (r.x2 - r.x1) * d <= |s|
    requires ShowsRead(Shown(fb), was, r, j, s, i, d)
    modifies fb
    ensures ShowsRead(Shown(fb), was, r, j + 1, s, i, d)
  {
    hide ShowsRead;
    ghost var mid := Shown(fb);
    CopyPixels(fb, s, at, r.x1, r.y1 + j, r.x2 - r.x1, d);
    OneMoreRow(Shown(fb), mid, was, r, j, s, i, at, d);
  }

  /** `CopyRectangle`, on `n` lines that go on from the `j` lines read before. */
  method CopyLines(fb: Frame, s: Bytestring, ghost i: nat, at: nat, r: Rect, j: nat, n: nat, d: Depth, ghost was: Picture)
    requires RectOnScreen(fb, r) && r.y1 + j + n <= r.y2
    requires at == i + PixelOffset(0, j, r.x2 - r.x1, d) && at + n * ((r.x2 - r.x1) * d) <= |s|
    requires ShowsRead(Shown(fb), was, r, j, s, i, d)
    modifies fb
    ensures ShowsRead(Shown(fb), was, r, j + n, s, i, d)
  {
    hide ShowsRead;
    var buffer, line: nat := at, (r.x2 - r.x1) * d;
    for k := 0 to n
      invariant ShowsRead(Shown(fb), was, r, j + k, s, i, d) && buffer == at + k * line
    {
      MoreLines(j, k, n, line);
      CopyRowOf(fb, s, i, buffer, r, j + k, d, was);
      buffer := buffer + line;
    }
  }

  lemma MoreLines(j: nat, k: nat, n: nat, line: nat)
    ensures j * line + k * line == (j + k) * line && k * line + line == (k + 1) * line
    ensures k < n ==> k * line + line <= n * line
  {
    if k < n {
      assert n * line == (k + 1) * line + (n - k - 1) * line;
    }
  }

  lemma NothingRead(pic: Picture, r: Rect, s: Bytestring, i: nat, d: Depth)
    ensures ShowsRead(pic, pic, r, 0, s, i, d)
  {
  }

  /** The raw case of `HandleRFBServerMessage`: as many lines at a time as the client's buffer holds. */
  method HandleRaw(fb: Frame, s: Bytestring, i: nat, r: Rect, d: Depth) returns (ok: bool, next: nat)
    requires RectOnScreen(fb, r) && 0 < (r.x2 - r.x1) * d <= RFB_BUFFER_SIZE && i <= |s|
    modifies fb
    ensures ok <==> i + (r.y2 - r.y1) * ((r.x2 - r.x1) * d) <= |s|
    ensures ok ==> next == i + (r.y2 - r.y1) * ((r.x2 - r.x1) * d)
    ensures ok ==> ShowsRead(Shown(fb), old(Shown(fb)), r, r.y2 - r.y1, s, i, d)
  {
    hide ShowsRead;
    var bytesPerLine: nat := (r.x2 - r.x1) * d;
    var linesToRead: nat := RFB_BUFFER_SIZE / bytesPerLine;
    var all: nat := r.y2 - r.y1;
    var h: nat := all;
    next := i;
    NothingRead(Shown(fb), r, s, i, d);
    while h > 0
      invariant h <= all && next == i + (all - h) * bytesPerLine <= |s| && linesToRead > 0
      invariant ShowsRead(Shown(fb), old(Shown(fb)), r, all - h, s, i, d)
    {
      if linesToRead > h {
        linesToRead := h;
      }
      MoreLines(all - h, linesToRead, linesToRead, bytesPerLine);
      MoreLines(all - h + linesToRead, h - linesToRead, 0, bytesPerLine);
      if next + linesToRead * bytesPerLine > |s| {
        return false, next;
      }
      CopyLines(fb, s, i, next, r, all - h, linesToRead, d, old(Shown(fb)));
      next := next + linesToRead * bytesPerLine;
      h := h - linesToRead;
    }
    ok := true;
  }

  /** Raw pixels come back as they were. */
  lemma RawReadsBack(s: Bytestring, i: nat, pic: Picture, now: Picture, was: Picture, r: Rect, d: Depth)
    requires r.x1 <= r.x2 && r.y1 <= r.y2 && InDepth(pic, r, d)
    requires At(s, i, RectBytes(pic, r.x1, r.y1, r.x2 - r.x1, r.y2 - r.y1, d))
    requires ShowsRead(now, was, r, r.y2 - r.y1, s, i, d)
    ensures ShowsPart(now, was, r, pic)
  {
    hide RectBytes;
    hide PixelBytes;
    hide ReadPixel;
    hide PixelOffset;
    var w: nat, h: nat := r.x2 - r.x1, r.y2 - r.y1;
    forall p
      ensures now(p) == if InRect(p, r) then pic(p) else was(p)
    {
      assert now(p) == if InRect(p, r) && p.y < r.y1 + h then PixelIn(s, i, r, d, p) else was(p);
      if InRect(p, r) {
        var u: nat, v: nat := p.x - r.x1, p.y - r.y1;
        assert Pt(r.x1 + u, r.y1 + v) == p;
        RectPixelAt(s, i, pic, r.x1, r.y1, w, h, d, u, v);
        ReadWritten(s, i + PixelOffset(u, v, w, d), pic(p), d);
      }
    }
  }
}
