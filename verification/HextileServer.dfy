/** The server's side of Hextile. */
module HextileServer {
  import opened Background
  import opened Bytes
  import opened CoverSearch
  import opened Rectangles
  import opened CopyRects
  import opened Greedy
  import opened Hextile
  import opened Pixels
  import opened RawRects
  import opened Subrects
  import opened TestColours
  import opened UpdateBuffers

  /** What the server believes the client carries. */
  datatype Remembered = Remembered(validBg: bool, bg: int, validFg: bool, fg: int)

  predicate Agrees(m: Remembered, c: Carried) {
    (m.validBg ==> m.bg == c.bg) && (m.validFg ==> m.fg == c.fg)
  }

  /** A tile a client in agreement can read, after which it is in agreement again. */
  ghost predicate Keeps(m: Remembered, t: Tile, m': Remembered) {
    forall c :: Agrees(m, c) ==> Legal(t, c) && Agrees(m', After(t, c))
  }

  /** The longest a tile can get: what the flush test reserves. */
  function TileMost(d: Depth): nat {
    1 + (2 + 16 * 16) * d
  }

  // ---------------------------------------------------------------- the head of a tile

  predicate Writable(k: Colours, d: Depth) {
    IsPixel(k.bg, d) && (k.mono && !k.solid ==> IsPixel(k.fg, d))
  }

  /** What `testColours` makes of the tile. */
  function Plan(m: Remembered, k: Colours, subs: seq<Sub>): Tile {
    SubTile(!m.validBg || k.bg != m.bg, !k.solid && k.mono && (!m.validFg || k.fg != m.fg),
            if k.solid then Solid else if k.mono then Mono else Coloured, k.bg, if !k.solid && k.mono then k.fg else 0, subs)
  }

  function Recall(m: Remembered, k: Colours): Remembered {
    Remembered(true, k.bg, if k.solid then m.validFg else k.mono, if !k.solid && k.mono then k.fg else m.fg)
  }

  lemma PlanKeeps(m: Remembered, k: Colours, subs: seq<Sub>)
    ensures Keeps(m, Plan(m, k, subs), Recall(m, k))
  {
  }

  /** The flag byte is completed as the colours are put behind it. */
  method PutHead(ub: UpdateBuffer, m: Remembered, k: Colours, d: Depth) returns (m': Remembered)
    requires ub.Valid() && ub.ublen + 1 + 2 * d <= UPDATE_BUF_SIZE && Writable(k, d)
    modifies ub, ub.updateBuf
    ensures ub.Valid() && old(ub.ublen) <= ub.ublen && ub.Until(old(ub.ublen)) == old(ub.Stream())
    ensures ub.Since(old(ub.ublen)) == Head(Plan(m, k, []), d)
    ensures m' == Recall(m, k)
  {
    hide UpdateBuffer.Since;
    hide UpdateBuffer.Until;
    hide UpdateBuffer.Stream;
    hide PixelBytes;
    var start := ub.ublen;
    ghost var bytes: Bytestring := [];
    ghost var flags: byte := 0;
    NothingSince(ub);
    m' := m;
    ub.PutBehind(start, [0], []);
    if !m'.validBg || k.bg != m'.bg {
      m' := m'.(validBg := true, bg := k.bg);
      ub.AddFlag(start, FLAG_BACKGROUND_SPECIFIED, flags, bytes);
      flags, bytes := flags + FLAG_BACKGROUND_SPECIFIED, PixelBytes(k.bg, d);
      ub.PutBehind(start, PixelBytes(k.bg, d), [flags]);
    }
    if k.solid {
      return;
    }
    ub.AddFlag(start, FLAG_ANY_SUBRECTS, flags, bytes);
    flags := flags + FLAG_ANY_SUBRECTS;
    if k.mono {
      if !m'.validFg || k.fg != m'.fg {
        m' := m'.(validFg := true, fg := k.fg);
        ub.AddFlag(start, FLAG_FOREGROUND_SPECIFIED, flags, bytes);
        flags := flags + FLAG_FOREGROUND_SPECIFIED;
        ub.PutBehind(start, PixelBytes(k.fg, d), [flags] + bytes);
      }
    } else {
      m' := m'.(validFg := false);
      ub.AddFlag(start, FLAG_SUBRECTS_COLOURED, flags, bytes);
    }
  }

  lemma NothingSince(ub: UpdateBuffer)
    requires ub.Valid()
    ensures ub.Since(ub.ublen) == [] && ub.Until(ub.ublen) == ub.Stream()
  {
  }

  // ---------------------------------------------------------------- the subrectangles

  /** What goes behind the head of a tile with subrectangles. */
  ghost predicate Encoded(pic: Picture, bg: int, subs: seq<Sub>, w: nat, h: nat, mono: bool, d: Depth) {
    IsCover(pic, bg, subs, w, h) && |subs| < 256 && (forall s :: s in subs ==> Packable(s, d)) &&
    1 + |subs| * PerSub(!mono, d) <= w * h * d
  }

  lemma CoverIsPackable(pic: Picture, bg: int, subs: seq<Sub>, w: nat, h: nat, d: Depth)
    requires IsCover(pic, bg, subs, w, h) && InDepth(pic, Rect(0, 0, w, h), d) && w <= 16 && h <= 16
    ensures forall s :: s in subs ==> Packable(s, d)
  {
    forall s | s in subs
      ensures Packable(s, d)
    {
      var p := Pt(s.x, s.y);
      CoverIsMonochrome(pic, bg, subs, w, h, s, p);
      assert InRect(p, Rect(0, 0, w, h));
    }
  }

  /** The background is in the tile, so at least one pixel is no rectangle's corner: the count fits its byte. */
  lemma CountFitsByte(n: nat, w: nat, h: nat)
    requires n < w * h && w <= 16 && h <= 16
    ensures n < 256
  {
    assert w * h <= 16 * h <= 16 * 16;
  }

  /** The subrectangles, behind their count, take no more than raw pixels. */
  ghost predicate TilePays(pic: Picture, bg: int, w: nat, h: nat, mono: bool, d: Depth) {
    Pays(pic, bg, w, h, 1, PerSub(!mono, d), w * h * d)
  }

  /** The search proper. */
  method FindSubs(data: Frame, bg: int, mono: bool, d: Depth) returns (ok: bool, subs: seq<Sub>)
    requires 0 < data.Length1 <= 16 && 0 < data.Length0 <= 16 && InDepth(Shown(data), Rect(0, 0, data.Length1, data.Length0), d)
    requires Occurs(Shown(data), bg, data.Length1, data.Length0)
    modifies data
    ensures ok <==> TilePays(old(Shown(data)), bg, data.Length1, data.Length0, mono, d)
    ensures ok ==> Encoded(old(Shown(data)), bg, subs, data.Length1, data.Length0, mono, d)
    ensures ok ==> GreedyCover(old(Shown(data)), bg, subs, data.Length1, data.Length0)
  {
    hide IsCover;
    hide GreedyCover;
    hide Pays;
    hide InDepth;
    hide Packable;
    ghost var pic := Shown(data);
    ok, subs := Cover(data, bg, 1, PerSub(!mono, d), data.Length1 * data.Length0 * d);
    if ok {
      CountFitsByte(|subs|, data.Length1, data.Length0);
      CoverIsPackable(pic, bg, subs, data.Length1, data.Length0, d);
      RoomForOne(data.Length1, data.Length0, d);
    }
  }

  lemma RoomForOne(w: nat, h: nat, d: Depth)
    requires w > 0 && h > 0
    ensures 1 <= w * h * d && w * h >= 1
  {
  }

  /**
   * `subrectEncode`: the count and the rectangles behind the head. The source puts each rectangle
   * as it is found; what it has put is taken back together with the head when it gives up.
   */
  method SubrectEncode(ub: UpdateBuffer, data: Frame, bg: int, mono: bool, d: Depth, start: nat, ghost head: Bytestring) returns (ok: bool, ghost subs: seq<Sub>)
    requires 0 < data.Length1 <= 16 && 0 < data.Length0 <= 16 && InDepth(Shown(data), Rect(0, 0, data.Length1, data.Length0), d)
    requires Occurs(Shown(data), bg, data.Length1, data.Length0)
    requires ub.Valid() && start <= ub.ublen && ub.Since(start) == head && ub.ublen + 256 * d <= UPDATE_BUF_SIZE
    modifies data, ub, ub.updateBuf
    ensures ub.Valid() && start <= ub.ublen && ub.Until(start) == old(ub.Until(start))
    ensures ok <==> TilePays(old(Shown(data)), bg, data.Length1, data.Length0, mono, d)
    ensures ok ==> Encoded(old(Shown(data)), bg, subs, data.Length1, data.Length0, mono, d)
    ensures ok ==> GreedyCover(old(Shown(data)), bg, subs, data.Length1, data.Length0)
    ensures ok ==> ub.Since(start) == head + ([|subs|] + SubsBytes(subs, !mono, d))
  {
    hide UpdateBuffer.Since;
    hide UpdateBuffer.Until;
    hide InDepth;
    hide IsCover;
    hide Packable;
    hide SubBytes;
    hide SubsBytes;
    hide Occurs;
    hide Shown;
    hide TilePays;
    hide GreedyCover;
    var found;
    ok, found := FindSubs(data, bg, mono, d);
    subs := found;
    if ok {
      MostPixels(data.Length1, data.Length0, d);
      ub.PutBehind(start, [|found|] + SubsBytes(found, !mono, d), head);
    }
  }

  lemma MostPixels(w: nat, h: nat, d: Depth)
    requires w <= 16 && h <= 16
    ensures w * h * d <= 256 * d && h * (w * d) == w * h * d
  {
    assert w * h <= 16 * h <= 256;
  }

  // ---------------------------------------------------------------- one tile

  /** What is known of a tile once its colours have been looked at; `part` is the copy to work on. */
  ghost predicate Known(pic: Picture, part: Picture, r: Rect, k: Colours, d: Depth) {
    var w, h := r.x2 - r.x1, r.y2 - r.y1;
    0 < w <= 16 && 0 < h <= 16 && InDepth(pic, r, d) && InDepth(part, Rect(0, 0, w, h), d) &&
    (forall p :: InTile(p, w, h) ==> part(p) == PartOf(pic, r.x1, r.y1)(p)) &&
    Verdict(part, w, h, k) && Writable(k, d)
  }

  /** The tile's pixels, and `testColours` on them. */
  method Look(fb: Frame, x: nat, y: nat, w: nat, h: nat, d: Depth) returns (data: Frame, k: Colours)
    requires RectOnScreen(fb, Rect(x, y, x + w, y + h)) && InDepth(Shown(fb), Rect(x, y, x + w, y + h), d) && 0 < w <= 16 && 0 < h <= 16
    ensures fresh(data) && data.Length1 == w && data.Length0 == h
    ensures Known(Shown(fb), Shown(data), Rect(x, y, x + w, y + h), k, d)
  {
    hide InDepth;
    hide Verdict;
    hide Unsigned;
    hide Known;
    hide Shown;
    data := CopyPart(fb, x, y, w, h);
    PartInDepth(Shown(fb), Shown(data), x, y, w, h, d);
    DepthIsUnsigned(data, d);
    k := TestColours.TestColours(data);
    ColoursInDepth(Shown(data), w, h, k, d);
    LookedAt(Shown(fb), Shown(data), Rect(x, y, x + w, y + h), k, d);
  }

  lemma LookedAt(pic: Picture, part: Picture, r: Rect, k: Colours, d: Depth)
    requires 0 < r.x2 - r.x1 <= 16 && 0 < r.y2 - r.y1 <= 16 && InDepth(pic, r, d) && InDepth(part, Rect(0, 0, r.x2 - r.x1, r.y2 - r.y1), d)
    requires forall p :: InTile(p, r.x2 - r.x1, r.y2 - r.y1) ==> part(p) == PartOf(pic, r.x1, r.y1)(p)
    requires Verdict(part, r.x2 - r.x1, r.y2 - r.y1, k) && Writable(k, d)
    ensures Known(pic, part, r, k, d)
  {
  }

  lemma DepthIsUnsigned(data: Frame, d: Depth)
    requires InDepth(Shown(data), Rect(0, 0, data.Length1, data.Length0), d)
    ensures Unsigned(data)
  {
    forall v, u | 0 <= v < data.Length0 && 0 <= u < data.Length1
      ensures 0 <= data[v, u]
    {
      assert InRect(Pt(u, v), Rect(0, 0, data.Length1, data.Length0));
    }
  }

  /** The colours found are pixels of the tile. */
  lemma ColoursInDepth(pic: Picture, w: nat, h: nat, k: Colours, d: Depth)
    requires Verdict(pic, w, h, k) && InDepth(pic, Rect(0, 0, w, h), d)
    ensures Writable(k, d)
  {
    var p :| InTile(p, w, h) && pic(p) == k.bg;
    assert InRect(p, Rect(0, 0, w, h));
    if k.mono && !k.solid {
      var q :| InTile(q, w, h) && pic(q) == k.fg;
      assert InRect(q, Rect(0, 0, w, h));
    }
  }

  /** In a tile of two colours, whatever is not background is foreground. */
  lemma MonoIsForeground(part: Picture, w: nat, h: nat, k: Colours, subs: seq<Sub>)
    requires Verdict(part, w, h, k) && k.mono && !k.solid && IsCover(part, k.bg, subs, w, h)
    ensures forall s :: s in subs ==> s.colour == k.fg
  {
    forall s | s in subs
      ensures s.colour == k.fg
    {
      var p := Pt(s.x, s.y);
      assert SubFits(s, w, h) && InRect(p, RectOf(s));
      CoverIsMonochrome(part, k.bg, subs, w, h, s, p);
    }
  }

  /** The subrectangles that were found make the tile show the picture. */
  lemma PlanShows(m: Remembered, k: Colours, subs: seq<Sub>, pic: Picture, part: Picture, r: Rect, d: Depth)
    requires Known(pic, part, r, k, d)
    requires if k.solid then subs == [] else Encoded(part, k.bg, subs, r.x2 - r.x1, r.y2 - r.y1, k.mono, d)
    ensures TileOk(Plan(m, k, subs), pic, r, d)
  {
    hide InDepth;
    hide Packable;
    hide Occurs;
    var w: nat, h: nat := r.x2 - r.x1, r.y2 - r.y1;
    if !k.solid {
      CoverOfSame(part, PartOf(pic, r.x1, r.y1), k.bg, subs, w, h);
      if k.mono {
        MonoIsForeground(part, w, h, k, subs);
      }
    }
  }

  /** What such a tile is written as, and how long that is. */
  lemma PlanBytes(m: Remembered, k: Colours, subs: seq<Sub>, pic: Picture, part: Picture, r: Rect, d: Depth)
    requires Known(pic, part, r, k, d) && TileOk(Plan(m, k, subs), pic, r, d)
    requires k.solid || Encoded(part, k.bg, subs, r.x2 - r.x1, r.y2 - r.y1, k.mono, d)
    ensures var head := Head(Plan(m, k, []), d);
            |head| <= 1 + 2 * d && TileBytes(Plan(m, k, subs), pic, r, d) == head + if k.solid then [] else [|subs|] + SubsBytes(subs, !k.mono, d)
    ensures |TileBytes(Plan(m, k, subs), pic, r, d)| <= TileMost(d)
  {
    hide InDepth;
    hide Packable;
    hide SubsBytes;
    hide PixelBytes;
    hide Verdict;
    hide IsCover;
    MostPixels(r.x2 - r.x1, r.y2 - r.y1, d);
  }

  // ---------------------------------------------------------------- what becomes of a tile

  /** With its colours known: no subrectangles, those of the search, or raw pixels if they would take more. */
  ghost predicate TurnWith(m: Remembered, t: Tile, m': Remembered, part: Picture, w: nat, h: nat, k: Colours, d: Depth) {
    if k.solid then t == Plan(m, k, []) && m' == Recall(m, k)
    else if TilePays(part, k.bg, w, h, k.mono, d)
    then t.SubTile? && GreedyCover(part, k.bg, t.subs, w, h) && t == Plan(m, k, t.subs) && m' == Recall(m, k)
    else t == RawTile && !m'.validBg && !m'.validFg
  }

  ghost predicate TurnOn(m: Remembered, t: Tile, m': Remembered, part: Picture, w: nat, h: nat, d: Depth) {
    exists k :: Verdict(part, w, h, k) && TurnWith(m, t, m', part, w, h, k, d)
  }

  /** One turn of `sendHextiles`, told by the picture. */
  ghost predicate Turn(m: Remembered, t: Tile, m': Remembered, pic: Picture, r: Rect, d: Depth) {
    r.x1 < r.x2 && r.y1 < r.y2 && TurnOn(m, t, m', PartOf(pic, r.x1, r.y1), r.x2 - r.x1, r.y2 - r.y1, d)
  }

  lemma TurnSeen(m: Remembered, t: Tile, m': Remembered, pic: Picture, part: Picture, r: Rect, k: Colours, d: Depth)
    requires Known(pic, part, r, k, d) && TurnWith(m, t, m', part, r.x2 - r.x1, r.y2 - r.y1, k, d)
    ensures Turn(m, t, m', pic, r, d)
  {
    hide InDepth;
    hide Verdict;
    hide GreedyCover;
    hide Pays;
    hide Plan;
    hide Recall;
    var whole, w: nat, h: nat := PartOf(pic, r.x1, r.y1), r.x2 - r.x1, r.y2 - r.y1;
    VerdictOfSame(part, whole, w, h, k);
    PaysForSame(part, whole, k.bg, w, h, 1, PerSub(!k.mono, d), w * h * d);
    if t.SubTile? && GreedyCover(part, k.bg, t.subs, w, h) {
      GreedyOfSame(part, whole, k.bg, t.subs, w, h);
    }
  }

  /** A tile of one colour the client has for its background takes one byte, of any other the flags and the colour. */
  lemma OneColourTurn(m: Remembered, t: Tile, m': Remembered, pic: Picture, r: Rect, d: Depth, c: int)
    requires Turn(m, t, m', pic, r, d) && forall p :: InRect(p, r) ==> pic(p) == c
    requires TileOk(t, pic, r, d)
    ensures |TileBytes(t, pic, r, d)| == if m.validBg && m.bg == c then 1 else 1 + d
    ensures m'.validBg && m'.bg == c
  {
    hide InDepth;
    hide PixelBytes;
    var part, w: nat, h: nat := PartOf(pic, r.x1, r.y1), r.x2 - r.x1, r.y2 - r.y1;
    var k :| Verdict(part, w, h, k) && TurnWith(m, t, m', part, w, h, k, d);
    forall p | InTile(p, w, h)
      ensures part(p) == c
    {
      assert InRect(Moved(p, r.x1, r.y1), r);
    }
    OneColourVerdict(part, w, h, k, c);
  }

  lemma OneColourVerdict(part: Picture, w: nat, h: nat, k: Colours, c: int)
    requires Verdict(part, w, h, k) && forall p :: InTile(p, w, h) ==> part(p) == c
    ensures k.solid && k.bg == c
  {
    var p :| InTile(p, w, h) && part(p) == k.bg;
  }

  /** Raw pixels instead of what was put so far. */
  method FallBack(ub: UpdateBuffer, fb: Frame, x: nat, y: nat, w: nat, h: nat, d: Depth, start: nat) returns (ghost t: Tile)
    requires ub.Valid() && start <= ub.ublen && start + TileMost(d) <= UPDATE_BUF_SIZE
    requires RectOnScreen(fb, Rect(x, y, x + w, y + h)) && InDepth(Shown(fb), Rect(x, y, x + w, y + h), d)
    requires 0 < w <= 16 && 0 < h <= 16
    modifies ub, ub.updateBuf
    ensures ub.Valid() && t == RawTile && TileOk(t, Shown(fb), Rect(x, y, x + w, y + h), d)
    ensures ub.Stream() == old(ub.Until(start)) + TileBytes(t, Shown(fb), Rect(x, y, x + w, y + h), d)
    ensures ub.ublen <= start + TileMost(d)
  {
    hide UpdateBuffer.Stream;
    hide UpdateBuffer.Until;
    hide InDepth;
    hide RectBytes;
    MostPixels(w, h, d);
    t := RawTile;
    ub.Rewind(start);
    ub.Put([FLAG_RAW]);
    var pixels := RawPixels(fb, x, y, w, h, d);
    ub.Put(pixels);
  }

  ghost predicate TileSendable(ub: UpdateBuffer, fb: Frame, x: nat, y: nat, w: nat, h: nat, d: Depth)
    reads ub, ub.updateBuf, fb
  {
    ub.Valid() && ub.ublen + TileMost(d) <= UPDATE_BUF_SIZE && RectOnScreen(fb, Rect(x, y, x + w, y + h)) &&
    InDepth(Shown(fb), Rect(x, y, x + w, y + h), d) && 0 < w <= 16 && 0 < h <= 16
  }

  /** One turn of `sendHextiles`, the buffer having room for any tile. */
  method SendTile(ub: UpdateBuffer, fb: Frame, x: nat, y: nat, w: nat, h: nat, d: Depth, m: Remembered) returns (m': Remembered, ghost t: Tile)
    requires TileSendable(ub, fb, x, y, w, h, d)
    modifies ub, ub.updateBuf
    ensures ub.Valid() && TileOk(t, Shown(fb), Rect(x, y, x + w, y + h), d) && Keeps(m, t, m')
    ensures Turn(m, t, m', Shown(fb), Rect(x, y, x + w, y + h), d)
    ensures ub.Stream() == old(ub.Stream()) + TileBytes(t, Shown(fb), Rect(x, y, x + w, y + h), d)
    ensures ub.ublen <= old(ub.ublen) + TileMost(d)
  {
    hide UpdateBuffer.Stream;
    hide InDepth;
    hide Known;
    hide Keeps;
    hide TileOk;
    hide TileBytes;
    hide TileSendable;
    hide Turn;
    hide TurnWith;
    hide Shown;
    Sendable(ub, fb, x, y, w, h, d);
    var data, k := Look(fb, x, y, w, h, d);
    ghost var part := Shown(data);
    m', t := SendLooked(ub, fb, data, x, y, d, m, k);
    TurnSeen(m, t, m', Shown(fb), part, Rect(x, y, x + w, y + h), k, d);
  }

  lemma Sendable(ub: UpdateBuffer, fb: Frame, x: nat, y: nat, w: nat, h: nat, d: Depth)
    requires TileSendable(ub, fb, x, y, w, h, d)
    ensures ub.Valid() && RectOnScreen(fb, Rect(x, y, x + w, y + h)) && InDepth(Shown(fb), Rect(x, y, x + w, y + h), d)
    ensures 0 < w <= 16 && 0 < h <= 16
  {
  }

  lemma KnownIs(fb: Frame, data: Frame, x: nat, y: nat, k: Colours, d: Depth)
    requires Known(Shown(fb), Shown(data), Rect(x, y, x + data.Length1, y + data.Length0), k, d)
    ensures 0 < data.Length1 <= 16 && 0 < data.Length0 <= 16 && InDepth(Shown(fb), Rect(x, y, x + data.Length1, y + data.Length0), d)
    ensures InDepth(Shown(data), Rect(0, 0, data.Length1, data.Length0), d) && Occurs(Shown(data), k.bg, data.Length1, data.Length0)
  {
  }

  lemma Unfold(ub: UpdateBuffer, fb: Frame, data: Frame, x: nat, y: nat, k: Colours, d: Depth)
    requires TileSendable(ub, fb, x, y, data.Length1, data.Length0, d)
    requires Known(Shown(fb), Shown(data), Rect(x, y, x + data.Length1, y + data.Length0), k, d)
    ensures ub.Valid() && ub.ublen + TileMost(d) <= UPDATE_BUF_SIZE && Writable(k, d)
    ensures RectOnScreen(fb, Rect(x, y, x + data.Length1, y + data.Length0))
  {
  }

  lemma HeadIsShort(m: Remembered, k: Colours, d: Depth)
    requires Writable(k, d)
    ensures |Head(Plan(m, k, []), d)| <= 1 + 2 * d
  {
    hide PixelBytes;
  }

  /** After raw pixels nothing is relied on. */
  lemma RawKeeps(m: Remembered, bg: int, fg: int)
    ensures Keeps(m, RawTile, Remembered(false, bg, false, fg))
  {
  }

  /** The rest of the turn, once the colours are known. */
  method SendLooked(ub: UpdateBuffer, fb: Frame, data: Frame, x: nat, y: nat, d: Depth, m: Remembered, k: Colours) returns (m': Remembered, ghost t: Tile)
    requires TileSendable(ub, fb, x, y, data.Length1, data.Length0, d) && data != fb
    requires Known(Shown(fb), Shown(data), Rect(x, y, x + data.Length1, y + data.Length0), k, d)
    modifies ub, ub.updateBuf, data
    ensures ub.Valid() && TileOk(t, Shown(fb), Rect(x, y, x + data.Length1, y + data.Length0), d) && Keeps(m, t, m')
    ensures TurnWith(m, t, m', old(Shown(data)), data.Length1, data.Length0, k, d)
    ensures ub.Stream() == old(ub.Stream()) + TileBytes(t, Shown(fb), Rect(x, y, x + data.Length1, y + data.Length0), d)
    ensures ub.ublen <= old(ub.ublen) + TileMost(d)
  {
    hide UpdateBuffer.Stream;
    hide UpdateBuffer.Until;
    hide UpdateBuffer.Since;
    hide InDepth;
    hide Occurs;
    hide Head;
    hide Plan;
    hide Recall;
    hide Keeps;
    hide Encoded;
    hide TileOk;
    hide TileBytes;
    hide SubsBytes;
    hide Known;
    hide TileSendable;
    ghost var r := Rect(x, y, x + data.Length1, y + data.Length0);
    var start := ub.ublen;
    Unfold(ub, fb, data, x, y, k, d);
    m' := PutHead(ub, m, k, d);
    if k.solid {
      t := Plan(m, k, []);
      assert TurnWith(m, t, m', Shown(data), data.Length1, data.Length0, k, d);
      PlanKeeps(m, k, []);
      PlanShows(m, k, [], Shown(fb), Shown(data), r, d);
      PlanBytes(m, k, [], Shown(fb), Shown(data), r, d);
      ub.StreamSplits(start);
    } else {
      m', t := SendSubs(ub, fb, data, x, y, d, m, k, m', start);
    }
  }

  lemma PlanIs(m: Remembered, k: Colours, subs: seq<Sub>)
    ensures Plan(m, k, subs).SubTile? && Plan(m, k, subs).subs == subs
  {
  }

  /** Subrectangles behind the head, or raw pixels instead of both. */
  method SendSubs(ub: UpdateBuffer, fb: Frame, data: Frame, x: nat, y: nat, d: Depth, ghost m: Remembered, k: Colours, m0: Remembered, start: nat)
    returns (m': Remembered, ghost t: Tile)
    requires ub.Valid() && start <= ub.ublen && start + TileMost(d) <= UPDATE_BUF_SIZE && data != fb && !k.solid && Writable(k, d)
    requires RectOnScreen(fb, Rect(x, y, x + data.Length1, y + data.Length0))
    requires Known(Shown(fb), Shown(data), Rect(x, y, x + data.Length1, y + data.Length0), k, d)
    requires ub.Since(start) == Head(Plan(m, k, []), d) && m0 == Recall(m, k)
    modifies ub, ub.updateBuf, data
    ensures ub.Valid() && TileOk(t, Shown(fb), Rect(x, y, x + data.Length1, y + data.Length0), d) && Keeps(m, t, m')
    ensures TurnWith(m, t, m', old(Shown(data)), data.Length1, data.Length0, k, d)
    ensures ub.Stream() == old(ub.Until(start)) + TileBytes(t, Shown(fb), Rect(x, y, x + data.Length1, y + data.Length0), d)
    ensures ub.ublen <= start + TileMost(d)
  {
    hide UpdateBuffer.Stream;
    hide UpdateBuffer.Until;
    hide UpdateBuffer.Since;
    hide InDepth;
    hide Occurs;
    hide Head;
    hide Plan;
    hide Recall;
    hide Keeps;
    hide Encoded;
    hide TileOk;
    hide TileBytes;
    hide SubsBytes;
    hide Known;
    hide TileSendable;
    hide TilePays;
    hide GreedyCover;
    hide Shown;
    ghost var pic, part, r := Shown(fb), Shown(data), Rect(x, y, x + data.Length1, y + data.Length0);
    KnownIs(fb, data, x, y, k, d);
    HeadIsShort(m, k, d);
    ub.StreamSplits(start);
    ghost var subs;
    var ok;
    ok, subs := SubrectEncode(ub, data, k.bg, k.mono, d, start, ub.Since(start));
    m' := m0;
    if ok {
      t := Plan(m, k, subs);
      PlanIs(m, k, subs);
      PlanKeeps(m, k, subs);
      PlanShows(m, k, subs, pic, part, r, d);
      PlanBytes(m, k, subs, pic, part, r, d);
      ub.StreamSplits(start);
    } else {
      m' := Remembered(false, m'.bg, false, m'.fg);
      t := FallBack(ub, fb, x, y, data.Length1, data.Length0, d, start);
      RawKeeps(m, m'.bg, m'.fg);
    }
  }
}
