/**
 * Hextile (section 7.7.4 of RFC 6143): tiles of 16 by 16 pixels whose background and foreground
 * are carried over from tile to tile. The format, and the client.
 */
module Hextile {
  import opened Bytes
  import opened Rectangles
  import opened CopyRects
  import opened Pixels
  import opened RawRects
  import opened Rre
  import opened Subrects

  const FLAG_RAW: byte := 1
  const FLAG_BACKGROUND_SPECIFIED: byte := 2
  const FLAG_FOREGROUND_SPECIFIED: byte := 4
  const FLAG_ANY_SUBRECTS: byte := 8
  const FLAG_SUBRECTS_COLOURED: byte := 16

  datatype Style = Solid | Mono | Coloured

  /** A tile's colours are those in force once it is read, whether or not they are written. */
  datatype Tile = RawTile | SubTile(bgSpecified: bool, fgSpecified: bool, style: Style, bg: nat, fg: nat, subs: seq<Sub>)

  /** Two bytes of four bits each; sizes are written less one. */
  predicate Packable(s: Sub, d: Depth) {
    s.x < 16 && s.y < 16 && 1 <= s.w <= 16 && 1 <= s.h <= 16 && IsPixel(s.colour, d)
  }

  function SubBytes(s: Sub, coloured: bool, d: Depth): (b: Bytestring)
    requires Packable(s, d)
    ensures |b| == 2 + if coloured then d else 0
  {
    (if coloured then PixelBytes(s.colour, d) else []) + [s.x * 16 + s.y, (s.w - 1) * 16 + (s.h - 1)]
  }

  function PerSub(coloured: bool, d: Depth): nat {
    2 + if coloured then d else 0
  }

  function SubsBytes(subs: seq<Sub>, coloured: bool, d: Depth): (b: Bytestring)
    requires forall s :: s in subs ==> Packable(s, d)
    ensures |b| == |subs| * PerSub(coloured, d)
  {
    if subs == [] then []
    else
      assert |subs| * PerSub(coloured, d) == (|subs| - 1) * PerSub(coloured, d) + PerSub(coloured, d);
      SubsBytes(subs[..|subs| - 1], coloured, d) + SubBytes(subs[|subs| - 1], coloured, d)
  }

  function Flags(t: Tile): byte {
    match t
    case RawTile => FLAG_RAW
    case SubTile(bgSpecified, fgSpecified, style, _, _, _) =>
      (if bgSpecified then FLAG_BACKGROUND_SPECIFIED else 0) + (if fgSpecified then FLAG_FOREGROUND_SPECIFIED else 0) +
      (if style != Solid then FLAG_ANY_SUBRECTS else 0) + (if style == Coloured then FLAG_SUBRECTS_COLOURED else 0)
  }

  /** Everything fits its field. */
  ghost predicate Writes(t: Tile, pic: Picture, r: Rect, d: Depth) {
    r.x1 < r.x2 && r.y1 < r.y2 && InDepth(pic, r, d) &&
    (t.SubTile? ==> IsPixel(t.bg, d) && IsPixel(t.fg, d) && |t.subs| < 256 && forall s :: s in t.subs ==> Packable(s, d))
  }

  /** A colour that may be written or not. */
  function Specified(specified: bool, v: nat, d: Depth): Bytestring
    requires IsPixel(v, d)
  {
    if specified then PixelBytes(v, d) else []
  }

  ghost function Head(t: Tile, d: Depth): Bytestring
    requires t.SubTile? && IsPixel(t.bg, d) && IsPixel(t.fg, d)
  {
    [Flags(t)] + Specified(t.bgSpecified, t.bg, d) + Specified(t.fgSpecified, t.fg, d)
  }

  ghost function TileBytes(t: Tile, pic: Picture, r: Rect, d: Depth): Bytestring
    requires Writes(t, pic, r, d)
  {
    match t
    case RawTile => [FLAG_RAW] + RectBytes(pic, r.x1, r.y1, r.x2 - r.x1, r.y2 - r.y1, d)
    case SubTile(_, _, style, _, _, subs) =>
      Head(t, d) + if style == Solid then [] else [|subs|] + SubsBytes(subs, style == Coloured, d)
  }

  /** The tile shows what is in the picture. */
  ghost predicate TileShows(t: Tile, pic: Picture, r: Rect) {
    r.x1 < r.x2 <= r.x1 + 16 && r.y1 < r.y2 <= r.y1 + 16 &&
    (t.SubTile? ==>
      IsCover(PartOf(pic, r.x1, r.y1), t.bg, t.subs, r.x2 - r.x1, r.y2 - r.y1) &&
      (t.style == Solid ==> t.subs == []) && (t.style == Mono ==> forall s :: s in t.subs ==> s.colour == t.fg))
  }

  // ---------------------------------------------------------------- colours carried over

  /** The client's variables; at first they hold anything. */
  datatype Carried = Carried(bg: int, fg: int)

  /** A coloured tile leaves its last colour behind as the foreground. */
  function After(t: Tile, c: Carried): Carried {
    match t
    case RawTile => c
    case SubTile(_, _, style, bg, fg, subs) =>
      Carried(bg, match style
                  case Solid => c.fg
                  case Mono => fg
                  case Coloured => if subs == [] then c.fg else subs[|subs| - 1].colour)
  }

  /** What is not written is what the client has. */
  predicate Legal(t: Tile, c: Carried) {
    t.SubTile? ==>
      (t.bgSpecified || t.bg == c.bg) && (t.style == Mono ==> t.fgSpecified || t.fg == c.fg) && (t.fgSpecified ==> t.style == Mono)
  }

  // ---------------------------------------------------------------- one tile, at the client

  predicate Bit(b: byte, flag: byte)
    requires flag > 0
  {
    b / flag % 2 == 1
  }

  lemma FlagsReadBack(t: Tile)
    requires t.SubTile?
    ensures !Bit(Flags(t), FLAG_RAW) && Bit(Flags(t), FLAG_BACKGROUND_SPECIFIED) == t.bgSpecified
    ensures Bit(Flags(t), FLAG_FOREGROUND_SPECIFIED) == t.fgSpecified && Bit(Flags(t), FLAG_ANY_SUBRECTS) == (t.style != Solid)
    ensures Bit(Flags(t), FLAG_SUBRECTS_COLOURED) == (t.style == Coloured)
  {
  }

  lemma {:induction false} SubBytesAt(s: Bytestring, i: nat, subs: seq<Sub>, coloured: bool, d: Depth, k: nat)
    requires (forall s :: s in subs ==> Packable(s, d)) && At(s, i, SubsBytes(subs, coloured, d)) && k < |subs|
    ensures At(s, i + k * PerSub(coloured, d), SubBytes(subs[k], coloured, d))
  {
    hide SubBytes;
    hide PerSub;
    var before, last := subs[..|subs| - 1], subs[|subs| - 1];
    AtConcat(s, i, SubsBytes(before, coloured, d), SubBytes(last, coloured, d));
    if k < |before| {
      SubBytesAt(s, i, before, coloured, d, k);
    }
  }

  lemma PlaceReadsBack(s: Bytestring, i: nat, sub: Sub, coloured: bool, d: Depth)
    requires Packable(sub, d) && At(s, i, SubBytes(sub, coloured, d))
    ensures coloured ==> i + d <= |s| && ReadPixel(s, i, d) == sub.colour
    ensures var p := if coloured then i + d else i;
            p + 2 <= |s| && s[p] as int / 16 == sub.x && s[p] as int % 16 == sub.y &&
            s[p + 1] as int / 16 + 1 == sub.w && s[p + 1] as int % 16 + 1 == sub.h
  {
    hide PixelBytes;
    hide ReadPixel;
    var colour := if coloured then PixelBytes(sub.colour, d) else [];
    var place: Bytestring := [sub.x * 16 + sub.y, (sub.w - 1) * 16 + (sub.h - 1)];
    AtConcat(s, i, colour, place);
    AtIndex(s, i + |colour|, place, 0);
    AtIndex(s, i + |colour|, place, 1);
    if coloured {
      ReadWritten(s, i, sub.colour, d);
    }
  }

  /** One subrectangle of the client's two loops. */
  method HandleSub(fb: Frame, s: Bytestring, i: nat, r: Rect, coloured: bool, d: Depth, fg0: int, ghost sub: Sub,
                   ghost was: Picture, ghost bg: int, ghost subs: seq<Sub>)
    returns (next: nat, fg: int)
    requires RectOnScreen(fb, r) && Inside(sub, r) && ShowsSubs(Shown(fb), was, r, bg, subs)
    requires Packable(sub, d) && At(s, i, SubBytes(sub, coloured, d)) && (!coloured ==> sub.colour == fg0)
    modifies fb
    ensures next == i + PerSub(coloured, d) && fg == sub.colour && ShowsSubs(Shown(fb), was, r, bg, subs + [sub])
  {
    hide ShowsSubs;
    hide ReadPixel;
    hide SubBytes;
    PlaceReadsBack(s, i, sub, coloured, d);
    next, fg := i, fg0;
    if coloured {
      fg := ReadPixel(s, next, d);
      next := next + d;
    }
    var sx: nat, sy: nat := s[next] as int / 16, s[next] as int % 16;
    next := next + 1;
    var sw: nat, sh: nat := s[next] as int / 16 + 1, s[next] as int % 16 + 1;
    next := next + 1;
    PaintSub(fb, r, Sub(sx, sy, sw, sh, fg), was, bg, subs);
  }

  /** The two loops over subrectangles. */
  method HandleSubs(fb: Frame, s: Bytestring, i: nat, n: nat, r: Rect, d: Depth, fg0: int, coloured: bool, ghost t: Tile, ghost was: Picture)
    returns (next: nat, fg: int)
    requires RectOnScreen(fb, r) && t.SubTile? && n == |t.subs| && ShowsSubs(Shown(fb), was, r, t.bg, [])
    requires forall s :: s in t.subs ==> Packable(s, d) && Inside(s, r) && (!coloured ==> s.colour == fg0)
    requires At(s, i, SubsBytes(t.subs, coloured, d))
    modifies fb
    ensures next == i + n * PerSub(coloured, d) && ShowsSubs(Shown(fb), was, r, t.bg, t.subs)
    ensures fg == if t.subs == [] then fg0 else t.subs[n - 1].colour
  {
    hide ShowsSubs;
    hide SubBytes;
    hide SubsBytes;
    hide PerSub;
    hide Packable;
    hide Inside;
    next, fg := i, fg0;
    for k := 0 to n
      invariant next == i + k * PerSub(coloured, d) && ShowsSubs(Shown(fb), was, r, t.bg, t.subs[..k])
      invariant fg == if k == 0 then fg0 else t.subs[k - 1].colour
    {
      SubBytesAt(s, i, t.subs, coloured, d, k);
      assert t.subs[k] in t.subs && (k > 0 ==> t.subs[k - 1] in t.subs);
      assert t.subs[..k] + [t.subs[k]] == t.subs[..k + 1];
      assert (k + 1) * PerSub(coloured, d) == k * PerSub(coloured, d) + PerSub(coloured, d);
      next, fg := HandleSub(fb, s, next, r, coloured, d, fg, t.subs[k], was, t.bg, t.subs[..k]);
    }
    assert t.subs[..n] == t.subs;
  }

  lemma SpecifiedReadsBack(s: Bytestring, i: nat, specified: bool, v: nat, d: Depth)
    requires IsPixel(v, d) && At(s, i, Specified(specified, v, d))
    ensures |Specified(specified, v, d)| == if specified then d else 0
    ensures specified ==> i + d <= |s| && ReadPixel(s, i, d) == v
  {
    hide PixelBytes;
    hide ReadPixel;
    if specified {
      ReadWritten(s, i, v, d);
    }
  }

  lemma HeadReadsBack(s: Bytestring, i: nat, t: Tile, d: Depth)
    requires t.SubTile? && IsPixel(t.bg, d) && IsPixel(t.fg, d) && At(s, i, Head(t, d))
    ensures i + 1 <= |s| && s[i] == Flags(t)
    ensures t.bgSpecified ==> i + 1 + d <= |s| && ReadPixel(s, i + 1, d) == t.bg
    ensures t.fgSpecified ==> var p := if t.bgSpecified then i + 1 + d else i + 1; p + d <= |s| && ReadPixel(s, p, d) == t.fg
    ensures |Head(t, d)| == 1 + (if t.bgSpecified then d else 0) + (if t.fgSpecified then d else 0)
  {
    hide Specified;
    hide ReadPixel;
    hide Flags;
    hide IsPixel;
    var bg, fg := Specified(t.bgSpecified, t.bg, d), Specified(t.fgSpecified, t.fg, d);
    AtConcat(s, i, [Flags(t)] + bg, fg);
    AtConcat(s, i, [Flags(t)], bg);
    AtIndex(s, i, [Flags(t)], 0);
    SpecifiedReadsBack(s, i + 1, t.bgSpecified, t.bg, d);
    SpecifiedReadsBack(s, i + |[Flags(t)] + bg|, t.fgSpecified, t.fg, d);
  }

  /** A tile of pixels. */
  method HandleRawTile(fb: Frame, s: Bytestring, i: nat, r: Rect, d: Depth, ghost pic: Picture) returns (next: nat)
    requires RectOnScreen(fb, r) && r.x1 < r.x2 <= r.x1 + 16 && r.y1 < r.y2 <= r.y1 + 16 && InDepth(pic, r, d)
    requires At(s, i, RectBytes(pic, r.x1, r.y1, r.x2 - r.x1, r.y2 - r.y1, d))
    modifies fb
    ensures next == i + (r.y2 - r.y1) * ((r.x2 - r.x1) * d) && ShowsPart(Shown(fb), old(Shown(fb)), r, pic)
  {
    hide RectBytes;
    hide ShowsRead;
    hide ShowsPart;
    hide InDepth;
    var h: nat, w: nat := r.y2 - r.y1, r.x2 - r.x1;
    NothingRead(Shown(fb), r, s, i, d);
    CopyLines(fb, s, i, i, r, 0, h, d, Shown(fb));
    RawReadsBack(s, i, pic, Shown(fb), old(Shown(fb)), r, d);
    next := i + h * (w * d);
  }

  /** The colours at the head of a tile. */
  method HandleHead(s: Bytestring, i: nat, d: Depth, bg0: int, fg0: int, ghost t: Tile) returns (subencoding: byte, next: nat, bg: int, fg: int)
    requires t.SubTile? && IsPixel(t.bg, d) && IsPixel(t.fg, d) && At(s, i, Head(t, d)) && Legal(t, Carried(bg0, fg0))
    ensures subencoding == Flags(t) && next == i + |Head(t, d)| && bg == t.bg && fg == if t.style == Mono then t.fg else fg0
  {
    hide ReadPixel;
    hide Flags;
    hide Bit;
    HeadReadsBack(s, i, t, d);
    FlagsReadBack(t);
    subencoding, next, bg, fg := s[i], i + 1, bg0, fg0;
    if Bit(subencoding, FLAG_BACKGROUND_SPECIFIED) {
      bg := ReadPixel(s, next, d);
      next := next + d;
    }
    if Bit(subencoding, FLAG_FOREGROUND_SPECIFIED) {
      fg := ReadPixel(s, next, d);
      next := next + d;
    }
  }

  lemma SubTileFacts(t: Tile, pic: Picture, r: Rect, d: Depth)
    requires t.SubTile? && Writes(t, pic, r, d) && TileShows(t, pic, r)
    ensures IsPixel(t.bg, d) && IsPixel(t.fg, d) && |t.subs| < 256
    ensures forall s :: s in t.subs ==> Packable(s, d) && Inside(s, r) && (t.style == Mono ==> s.colour == t.fg)
    ensures t.style == Solid ==> t.subs == []
  {
    hide InDepth;
    hide PartOf;
    hide ColourAt;
    hide Disjoint;
    hide Covered;
  }

  lemma TileSplits(t: Tile, pic: Picture, r: Rect, d: Depth)
    requires t.SubTile? && Writes(t, pic, r, d)
    ensures TileBytes(t, pic, r, d) == Head(t, d) + if t.style == Solid then [] else [|t.subs|] + SubsBytes(t.subs, t.style == Coloured, d)
  {
    hide Head;
    hide SubsBytes;
    hide InDepth;
    hide Packable;
  }

  /** What the client needs to know about a tile of subrectangles. */
  lemma SubTileParts(s: Bytestring, i: nat, t: Tile, pic: Picture, r: Rect, d: Depth)
    requires t.SubTile? && Writes(t, pic, r, d) && TileShows(t, pic, r) && At(s, i, TileBytes(t, pic, r, d))
    ensures IsPixel(t.bg, d) && IsPixel(t.fg, d) && At(s, i, Head(t, d))
    ensures forall s :: s in t.subs ==> Packable(s, d) && Inside(s, r) && (t.style == Mono ==> s.colour == t.fg)
    ensures if t.style == Solid then t.subs == [] && |TileBytes(t, pic, r, d)| == |Head(t, d)|
            else var at := i + |Head(t, d)|;
                 at < |s| && s[at] == |t.subs| && At(s, at + 1, SubsBytes(t.subs, t.style == Coloured, d)) &&
                 |TileBytes(t, pic, r, d)| == |Head(t, d)| + 1 + |SubsBytes(t.subs, t.style == Coloured, d)|
  {
    hide Head;
    hide SubsBytes;
    hide Packable;
    hide Inside;
    hide TileShows;
    hide Writes;
    hide TileBytes;
    SubTileFacts(t, pic, r, d);
    TileSplits(t, pic, r, d);
    var rest := if t.style == Solid then [] else [|t.subs|] + SubsBytes(t.subs, t.style == Coloured, d);
    AtConcat(s, i, Head(t, d), rest);
    if t.style != Solid {
      var at := i + |Head(t, d)|;
      AtConcat(s, at, [|t.subs|], SubsBytes(t.subs, t.style == Coloured, d));
      AtIndex(s, at, [|t.subs|], 0);
    }
  }

  /** A tile of subrectangles. */
  method HandleSubTile(fb: Frame, s: Bytestring, i: nat, r: Rect, d: Depth, bg0: int, fg0: int, ghost t: Tile, ghost pic: Picture)
    returns (next: nat, bg: int, fg: int)
    requires RectOnScreen(fb, r) && t.SubTile? && Writes(t, pic, r, d) && TileShows(t, pic, r) && Legal(t, Carried(bg0, fg0))
    requires At(s, i, TileBytes(t, pic, r, d))
    modifies fb
    ensures next == i + |TileBytes(t, pic, r, d)| && Carried(bg, fg) == After(t, Carried(bg0, fg0))
    ensures ShowsSubs(Shown(fb), old(Shown(fb)), r, t.bg, t.subs)
  {
    hide Head;
    hide SubsBytes;
    hide TileBytes;
    hide Writes;
    hide TileShows;
    hide Legal;
    hide Flags;
    hide Bit;
    hide ShowsSubs;
    hide ShowsFill;
    hide Packable;
    hide Inside;
    hide Shown;
    SubTileParts(s, i, t, pic, r, d);
    FlagsReadBack(t);
    var subencoding;
    subencoding, next, bg, fg := HandleHead(s, i, d, bg0, fg0, t);
    FillRectangle(fb, r.x1, r.y1, r.x2 - r.x1, r.y2 - r.y1, bg);
    BackgroundFirst(Shown(fb), old(Shown(fb)), r, bg);
    if Bit(subencoding, FLAG_ANY_SUBRECTS) {
      var nSubrects := s[next];
      next, fg := HandleSubs(fb, s, next + 1, nSubrects, r, d, fg, Bit(subencoding, FLAG_SUBRECTS_COLOURED), t, old(Shown(fb)));
    }
  }

  lemma FirstByte(s: Bytestring, i: nat, t: Tile, pic: Picture, r: Rect, d: Depth)
    requires Writes(t, pic, r, d) && At(s, i, TileBytes(t, pic, r, d))
    ensures i < |s| && s[i] == Flags(t) && (Bit(s[i], FLAG_RAW) <==> t.RawTile?)
    ensures t.RawTile? ==> At(s, i + 1, RectBytes(pic, r.x1, r.y1, r.x2 - r.x1, r.y2 - r.y1, d))
  {
    hide RectBytes;
    hide Flags;
    hide SubsBytes;
    if t.RawTile? {
      AtConcat(s, i, [FLAG_RAW], RectBytes(pic, r.x1, r.y1, r.x2 - r.x1, r.y2 - r.y1, d));
      AtIndex(s, i, [FLAG_RAW], 0);
      RawFlag();
    } else {
      var rest := if t.style == Solid then [] else [|t.subs|] + SubsBytes(t.subs, t.style == Coloured, d);
      AtConcat(s, i, Head(t, d), rest);
      HeadReadsBack(s, i, t, d);
      FlagsReadBack(t);
    }
  }

  lemma RawFlag()
    ensures Flags(RawTile) == FLAG_RAW && Bit(FLAG_RAW, FLAG_RAW)
  {
  }

  /** One turn of the client's loops. */
  method HandleTile(fb: Frame, s: Bytestring, i: nat, r: Rect, d: Depth, bg0: int, fg0: int, ghost t: Tile, ghost pic: Picture)
    returns (next: nat, bg: int, fg: int)
    requires RectOnScreen(fb, r) && Writes(t, pic, r, d) && TileShows(t, pic, r) && Legal(t, Carried(bg0, fg0))
    requires At(s, i, TileBytes(t, pic, r, d))
    modifies fb
    ensures next == i + |TileBytes(t, pic, r, d)| && Carried(bg, fg) == After(t, Carried(bg0, fg0))
    ensures ShowsPart(Shown(fb), old(Shown(fb)), r, pic)
  {
    hide RectBytes;
    hide Head;
    hide SubsBytes;
    hide Flags;
    hide Bit;
    hide ShowsSubs;
    hide ShowsPart;
    hide IsCover;
    hide InDepth;
    FirstByte(s, i, t, pic, r, d);
    if Bit(s[i], FLAG_RAW) {
      bg, fg := bg0, fg0;
      next := HandleRawTile(fb, s, i + 1, r, d, pic);
    } else {
      next, bg, fg := HandleSubTile(fb, s, i, r, d, bg0, fg0, t, pic);
      CoverShows(Shown(fb), old(Shown(fb)), pic, r, t.bg, t.subs);
    }
  }

  // ---------------------------------------------------------------- the tiles of a rectangle

  ghost predicate TileOk(t: Tile, pic: Picture, r: Rect, d: Depth) {
    Writes(t, pic, r, d) && TileShows(t, pic, r)
  }

  ghost predicate TilesOk(ts: seq<Tile>, pic: Picture, rs: seq<Rect>, d: Depth) {
    |ts| == |rs| && forall k :: 0 <= k < |ts| ==> TileOk(ts[k], pic, rs[k], d)
  }

  ghost function TilesBytes(ts: seq<Tile>, pic: Picture, rs: seq<Rect>, d: Depth): Bytestring
    requires TilesOk(ts, pic, rs, d)
  {
    if ts == [] then []
    else
      var n := |ts| - 1;
      assert TileOk(ts[n], pic, rs[n], d);
      assert TilesOk(ts[..n], pic, rs[..n], d);
      TilesBytes(ts[..n], pic, rs[..n], d) + TileBytes(ts[n], pic, rs[n], d)
  }

  /** What the client carries after some tiles. */
  function AfterAll(ts: seq<Tile>, c: Carried): Carried {
    if ts == [] then c else After(ts[|ts| - 1], AfterAll(ts[..|ts| - 1], c))
  }

  ghost predicate AllLegal(ts: seq<Tile>, c: Carried) {
    forall k :: 0 <= k < |ts| ==> Legal(ts[k], AfterAll(ts[..k], c))
  }

  lemma {:induction false} TileBytesAt(s: Bytestring, i: nat, ts: seq<Tile>, pic: Picture, rs: seq<Rect>, d: Depth, k: nat)
    requires TilesOk(ts, pic, rs, d) && At(s, i, TilesBytes(ts, pic, rs, d)) && k < |ts|
    ensures TileOk(ts[k], pic, rs[k], d) && TilesOk(ts[..k], pic, rs[..k], d) && TilesOk(ts[..k + 1], pic, rs[..k + 1], d)
    ensures At(s, i + |TilesBytes(ts[..k], pic, rs[..k], d)|, TileBytes(ts[k], pic, rs[k], d))
    ensures |TilesBytes(ts[..k + 1], pic, rs[..k + 1], d)| == |TilesBytes(ts[..k], pic, rs[..k], d)| + |TileBytes(ts[k], pic, rs[k], d)|
  {
    hide TileShows;
    hide Writes;
    hide TileBytes;
    var n := |ts| - 1;
    assert TileOk(ts[n], pic, rs[n], d) && TileOk(ts[k], pic, rs[k], d);
    AtConcat(s, i, TilesBytes(ts[..n], pic, rs[..n], d), TileBytes(ts[n], pic, rs[n], d));
    if k < n {
      TileBytesAt(s, i, ts[..n], pic, rs[..n], d, k);
      assert ts[..n][..k] == ts[..k] && ts[..n][..k + 1] == ts[..k + 1];
      assert rs[..n][..k] == rs[..k] && rs[..n][..k + 1] == rs[..k + 1];
    } else {
      assert ts[..k + 1] == ts && rs[..k + 1] == rs;
    }
  }
}
