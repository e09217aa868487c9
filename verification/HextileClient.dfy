/** The client's walk over the tiles of a Hextile rectangle. */
module HextileClient {
  import opened Bytes
  import opened Rectangles
  import opened CopyRects
  import opened Hextile
  import opened Pixels
  import opened RawRects
  import opened Tilings

  /** Where the client is: `k` tiles done, at `(x, y)`. */
  ghost predicate Walking(s: Bytestring, i: nat, ts: seq<Tile>, pic: Picture, r: Rect, d: Depth, c: Carried, k: nat, x: int, y: int,
                          next: nat, bg: int, fg: int) {
    var rs := Tiles(r, 16);
    TilesOk(ts, pic, rs, d) && AllLegal(ts, c) && At(s, i, TilesBytes(ts, pic, rs, d)) &&
    k <= |ts| && rs[k..] == TilesFrom(x, y, r, 16) && r.x1 <= x && r.y1 <= y &&
    TilesOk(ts[..k], pic, rs[..k], d) && next == i + |TilesBytes(ts[..k], pic, rs[..k], d)| &&
    Carried(bg, fg) == AfterAll(ts[..k], c)
  }

  lemma WalkStarts(s: Bytestring, i: nat, ts: seq<Tile>, pic: Picture, r: Rect, d: Depth, bg: int, fg: int)
    requires TilesOk(ts, pic, Tiles(r, 16), d) && AllLegal(ts, Carried(bg, fg)) && At(s, i, TilesBytes(ts, pic, Tiles(r, 16), d))
    ensures Walking(s, i, ts, pic, r, d, Carried(bg, fg), 0, r.x1, r.y1, i, bg, fg)
  {
    hide TileOk;
    hide TilesFrom;
    assert ts[..0] == [] && Tiles(r, 16)[..0] == [];
  }

  /** The tile the client is at. */
  lemma WalkAt(s: Bytestring, i: nat, ts: seq<Tile>, pic: Picture, r: Rect, d: Depth, c: Carried, k: nat, x: int, y: int,
               next: nat, bg: int, fg: int)
    requires Walking(s, i, ts, pic, r, d, c, k, x, y, next, bg, fg) && y < r.y2 && x < r.x2
    ensures k < |ts| && TileOk(ts[k], pic, TileAt(x, y, r, 16), d) && Legal(ts[k], Carried(bg, fg))
    ensures At(s, next, TileBytes(ts[k], pic, TileAt(x, y, r, 16), d))
    ensures var t := ts[k]; var after := After(t, Carried(bg, fg));
            Walking(s, i, ts, pic, r, d, c, k + 1, x + 16, y, next + |TileBytes(t, pic, TileAt(x, y, r, 16), d)|, after.bg, after.fg)
  {
    hide TileOk;
    hide TileBytes;
    hide After;
    hide Legal;
    var rs := Tiles(r, 16);
    HeadAndRest(rs, k, rs[k..], TileAt(x, y, r, 16), TilesFrom(x + 16, y, r, 16));
    TileBytesAt(s, i, ts, pic, rs, d, k);
    assert ts[..k + 1][..k] == ts[..k];
    assert Legal(ts[k], AfterAll(ts[..k], c));
  }

  /** At the end of a row of tiles, nothing is read. */
  lemma WalkOn(s: Bytestring, i: nat, ts: seq<Tile>, pic: Picture, r: Rect, d: Depth, c: Carried, k: nat, x: int, y: int,
               next: nat, bg: int, fg: int)
    requires Walking(s, i, ts, pic, r, d, c, k, x, y, next, bg, fg) && y < r.y2 && x >= r.x2
    ensures Walking(s, i, ts, pic, r, d, c, k, r.x1, y + 16, next, bg, fg)
  {
    hide TileOk;
    hide TilesBytes;
    hide AllLegal;
  }

  lemma WalkEnds(s: Bytestring, i: nat, ts: seq<Tile>, pic: Picture, r: Rect, d: Depth, c: Carried, k: nat, x: int, y: int,
                 next: nat, bg: int, fg: int)
    requires Walking(s, i, ts, pic, r, d, c, k, x, y, next, bg, fg) && y >= r.y2
    ensures next == i + |TilesBytes(ts, pic, Tiles(r, 16), d)|
  {
    hide TileOk;
    hide TilesBytes;
    hide AllLegal;
    var rs := Tiles(r, 16);
    assert |rs[k..]| == 0;
    assert ts[..k] == ts && rs[..k] == rs;
  }

  /** One row of tiles. */
  method HandleRow(fb: Frame, s: Bytestring, ghost i: nat, next0: nat, r: Rect, y: int, d: Depth, bg0: int, fg0: int,
                   ghost ts: seq<Tile>, ghost pic: Picture, ghost c: Carried, ghost k0: nat, ghost was: Picture)
    returns (next: nat, bg: int, fg: int, ghost k: nat)
    requires RectOnScreen(fb, r) && y < r.y2
    requires Walking(s, i, ts, pic, r, d, c, k0, r.x1, y, next0, bg0, fg0) && ShowsBefore(Shown(fb), was, r, r.x1, y, 16, pic)
    modifies fb
    ensures Walking(s, i, ts, pic, r, d, c, k, r.x1, y + 16, next, bg, fg) && ShowsBefore(Shown(fb), was, r, r.x1, y + 16, 16, pic)
  {
    hide Walking;
    hide ShowsBefore;
    hide ShowsPart;
    hide Shown;
    hide TileOk;
    hide TileBytes;
    hide After;
    hide Legal;
    StartsInside(s, i, ts, pic, r, d, c, k0, r.x1, y, next0, bg0, fg0);
    next, bg, fg, k := next0, bg0, fg0, k0;
    var x := r.x1;
    while x < r.x2
      invariant r.x1 <= x
      invariant Walking(s, i, ts, pic, r, d, c, k, x, y, next, bg, fg) && ShowsBefore(Shown(fb), was, r, x, y, 16, pic)
    {
      WalkAt(s, i, ts, pic, r, d, c, k, x, y, next, bg, fg);
      next, bg, fg := HandleTileAt(fb, s, next, r, x, y, d, bg, fg, ts[k], pic, was);
      x, k := x + 16, k + 1;
    }
    WalkOn(s, i, ts, pic, r, d, c, k, x, y, next, bg, fg);
    OneMoreBand(Shown(fb), was, r, x, y, 16, pic);
  }

  lemma StartsInside(s: Bytestring, i: nat, ts: seq<Tile>, pic: Picture, r: Rect, d: Depth, c: Carried, k: nat, x: int, y: int,
                     next: nat, bg: int, fg: int)
    requires Walking(s, i, ts, pic, r, d, c, k, x, y, next, bg, fg)
    ensures r.x1 <= x && r.y1 <= y
  {
  }

  method HandleTileAt(fb: Frame, s: Bytestring, i: nat, r: Rect, x: int, y: int, d: Depth, bg0: int, fg0: int,
                      ghost t: Tile, ghost pic: Picture, ghost was: Picture)
    returns (next: nat, bg: int, fg: int)
    requires RectOnScreen(fb, r) && r.x1 <= x < r.x2 && r.y1 <= y < r.y2 && TileOk(t, pic, TileAt(x, y, r, 16), d)
    requires Legal(t, Carried(bg0, fg0)) && At(s, i, TileBytes(t, pic, TileAt(x, y, r, 16), d))
    requires ShowsBefore(Shown(fb), was, r, x, y, 16, pic)
    modifies fb
    ensures next == i + |TileBytes(t, pic, TileAt(x, y, r, 16), d)| && Carried(bg, fg) == After(t, Carried(bg0, fg0))
    ensures ShowsBefore(Shown(fb), was, r, x + 16, y, 16, pic)
  {
    hide ShowsBefore;
    hide ShowsPart;
    hide Shown;
    hide TileBytes;
    hide Writes;
    hide TileShows;
    hide After;
    hide Legal;
    ghost var mid := Shown(fb);
    next, bg, fg := HandleTile(fb, s, i, TileAt(x, y, r, 16), d, bg0, fg0, t, pic);
    OneMoreTile(Shown(fb), mid, was, r, x, y, 16, pic);
  }

  /** `HandleHextile`: whatever `bg` and `fg` hold at first. */
  method HandleHextile(fb: Frame, s: Bytestring, i: nat, r: Rect, d: Depth, bg0: int, fg0: int, ghost ts: seq<Tile>, ghost pic: Picture)
    returns (next: nat)
    requires RectOnScreen(fb, r) && TilesOk(ts, pic, Tiles(r, 16), d) && AllLegal(ts, Carried(bg0, fg0))
    requires At(s, i, TilesBytes(ts, pic, Tiles(r, 16), d))
    modifies fb
    ensures next == i + |TilesBytes(ts, pic, Tiles(r, 16), d)| && ShowsPart(Shown(fb), old(Shown(fb)), r, pic)
  {
    hide Walking;
    hide ShowsBefore;
    hide ShowsPart;
    hide Shown;
    hide TilesOk;
    hide AllLegal;
    hide TilesBytes;
    WalkStarts(s, i, ts, pic, r, d, bg0, fg0);
    NothingBefore(Shown(fb), pic, r, 16);
    ghost var k, c := 0, Carried(bg0, fg0);
    var bg, fg, y := bg0, fg0, r.y1;
    next := i;
    while y < r.y2
      invariant Walking(s, i, ts, pic, r, d, c, k, r.x1, y, next, bg, fg)
      invariant ShowsBefore(Shown(fb), old(Shown(fb)), r, r.x1, y, 16, pic)
    {
      next, bg, fg, k := HandleRow(fb, s, i, next, r, y, d, bg, fg, ts, pic, c, k, old(Shown(fb)));
      y := y + 16;
    }
    WalkEnds(s, i, ts, pic, r, d, c, k, r.x1, y, next, bg, fg);
    AllBefore(Shown(fb), old(Shown(fb)), r, y, 16, pic);
  }
}
