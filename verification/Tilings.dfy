/** Walking a rectangle tile by tile, rows first, as Hextile and ZRLE do at both ends. */
module Tilings {
  import opened Rectangles
  import opened CopyRects
  import opened RawRects

  /** The tile at `(x, y)`: smaller at the right and bottom edges. */
  function TileAt(x: int, y: int, r: Rect, n: nat): Rect {
    Rect(x, y, if r.x2 - x < n then r.x2 else x + n, if r.y2 - y < n then r.y2 else y + n)
  }

  /** The tiles from `(x, y)` on. */
  function TilesFrom(x: int, y: int, r: Rect, n: nat): seq<Rect>
    requires n > 0
    decreases r.y2 - y, r.x2 - x
  {
    if y >= r.y2 then []
    else if x >= r.x2 then TilesFrom(r.x1, y + n, r, n)
    else [TileAt(x, y, r, n)] + TilesFrom(x + n, y, r, n)
  }

  function Tiles(r: Rect, n: nat): seq<Rect>
    requires n > 0
  {
    TilesFrom(r.x1, r.y1, r, n)
  }

  /** No tile reaches out of the rectangle. */
  lemma {:induction false} TilesInside(x: int, y: int, r: Rect, n: nat, p: Pt)
    requires n > 0 && r.x1 <= x && r.y1 <= y
    ensures forall q :: q in TilesFrom(x, y, r, n) && InRect(p, q) ==> InRect(p, r)
    decreases r.y2 - y, r.x2 - x
  {
    if y >= r.y2 {
    } else if x >= r.x2 {
      TilesInside(r.x1, y + n, r, n, p);
    } else {
      TilesInside(x + n, y, r, n, p);
    }
  }

  /** The part of `r` before the tile at `(x, y)`. */
  predicate Before(p: Pt, r: Rect, x: int, y: int, n: nat) {
    InRect(p, r) && (p.y < y || (p.y < y + n && p.x < x))
  }

  /** `pic` in the tiles before `(x, y)`, `was` everywhere else. */
  ghost predicate ShowsBefore(now: Picture, was: Picture, r: Rect, x: int, y: int, n: nat, pic: Picture) {
    forall p :: now(p) == if Before(p, r, x, y, n) then pic(p) else was(p)
  }

  lemma NothingBefore(pic: Picture, any: Picture, r: Rect, n: nat)
    ensures ShowsBefore(pic, pic, r, r.x1, r.y1, n, any)
  {
  }

  lemma OneMoreTile(now: Picture, mid: Picture, was: Picture, r: Rect, x: int, y: int, n: nat, pic: Picture)
    requires r.x1 <= x < r.x2 && r.y1 <= y < r.y2
    requires ShowsBefore(mid, was, r, x, y, n, pic) && ShowsPart(now, mid, TileAt(x, y, r, n), pic)
    ensures ShowsBefore(now, was, r, x + n, y, n, pic)
  {
    forall p
      ensures now(p) == if Before(p, r, x + n, y, n) then pic(p) else was(p)
    {
      assert mid(p) == if Before(p, r, x, y, n) then pic(p) else was(p);
      assert now(p) == if InRect(p, TileAt(x, y, r, n)) then pic(p) else mid(p);
    }
  }

  lemma OneMoreBand(now: Picture, was: Picture, r: Rect, x: int, y: int, n: nat, pic: Picture)
    requires x >= r.x2 && ShowsBefore(now, was, r, x, y, n, pic)
    ensures ShowsBefore(now, was, r, r.x1, y + n, n, pic)
  {
    forall p
      ensures now(p) == if Before(p, r, r.x1, y + n, n) then pic(p) else was(p)
    {
      assert now(p) == if Before(p, r, x, y, n) then pic(p) else was(p);
    }
  }

  lemma AllBefore(now: Picture, was: Picture, r: Rect, y: int, n: nat, pic: Picture)
    requires y >= r.y2 && ShowsBefore(now, was, r, r.x1, y, n, pic)
    ensures ShowsPart(now, was, r, pic)
  {
    forall p
      ensures now(p) == if InRect(p, r) then pic(p) else was(p)
    {
      assert now(p) == if Before(p, r, r.x1, y, n) then pic(p) else was(p);
    }
  }
}
