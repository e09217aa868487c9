/** A whole rectangle in ZRLE, sent and received; zlib is taken to hand on what it is given. */
module ZrleRects {
  import opened Arithmetic
  import opened Bytes
  import opened Palette
  import opened Rectangles
  import opened CopyRects
  import opened Pixels
  import opened RawRects
  import opened Tilings
  import opened UpdateBuffers
  import opened ZrleChoice
  import opened ZrleDecode
  import opened ZrleEncode
  import opened ZrleFormat

  const TILE: nat := 64

  // ---------------------------------------------------------------- pictures and tiles

  /** The buffer holds the rectangle's pixels in reading order. */
  ghost predicate HasPixels(data: seq<nat>, pic: Picture, r: Rect) {
    |data| == (r.y2 - r.y1) * (r.x2 - r.x1) &&
    forall p :: InRect(p, r) ==> FlatAt(data, r.x2 - r.x1, p.x - r.x1, p.y - r.y1) == pic(p)
  }

  /** A tile that is painted shows the picture. */
  lemma FlatShows(now: Picture, was: Picture, r: Rect, data: seq<nat>, pic: Picture)
    requires HasPixels(data, pic, r) && ShowsFlat(now, was, r, data, 0, r.y2 - r.y1)
    ensures ShowsPart(now, was, r, pic)
  {
    forall p
      ensures now(p) == if InRect(p, r) then pic(p) else was(p)
    {
      assert now(p) == if Painted(p, r, 0, r.y2 - r.y1) then FlatAt(data, r.x2 - r.x1, p.x - r.x1, p.y - r.y1) else was(p);
    }
  }

  lemma FlatAppended(data: seq<nat>, row: seq<nat>, w: nat, h: nat, u: nat, v: nat)
    requires |data| == h * w && |row| == w && u < w && v <= h
    ensures FlatAt(data + row, w, u, v) == if v < h then FlatAt(data, w, u, v) else row[u]
  {
    if v < h {
      FlatIndex(u, v, w, h);
    } else {
      assert (data + row)[h * w + u] == row[u];
    }
  }

  lemma RowAppended(data: seq<nat>, row: seq<nat>, pic: Picture, x: int, y: int, w: nat, h: nat)
    requires HasPixels(data, pic, Rect(x, y, x + w, y + h)) && |row| == w && forall u :: 0 <= u < w ==> row[u] == pic(Pt(x + u, y + h))
    ensures HasPixels(data + row, pic, Rect(x, y, x + w, y + h + 1))
  {
    hide FlatAt;
    RowAfter(h, w);
    assert |data| == h * w;
    forall p | InRect(p, Rect(x, y, x + w, y + h + 1))
      ensures FlatAt(data + row, w, p.x - x, p.y - y) == pic(p)
    {
      var u: nat, v: nat := p.x - x, p.y - y;
      FlatAppended(data, row, w, h, u, v);
      if v < h {
        assert InRect(p, Rect(x, y, x + w, y + h));
        assert FlatAt(data, w, u, v) == pic(p);
      } else {
        assert p == Pt(x + u, y + h);
      }
    }
  }

  lemma NoRowsYet(pic: Picture, x: int, y: int, w: nat)
    ensures HasPixels([], pic, Rect(x, y, x + w, y))
  {
  }

  /** `GET_IMAGE_INTO_BUF` */
  method GetImage(fb: Frame, r: Rect, d: Depth) returns (data: seq<nat>)
    requires RectOnScreen(fb, r) && InDepth(Shown(fb), r, d)
    ensures HasPixels(data, Shown(fb), r) && AllPixels(data, d)
  {
    hide HasPixels;
    var w: nat, h: nat := r.x2 - r.x1, r.y2 - r.y1;
    data := [];
    NoRowsYet(Shown(fb), r.x1, r.y1, w);
    for j := 0 to h
      invariant HasPixels(data, Shown(fb), Rect(r.x1, r.y1, r.x1 + w, r.y1 + j)) && AllPixels(data, d)
    {
      var row := GetRow(fb, r, r.y1 + j, d);
      RowAppended(data, row, Shown(fb), r.x1, r.y1, w, j);
      data := data + row;
    }
  }

  method GetRow(fb: Frame, r: Rect, y: int, d: Depth) returns (row: seq<nat>)
    requires RectOnScreen(fb, r) && InDepth(Shown(fb), r, d) && r.y1 <= y < r.y2
    ensures |row| == r.x2 - r.x1 && (forall u :: 0 <= u < |row| ==> row[u] == Shown(fb)(Pt(r.x1 + u, y))) && AllPixels(row, d)
  {
    row := [];
    for i := r.x1 to r.x2
      invariant |row| == i - r.x1 && forall u :: 0 <= u < |row| ==> row[u] == fb[y, r.x1 + u]
      invariant AllPixels(row, d)
    {
      assert InRect(Pt(i, y), r) && Shown(fb)(Pt(i, y)) == fb[y, i];
      row := row + [fb[y, i]];
    }
  }

  // ---------------------------------------------------------------- the tiles of a rectangle

  predicate NotEmptyRect(r: Rect) {
    r.x1 < r.x2 && r.y1 < r.y2
  }

  /** The bytes are a tile of the picture. */
  ghost predicate Codes(b: Bytestring, pic: Picture, r: Rect, d: Depth) {
    NotEmptyRect(r) && exists m, data :: CodesAs(b, m, data, pic, r, d)
  }

  ghost predicate CodesAs(b: Bytestring, m: Mode, data: seq<nat>, pic: Picture, r: Rect, d: Depth)
    requires NotEmptyRect(r)
  {
    Legal(m, data, r.x2 - r.x1, r.y2 - r.y1, d) && HasPixels(data, pic, r) && b == TileBytes(m, data, r.x2 - r.x1, r.y2 - r.y1, d)
  }

  ghost predicate AllCode(bs: seq<Bytestring>, pic: Picture, rs: seq<Rect>, d: Depth) {
    |bs| == |rs| && forall k :: 0 <= k < |bs| ==> Codes(bs[k], pic, rs[k], d)
  }

  /** The bytes are the tile in a mode to be chosen for it. */
  ghost predicate Chooses(b: Bytestring, pic: Picture, r: Rect, d: Depth) {
    NotEmptyRect(r) && exists m, data :: CodesAs(b, m, data, pic, r, d) && IsChosen(m, data, r.x2 - r.x1, r.y2 - r.y1, d)
  }

  ghost predicate AllChosen(bs: seq<Bytestring>, pic: Picture, rs: seq<Rect>, d: Depth) {
    |bs| == |rs| && forall k :: 0 <= k < |bs| ==> Chooses(bs[k], pic, rs[k], d)
  }

  lemma ChosenCodes(bs: seq<Bytestring>, pic: Picture, rs: seq<Rect>, d: Depth)
    requires AllChosen(bs, pic, rs, d)
    ensures AllCode(bs, pic, rs, d)
  {
    hide CodesAs;
    hide IsChosen;
    forall k | 0 <= k < |bs|
      ensures Codes(bs[k], pic, rs[k], d)
    {
      assert Chooses(bs[k], pic, rs[k], d);
    }
  }

  /** A pixel of the buffer is one of the picture. */
  lemma PixelIsShown(data: seq<nat>, pic: Picture, r: Rect, k: nat)
    requires HasPixels(data, pic, r) && NotEmptyRect(r) && k < |data|
    ensures exists p :: InRect(p, r) && pic(p) == data[k]
  {
    var w, h := r.x2 - r.x1, r.y2 - r.y1;
    var u, v := k % w, k / w;
    assert v * w + u == k;
    assert v < h by {
      if v >= h {
        ProductAtMost(h, v, w);
      }
    }
    var p := Pt(r.x1 + u, r.y1 + v);
    assert InRect(p, r) && FlatAt(data, w, p.x - r.x1, p.y - r.y1) == pic(p);
  }

  /** A tile of one colour takes a byte and that colour. */
  lemma OneColourTile(b: Bytestring, pic: Picture, r: Rect, d: Depth, c: int)
    requires Chooses(b, pic, r, d) && forall p :: InRect(p, r) ==> pic(p) == c
    ensures |b| == 1 + d
  {
    hide HasPixels;
    hide TileBytes;
    hide CountRuns;
    var w: nat, h: nat := r.x2 - r.x1, r.y2 - r.y1;
    var m, data :| CodesAs(b, m, data, pic, r, d) && IsChosen(m, data, w, h, d);
    forall k | 0 <= k < |data|
      ensures data[k] == c
    {
      PixelIsShown(data, pic, r, k);
    }
    assert |data| > 0 by {
      SizeIsPositive(w, h, d);
    }
    assert ColoursOf(data) == {data[0]};
    PaletteSize(m, data, w, h, d);
  }

  /** A rectangle of one colour takes that for each of its tiles. */
  lemma {:induction false} OneColourTiles(bs: seq<Bytestring>, pic: Picture, rs: seq<Rect>, d: Depth, c: int)
    requires AllChosen(bs, pic, rs, d) && forall k, p :: 0 <= k < |rs| && InRect(p, rs[k]) ==> pic(p) == c
    ensures |Joined(bs)| == |bs| * (1 + d)
  {
    hide Chooses;
    if bs != [] {
      var n := |bs| - 1;
      OneColourTiles(bs[..n], pic, rs[..n], d, c);
      OneColourTile(bs[n], pic, rs[n], d, c);
      assert |bs| * (1 + d) == n * (1 + d) + (1 + d);
    }
  }

  lemma OneColourRect(bs: seq<Bytestring>, pic: Picture, r: Rect, d: Depth, c: int)
    requires AllChosen(bs, pic, Tiles(r, TILE), d) && forall p :: InRect(p, r) ==> pic(p) == c
    ensures |Joined(bs)| == |Tiles(r, TILE)| * (1 + d)
  {
    hide Chooses;
    hide Joined;
    var rs := Tiles(r, TILE);
    forall k, p | 0 <= k < |rs| && InRect(p, rs[k])
      ensures pic(p) == c
    {
      TilesInside(r.x1, r.y1, r, TILE, p);
      assert rs[k] in rs;
    }
    OneColourTiles(bs, pic, rs, d, c);
  }

  function Joined(bs: seq<Bytestring>): Bytestring {
    if bs == [] then [] else Joined(bs[..|bs| - 1]) + bs[|bs| - 1]
  }

  lemma {:induction false} PartAt(s: Bytestring, i: nat, bs: seq<Bytestring>, k: nat)
    requires At(s, i, Joined(bs)) && k < |bs|
    ensures At(s, i + |Joined(bs[..k])|, bs[k]) && |Joined(bs[..k + 1])| == |Joined(bs[..k])| + |bs[k]|
  {
    var n := |bs| - 1;
    AtConcat(s, i, Joined(bs[..n]), bs[n]);
    if k < n {
      PartAt(s, i, bs[..n], k);
      assert bs[..n][..k] == bs[..k] && bs[..n][..k + 1] == bs[..k + 1];
    } else {
      assert bs[..k + 1] == bs;
    }
  }

  // ---------------------------------------------------------------- sending

  function Least(a: int, b: int): int {
    if a < b then a else b
  }

  /** How many pixels the tiles before `(x, y)` have. */
  function AreaBefore(r: Rect, x: int, y: int): int {
    (Least(y, r.y2) - r.y1) * (r.x2 - r.x1) + (Least(x, r.x2) - r.x1) * (Least(y + TILE, r.y2) - Least(y, r.y2))
  }

  lemma AreaNext(r: Rect, x: int, y: int)
    requires r.x1 <= x < r.x2 && r.y1 <= y < r.y2
    ensures var q := TileAt(x, y, r, TILE); AreaBefore(r, x + TILE, y) == AreaBefore(r, x, y) + (q.x2 - q.x1) * (q.y2 - q.y1)
  {
    var q := TileAt(x, y, r, TILE);
    Distributes(x - r.x1, q.x2 - q.x1, q.y2 - q.y1);
  }

  lemma Distributes(a: int, b: int, c: int)
    ensures (a + b) * c == a * c + b * c && c * (a + b) == c * a + c * b
  {
  }

  lemma AreaNextBand(r: Rect, x: int, y: int)
    requires r.x1 <= r.x2 <= x && r.y1 <= y < r.y2
    ensures AreaBefore(r, r.x1, y + TILE) == AreaBefore(r, x, y)
  {
    var w := r.x2 - r.x1;
    Distributes(Least(y, r.y2) - r.y1, Least(y + TILE, r.y2) - Least(y, r.y2), w);
    assert w * (Least(y + TILE, r.y2) - Least(y, r.y2)) == (Least(y + TILE, r.y2) - Least(y, r.y2)) * w;
  }

  lemma AreaEnds(r: Rect, y: int)
    requires r.y2 <= y
    ensures AreaBefore(r, r.x1, y) == (r.y2 - r.y1) * (r.x2 - r.x1)
  {
  }

  /** Where the server is: the tiles `rs` written as `bs`, and at `(x, y)` now. */
  ghost predicate Sending(bs: seq<Bytestring>, rs: seq<Rect>, pic: Picture, r: Rect, d: Depth, x: int, y: int, out: Bytestring) {
    rs + TilesFrom(x, y, r, TILE) == Tiles(r, TILE) && AllChosen(bs, pic, rs, d) && out == Joined(bs) && |out| <= 2 * d * AreaBefore(r, x, y)
  }

  lemma SendStarts(pic: Picture, r: Rect, d: Depth)
    requires r.x1 <= r.x2 && r.y1 <= r.y2
    ensures Sending([], [], pic, r, d, r.x1, r.y1, [])
  {
  }

  lemma SendNext(bs: seq<Bytestring>, rs: seq<Rect>, pic: Picture, r: Rect, d: Depth, x: int, y: int, out: Bytestring, b: Bytestring)
    requires Sending(bs, rs, pic, r, d, x, y, out) && r.x1 <= x < r.x2 && r.y1 <= y < r.y2 && Chooses(b, pic, TileAt(x, y, r, TILE), d)
    requires var q := TileAt(x, y, r, TILE); |b| <= 2 * d * ((q.x2 - q.x1) * (q.y2 - q.y1))
    ensures Sending(bs + [b], rs + [TileAt(x, y, r, TILE)], pic, r, d, x + TILE, y, out + b)
  {
    hide Chooses;
    hide AreaBefore;
    AreaNext(r, x, y);
    var q := TileAt(x, y, r, TILE);
    Distributes(AreaBefore(r, x, y), (q.x2 - q.x1) * (q.y2 - q.y1), 2 * d);
    assert (bs + [b])[..|bs|] == bs;
    assert rs + [q] + TilesFrom(x + TILE, y, r, TILE) == rs + ([q] + TilesFrom(x + TILE, y, r, TILE));
  }

  lemma SendOn(bs: seq<Bytestring>, rs: seq<Rect>, pic: Picture, r: Rect, d: Depth, x: int, y: int, out: Bytestring)
    requires Sending(bs, rs, pic, r, d, x, y, out) && r.x1 <= r.x2 <= x && r.y1 <= y < r.y2
    ensures Sending(bs, rs, pic, r, d, r.x1, y + TILE, out)
  {
    hide Chooses;
    hide AreaBefore;
    AreaNextBand(r, x, y);
  }

  lemma SendEnds(bs: seq<Bytestring>, rs: seq<Rect>, pic: Picture, r: Rect, d: Depth, y: int, out: Bytestring)
    requires Sending(bs, rs, pic, r, d, r.x1, y, out) && y >= r.y2
    ensures AllChosen(bs, pic, Tiles(r, TILE), d) && out == Joined(bs) && |out| <= 2 * d * ((r.y2 - r.y1) * (r.x2 - r.x1))
  {
    hide Chooses;
    hide AreaBefore;
    AreaEnds(r, y);
    assert rs == Tiles(r, TILE);
  }

  /** The tile at `(x, y)`. */
  method EncodeTileAt(fb: Frame, r: Rect, x: int, y: int, d: Depth, ph: PaletteHelper) returns (b: Bytestring)
    requires RectOnScreen(fb, r) && InDepth(Shown(fb), r, d) && r.x1 <= x < r.x2 && r.y1 <= y < r.y2 && ph.Shape()
    modifies ph, ph.palette, ph.index, ph.key
    ensures ph.Shape() && Chooses(b, Shown(fb), TileAt(x, y, r, TILE), d)
    ensures var q := TileAt(x, y, r, TILE); |b| <= 2 * d * ((q.x2 - q.x1) * (q.y2 - q.y1))
  {
    hide HasPixels;
    hide AllPixels;
    hide Legal;
    hide IsChosen;
    hide TileBytes;
    hide Shown;
    var q := TileAt(x, y, r, TILE);
    var data := GetImage(fb, q, d);
    ImageSize(data, Shown(fb), q);
    ghost var m;
    b, m := EncodeTile(data, q.x2 - q.x1, q.y2 - q.y1, d, ph);
    assert CodesAs(b, m, data, Shown(fb), q, d);
    assert 2 * ((q.x2 - q.x1) * (q.y2 - q.y1) * d) == 2 * d * ((q.x2 - q.x1) * (q.y2 - q.y1));
  }

  lemma ImageSize(data: seq<nat>, pic: Picture, r: Rect)
    requires HasPixels(data, pic, r)
    ensures |data| == (r.y2 - r.y1) * (r.x2 - r.x1)
  {
  }

  /** `ZRLE_ENCODE`: the tiles in order, and never more than twice the room of the pixels. */
  method EncodeRect(fb: Frame, r: Rect, d: Depth, ph: PaletteHelper) returns (out: Bytestring, ghost bs: seq<Bytestring>)
    requires RectOnScreen(fb, r) && InDepth(Shown(fb), r, d) && ph.Shape()
    modifies ph, ph.palette, ph.index, ph.key
    ensures AllChosen(bs, Shown(fb), Tiles(r, TILE), d) && out == Joined(bs)
    ensures |out| <= 2 * d * ((r.y2 - r.y1) * (r.x2 - r.x1))
  {
    hide Sending;
    hide AllChosen;
    hide Chooses;
    hide InDepth;
    hide Shown;
    hide TileAt;
    out, bs := [], [];
    ghost var rs: seq<Rect> := [];
    SendStarts(Shown(fb), r, d);
    var ty := r.y1;
    while ty < r.y2
      invariant r.y1 <= ty && ph.Shape() && Sending(bs, rs, Shown(fb), r, d, r.x1, ty, out)
    {
      var tx := r.x1;
      while tx < r.x2
        invariant r.x1 <= tx && ph.Shape() && Sending(bs, rs, Shown(fb), r, d, tx, ty, out)
      {
        var b := EncodeTileAt(fb, r, tx, ty, d, ph);
        SendNext(bs, rs, Shown(fb), r, d, tx, ty, out, b);
        out, bs, rs := out + b, bs + [b], rs + [TileAt(tx, ty, r, TILE)];
        tx := tx + TILE;
      }
      SendOn(bs, rs, Shown(fb), r, d, tx, ty, out);
      ty := ty + TILE;
    }
    SendEnds(bs, rs, Shown(fb), r, d, ty, out);
  }

  // ---------------------------------------------------------------- receiving

  /** Where the client is: `k` tiles done, at `(x, y)`. */
  ghost predicate Walking(s: Bytestring, i: nat, bs: seq<Bytestring>, pic: Picture, r: Rect, d: Depth, k: nat, x: int, y: int, buf: nat) {
    AllCode(bs, pic, Tiles(r, TILE), d) && At(s, i, Joined(bs)) && k <= |bs| && Tiles(r, TILE)[k..] == TilesFrom(x, y, r, TILE) &&
    buf == i + |Joined(bs[..k])|
  }

  lemma WalkStarts(s: Bytestring, i: nat, bs: seq<Bytestring>, pic: Picture, r: Rect, d: Depth)
    requires AllCode(bs, pic, Tiles(r, TILE), d) && At(s, i, Joined(bs))
    ensures Walking(s, i, bs, pic, r, d, 0, r.x1, r.y1, i)
  {
    hide Codes;
    assert bs[..0] == [];
  }

  lemma WalkNext(s: Bytestring, i: nat, bs: seq<Bytestring>, pic: Picture, r: Rect, d: Depth, k: nat, x: int, y: int, buf: nat)
    requires Walking(s, i, bs, pic, r, d, k, x, y, buf) && x < r.x2 && y < r.y2
    ensures k < |bs| && Codes(bs[k], pic, TileAt(x, y, r, TILE), d) && At(s, buf, bs[k])
    ensures Walking(s, i, bs, pic, r, d, k + 1, x + TILE, y, buf + |bs[k]|)
  {
    hide Codes;
    hide TileAt;
    HeadAndRest(Tiles(r, TILE), k, Tiles(r, TILE)[k..], TileAt(x, y, r, TILE), TilesFrom(x + TILE, y, r, TILE));
    PartAt(s, i, bs, k);
  }

  lemma WalkOn(s: Bytestring, i: nat, bs: seq<Bytestring>, pic: Picture, r: Rect, d: Depth, k: nat, x: int, y: int, buf: nat)
    requires Walking(s, i, bs, pic, r, d, k, x, y, buf) && x >= r.x2 && y < r.y2
    ensures Walking(s, i, bs, pic, r, d, k, r.x1, y + TILE, buf)
  {
    hide Codes;
    hide Joined;
  }

  lemma WalkEnds(s: Bytestring, i: nat, bs: seq<Bytestring>, pic: Picture, r: Rect, d: Depth, k: nat, y: int, buf: nat)
    requires Walking(s, i, bs, pic, r, d, k, r.x1, y, buf) && y >= r.y2
    ensures buf == i + |Joined(bs)|
  {
    hide Codes;
    hide Joined;
    assert |Tiles(r, TILE)[k..]| == 0;
    assert bs[..k] == bs;
  }

  /** One tile of the client's loops. */
  method HandleTileAt(fb: Frame, s: Bytestring, buf: nat, remaining: nat, r: Rect, x: int, y: int, d: Depth, ghost b: Bytestring, ghost pic: Picture, ghost was: Picture)
    returns (result: int)
    requires RectOnScreen(fb, r) && r.x1 <= x < r.x2 && r.y1 <= y < r.y2 && Codes(b, pic, TileAt(x, y, r, TILE), d) && At(s, buf, b)
    requires |b| <= remaining && buf + remaining <= |s|
    requires ShowsBefore(Shown(fb), was, r, x, y, TILE, pic)
    modifies fb
    ensures result == |b| > 0 && ShowsBefore(Shown(fb), was, r, x + TILE, y, TILE, pic)
  {
    hide ShowsBefore;
    hide ShowsPart;
    hide ShowsFlat;
    hide Shown;
    hide HasPixels;
    hide Legal;
    hide TileBytes;
    ghost var mid := Shown(fb);
    var q := TileAt(x, y, r, TILE);
    ghost var m, data :| CodesAs(b, m, data, pic, q, d);
    result := HandleZRLETile(fb, s, buf, remaining, q, d, m, data);
    FlatShows(Shown(fb), mid, q, data, pic);
    OneMoreTile(Shown(fb), mid, was, r, x, y, TILE, pic);
  }

  /** The tile in hand ends where the tiles end, or before. */
  lemma WalkInside(s: Bytestring, i: nat, bs: seq<Bytestring>, pic: Picture, r: Rect, d: Depth, k: nat, x: int, y: int, buf: nat)
    requires Walking(s, i, bs, pic, r, d, k, x, y, buf)
    ensures buf <= i + |Joined(bs)| <= |s|
  {
    hide Codes;
    PrefixIsShorter(bs, k);
  }

  lemma {:induction false} PrefixIsShorter(bs: seq<Bytestring>, k: nat)
    requires k <= |bs|
    ensures |Joined(bs[..k])| <= |Joined(bs)|
  {
    if k == |bs| {
      assert bs[..k] == bs;
    } else {
      PrefixIsShorter(bs[..|bs| - 1], k);
      assert bs[..|bs| - 1][..k] == bs[..k];
    }
  }

  /** The tile loops of `HandleZRLE`, behind the header; a result below zero ends them. */
  method HandleTiles(fb: Frame, s: Bytestring, i: nat, size: nat, r: Rect, d: Depth, ghost bs: seq<Bytestring>, ghost pic: Picture)
    returns (buf: nat, result: int)
    requires RectOnScreen(fb, r) && AllCode(bs, pic, Tiles(r, TILE), d) && At(s, i, Joined(bs)) && size == |Joined(bs)|
    modifies fb
    ensures result >= 0 && buf == i + |Joined(bs)| && ShowsPart(Shown(fb), old(Shown(fb)), r, pic)
  {
    hide Walking;
    hide AllCode;
    hide Codes;
    hide ShowsBefore;
    hide ShowsPart;
    hide Shown;
    hide TileAt;
    hide Joined;
    WalkStarts(s, i, bs, pic, r, d);
    NothingBefore(Shown(fb), pic, r, TILE);
    ghost var k: nat := 0;
    var y, remaining := r.y1, size;
    buf, result := i, 0;
    while result >= 0 && y < r.y2
      invariant result >= 0 && r.y1 <= y && Walking(s, i, bs, pic, r, d, k, r.x1, y, buf) && buf + remaining == i + size
      invariant ShowsBefore(Shown(fb), old(Shown(fb)), r, r.x1, y, TILE, pic)
      decreases r.y2 - y
    {
      var x := r.x1;
      while result >= 0 && x < r.x2
        invariant result >= 0 && r.x1 <= x && Walking(s, i, bs, pic, r, d, k, x, y, buf) && buf + remaining == i + size
        invariant ShowsBefore(Shown(fb), old(Shown(fb)), r, x, y, TILE, pic)
        decreases r.x2 - x
      {
        WalkNext(s, i, bs, pic, r, d, k, x, y, buf);
        WalkInside(s, i, bs, pic, r, d, k + 1, x + TILE, y, buf + |bs[k]|);
        result := HandleTileAt(fb, s, buf, remaining, r, x, y, d, bs[k], pic, old(Shown(fb)));
        if result >= 0 {
          buf, remaining := buf + result, remaining - result;
        }
        k := k + 1;
        x := x + TILE;
      }
      WalkOn(s, i, bs, pic, r, d, k, x, y, buf);
      OneMoreBand(Shown(fb), old(Shown(fb)), r, x, y, TILE, pic);
      y := y + TILE;
    }
    WalkEnds(s, i, bs, pic, r, d, k, y, buf);
    AllBefore(Shown(fb), old(Shown(fb)), r, y, TILE, pic);
  }

  // ---------------------------------------------------------------- the whole way

  const ENCODING_ZRLE: nat := 16

  /** What `HandleZRLE` allocates at least. */
  function MinBufferSize(r: Rect, d: Depth): int {
    (r.x2 - r.x1) * (r.y2 - r.y1) * d * 2
  }

  lemma BufferIsEnough(r: Rect, d: Depth)
    ensures MinBufferSize(r, d) == 2 * d * ((r.y2 - r.y1) * (r.x2 - r.x1))
  {
    assert (r.x2 - r.x1) * (r.y2 - r.y1) == (r.y2 - r.y1) * (r.x2 - r.x1);
    Reordered((r.y2 - r.y1) * (r.x2 - r.x1), d);
  }

  lemma Reordered(a: int, d: int)
    ensures a * d * 2 == 2 * d * a
  {
  }

  /** `HandleZRLE`: fails exactly when the tiles do not fit the raw buffer. */
  method HandleZRLE(fb: Frame, s: Bytestring, i: nat, r: Rect, d: Depth, bufferSize: nat, ghost bs: seq<Bytestring>, ghost pic: Picture)
    returns (ok: bool, next: nat)
    requires RectOnScreen(fb, r) && AllCode(bs, pic, Tiles(r, TILE), d)
    requires |Joined(bs)| < 0x8000_0000 && At(s, i, Be32(|Joined(bs)|) + Joined(bs))
    modifies fb
    ensures ok <==> |Joined(bs)| <= bufferSize || |Joined(bs)| <= MinBufferSize(r, d)
    ensures ok ==> next == i + 4 + |Joined(bs)| && ShowsPart(Shown(fb), old(Shown(fb)), r, pic)
  {
    hide AllCode;
    hide Joined;
    hide ShowsPart;
    hide Be32;
    hide ReadBe32;
    hide MinBufferSize;
    AtConcat(s, i, Be32(|Joined(bs)|), Joined(bs));
    ReadBe32Written(s, i, |Joined(bs)|);
    var rawBufferSize: int := bufferSize;
    if rawBufferSize < MinBufferSize(r, d) {
      rawBufferSize := MinBufferSize(r, d);
    }
    var remaining := ReadBe32(s, i);
    next := i + 4;
    if remaining > rawBufferSize {
      return false, next;
    }
    var result;
    next, result := HandleTiles(fb, s, next, remaining, r, d, bs, pic);
    ok := true;
  }

  /** `rfbSendRectEncodingZRLE`, without the compression between. */
  method SendRectEncodingZRLE(ub: UpdateBuffer, fb: Frame, r: Rect, d: Depth, ph: PaletteHelper) returns (ghost bs: seq<Bytestring>)
    requires ub.Valid() && RectOnScreen(fb, r) && OnWire(r) && InDepth(Shown(fb), r, d) && ph.Shape()
    requires MinBufferSize(r, d) < 0x8000_0000
    modifies ub, ub.updateBuf, ph, ph.palette, ph.index, ph.key
    ensures ub.Valid() && AllCode(bs, Shown(fb), Tiles(r, TILE), d) && |Joined(bs)| <= MinBufferSize(r, d)
    ensures AllChosen(bs, Shown(fb), Tiles(r, TILE), d)
    ensures ub.Stream() == old(ub.Stream()) + HeaderOf(r, ENCODING_ZRLE) + (Be32(|Joined(bs)|) + Joined(bs))
  {
    hide AllCode;
    hide AllChosen;
    hide Joined;
    hide Be32;
    hide RectHeader;
    hide MinBufferSize;
    hide InDepth;
    hide Shown;
    hide Tiles;
    hide PaletteHelper.Shape;
    hide UpdateBuffer.Valid;
    hide UpdateBuffer.Stream;
    BufferIsEnough(r, d);
    var data;
    data, bs := EncodeRect(fb, r, d, ph);
    ChosenCodes(bs, Shown(fb), Tiles(r, TILE), d);
    ub.Reserve(16);
    ub.Put(HeaderOf(r, ENCODING_ZRLE));
    ub.Put(Be32(|data|));
    ub.PutAll(data);
  }

  /** Any rectangle of any picture arrives unchanged and alone, in the room the client sets aside. */
  method SendAndReceive(ub: UpdateBuffer, fb: Frame, client: Frame, r: Rect, d: Depth, ph: PaletteHelper)
    requires ub.Valid() && fb != client && RectOnScreen(fb, r) && OnWire(r) && InDepth(Shown(fb), r, d) && ph.Shape()
    requires RectOnScreen(client, r) && MinBufferSize(r, d) < 0x8000_0000
    modifies ub, ub.updateBuf, ph, ph.palette, ph.index, ph.key, client
    ensures ShowsPart(Shown(client), old(Shown(client)), r, Shown(fb))
  {
    hide AllCode;
    hide AllChosen;
    hide Joined;
    hide Be32;
    hide RectHeader;
    hide ReadBe16;
    hide ReadBe32;
    hide ShowsPart;
    hide Shown;
    hide InDepth;
    hide MinBufferSize;
    var start := |ub.sent| + ub.ublen;
    ghost var bs := SendRectEncodingZRLE(ub, fb, r, d, ph);
    ub.SendUpdateBuf();
    var s := ub.sent;
    assert s == ub.Stream();
    HeaderReadsBack(s, start, r.x1, r.y1, r.x2 - r.x1, r.y2 - r.y1, ENCODING_ZRLE);
    var x, y, w, h := ReadBe16(s, start), ReadBe16(s, start + 2), ReadBe16(s, start + 4), ReadBe16(s, start + 6);
    var ok, next := HandleZRLE(client, s, start + 12, Rect(x, y, x + w, y + h), d, 0, bs, Shown(fb));
  }
}
