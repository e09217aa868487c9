/** A whole rectangle in Hextile, sent and received. */
module HextileRects {
  import opened Bytes
  import opened Rectangles
  import opened CopyRects
  import opened Hextile
  import opened HextileClient
  import opened HextileServer
  import opened Pixels
  import opened RawRects
  import opened Tilings
  import opened UpdateBuffers

  /** Whatever a client held at first, it can read the tiles and ends in agreement with the server. */
  ghost predicate KeepsAll(ts: seq<Tile>, m: Remembered) {
    forall c :: AllLegal(ts, c) && Agrees(m, AfterAll(ts, c))
  }

  lemma KeepsOneMore(ts: seq<Tile>, t: Tile, m: Remembered, m': Remembered)
    requires KeepsAll(ts, m) && Keeps(m, t, m')
    ensures KeepsAll(ts + [t], m')
  {
    hide After;
    hide Agrees;
    hide Legal;
    var ts' := ts + [t];
    assert ts'[..|ts|] == ts;
    forall c
      ensures AllLegal(ts', c) && Agrees(m', AfterAll(ts', c))
    {
      assert Agrees(m, AfterAll(ts, c)) && AllLegal(ts, c);
      forall k | 0 <= k < |ts'|
        ensures Legal(ts'[k], AfterAll(ts'[..k], c))
      {
        if k < |ts| {
          assert ts'[..k] == ts[..k];
        }
      }
    }
  }

  lemma BytesOneMore(ts: seq<Tile>, t: Tile, pic: Picture, rs: seq<Rect>, r: Rect, d: Depth)
    requires TilesOk(ts, pic, rs, d) && TileOk(t, pic, r, d)
    ensures TilesOk(ts + [t], pic, rs + [r], d)
    ensures TilesBytes(ts + [t], pic, rs + [r], d) == TilesBytes(ts, pic, rs, d) + TileBytes(t, pic, r, d)
  {
    hide TileShows;
    hide Writes;
    hide TileBytes;
    assert (ts + [t])[..|ts|] == ts && (rs + [r])[..|rs|] == rs;
  }

  /** Each tile is what its turn makes of it, with what is remembered of those before; nothing at first. */
  ghost predicate InTurn(ts: seq<Tile>, pic: Picture, rs: seq<Rect>, d: Depth, m: Remembered)
    decreases |ts|
  {
    |ts| == |rs| &&
    if ts == [] then !m.validBg && !m.validFg
    else
      var n := |ts| - 1;
      exists m0 :: InTurn(ts[..n], pic, rs[..n], d, m0) && Turn(m0, ts[n], m, pic, rs[n], d)
  }

  lemma OneMoreTurn(ts: seq<Tile>, pic: Picture, rs: seq<Rect>, d: Depth, m: Remembered, t: Tile, r: Rect, m': Remembered)
    requires InTurn(ts, pic, rs, d, m) && Turn(m, t, m', pic, r, d)
    ensures InTurn(ts + [t], pic, rs + [r], d, m')
  {
    hide Turn;
    var ts', rs' := ts + [t], rs + [r];
    assert ts'[..|ts'| - 1] == ts && rs'[..|rs'| - 1] == rs;
  }

  /** The tiles of a rectangle. */
  ghost predicate Turns(ts: seq<Tile>, pic: Picture, r: Rect, d: Depth) {
    exists m :: InTurn(ts, pic, Tiles(r, 16), d, m)
  }

  /** Where all is of one colour, that colour is sent with the first tile, and a byte with each. */
  lemma {:induction false} OneColourInTurn(ts: seq<Tile>, pic: Picture, rs: seq<Rect>, d: Depth, m: Remembered, c: int)
    requires InTurn(ts, pic, rs, d, m) && TilesOk(ts, pic, rs, d)
    requires forall k, p :: 0 <= k < |rs| && InRect(p, rs[k]) ==> pic(p) == c
    ensures |TilesBytes(ts, pic, rs, d)| == |ts| + if ts == [] then 0 else d
    ensures ts != [] ==> m.validBg && m.bg == c
    decreases |ts|
  {
    hide Turn;
    hide TileOk;
    hide TileBytes;
    if ts != [] {
      var n := |ts| - 1;
      var m0 :| InTurn(ts[..n], pic, rs[..n], d, m0) && Turn(m0, ts[n], m, pic, rs[n], d);
      OneColourInTurn(ts[..n], pic, rs[..n], d, m0, c);
      OneColourTurn(m0, ts[n], m, pic, rs[n], d, c);
    }
  }

  lemma OneColourRect(ts: seq<Tile>, pic: Picture, r: Rect, d: Depth, c: int)
    requires Turns(ts, pic, r, d) && TilesOk(ts, pic, Tiles(r, 16), d) && r.x1 < r.x2 && r.y1 < r.y2
    requires forall p :: InRect(p, r) ==> pic(p) == c
    ensures |TilesBytes(ts, pic, Tiles(r, 16), d)| == |Tiles(r, 16)| + d
  {
    hide InTurn;
    hide TilesBytes;
    var rs := Tiles(r, 16);
    var m :| InTurn(ts, pic, rs, d, m);
    forall k, p | 0 <= k < |rs| && InRect(p, rs[k])
      ensures pic(p) == c
    {
      TilesInside(r.x1, r.y1, r, 16, p);
      assert rs[k] in rs;
    }
    OneColourInTurn(ts, pic, rs, d, m, c);
  }

  /** Where the server is: the tiles `rs` sent as `ts`, and at `(x, y)` now. */
  ghost predicate Sending(ts: seq<Tile>, rs: seq<Rect>, pic: Picture, r: Rect, d: Depth, x: int, y: int, m: Remembered, sent: Bytestring) {
    rs + TilesFrom(x, y, r, 16) == Tiles(r, 16) && TilesOk(ts, pic, rs, d) && sent == TilesBytes(ts, pic, rs, d) && KeepsAll(ts, m) &&
    InTurn(ts, pic, rs, d, m)
  }

  lemma SendStarts(pic: Picture, r: Rect, d: Depth)
    ensures Sending([], [], pic, r, d, r.x1, r.y1, Remembered(false, 0, false, 0), [])
  {
  }

  lemma SendNext(ts: seq<Tile>, rs: seq<Rect>, pic: Picture, r: Rect, d: Depth, x: int, y: int, m: Remembered, sent: Bytestring, t: Tile, m': Remembered)
    requires Sending(ts, rs, pic, r, d, x, y, m, sent) && x < r.x2 && y < r.y2 && TileOk(t, pic, TileAt(x, y, r, 16), d) && Keeps(m, t, m')
    requires Turn(m, t, m', pic, TileAt(x, y, r, 16), d)
    ensures Sending(ts + [t], rs + [TileAt(x, y, r, 16)], pic, r, d, x + 16, y, m', sent + TileBytes(t, pic, TileAt(x, y, r, 16), d))
  {
    hide KeepsAll;
    hide Keeps;
    hide TilesOk;
    hide TilesBytes;
    hide TileBytes;
    hide TileOk;
    hide Turn;
    KeepsOneMore(ts, t, m, m');
    OneMoreTurn(ts, pic, rs, d, m, t, TileAt(x, y, r, 16), m');
    BytesOneMore(ts, t, pic, rs, TileAt(x, y, r, 16), d);
    assert rs + [TileAt(x, y, r, 16)] + TilesFrom(x + 16, y, r, 16) == rs + ([TileAt(x, y, r, 16)] + TilesFrom(x + 16, y, r, 16));
  }

  lemma SendOn(ts: seq<Tile>, rs: seq<Rect>, pic: Picture, r: Rect, d: Depth, x: int, y: int, m: Remembered, sent: Bytestring)
    requires Sending(ts, rs, pic, r, d, x, y, m, sent) && x >= r.x2 && y < r.y2
    ensures Sending(ts, rs, pic, r, d, r.x1, y + 16, m, sent)
  {
    hide KeepsAll;
    hide InTurn;
    hide TilesOk;
    hide TilesBytes;
  }

  lemma SendEnds(ts: seq<Tile>, rs: seq<Rect>, pic: Picture, r: Rect, d: Depth, x: int, y: int, m: Remembered, sent: Bytestring)
    requires Sending(ts, rs, pic, r, d, x, y, m, sent) && y >= r.y2
    ensures TilesOk(ts, pic, Tiles(r, 16), d) && sent == TilesBytes(ts, pic, Tiles(r, 16), d) && forall c :: AllLegal(ts, c)
    ensures Turns(ts, pic, r, d)
  {
    hide InTurn;
    hide TilesOk;
    hide TilesBytes;
    hide AllLegal;
    assert rs == Tiles(r, 16);
    forall c
      ensures AllLegal(ts, c)
    {
      assert AllLegal(ts, c) && Agrees(m, AfterAll(ts, c));
    }
  }

  ghost predicate RectSendable(fb: Frame, r: Rect, d: Depth)
    reads fb
  {
    RectOnScreen(fb, r) && OnWire(r) && InDepth(Shown(fb), r, d)
  }

  lemma TileIsSendable(ub: UpdateBuffer, fb: Frame, r: Rect, x: int, y: int, d: Depth)
    requires ub.Valid() && ub.ublen + TileMost(d) <= UPDATE_BUF_SIZE && RectSendable(fb, r, d)
    requires r.x1 <= x < r.x2 && r.y1 <= y < r.y2
    ensures var q := TileAt(x, y, r, 16); x >= 0 && y >= 0 && TileSendable(ub, fb, x, y, q.x2 - x, q.y2 - y, d)
  {
  }

  /** The tile at `(x, y)`, after a flush if the buffer might not hold it. */
  method SendTileAt(ub: UpdateBuffer, fb: Frame, r: Rect, x: nat, y: nat, d: Depth, m: Remembered) returns (m': Remembered, ghost t: Tile)
    requires ub.Valid() && RectSendable(fb, r, d) && r.x1 <= x < r.x2 && r.y1 <= y < r.y2
    modifies ub, ub.updateBuf
    ensures ub.Valid() && TileOk(t, Shown(fb), TileAt(x, y, r, 16), d) && Keeps(m, t, m')
    ensures Turn(m, t, m', Shown(fb), TileAt(x, y, r, 16), d)
    ensures ub.Stream() == old(ub.Stream()) + TileBytes(t, Shown(fb), TileAt(x, y, r, 16), d)
  {
    hide UpdateBuffer.Stream;
    hide RectSendable;
    hide TileSendable;
    hide Keeps;
    hide Turn;
    hide TileOk;
    hide TileBytes;
    var w, h := 16, 16;
    if r.x2 - x < 16 {
      w := r.x2 - x;
    }
    if r.y2 - y < 16 {
      h := r.y2 - y;
    }
    ub.Reserve(TileMost(d));
    TileIsSendable(ub, fb, r, x, y, d);
    m', t := SendTile(ub, fb, x, y, w, h, d, m);
  }

  /** One row of tiles. */
  method SendRow(ub: UpdateBuffer, fb: Frame, r: Rect, y: nat, d: Depth, m0: Remembered, ghost ts0: seq<Tile>, ghost rs0: seq<Rect>,
                 ghost before: Bytestring, ghost sent0: Bytestring)
    returns (m: Remembered, ghost ts: seq<Tile>, ghost rs: seq<Rect>, ghost sent: Bytestring)
    requires ub.Valid() && RectSendable(fb, r, d) && 0 <= r.x1 && r.y1 <= y < r.y2
    requires Sending(ts0, rs0, Shown(fb), r, d, r.x1, y, m0, sent0) && ub.Stream() == before + sent0
    modifies ub, ub.updateBuf
    ensures ub.Valid() && Sending(ts, rs, Shown(fb), r, d, r.x1, y + 16, m, sent) && ub.Stream() == before + sent
  {
    hide UpdateBuffer.Stream;
    hide RectSendable;
    hide Sending;
    hide Keeps;
    hide Turn;
    hide Writes;
    hide TileShows;
    hide TileBytes;
    hide Shown;
    m, ts, rs, sent := m0, ts0, rs0, sent0;
    var x: nat := r.x1;
    while x < r.x2
      invariant r.x1 <= x && ub.Valid() && Sending(ts, rs, Shown(fb), r, d, x, y, m, sent) && ub.Stream() == before + sent
    {
      ghost var t, was := RawTile, m;
      m, t := SendTileAt(ub, fb, r, x, y, d, m);
      SendNext(ts, rs, Shown(fb), r, d, x, y, was, sent, t, m);
      sent := sent + TileBytes(t, Shown(fb), TileAt(x, y, r, 16), d);
      ts, rs := ts + [t], rs + [TileAt(x, y, r, 16)];
      x := x + 16;
    }
    SendOn(ts, rs, Shown(fb), r, d, x, y, m, sent);
  }

  /** `sendHextiles` */
  method SendHextiles(ub: UpdateBuffer, fb: Frame, r: Rect, d: Depth) returns (ghost ts: seq<Tile>)
    requires ub.Valid() && RectSendable(fb, r, d) && 0 <= r.x1 && 0 <= r.y1
    modifies ub, ub.updateBuf
    ensures ub.Valid() && TilesOk(ts, Shown(fb), Tiles(r, 16), d) && (forall c :: AllLegal(ts, c)) && Turns(ts, Shown(fb), r, d)
    ensures ub.Stream() == old(ub.Stream()) + TilesBytes(ts, Shown(fb), Tiles(r, 16), d)
  {
    hide UpdateBuffer.Stream;
    hide RectSendable;
    hide Sending;
    hide Shown;
    hide TilesOk;
    hide AllLegal;
    hide Turns;
    hide TilesBytes;
    ts := [];
    var m := Remembered(false, 0, false, 0);
    ghost var rs: seq<Rect>, sent: Bytestring, before := [], [], ub.Stream();
    SendStarts(Shown(fb), r, d);
    var y: nat := r.y1;
    while y < r.y2
      invariant r.y1 <= y && ub.Valid() && Sending(ts, rs, Shown(fb), r, d, r.x1, y, m, sent) && ub.Stream() == before + sent
    {
      m, ts, rs, sent := SendRow(ub, fb, r, y, d, m, ts, rs, before, sent);
      y := y + 16;
    }
    SendEnds(ts, rs, Shown(fb), r, d, r.x1, y, m, sent);
  }

  const ENCODING_HEXTILE: nat := 5

  /** `rfbSendRectEncodingHextile` */
  method SendRectEncodingHextile(ub: UpdateBuffer, fb: Frame, r: Rect, d: Depth) returns (ghost ts: seq<Tile>)
    requires ub.Valid() && RectSendable(fb, r, d) && OnWire(r)
    modifies ub, ub.updateBuf
    ensures ub.Valid() && TilesOk(ts, Shown(fb), Tiles(r, 16), d) && (forall c :: AllLegal(ts, c)) && Turns(ts, Shown(fb), r, d)
    ensures ub.Stream() == old(ub.Stream()) + HeaderOf(r, ENCODING_HEXTILE) + TilesBytes(ts, Shown(fb), Tiles(r, 16), d)
  {
    hide UpdateBuffer.Stream;
    hide RectSendable;
    hide TilesOk;
    hide AllLegal;
    hide Turns;
    hide TilesBytes;
    hide RectHeader;
    ub.Reserve(12);
    ub.Put(HeaderOf(r, ENCODING_HEXTILE));
    ts := SendHextiles(ub, fb, r, d);
  }

  /** Any rectangle of any picture arrives unchanged and alone, whatever the client's `bg` and `fg` held before. */
  method SendAndReceive(ub: UpdateBuffer, fb: Frame, client: Frame, r: Rect, d: Depth, bg: int, fg: int)
    requires ub.Valid() && fb != client && RectSendable(fb, r, d) && RectOnScreen(client, r) && OnWire(r)
    modifies ub, ub.updateBuf, client
    ensures ShowsPart(Shown(client), old(Shown(client)), r, Shown(fb))
  {
    hide RectSendable;
    hide TilesOk;
    hide AllLegal;
    hide Turns;
    hide TilesBytes;
    hide RectHeader;
    hide ReadBe16;
    hide ReadBe32;
    hide ShowsPart;
    hide Shown;
    var start := |ub.sent| + ub.ublen;
    ghost var ts := SendRectEncodingHextile(ub, fb, r, d);
    ub.SendUpdateBuf();
    var s := ub.sent;
    assert s == ub.Stream();
    HeaderReadsBack(s, start, r.x1, r.y1, r.x2 - r.x1, r.y2 - r.y1, ENCODING_HEXTILE);
    var x, y, w, h := ReadBe16(s, start), ReadBe16(s, start + 2), ReadBe16(s, start + 4), ReadBe16(s, start + 6);
    var next := HandleHextile(client, s, start + 12, Rect(x, y, x + w, y + h), d, bg, fg, ts, Shown(fb));
  }
}
