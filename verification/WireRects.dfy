/** The rectangles of an update as they go over the wire, and the viewer's loop that reads them. */
module WireRects {
  import opened Bytes
  import opened Rectangles
  import opened CopyRects
  import Hextile
  import HextileClient
  import HextileRects
  import opened Pixels
  import opened RawRects
  import opened RectMessages
  import opened Regions
  import Rre
  import opened Tilings
  import opened UltraRects
  import opened UpdateBuffers
  import ZrleRects

  const ENCODING_COPY_RECT: nat := 1

  datatype WireRect =
    | Copied(r: Rect, dx: int, dy: int)
    | Plain(m: RectMessage)                      // raw pixels, RRE or CoRRE
    | Tiled(r: Rect, ts: seq<Hextile.Tile>)
    | Zipped(r: Rect, bs: seq<Bytestring>)       // ZRLE, a string for each tile
    | Packed(r: Rect, packet: Bytestring)        // Ultra

  function PlaceOf(m: WireRect): Rect {
    if m.Plain? then m.m.r else m.r
  }

  function SourceOf(r: Rect, dx: int, dy: int): Rect {
    Rect(r.x1 - dx, r.y1 - dy, r.x2 - dx, r.y2 - dy)
  }

  function WireEncoding(m: WireRect): nat {
    match m
    case Copied(_, _, _) => ENCODING_COPY_RECT
    case Plain(m) => if m.RawMessage? then ENCODING_RAW else EncodingOf(m.kind)
    case Tiled(_, _) => HextileRects.ENCODING_HEXTILE
    case Zipped(_, _) => ZrleRects.ENCODING_ZRLE
    case Packed(_, _) => ENCODING_ULTRA
  }

  // ---------------------------------------------------------------- what is on the wire

  ghost predicate TilesMean(ts: seq<Hextile.Tile>, r: Rect, pic: Picture, d: Depth) {
    Hextile.TilesOk(ts, pic, Tiles(r, 16), d) && forall c :: Hextile.AllLegal(ts, c)
  }

  ghost predicate ZippedMeans(bs: seq<Bytestring>, r: Rect, pic: Picture, d: Depth) {
    ZrleRects.AllCode(bs, pic, Tiles(r, ZrleRects.TILE), d) && |ZrleRects.Joined(bs)| <= ZrleRects.MinBufferSize(r, d) < 0x8000_0000
  }

  /** The rectangle can be written, and stands for its part of the picture. */
  ghost predicate Means(m: WireRect, pic: Picture, d: Depth) {
    OnWire(PlaceOf(m)) && Proper(PlaceOf(m)) &&
    match m
    case Copied(r, dx, dy) => OnWire(SourceOf(r, dx, dy))
    case Plain(m) => Good(m, pic, d)
    case Tiled(r, ts) => TilesMean(ts, r, pic, d)
    case Zipped(r, bs) => ZippedMeans(bs, r, pic, d)
    case Packed(r, packet) => Packs(packet, pic, r, d)
  }

  /** `rfbCopyRect` */
  function CopySource(r: Rect, dx: int, dy: int): (b: Bytestring)
    requires OnWire(SourceOf(r, dx, dy))
    ensures |b| == 4
  {
    Be16(r.x1 - dx) + Be16(r.y1 - dy)
  }

  ghost function ZippedBytes(bs: seq<Bytestring>): Bytestring
    requires |ZrleRects.Joined(bs)| < 0x8000_0000
  {
    Be32(|ZrleRects.Joined(bs)|) + ZrleRects.Joined(bs)
  }

  ghost function PlainBytes(m: RectMessage, pic: Picture, d: Depth): Bytestring
    requires Sendable(m, pic, d)
  {
    match m
    case RawMessage(r) => RectBytes(pic, r.x1, r.y1, r.x2 - r.x1, r.y2 - r.y1, d)
    case SubsMessage(_, kind, bg, subs) => Rre.Message(bg, subs, d, kind)
  }

  ghost function Payload(m: WireRect, pic: Picture, d: Depth): Bytestring
    requires Means(m, pic, d)
  {
    match m
    case Copied(r, dx, dy) => CopySource(r, dx, dy)
    case Plain(m) => PlainBytes(m, pic, d)
    case Tiled(r, ts) => Hextile.TilesBytes(ts, pic, Tiles(r, 16), d)
    case Zipped(_, bs) => ZippedBytes(bs)
    case Packed(_, packet) => UltraBytes(packet)
  }

  ghost function WireBytes(m: WireRect, pic: Picture, d: Depth): Bytestring
    requires Means(m, pic, d)
  {
    HeaderOf(PlaceOf(m), WireEncoding(m)) + Payload(m, pic, d)
  }

  ghost predicate AllMean(ms: seq<WireRect>, pic: Picture, d: Depth) {
    forall m :: m in ms ==> Means(m, pic, d)
  }

  ghost function AllBytes(ms: seq<WireRect>, pic: Picture, d: Depth): Bytestring
    requires AllMean(ms, pic, d)
  {
    if ms == [] then []
    else
      assert Means(ms[|ms| - 1], pic, d);
      AllBytes(ms[..|ms| - 1], pic, d) + WireBytes(ms[|ms| - 1], pic, d)
  }

  lemma {:induction false} BytesJoin(a: seq<WireRect>, b: seq<WireRect>, pic: Picture, d: Depth)
    requires AllMean(a, pic, d) && AllMean(b, pic, d)
    ensures AllMean(a + b, pic, d) && AllBytes(a + b, pic, d) == AllBytes(a, pic, d) + AllBytes(b, pic, d)
  {
    hide Means;
    hide WireBytes;
    if b == [] {
      assert a + b == a;
    } else {
      BytesJoin(a, b[..|b| - 1], pic, d);
      assert (a + b)[..|a + b| - 1] == a + b[..|b| - 1];
    }
  }

  lemma BytesOfOne(m: WireRect, pic: Picture, d: Depth)
    requires Means(m, pic, d)
    ensures AllMean([m], pic, d) && AllBytes([m], pic, d) == WireBytes(m, pic, d)
  {
    hide Means;
    hide WireBytes;
    assert [m][..0] == [];
  }

  lemma {:induction false} WireAt(s: Bytestring, i: nat, ms: seq<WireRect>, pic: Picture, d: Depth, k: nat)
    requires AllMean(ms, pic, d) && At(s, i, AllBytes(ms, pic, d)) && k < |ms|
    ensures Means(ms[k], pic, d) && At(s, i + |AllBytes(ms[..k], pic, d)|, WireBytes(ms[k], pic, d))
    ensures |AllBytes(ms[..k + 1], pic, d)| == |AllBytes(ms[..k], pic, d)| + |WireBytes(ms[k], pic, d)|
  {
    hide Means;
    hide WireBytes;
    var before, last := ms[..|ms| - 1], ms[|ms| - 1];
    assert Means(last, pic, d) && Means(ms[k], pic, d);
    AtConcat(s, i, AllBytes(before, pic, d), WireBytes(last, pic, d));
    if k < |before| {
      WireAt(s, i, before, pic, d, k);
      assert before[..k] == ms[..k] && before[..k + 1] == ms[..k + 1];
    } else {
      assert ms[..k + 1] == ms;
    }
  }

  // ---------------------------------------------------------------- what it does to the screen

  /** The screen after one rectangle: moved or painted there, as it was elsewhere. */
  function Painted(m: WireRect, was: Picture, pic: Picture): Picture {
    p => if !InRect(p, PlaceOf(m)) then was(p) else if m.Copied? then was(Moved(p, -m.dx, -m.dy)) else pic(p)
  }

  function AllPainted(ms: seq<WireRect>, was: Picture, pic: Picture): Picture {
    if ms == [] then was else Painted(ms[|ms| - 1], AllPainted(ms[..|ms| - 1], was, pic), pic)
  }

  ghost predicate Shows(now: Picture, pic: Picture) {
    forall p :: now(p) == pic(p)
  }

  lemma OneMorePainted(now: Picture, mid: Picture, was: Picture, ms: seq<WireRect>, m: WireRect, pic: Picture)
    requires Shows(mid, AllPainted(ms, was, pic)) && Shows(now, Painted(m, mid, pic))
    ensures Shows(now, AllPainted(ms + [m], was, pic))
  {
    assert (ms + [m])[..|ms|] == ms;
    var before := AllPainted(ms, was, pic);
    forall p
      ensures now(p) == Painted(m, before, pic)(p)
    {
      assert mid(p) == before(p);
      assert m.Copied? ==> mid(Moved(p, -m.dx, -m.dy)) == before(Moved(p, -m.dx, -m.dy));
    }
  }

  /** The copies of one region, in the order given. */
  function Copies(rs: seq<Rect>, dx: int, dy: int): seq<WireRect> {
    seq(|rs|, k requires 0 <= k < |rs| => Copied(rs[k], dx, dy))
  }

  lemma {:induction false} CopiesPaint(rs: seq<Rect>, dx: int, dy: int, was: Picture, pic: Picture, p: Pt)
    ensures AllPainted(Copies(rs, dx, dy), was, pic)(p) == was(Origin(rs, dx, dy, p))
  {
    if rs != [] {
      var before, last := rs[..|rs| - 1], rs[|rs| - 1];
      assert Copies(rs, dx, dy)[..|rs| - 1] == Copies(before, dx, dy);
      CopiesPaint(before, dx, dy, was, pic, if InRect(p, last) then Moved(p, -dx, -dy) else p);
    }
  }

  ghost predicate InSomePlace(p: Pt, ms: seq<WireRect>) {
    exists m :: m in ms && InRect(p, PlaceOf(m))
  }

  ghost predicate NoCopies(ms: seq<WireRect>) {
    forall m :: m in ms ==> !m.Copied?
  }

  lemma {:induction false} PixelsPaint(before: seq<WireRect>, ms: seq<WireRect>, was: Picture, pic: Picture, p: Pt)
    requires NoCopies(ms)
    ensures AllPainted(before + ms, was, pic)(p) == if InSomePlace(p, ms) then pic(p) else AllPainted(before, was, pic)(p)
    decreases |ms|
  {
    if ms == [] {
      assert before + ms == before;
    } else {
      var init, last := ms[..|ms| - 1], ms[|ms| - 1];
      assert (before + ms)[..|before + ms| - 1] == before + init;
      PixelsPaint(before, init, was, pic, p);
      assert ms == init + [last];
      assert InSomePlace(p, ms) <==> InSomePlace(p, init) || InRect(p, PlaceOf(last));
    }
  }

  // ---------------------------------------------------------------- receiving

  ghost predicate FitsClient(client: Frame, m: WireRect) {
    RectOnScreen(client, PlaceOf(m)) && (m.Copied? ==> RectOnScreen(client, SourceOf(m.r, m.dx, m.dy)))
  }

  /** The CopyRect case of `HandleRFBServerMessage`. */
  method HandleCopyRect(client: Frame, s: Bytestring, i: nat, r: Rect, ghost dx: int, ghost dy: int) returns (ok: bool, next: nat)
    requires RectOnScreen(client, r) && RectOnScreen(client, SourceOf(r, dx, dy)) && OnWire(SourceOf(r, dx, dy))
    requires At(s, i, CopySource(r, dx, dy))
    modifies client
    ensures ok && next == i + 4 && ShowsCopy(Shown(client), old(Shown(client)), RectArea(r), dx, dy)
  {
    hide ShowsCopy;
    hide ReadBe16;
    hide Be16;
    AtConcat(s, i, Be16(r.x1 - dx), Be16(r.y1 - dy));
    ReadBe16Written(s, i, r.x1 - dx);
    ReadBe16Written(s, i + 2, r.y1 - dy);
    next := i + 4;
    ok := next <= |s|;
    if ok {
      var srcX, srcY := ReadBe16(s, i), ReadBe16(s, i + 2);
      CopyOne(client, r, r.x1 - srcX, r.y1 - srcY);
    }
  }

  lemma HeaderAt(s: Bytestring, i: nat, m: WireRect, pic: Picture, d: Depth)
    requires Means(m, pic, d) && At(s, i, WireBytes(m, pic, d))
    ensures i + 12 <= |s| && At(s, i + 12, Payload(m, pic, d)) && |WireBytes(m, pic, d)| == 12 + |Payload(m, pic, d)|
    ensures var r := PlaceOf(m);
            ReadBe16(s, i) == r.x1 && ReadBe16(s, i + 2) == r.y1 && r.x1 + ReadBe16(s, i + 4) == r.x2 && r.y1 + ReadBe16(s, i + 6) == r.y2
    ensures ReadBe32(s, i + 8) == WireEncoding(m)
  {
    hide Means;
    hide Payload;
    hide RectHeader;
    hide ReadBe16;
    hide ReadBe32;
    var r := PlaceOf(m);
    assert OnWire(r) by {
      PlaceIsOnWire(m, pic, d);
    }
    AtConcat(s, i, HeaderOf(r, WireEncoding(m)), Payload(m, pic, d));
    HeaderReadsBack(s, i, r.x1, r.y1, r.x2 - r.x1, r.y2 - r.y1, WireEncoding(m));
  }

  lemma PlaceIsOnWire(m: WireRect, pic: Picture, d: Depth)
    requires Means(m, pic, d)
    ensures OnWire(PlaceOf(m)) && Proper(PlaceOf(m))
  {
  }

  /** `RawMessage` and the RRE encodings. */
  method HandlePlain(client: Frame, s: Bytestring, i: nat, r: Rect, encoding: nat, d: Depth, ghost m: RectMessage, ghost pic: Picture)
    returns (ok: bool, next: nat)
    requires RectOnScreen(client, r) && Good(m, pic, d) && m.r == r && At(s, i, PlainBytes(m, pic, d))
    requires encoding == WireEncoding(Plain(m))
    modifies client
    ensures ok && next == i + |PlainBytes(m, pic, d)| && ShowsPart(Shown(client), old(Shown(client)), r, pic)
  {
    hide ShowsPart;
    hide RectBytes;
    hide Rre.Message;
    hide InDepth;
    hide Sendable;
    hide Describes;
    hide Manageable;
    assert OnWire(r) by {
      GoodIsOnWire(m, pic, d);
    }
    ok, next := HandlePayload(client, s, i, r, encoding, d, m, pic);
  }

  lemma GoodIsOnWire(m: RectMessage, pic: Picture, d: Depth)
    requires Good(m, pic, d)
    ensures OnWire(m.r)
  {
  }

  /** The dispatch on the encoding, behind the header. The viewer's Hextile colours start as anything. */
  method HandleEncoding(client: Frame, s: Bytestring, i: nat, r: Rect, encoding: nat, d: Depth, bufferSize: nat, bg: int, fg: int,
                        ghost m: WireRect, ghost pic: Picture)
    returns (ok: bool, next: nat)
    requires Means(m, pic, d) && FitsClient(client, m) && PlaceOf(m) == r && At(s, i, Payload(m, pic, d)) && encoding == WireEncoding(m)
    modifies client
    ensures ok && next == i + |Payload(m, pic, d)| && Shows(Shown(client), Painted(m, old(Shown(client)), pic))
  {
    hide Good;
    hide Packs;
    hide Hextile.TilesOk;
    hide Hextile.TilesBytes;
    hide Hextile.AllLegal;
    hide ZrleRects.AllCode;
    hide ZrleRects.Joined;
    hide ZrleRects.MinBufferSize;
    hide PlainBytes;
    hide UltraBytes;
    hide CopySource;
    hide Be32;
    hide Shown;
    ok, next := true, i;
    if encoding == ENCODING_COPY_RECT {
      ok, next := HandleCopyRect(client, s, i, r, m.dx, m.dy);
    } else if encoding == HextileRects.ENCODING_HEXTILE {
      next := HextileClient.HandleHextile(client, s, i, r, d, bg, fg, m.ts, pic);
    } else if encoding == ZrleRects.ENCODING_ZRLE {
      ok, next := ZrleRects.HandleZRLE(client, s, i, r, d, bufferSize, m.bs, pic);
    } else if encoding == ENCODING_ULTRA {
      ok, next := HandleUltra(client, s, i, r, d, m.packet, pic);
    } else {
      ok, next := HandlePlain(client, s, i, r, encoding, d, m.m, pic);
    }
  }

  /** One rectangle of `HandleRFBServerMessage`. */
  method HandleRect(client: Frame, s: Bytestring, i: nat, d: Depth, bufferSize: nat, bg: int, fg: int, ghost m: WireRect, ghost pic: Picture)
    returns (ok: bool, next: nat)
    requires Means(m, pic, d) && FitsClient(client, m) && At(s, i, WireBytes(m, pic, d))
    modifies client
    ensures ok && next == i + |WireBytes(m, pic, d)| && Shows(Shown(client), Painted(m, old(Shown(client)), pic))
  {
    hide Means;
    hide Payload;
    hide WireBytes;
    hide ReadBe16;
    hide ReadBe32;
    hide Shows;
    hide Painted;
    hide Shown;
    HeaderAt(s, i, m, pic, d);
    var x, y, w, h := ReadBe16(s, i), ReadBe16(s, i + 2), ReadBe16(s, i + 4), ReadBe16(s, i + 6);
    next := i + 12;
    ok := x + w <= client.Length1 && y + h <= client.Length0;
    if ok {
      ok, next := HandleEncoding(client, s, next, Rect(x, y, x + w, y + h), ReadBe32(s, i + 8), d, bufferSize, bg, fg, m, pic);
    }
  }

  ghost predicate AllFit(client: Frame, ms: seq<WireRect>) {
    forall m :: m in ms ==> FitsClient(client, m)
  }

  lemma NothingPainted(was: Picture, pic: Picture)
    ensures Shows(was, AllPainted([], was, pic))
  {
  }

  /** The loop over the rectangles of an update. */
  method HandleRects(client: Frame, s: Bytestring, i: nat, n: nat, d: Depth, bufferSize: nat, bg: int, fg: int,
                     ghost ms: seq<WireRect>, ghost pic: Picture)
    returns (ok: bool, next: nat)
    requires |ms| == n && AllMean(ms, pic, d) && AllFit(client, ms) && At(s, i, AllBytes(ms, pic, d))
    modifies client
    ensures ok && next == i + |AllBytes(ms, pic, d)| && Shows(Shown(client), AllPainted(ms, old(Shown(client)), pic))
  {
    hide Means;
    hide WireBytes;
    hide FitsClient;
    hide Shows;
    hide Painted;
    hide AllPainted;
    hide Shown;
    ghost var was := Shown(client);
    NothingPainted(was, pic);
    assert ms[..0] == [];
    ok, next := true, i;
    for k := 0 to n
      invariant ok && next == i + |AllBytes(ms[..k], pic, d)| && Shows(Shown(client), AllPainted(ms[..k], was, pic))
    {
      WireAt(s, i, ms, pic, d, k);
      ghost var mid := Shown(client);
      if ok {
        ok, next := HandleRect(client, s, next, d, bufferSize, bg, fg, ms[k], pic);
      }
      OneMorePainted(Shown(client), mid, was, ms[..k], ms[k], pic);
      assert ms[..k + 1] == ms[..k] + [ms[k]];
    }
    assert ms[..n] == ms;
  }

  // ---------------------------------------------------------------- what stands for a rectangle

  predicate Inside(q: Rect, r: Rect) {
    r.x1 <= q.x1 && q.x2 <= r.x2 && r.y1 <= q.y1 && q.y2 <= r.y2
  }

  /** `ms` is what is sent for `r`: as many as counted, making up exactly the rectangle. */
  ghost predicate Stands(ms: seq<WireRect>, r: Rect, n: nat, pic: Picture, d: Depth) {
    AllMean(ms, pic, d) && NoCopies(ms) && |ms| == n && (forall m :: m in ms ==> Inside(PlaceOf(m), r)) &&
    forall p :: InSomePlace(p, ms) <==> InRect(p, r)
  }

  lemma OneStands(m: WireRect, pic: Picture, d: Depth)
    requires Means(m, pic, d) && !m.Copied?
    ensures Stands([m], PlaceOf(m), 1, pic, d) && AllBytes([m], pic, d) == WireBytes(m, pic, d)
  {
    hide Means;
    hide WireBytes;
    BytesOfOne(m, pic, d);
    assert m in [m];
  }

  lemma StandsOnScreen(fb: Frame, ms: seq<WireRect>, r: Rect, n: nat, pic: Picture, d: Depth)
    requires RectOnScreen(fb, r) && Stands(ms, r, n, pic, d)
    ensures AllFit(fb, ms) && AllMean(ms, pic, d) && |ms| == n
  {
    forall m | m in ms
      ensures FitsClient(fb, m)
    {
      assert Means(m, pic, d);
    }
  }

  lemma StandsShows(now: Picture, was: Picture, ms: seq<WireRect>, r: Rect, n: nat, pic: Picture, d: Depth)
    requires Stands(ms, r, n, pic, d) && Shows(now, AllPainted(ms, was, pic))
    ensures ShowsPart(now, was, r, pic)
  {
    hide AllMean;
    hide AllPainted;
    hide InSomePlace;
    NothingPainted(was, pic);
    forall p
      ensures now(p) == if InRect(p, r) then pic(p) else was(p)
    {
      PixelsPaint([], ms, was, pic, p);
      assert [] + ms == ms;
    }
  }

  function PlacesOf(ms: seq<WireRect>): seq<Rect> {
    seq(|ms|, k requires 0 <= k < |ms| => PlaceOf(ms[k]))
  }

  lemma PlainMeans(m: RectMessage, pic: Picture, d: Depth)
    requires Good(m, pic, d) && Proper(m.r)
    ensures Means(Plain(m), pic, d) && WireBytes(Plain(m), pic, d) == MessageBytes(m, pic, d)
  {
    hide Describes;
    hide Manageable;
    hide RectBytes;
    hide Rre.Message;
  }

  lemma NothingMeans(pic: Picture, d: Depth)
    ensures AllMean([], pic, d) && AllBytes([], pic, d) == []
  {
  }

  lemma OneMoreOnWire(ms: seq<WireRect>, m: WireRect, pic: Picture, d: Depth)
    requires AllMean(ms, pic, d) && Means(m, pic, d)
    ensures AllMean(ms + [m], pic, d) && AllBytes(ms + [m], pic, d) == AllBytes(ms, pic, d) + WireBytes(m, pic, d)
  {
    hide Means;
    hide WireBytes;
    hide AllBytes;
    BytesOfOne(m, pic, d);
    BytesJoin(ms, [m], pic, d);
  }
}
