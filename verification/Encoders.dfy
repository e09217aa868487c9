/** Sending one rectangle of an update in the encoding the client prefers. */
module Encoders {
  import opened Bytes
  import opened Rectangles
  import opened CopyRects
  import Corre
  import Hextile
  import HextileRects
  import LzoCompress
  import opened Palette
  import opened Pixels
  import opened RawRects
  import opened Subrects
  import RectMessages
  import Rre
  import Tilings
  import opened UltraRects
  import opened UpdateBuffers
  import opened WireRects
  import ZrleRects

  datatype Preferred =
    | PreferRaw
    | PreferRRE
    | PreferCoRRE(correMaxWidth: nat, correMaxHeight: nat)
    | PreferHextile
    | PreferUltra
    | PreferZRLE

  /** The number the protocol has for it. */
  function NumberOf(preferred: Preferred): nat {
    match preferred
    case PreferRaw => 0
    case PreferRRE => 2
    case PreferCoRRE(_, _) => 4
    case PreferHextile => 5
    case PreferUltra => 9
    case PreferZRLE => 16
  }

  /** What the encoder that is preferred makes of a rectangle. */
  ghost predicate AsPreferred(m: WireRect, preferred: Preferred, pic: Picture, d: Depth, bufSize: nat) {
    match preferred
    case PreferRaw => m.Plain? && m.m.RawMessage?
    case PreferRRE => m.Plain? && RectMessages.AsSearched(m.m, pic, d, Rre.RRE, bufSize)
    case PreferCoRRE(_, _) => m.Plain? && RectMessages.AsSearched(m.m, pic, d, Rre.CoRRE, bufSize)
    case PreferHextile => m.Tiled? && HextileRects.Turns(m.ts, pic, m.r, d)
    case PreferUltra => m.Packed?
    case PreferZRLE => m.Zipped? && ZrleRects.AllChosen(m.bs, pic, Tilings.Tiles(m.r, ZrleRects.TILE), d)
  }

  ghost predicate AllAsPreferred(ms: seq<WireRect>, preferred: Preferred, pic: Picture, d: Depth, bufSize: nat) {
    forall m :: m in ms ==> AsPreferred(m, preferred, pic, d, bufSize)
  }

  /** RRE and CoRRE have given the rectangle up. */
  ghost predicate RawInstead(m: WireRect, preferred: Preferred, pic: Picture, d: Depth, bufSize: nat) {
    var Rect(x1, y1, x2, y2) := PlaceOf(m);
    (preferred.PreferRRE? || preferred.PreferCoRRE?) && x1 <= x2 && y1 <= y2 &&
    RectMessages.IsGivenUp(PartOf(pic, x1, y1), x2 - x1, y2 - y1, d, if preferred.PreferRRE? then Rre.RRE else Rre.CoRRE, bufSize)
  }

  /** The header of a rectangle says the encoding preferred, or raw where that was given up. */
  lemma SentAsPreferred(m: WireRect, preferred: Preferred, pic: Picture, d: Depth, bufSize: nat)
    requires AsPreferred(m, preferred, pic, d, bufSize)
    ensures WireEncoding(m) == NumberOf(preferred) || (WireEncoding(m) == NumberOf(PreferRaw) && RawInstead(m, preferred, pic, d, bufSize))
  {
    hide RectMessages.IsGivenUp;
    hide RectMessages.IsFound;
  }

  /** CoRRE's pieces have sides of one byte; 48 unless the application changes it. */
  predicate Usable(preferred: Preferred) {
    preferred.PreferCoRRE? ==> 0 < preferred.correMaxWidth < 0x100 && 0 < preferred.correMaxHeight < 0x100
  }

  /** How many rectangles the update's header counts for one of the region. */
  function CountOf(preferred: Preferred, r: Rect): nat
    requires Usable(preferred) && Proper(r)
  {
    match preferred
    case PreferCoRRE(maxW, maxH) => Corre.Strips(r.x2 - r.x1, maxW) * Corre.Strips(r.y2 - r.y1, maxH)
    case PreferUltra =>
      TwoLinesFit(r.x2 - r.x1);
      Corre.Strips(r.y2 - r.y1, MaxLines(r.x2 - r.x1))
    case _ => 1
  }

  lemma TwoLinesFit(w: nat)
    requires w > 0
    ensures MaxLines(w) >= 2
  {
  }

  lemma TheyMean(ts: seq<Hextile.Tile>, r: Rect, pic: Picture, d: Depth)
    requires Hextile.TilesOk(ts, pic, Tilings.Tiles(r, 16), d) && forall c :: Hextile.AllLegal(ts, c)
    ensures TilesMean(ts, r, pic, d)
  {
  }

  // ---------------------------------------------------------------- Ultra

  /** The lines of the next strip. */
  function LinesToComp(max: nat, left: nat): nat {
    if max < left then max else left
  }

  /** The strips sent, and the `left` lines from `y` on, are the pieces of the whole. */
  ghost predicate Stripping(ms: seq<WireRect>, x: nat, y: nat, w: nat, left: nat, max: nat, all: seq<Rect>)
    requires w > 0 && max > 0
  {
    NoCopies(ms) && PlacesOf(ms) + (if left == 0 then [] else Corre.Pieces(x, y, w, left, w, max)) == all
  }

  lemma NextStrip(ms: seq<WireRect>, x: nat, y: nat, w: nat, left: nat, max: nat, all: seq<Rect>, m: WireRect)
    requires w > 0 && max > 0 && left > 0 && Stripping(ms, x, y, w, left, max, all) && !m.Copied?
    requires PlaceOf(m) == Rect(x, y, x + w, y + LinesToComp(max, left))
    ensures Stripping(ms + [m], x, y + LinesToComp(max, left), w, left - LinesToComp(max, left), max, all)
  {
    hide Corre.Pieces;
    Corre.PiecesAre(x, y, w, left, w, max);
    Corre.PiecesAre(x, y, w, max, w, max);
    assert PlacesOf(ms + [m]) == PlacesOf(ms) + [PlaceOf(m)];
  }

  lemma NoStripYet(x: nat, y: nat, w: nat, left: nat, max: nat)
    requires w > 0 && max > 0 && left > 0
    ensures Stripping([], x, y, w, left, max, Corre.Pieces(x, y, w, left, w, max))
  {
  }

  lemma AllStrips(ms: seq<WireRect>, x: nat, y: nat, w: nat, max: nat, all: seq<Rect>)
    requires w > 0 && max > 0 && Stripping(ms, x, y, w, 0, max, all)
    ensures NoCopies(ms) && PlacesOf(ms) == all
  {
  }

  // ---------------------------------------------------------------- the encoder

  /** What can be sent: on screen, pixels that fit their bytes, and for ZRLE a raw buffer whose size fits an `int`. */
  ghost predicate Ready(fb: Frame, r: Rect, preferred: Preferred, d: Depth)
    reads fb
  {
    RectOnScreen(fb, r) && OnWire(r) && Proper(r) && InDepth(Shown(fb), r, d) &&
    (preferred.PreferZRLE? ==> ZrleRects.MinBufferSize(r, d) < 0x8000_0000)
  }

  /** The fields of `rfbClientRec` that have to do with encoding. */
  class Encoder {
    const preferred: Preferred
    const d: Depth
    const afterBufSize: nat // what RRE and CoRRE have for the encoded rectangle
    const ub: UpdateBuffer
    const ph: PaletteHelper
    const lzoWrkMem: array<int>

    ghost predicate Valid()
      reads this, ub, ub.updateBuf, ph
    {
      Usable(preferred) && ub.Valid() && ph.Shape() && lzoWrkMem.Length == LzoCompress.DICT_SIZE
    }

    ghost function Repr(): set<object> {
      {ub, ub.updateBuf, ph, ph.palette, ph.index, ph.key, lzoWrkMem}
    }

    constructor (preferred: Preferred, d: Depth, afterBufSize: nat)
      requires Usable(preferred)
      ensures Valid() && fresh(Repr()) && ub.Stream() == [] && this.preferred == preferred && this.d == d
    {
      this.preferred, this.d, this.afterBufSize := preferred, d, afterBufSize;
      ub := new UpdateBuffer();
      ph := new PaletteHelper();
      lzoWrkMem := new int[LzoCompress.DICT_SIZE];
    }

    method SendRaw(fb: Frame, r: Rect) returns (ok: bool, ghost ms: seq<WireRect>)
      requires Valid() && Ready(fb, r, preferred, d) && preferred.PreferRaw?
      modifies Repr()
      ensures Valid() && (!ok ==> (r.x2 - r.x1) * d > UPDATE_BUF_SIZE)
      ensures ok ==> Stands(ms, r, CountOf(preferred, r), Shown(fb), d) && ub.Stream() == old(ub.Stream()) + AllBytes(ms, Shown(fb), d)
      ensures ok ==> AllAsPreferred(ms, preferred, Shown(fb), d, afterBufSize)
    {
      hide RectBytes;
      hide RectHeader;
      hide InDepth;
      hide Stands;
      hide AllMean;
      hide AllBytes;
      ms := [Plain(RectMessages.RawMessage(r))];
      ok := SendRectEncodingRaw(ub, fb, r.x1, r.y1, r.x2 - r.x1, r.y2 - r.y1, d);
      if ok {
        OneStands(ms[0], Shown(fb), d);
      }
    }

    method SendRRE(fb: Frame, r: Rect) returns (ok: bool, ghost ms: seq<WireRect>)
      requires Valid() && Ready(fb, r, preferred, d) && preferred.PreferRRE?
      modifies Repr()
      ensures Valid() && (!ok ==> (r.x2 - r.x1) * d > UPDATE_BUF_SIZE)
      ensures ok ==> Stands(ms, r, CountOf(preferred, r), Shown(fb), d) && ub.Stream() == old(ub.Stream()) + AllBytes(ms, Shown(fb), d)
      ensures ok ==> AllAsPreferred(ms, preferred, Shown(fb), d, afterBufSize)
    {
      hide RectMessages.AsSearched;
      hide RectMessages.MessageBytes;
      hide RectMessages.Sendable;
      hide RectMessages.Describes;
      hide RectMessages.Manageable;
      hide InDepth;
      hide Stands;
      hide AllMean;
      hide AllBytes;
      hide Means;
      hide WireBytes;
      ghost var m;
      ok, m := RectMessages.SendRect(ub, fb, r.x1, r.y1, r.x2 - r.x1, r.y2 - r.y1, d, Rre.RRE, afterBufSize);
      ms := [Plain(m)];
      if ok {
        PlainMeans(m, Shown(fb), d);
        OneStands(ms[0], Shown(fb), d);
      }
    }

    method SendCoRRE(fb: Frame, r: Rect) returns (ghost ms: seq<WireRect>)
      requires Valid() && Ready(fb, r, preferred, d) && preferred.PreferCoRRE?
      modifies Repr()
      ensures Valid()
      ensures Stands(ms, r, CountOf(preferred, r), Shown(fb), d) && ub.Stream() == old(ub.Stream()) + AllBytes(ms, Shown(fb), d)
      ensures AllAsPreferred(ms, preferred, Shown(fb), d, afterBufSize)
    {
      hide InDepth;
      hide Stands;
      hide AllMean;
      hide AllBytes;
      hide RectMessages.AsSearched;
      hide Corre.Pieces;
      hide Corre.Strips;
      var maxW, maxH := preferred.correMaxWidth, preferred.correMaxHeight;
      var ok;
      ok, ms := Corre.SendRectEncodingCoRRE(ub, fb, r.x1, r.y1, r.x2 - r.x1, r.y2 - r.y1, maxW, maxH, d, afterBufSize);
      Corre.PiecesStand(ms, r.x1, r.y1, r.x2 - r.x1, r.y2 - r.y1, maxW, maxH, Shown(fb), d);
    }

    method SendHextile(fb: Frame, r: Rect) returns (ghost ms: seq<WireRect>)
      requires Valid() && Ready(fb, r, preferred, d) && preferred.PreferHextile?
      modifies Repr()
      ensures Valid()
      ensures Stands(ms, r, CountOf(preferred, r), Shown(fb), d) && ub.Stream() == old(ub.Stream()) + AllBytes(ms, Shown(fb), d)
      ensures AllAsPreferred(ms, preferred, Shown(fb), d, afterBufSize)
    {
      hide InDepth;
      hide Stands;
      hide AllMean;
      hide AllBytes;
      hide TilesMean;
      hide HextileRects.Turns;
      hide Hextile.TilesOk;
      hide Hextile.TilesBytes;
      hide Hextile.AllLegal;
      hide Tilings.Tiles;
      hide Shown;
      hide RectHeader;
      ghost var ts := HextileRects.SendRectEncodingHextile(ub, fb, r, d);
      ms := [Tiled(r, ts)];
      assert TilesMean(ts, r, Shown(fb), d) by {
        TheyMean(ts, r, Shown(fb), d);
      }
      OneStands(ms[0], Shown(fb), d);
      assert ub.Stream() == old(ub.Stream()) + WireBytes(ms[0], Shown(fb), d);
    }

    method SendZRLE(fb: Frame, r: Rect) returns (ghost ms: seq<WireRect>)
      requires Valid() && Ready(fb, r, preferred, d) && preferred.PreferZRLE?
      modifies Repr()
      ensures Valid()
      ensures Stands(ms, r, CountOf(preferred, r), Shown(fb), d) && ub.Stream() == old(ub.Stream()) + AllBytes(ms, Shown(fb), d)
      ensures AllAsPreferred(ms, preferred, Shown(fb), d, afterBufSize)
    {
      hide InDepth;
      hide Stands;
      hide AllMean;
      hide AllBytes;
      hide ZrleRects.AllCode;
      hide ZrleRects.AllChosen;
      hide ZrleRects.Joined;
      hide ZrleRects.MinBufferSize;
      hide RectHeader;
      hide Be32;
      ghost var bs := ZrleRects.SendRectEncodingZRLE(ub, fb, r, d, ph);
      ms := [Zipped(r, bs)];
      OneStands(ms[0], Shown(fb), d);
      assert ub.Stream() == old(ub.Stream()) + WireBytes(ms[0], Shown(fb), d);
    }

    /** One strip. */
    method SendStrip(fb: Frame, x: nat, y: nat, w: nat, lines: nat, ghost r: Rect, ghost ms: seq<WireRect>, ghost before: Bytestring)
      returns (ghost m: WireRect)
      requires Valid() && Ready(fb, r, preferred, d) && w > 0 && 0 < lines <= MaxLines(w) && Inside(Rect(x, y, x + w, y + lines), r)
      requires AllMean(ms, Shown(fb), d) && ub.Stream() == before + AllBytes(ms, Shown(fb), d)
      modifies Repr()
      ensures Valid() && m.Packed? && PlaceOf(m) == Rect(x, y, x + w, y + lines)
      ensures AllMean(ms + [m], Shown(fb), d) && ub.Stream() == before + AllBytes(ms + [m], Shown(fb), d)
    {
      hide RectHeader;
      hide UltraBytes;
      hide MaxLines;
      hide AllMean;
      hide AllBytes;
      hide Shown;
      hide Packs;
      ghost var packet := SendOneRectEncodingUltra(ub, fb, x, y, w, lines, d, lzoWrkMem);
      m := Packed(Rect(x, y, x + w, y + lines), packet);
      OneMoreOnWire(ms, m, Shown(fb), d);
      assert ub.Stream() == before + AllBytes(ms, Shown(fb), d) + WireBytes(m, Shown(fb), d);
    }

    /** `rfbSendRectEncodingUltra`: strips, with a flush behind every one of full size. */
    method SendUltra(fb: Frame, r: Rect) returns (ghost ms: seq<WireRect>)
      requires Valid() && Ready(fb, r, preferred, d) && preferred.PreferUltra?
      modifies Repr()
      ensures Valid()
      ensures Stands(ms, r, CountOf(preferred, r), Shown(fb), d) && ub.Stream() == old(ub.Stream()) + AllBytes(ms, Shown(fb), d)
      ensures AllAsPreferred(ms, preferred, Shown(fb), d, afterBufSize)
    {
      hide AllBytes;
      hide MaxLines;
      hide Stands;
      hide Stripping;
      hide Shown;
      hide InDepth;
      hide ZrleRects.MinBufferSize;
      hide Corre.Strips;
      hide Corre.Pieces;
      hide UpdateBuffer.Stream;
      hide UpdateBuffer.Valid;
      hide PaletteHelper.Shape;
      var x: nat, y: nat, w: nat, linesRemaining: nat := r.x1, r.y1, r.x2 - r.x1, r.y2 - r.y1;
      TwoLinesFit(w);
      var maxLines := MaxLines(w);
      ghost var before, all := ub.Stream(), Corre.Pieces(x, y, w, linesRemaining, w, maxLines);
      NoStripYet(x, y, w, linesRemaining, maxLines);
      NothingMeans(Shown(fb), d);
      ms := [];
      while linesRemaining > 0
        invariant Valid() && linesRemaining <= r.y2 - r.y1 && y == r.y2 - linesRemaining
        invariant Stripping(ms, x, y, w, linesRemaining, maxLines, all) && AllAsPreferred(ms, preferred, Shown(fb), d, afterBufSize)
        invariant AllMean(ms, Shown(fb), d) && ub.Stream() == before + AllBytes(ms, Shown(fb), d)
      {
        var linesToComp := LinesToComp(maxLines, linesRemaining);
        ghost var m := SendStrip(fb, x, y, w, linesToComp, r, ms, before);
        NextStrip(ms, x, y, w, linesRemaining, maxLines, all, m);
        ms := ms + [m];
        if ub.ublen > 0 && linesToComp == maxLines {
          ub.SendUpdateBuf();
        }
        y, linesRemaining := y + linesToComp, linesRemaining - linesToComp;
      }
      AllStrips(ms, x, y, w, maxLines, all);
      Corre.OneStrip(w, w);
      Corre.PiecesStand(ms, x, r.y1, w, r.y2 - r.y1, w, maxLines, Shown(fb), d);
    }

    /** The switch over `preferredEncoding`; it fails only when a line of raw pixels is longer than the buffer. */
    method SendRectangle(fb: Frame, r: Rect) returns (ok: bool, ghost ms: seq<WireRect>)
      requires Valid() && Ready(fb, r, preferred, d)
      modifies Repr()
      ensures Valid() && (!ok ==> (r.x2 - r.x1) * d > UPDATE_BUF_SIZE && (preferred.PreferRaw? || preferred.PreferRRE?))
      ensures ok ==> Stands(ms, r, CountOf(preferred, r), Shown(fb), d) && ub.Stream() == old(ub.Stream()) + AllBytes(ms, Shown(fb), d)
      ensures ok ==> AllAsPreferred(ms, preferred, Shown(fb), d, afterBufSize)
    {
      hide Stands;
      hide CountOf;
      hide AllMean;
      hide AllBytes;
      hide Shown;
      hide Ready;
      hide AllAsPreferred;
      hide UpdateBuffer.Stream;
      ok := true;
      match preferred
      case PreferRaw => ok, ms := SendRaw(fb, r);
      case PreferRRE => ok, ms := SendRRE(fb, r);
      case PreferCoRRE(_, _) => ms := SendCoRRE(fb, r);
      case PreferHextile => ms := SendHextile(fb, r);
      case PreferUltra => ms := SendUltra(fb, r);
      case PreferZRLE => ms := SendZRLE(fb, r);
    }

    /** Any rectangle of any picture, in any of the encodings, arrives unchanged and alone. */
    method SendAndReceive(fb: Frame, client: Frame, r: Rect, bufferSize: nat, bg: int, fg: int) returns (ok: bool)
      requires Valid() && Ready(fb, r, preferred, d) && fb != client && RectOnScreen(client, r)
      modifies Repr(), client
      ensures ok ==> ShowsPart(Shown(client), old(Shown(client)), r, Shown(fb))
      ensures !ok ==> (r.x2 - r.x1) * d > UPDATE_BUF_SIZE && (preferred.PreferRaw? || preferred.PreferRRE?)
    {
      hide Stands;
      hide CountOf;
      hide AllMean;
      hide AllBytes;
      hide AllFit;
      hide AllPainted;
      hide Shows;
      hide ShowsPart;
      hide Shown;
      hide AllAsPreferred;
      hide InDepth;
      hide ZrleRects.MinBufferSize;
      ghost var was, ms := Shown(client), [];
      var start := |ub.sent| + ub.ublen;
      ok, ms := SendRectangle(fb, r);
      if ok {
        ub.SendUpdateBuf();
        assert ub.sent == ub.Stream();
        StandsOnScreen(client, ms, r, CountOf(preferred, r), Shown(fb), d);
        var done, next := HandleRects(client, ub.sent, start, CountOf(preferred, r), d, bufferSize, bg, fg, ms, Shown(fb));
        StandsShows(Shown(client), was, ms, r, CountOf(preferred, r), Shown(fb), d);
      }
    }
  }
}
