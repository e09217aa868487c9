/**
 * A FramebufferUpdate message (section 7.6.1 of RFC 6143): the number of rectangles, the copies of
 * a region, and the pixels of another in the encoding the client prefers.
 */
module UpdateMessages {
  import opened Bytes
  import opened SpanLists
  import opened Rectangles
  import opened Regions
  import opened RegionWalk
  import opened CopyMessages
  import opened CopyRects
  import opened Encoders
  import opened Pixels
  import opened RawRects
  import opened UpdateBuffers
  import opened WireRects
  import Corre
  import ZrleRects

  const FRAMEBUFFER_UPDATE: byte := 0
  const ENCODING_LAST_RECT: nat := 0xFFFF_FF20
  /** The number of rectangles that stands for an unknown one. */
  const UNCOUNTED: nat := 0xFFFF

  // ---------------------------------------------------------------- counting

  ghost predicate Countable(preferred: Preferred, rs: seq<Rect>) {
    Usable(preferred) && AllProper(rs)
  }

  /** How many rectangles are sent for those of a region. */
  ghost function Total(preferred: Preferred, rs: seq<Rect>): nat
    requires Countable(preferred, rs)
  {
    if rs == [] then 0
    else
      assert Proper(rs[|rs| - 1]);
      Total(preferred, rs[..|rs| - 1]) + CountOf(preferred, rs[|rs| - 1])
  }

  lemma OneMoreCounted(preferred: Preferred, rs: seq<Rect>, r: Rect)
    requires Countable(preferred, rs) && Proper(r)
    ensures Countable(preferred, rs + [r]) && Total(preferred, rs + [r]) == Total(preferred, rs) + CountOf(preferred, r)
  {
    hide CountOf;
    assert (rs + [r])[..|rs|] == rs;
  }

  lemma {:induction false} OneEach(preferred: Preferred, rs: seq<Rect>)
    requires Countable(preferred, rs) && !preferred.PreferCoRRE? && !preferred.PreferUltra?
    ensures Total(preferred, rs) == |rs|
  {
    if rs != [] {
      OneEach(preferred, rs[..|rs| - 1]);
    }
  }

  lemma NothingCounted(preferred: Preferred, rs: seq<Rect>)
    requires Usable(preferred)
    ensures Countable(preferred, rs[..0]) && Total(preferred, rs[..0]) == 0
  {
  }

  lemma NextCounted(preferred: Preferred, rs: seq<Rect>, k: nat, left: seq<Rect>, r: Rect, rest: seq<Rect>)
    requires Countable(preferred, rs) && k <= |rs| && left == rs[k..] && left == [r] + rest
    ensures k < |rs| && rs[k + 1..] == rest && Proper(r) && Countable(preferred, rs[..k]) && Countable(preferred, rs[..k + 1])
    ensures Total(preferred, rs[..k + 1]) == Total(preferred, rs[..k]) + CountOf(preferred, r)
  {
    hide CountOf;
    HeadAndRest(rs, k, left, r, rest);
    assert Proper(rs[k]);
    OneMoreCounted(preferred, rs[..k], r);
  }

  /** The loops that count the pieces of CoRRE and the strips of Ultra. */
  method CountPieces(preferred: Preferred, i: RectangleIterator) returns (n: nat)
    requires i.Valid() && Countable(preferred, i.Left()) && Usable(preferred)
    modifies i
    ensures n == Total(preferred, old(i.Left()))
  {
    hide CountOf;
    hide Countable;
    hide Total;
    hide RectangleIterator.Left;
    hide RectangleIterator.Valid;
    ghost var rs, k: nat := i.Left(), 0;
    NothingCounted(preferred, rs);
    n := 0;
    while true
      invariant i.Valid() && k <= |rs| && i.Left() == rs[k..] && Countable(preferred, rs[..k]) && n == Total(preferred, rs[..k])
      decreases |rs| - k
    {
      ghost var left := i.Left();
      var more, rect := i.Next();
      if !more {
        assert |left| == |rs| - k;
        assert rs[..k] == rs;
        return;
      }
      NextCounted(preferred, rs, k, left, rect, i.Left());
      n := n + CountOf(preferred, rect);
      k := k + 1;
    }
  }

  /** `nUpdateRegionRects` */
  method CountUpdateRects(preferred: Preferred, updateRegion: Region) returns (n: nat)
    requires updateRegion.Valid() && Usable(preferred) && Countable(preferred, Rects(updateRegion.list, false, false))
    ensures n == Total(preferred, Rects(updateRegion.list, false, false))
  {
    hide Countable;
    hide Total;
    hide Rects;
    hide RectangleIterator.Left;
    if preferred.PreferCoRRE? || preferred.PreferUltra? {
      var i := new RectangleIterator(updateRegion, false, false);
      n := CountPieces(preferred, i);
    } else {
      n := CountRects(updateRegion);
      OneEach(preferred, Rects(updateRegion.list, false, false));
    }
  }

  /** What the 16 bits of the header say. */
  function Announced(copies: nat, n: nat): (c: nat)
    ensures c < 0x1_0000
  {
    if n == UNCOUNTED then UNCOUNTED else (copies + n) % 0x1_0000
  }

  /** What follows the last rectangle: an end marker, if the number is taken for an unknown one. */
  ghost function Marker(n: nat): Bytestring {
    if n == UNCOUNTED then HeaderOf(Rect(0, 0, 0, 0), ENCODING_LAST_RECT) else []
  }

  predicate WellCounted(copies: nat, n: nat) {
    copies + n <= 0xFFFF && n != UNCOUNTED
  }

  /** The header tells the number of rectangles, with nothing behind them, exactly up to the limit. */
  lemma AnnouncedIff(copies: nat, n: nat)
    ensures Announced(copies, n) == copies + n && Marker(n) == [] <==> WellCounted(copies, n)
  {
    if copies + n > 0xFFFF {
      assert (copies + n) % 0x1_0000 < copies + n;
    }
  }

  /** A rectangle that CoRRE cuts into 65536 pieces, all of them unannounced. */
  lemma PiecesUnannounced()
    ensures CountOf(PreferCoRRE(48, 48), Rect(0, 0, 12288, 12288)) == 0x1_0000 && Announced(0, 0x1_0000) == 0
  {
    assert Corre.Strips(12288, 48) == 256;
  }

  // ---------------------------------------------------------------- sending the pixels

  /** What is sent for the pixels of the rectangles `rs`. */
  ghost predicate PixelsOf(ms: seq<WireRect>, rs: seq<Rect>, preferred: Preferred, fb: Frame, pic: Picture, d: Depth) {
    AllMean(ms, pic, d) && NoCopies(ms) && AllFit(fb, ms) && Countable(preferred, rs) && |ms| == Total(preferred, rs) &&
    forall p :: InSomePlace(p, ms) <==> InSomeRect(p, rs)
  }

  lemma MoreAsPreferred(a: seq<WireRect>, b: seq<WireRect>, preferred: Preferred, pic: Picture, d: Depth, bufSize: nat)
    requires AllAsPreferred(a, preferred, pic, d, bufSize) && AllAsPreferred(b, preferred, pic, d, bufSize)
    ensures AllAsPreferred(a + b, preferred, pic, d, bufSize)
  {
    hide AsPreferred;
  }

  lemma NoneAsPreferred(preferred: Preferred, pic: Picture, d: Depth, bufSize: nat)
    ensures AllAsPreferred([], preferred, pic, d, bufSize)
  {
  }

  lemma NoPixelsYet(preferred: Preferred, fb: Frame, pic: Picture, d: Depth)
    requires Usable(preferred)
    ensures PixelsOf([], [], preferred, fb, pic, d) && AllMean([], pic, d) && AllBytes([], pic, d) == []
  {
  }

  lemma MorePixels(ms: seq<WireRect>, rs: seq<Rect>, preferred: Preferred, fb: Frame, pic: Picture, d: Depth, more: seq<WireRect>, r: Rect)
    requires Usable(preferred) && PixelsOf(ms, rs, preferred, fb, pic, d) && Proper(r) && RectOnScreen(fb, r)
    requires Stands(more, r, CountOf(preferred, r), pic, d)
    ensures PixelsOf(ms + more, rs + [r], preferred, fb, pic, d)
    ensures AllMean(ms + more, pic, d) && AllBytes(ms + more, pic, d) == AllBytes(ms, pic, d) + AllBytes(more, pic, d)
  {
    hide AllBytes;
    hide Means;
    hide CountOf;
    hide Total;
    hide Countable;
    BytesJoin(ms, more, pic, d);
    OneMoreCounted(preferred, rs, r);
    StandsOnScreen(fb, more, r, CountOf(preferred, r), pic, d);
    forall p
      ensures InSomePlace(p, ms + more) <==> InSomeRect(p, rs + [r])
    {
      InSomeRectSplit(p, rs, [r]);
      assert r in [r];
      assert InSomePlace(p, ms + more) <==> InSomePlace(p, ms) || InSomePlace(p, more);
    }
  }

  ghost predicate AllReady(fb: Frame, rs: seq<Rect>, preferred: Preferred, d: Depth)
    reads fb
  {
    forall r :: r in rs ==> Ready(fb, r, preferred, d)
  }

  /** A line of raw pixels of some rectangle is longer than the send buffer. */
  ghost predicate LineTooLong(rs: seq<Rect>, preferred: Preferred, d: Depth) {
    (preferred.PreferRaw? || preferred.PreferRRE?) && exists r :: r in rs && (r.x2 - r.x1) * d > UPDATE_BUF_SIZE
  }

  lemma ReadyAt(fb: Frame, rs: seq<Rect>, k: nat, left: seq<Rect>, r: Rect, rest: seq<Rect>,
                preferred: Preferred, d: Depth)
    requires AllReady(fb, rs, preferred, d) && k <= |rs| && left == rs[k..] && left == [r] + rest
    ensures k < |rs| && rs[k] == r && rs[k + 1..] == rest && rs[..k + 1] == rs[..k] + [r] && r in rs
    ensures Ready(fb, r, preferred, d) && Proper(r) && RectOnScreen(fb, r)
  {
    HeadAndRest(rs, k, left, r, rest);
    assert Ready(fb, rs[k], preferred, d);
  }

  /** The loop over the rectangles of the update region. */
  method SendEach(cl: Encoder, fb: Frame, i: RectangleIterator) returns (ok: bool, ghost ms: seq<WireRect>)
    requires cl.Valid() && i.Valid() && AllReady(fb, i.Left(), cl.preferred, cl.d)
    modifies cl.Repr(), i
    ensures cl.Valid() && (!ok ==> LineTooLong(old(i.Left()), cl.preferred, cl.d))
    ensures ok ==> PixelsOf(ms, old(i.Left()), cl.preferred, fb, Shown(fb), cl.d)
    ensures ok ==> AllAsPreferred(ms, cl.preferred, Shown(fb), cl.d, cl.afterBufSize)
    ensures ok ==> AllMean(ms, Shown(fb), cl.d) && cl.ub.Stream() == old(cl.ub.Stream()) + AllBytes(ms, Shown(fb), cl.d)
  {
    hide CountOf;
    hide AllReady;
    hide Ready;
    hide AllAsPreferred;
    hide PixelsOf;
    hide AllMean;
    hide AllBytes;
    hide Stands;
    hide Shown;
    hide UpdateBuffer.Stream;
    hide RectangleIterator.Left;
    hide RectangleIterator.Valid;
    ghost var rs, k: nat, before := i.Left(), 0, cl.ub.Stream();
    NoPixelsYet(cl.preferred, fb, Shown(fb), cl.d);
    NoneAsPreferred(cl.preferred, Shown(fb), cl.d, cl.afterBufSize);
    ms := [];
    assert rs[..0] == [];
    while true
      invariant cl.Valid() && i.Valid() && k <= |rs| && i.Left() == rs[k..]
      invariant PixelsOf(ms, rs[..k], cl.preferred, fb, Shown(fb), cl.d)
      invariant AllAsPreferred(ms, cl.preferred, Shown(fb), cl.d, cl.afterBufSize)
      invariant AllMean(ms, Shown(fb), cl.d) && cl.ub.Stream() == before + AllBytes(ms, Shown(fb), cl.d)
      decreases |rs| - k
    {
      ghost var left := i.Left();
      var more, rect := i.Next();
      if !more {
        assert |left| == |rs| - k;
        assert rs[..k] == rs;
        return true, ms;
      }
      ReadyAt(fb, rs, k, left, rect, i.Left(), cl.preferred, cl.d);
      ghost var one;
      ok, one := cl.SendRectangle(fb, rect);
      if !ok {
        return;
      }
      MorePixels(ms, rs[..k], cl.preferred, fb, Shown(fb), cl.d, one, rect);
      MoreAsPreferred(ms, one, cl.preferred, Shown(fb), cl.d, cl.afterBufSize);
      ms := ms + one;
      k := k + 1;
    }
  }

  // ---------------------------------------------------------------- which rectangles

  ghost function ScreenOf(fb: Frame): iset<Pt> {
    iset p: Pt | OnScreen(fb, p)
  }

  function WholeScreen(fb: Frame): Rect {
    Rect(0, 0, fb.Length1, fb.Length0)
  }

  /** A framebuffer whose positions fit 16 bits, its pixels `d` bytes, and for ZRLE twice its size an `int`. */
  ghost predicate Encodable(fb: Frame, preferred: Preferred, d: Depth)
    reads fb
  {
    fb.Length0 < 0x1_0000 && fb.Length1 < 0x1_0000 && InDepth(Shown(fb), WholeScreen(fb), d) &&
    (preferred.PreferZRLE? ==> ZrleRects.MinBufferSize(WholeScreen(fb), d) < 0x8000_0000)
  }

  lemma SmallerBuffer(w: nat, h: nat, w': nat, h': nat, d: nat)
    requires w <= w' && h <= h'
    ensures w * h * d * 2 <= w' * h' * d * 2
  {
    assert w * h <= w' * h' by {
      assert w * h <= w' * h && w' * h <= w' * h';
    }
    assert w * h * d <= w' * h' * d;
  }

  lemma PartIsReady(fb: Frame, r: Rect, preferred: Preferred, d: Depth)
    requires Encodable(fb, preferred, d) && RectOnScreen(fb, r) && Proper(r)
    ensures Ready(fb, r, preferred, d)
  {
    hide Shown;
    SmallerBuffer(r.x2 - r.x1, r.y2 - r.y1, fb.Length1, fb.Length0, d);
  }

  lemma RegionIsReady(fb: Frame, l: SpanList, preferred: Preferred, d: Depth)
    requires WF(l, 2) && TwoLevels(l) && Usable(preferred) && Encodable(fb, preferred, d) && AreaOf(l) <= ScreenOf(fb)
    ensures AllReady(fb, Rects(l, false, false), preferred, d) && Countable(preferred, Rects(l, false, false))
  {
    hide Ready;
    hide Encodable;
    hide WF;
    hide Rects;
    RectsProper(l, false, false);
    RectsOnScreen(fb, l, false, false, 0, 0);
    forall r | r in Rects(l, false, false)
      ensures Ready(fb, r, preferred, d)
    {
      assert CopyOnScreen(fb, r, 0, 0) && Proper(r);
      PartIsReady(fb, r, preferred, d);
    }
  }

  lemma OnScreenInRange(fb: Frame, l: SpanList)
    requires WF(l, 2) && TwoLevels(l) && AreaOf(l) <= ScreenOf(fb)
    requires fb.Length0 <= INT_MAX && fb.Length1 <= INT_MAX
    ensures InIntRange(l)
  {
    forall b | b in l.spans
      ensures SpanInIntRange(b) && forall s :: s in b.sub.spans ==> SpanInIntRange(s)
    {
      BandTouches(l, b);
      assert WFSpan(b, 2);
      forall s | s in b.sub.spans
        ensures SpanInIntRange(s)
      {
        assert HasX(AreaOf(l), s.start) && HasX(AreaOf(l), s.end - 1);
      }
    }
  }

  lemma BoxIsOneRect(l: SpanList, r: Rect)
    requires Proper(r) && l == RectList(r.x1, r.y1, r.x2, r.y2) && TwoLevels(l)
    ensures |Rects(l, false, false)| == 1
  {
    OneRectOrigin(r.x1, r.y1, r.x2, r.y2, false, false, 0, 0, Pt(0, 0));
  }

  lemma NothingIsNoRect(l: SpanList)
    requires WF(l, 2) && TwoLevels(l) && AreaOf(l) == iset{}
    ensures Rects(l, false, false) == []
  {
    EmptyIffNoArea(l);
  }

  /** Too many rectangles for one update; CoRRE and Ultra split them anyway. */
  ghost predicate TooMany(rs: seq<Rect>, preferred: Preferred, maxRects: int) {
    !preferred.PreferCoRRE? && !preferred.PreferUltra? && 0 < maxRects < |rs| && |rs| != UNCOUNTED
  }

  /** What is painted of what is wanted: just that, or with too many rectangles the box around them. */
  ghost predicate IsLimited(painted: SpanList, wanted: SpanList, preferred: Preferred, maxRects: int) {
    TwoLevels(wanted) &&
    if TooMany(Rects(wanted, false, false), preferred, maxRects)
    then exists box: Rect :: Proper(box) && IsBox(box, AreaOf(wanted)) && AreaOf(painted) == RectArea(box)
    else painted == wanted
  }

  /** `sraRgnBBox` of something on the screen is at most one rectangle, on the screen. */
  method BoxOnScreen(fb: Frame, updateRegion: Region) returns (r: Region)
    requires updateRegion.Valid() && updateRegion.Area() <= ScreenOf(fb)
    requires fb.Length0 <= INT_MAX && fb.Length1 <= INT_MAX
    ensures fresh(r) && r.Valid() && updateRegion.Area() <= r.Area() <= ScreenOf(fb) && |Rects(r.list, false, false)| <= 1
    ensures |Rects(updateRegion.list, false, false)| > 0 ==>
              exists box: Rect :: Proper(box) && IsBox(box, updateRegion.Area()) && r.Area() == RectArea(box)
  {
    hide WF;
    hide Covers;
    hide Rects;
    OnScreenInRange(fb, updateRegion.list);
    r := BBox(updateRegion);
    if updateRegion.Area() != iset{} {
      ghost var box :| Proper(box) && IsBox(box, updateRegion.Area()) && r.Area() == RectArea(box) &&
                       r.list == RectList(box.x1, box.y1, box.x2, box.y2);
      BoxIsOneRect(r.list, box);
      assert updateRegion.Area() <= RectArea(WholeScreen(fb));
    } else {
      NothingIsNoRect(r.list);
      NothingIsNoRect(updateRegion.list);
    }
  }

  /** The rectangles counted; with too many, their bounding box is sent instead, unless the encoding splits rectangles. */
  method LimitRects(fb: Frame, updateRegion: Region, preferred: Preferred, d: Depth, maxRects: int) returns (r: Region, n: nat)
    requires updateRegion.Valid() && updateRegion.Area() <= ScreenOf(fb) && Encodable(fb, preferred, d) && Usable(preferred)
    ensures r == updateRegion || fresh(r)
    ensures r.Valid() && updateRegion.Area() <= r.Area() <= ScreenOf(fb)
    ensures Countable(preferred, Rects(r.list, false, false)) && n == Total(preferred, Rects(r.list, false, false))
    ensures maxRects > 0 && !preferred.PreferCoRRE? && !preferred.PreferUltra? ==> n <= maxRects || n == UNCOUNTED
    ensures IsLimited(r.list, updateRegion.list, preferred, maxRects)
  {
    hide Countable;
    hide Total;
    hide Rects;
    hide WF;
    hide AreaOf;
    hide ScreenOf;
    hide IsBox;
    hide InDepth;
    hide ZrleRects.MinBufferSize;
    RegionIsReady(fb, updateRegion.list, preferred, d);
    n := CountUpdateRects(preferred, updateRegion);
    r := updateRegion;
    if !preferred.PreferCoRRE? && !preferred.PreferUltra? {
      OneEach(preferred, Rects(updateRegion.list, false, false));
    }
    if n != UNCOUNTED && maxRects > 0 && !preferred.PreferCoRRE? && !preferred.PreferUltra? && n > maxRects {
      r := BoxOnScreen(fb, updateRegion);
      RegionIsReady(fb, r.list, preferred, d);
      n := CountRects(r);
      OneEach(preferred, Rects(r.list, false, false));
    }
  }

  // ---------------------------------------------------------------- the message

  /** `rfbFramebufferUpdateMsg`; the padding is what happens to lie there. */
  function UpdateHeader(pad: byte, n: nat): (b: Bytestring)
    requires n < 0x1_0000
    ensures |b| == UPDATE_HEADER_SIZE
  {
    [FRAMEBUFFER_UPDATE, pad] + Be16(n)
  }

  /** A new message starts at the front of the buffer. */
  method BeginUpdate(ub: UpdateBuffer, nRects: nat) returns (ghost pad: byte)
    requires ub.Valid() && nRects < 0x1_0000
    modifies ub, ub.updateBuf
    ensures ub.Valid() && ub.Stream() == old(ub.sent) + UpdateHeader(pad, nRects) && ub.ublen == UPDATE_HEADER_SIZE
  {
    hide Be16;
    pad := ub.updateBuf[1];
    ub.ublen := 0;
    ub.Put(UpdateHeader(ub.updateBuf[1], nRects));
  }

  /** `rfbSendLastRectMarker`, if there is a need for it. */
  method EndUpdate(ub: UpdateBuffer, n: nat)
    requires ub.Valid()
    modifies ub, ub.updateBuf
    ensures ub.Valid() && ub.sent == old(ub.Stream()) + Marker(n)
  {
    hide RectHeader;
    if n == UNCOUNTED {
      ub.Reserve(12);
      ub.Put(HeaderOf(Rect(0, 0, 0, 0), ENCODING_LAST_RECT));
    }
    ub.SendUpdateBuf();
    assert ub.sent == ub.Stream();
  }

  datatype Outcome = Complete | CopiesOverrun | LineOverrun

  /** The whole message: what is copied, what is painted, and how much of it was announced. */
  ghost predicate IsUpdate(s: Bytestring, pad: byte, copies: seq<Rect>, dx: int, dy: int, ms: seq<WireRect>, n: nat, pic: Picture, d: Depth) {
    AllMean(Copies(copies, dx, dy) + ms, pic, d) &&
    s == UpdateHeader(pad, Announced(|copies|, n)) + AllBytes(Copies(copies, dx, dy) + ms, pic, d) + Marker(n)
  }

  lemma MessageIsUpdate(before: Bytestring, pad: byte, copies: seq<Rect>, dx: int, dy: int, ms: seq<WireRect>, n: nat, pic: Picture, d: Depth,
                        s1: Bytestring, s2: Bytestring, s3: Bytestring, s4: Bytestring)
    requires AllWritable(copies, dx, dy) && AllMean(Copies(copies, dx, dy), pic, d) && AllMean(ms, pic, d)
    requires AllBytes(Copies(copies, dx, dy), pic, d) == CopiesBytes(copies, dx, dy)
    requires s1 == before + UpdateHeader(pad, Announced(|copies|, n)) && s2 == s1 + CopiesBytes(copies, dx, dy)
    requires s3 == s2 + AllBytes(ms, pic, d) && s4 == s3 + Marker(n)
    ensures before <= s4 && IsUpdate(s4[|before|..], pad, copies, dx, dy, ms, n, pic, d)
  {
    hide UpdateHeader;
    hide Announced;
    hide Marker;
    hide CopiesBytes;
    hide AllBytes;
    hide AllMean;
    hide AllWritable;
    BytesJoin(Copies(copies, dx, dy), ms, pic, d);
    assert s4 == before + (UpdateHeader(pad, Announced(|copies|, n)) + AllBytes(Copies(copies, dx, dy) + ms, pic, d) + Marker(n));
  }

  /** A region that can be copied on the screen. */
  ghost predicate Copyable(fb: Frame, reg: Region, dx: int, dy: int)
    reads reg
  {
    reg.Valid() && forall p :: p in reg.Area() ==> OnScreen(fb, p) && OnScreen(fb, Moved(p, -dx, -dy))
  }

  /** The copies of an update, if there are any. */
  method SendCopies(ub: UpdateBuffer, fb: Frame, reg: Region, dx: int, dy: int) returns (inRange: bool)
    requires ub.Valid() && Copyable(fb, reg, dx, dy) && fb.Length0 < 0x1_0000 && fb.Length1 < 0x1_0000
    modifies ub, ub.updateBuf
    ensures ub.Valid() && AllWritable(Rects(reg.list, dx > 0, dy > 0), dx, dy)
    ensures inRange <==> old(ub.ublen) + COPY_SIZE * |Rects(reg.list, dx > 0, dy > 0)| <= UPDATE_BUF_SIZE
    ensures inRange ==> ub.Stream() == old(ub.Stream()) + CopiesBytes(Rects(reg.list, dx > 0, dy > 0), dx, dy)
  {
    hide AllWritable;
    hide CopiesBytes;
    hide Rects;
    hide WF;
    hide Covers;
    RegionWritable(fb, reg, dx, dy, _ => 0, 1);
    var none := reg.IsEmpty();
    if none {
      NoCopiesOfNothing(reg.list, dx, dy);
      inRange := true;
    } else {
      inRange := SendCopyRegion(ub, reg, dx, dy);
    }
  }

  lemma NoCopiesOfNothing(l: SpanList, dx: int, dy: int)
    requires WF(l, 2) && TwoLevels(l) && AreaOf(l) == iset{}
    ensures Rects(l, dx > 0, dy > 0) == []
  {
    EmptyIffNoArea(l);
  }

  /** The pixels of an update. */
  method SendPixels(cl: Encoder, fb: Frame, updateRegion: Region) returns (ok: bool, ghost ms: seq<WireRect>)
    requires cl.Valid() && Encodable(fb, cl.preferred, cl.d) && updateRegion.Valid() && updateRegion.Area() <= ScreenOf(fb)
    modifies cl.Repr()
    ensures cl.Valid() && (!ok ==> LineTooLong(Rects(updateRegion.list, false, false), cl.preferred, cl.d))
    ensures ok ==> PixelsOf(ms, Rects(updateRegion.list, false, false), cl.preferred, fb, Shown(fb), cl.d)
    ensures ok ==> AllAsPreferred(ms, cl.preferred, Shown(fb), cl.d, cl.afterBufSize)
    ensures ok ==> AllMean(ms, Shown(fb), cl.d) && cl.ub.Stream() == old(cl.ub.Stream()) + AllBytes(ms, Shown(fb), cl.d)
  {
    hide AllReady;
    hide AllMean;
    hide AllAsPreferred;
    hide PixelsOf;
    hide LineTooLong;
    hide AllBytes;
    hide Encodable;
    hide Shown;
    hide Rects;
    hide WF;
    hide Covers;
    hide UpdateBuffer.Stream;
    hide RectangleIterator.Left;
    RegionIsReady(fb, updateRegion.list, cl.preferred, cl.d);
    var i := new RectangleIterator(updateRegion, false, false);
    ok, ms := SendEach(cl, fb, i);
  }

  /** The part of `rfbSendFramebufferUpdate` that sends, up to the first write that leaves the buffer or a line that does not fit it. */
  method SendUpdate(cl: Encoder, fb: Frame, updateRegion: Region, updateCopyRegion: Region, dx: int, dy: int, maxRects: int)
    returns (outcome: Outcome, copies: nat, n: nat, ghost painted: SpanList, ghost ms: seq<WireRect>, ghost pad: byte)
    requires cl.Valid() && Encodable(fb, cl.preferred, cl.d)
    requires updateRegion.Valid() && updateRegion.Area() <= ScreenOf(fb) && Copyable(fb, updateCopyRegion, dx, dy)
    modifies cl.Repr()
    ensures cl.Valid() && WF(painted, 2) && TwoLevels(painted) && updateRegion.Area() <= AreaOf(painted) <= ScreenOf(fb)
    ensures copies == |Rects(updateCopyRegion.list, dx > 0, dy > 0)|
    ensures Countable(cl.preferred, Rects(painted, false, false)) && n == Total(cl.preferred, Rects(painted, false, false))
    ensures outcome.CopiesOverrun? <==> UPDATE_HEADER_SIZE + COPY_SIZE * copies > UPDATE_BUF_SIZE
    ensures outcome.LineOverrun? ==> LineTooLong(Rects(painted, false, false), cl.preferred, cl.d)
    ensures IsLimited(painted, updateRegion.list, cl.preferred, maxRects)
    ensures outcome.Complete? ==> PixelsOf(ms, Rects(painted, false, false), cl.preferred, fb, Shown(fb), cl.d)
    ensures outcome.Complete? ==> AllAsPreferred(ms, cl.preferred, Shown(fb), cl.d, cl.afterBufSize)
    ensures outcome.Complete? ==>
              old(cl.ub.sent) <= cl.ub.sent &&
              IsUpdate(cl.ub.sent[|old(cl.ub.sent)|..], pad, Rects(updateCopyRegion.list, dx > 0, dy > 0), dx, dy, ms, n, Shown(fb), cl.d)
  {
    hide AllMean;
    hide AllBytes;
    hide AllWritable;
    hide CopiesBytes;
    hide PixelsOf;
    hide LineTooLong;
    hide Countable;
    hide Total;
    hide InDepth;
    hide ZrleRects.MinBufferSize;
    hide Shown;
    hide Rects;
    hide WF;
    hide Covers;
    hide IsUpdate;
    hide IsLimited;
    hide AllAsPreferred;
    hide UpdateHeader;
    hide Announced;
    hide Marker;
    hide OnScreen;
    hide UpdateBuffer.Stream;
    ghost var before, cs := cl.ub.sent, Rects(updateCopyRegion.list, dx > 0, dy > 0);
    var region;
    region, n := LimitRects(fb, updateRegion, cl.preferred, cl.d, maxRects);
    painted, ms := region.list, [];
    copies := CountRects(updateCopyRegion);
    RegionWritable(fb, updateCopyRegion, dx, dy, Shown(fb), cl.d);
    pad := BeginUpdate(cl.ub, Announced(copies, n));
    ghost var s1 := cl.ub.Stream();
    var ok := SendCopies(cl.ub, fb, updateCopyRegion, dx, dy);
    if !ok {
      outcome := CopiesOverrun;
      return;
    }
    ghost var s2 := cl.ub.Stream();
    ok, ms := SendPixels(cl, fb, region);
    if !ok {
      outcome := LineOverrun;
      return;
    }
    ghost var s3 := cl.ub.Stream();
    EndUpdate(cl.ub, n);
    outcome := Complete;
    MessageIsUpdate(before, pad, cs, dx, dy, ms, n, Shown(fb), cl.d, s1, s2, s3, cl.ub.sent);
  }

  // ---------------------------------------------------------------- receiving

  lemma UpdateHeaderReadsBack(s: Bytestring, i: nat, pad: byte, n: nat)
    requires n < 0x1_0000 && At(s, i, UpdateHeader(pad, n))
    ensures i + 4 <= |s| && s[i] == FRAMEBUFFER_UPDATE && ReadBe16(s, i + 2) == n
  {
    AtConcat(s, i, [FRAMEBUFFER_UPDATE, pad], Be16(n));
    AtIndex(s, i, [FRAMEBUFFER_UPDATE, pad], 0);
    hide Be16;
    hide ReadBe16;
    ReadBe16Written(s, i + 2, n);
  }

  /** The FramebufferUpdate case of `HandleRFBServerMessage`. */
  method HandleUpdate(client: Frame, s: Bytestring, i: nat, d: Depth, bufferSize: nat, bg: int, fg: int,
                      ghost pad: byte, ghost ms: seq<WireRect>, ghost pic: Picture)
    returns (ok: bool, next: nat)
    requires |ms| < 0x1_0000 && AllMean(ms, pic, d) && AllFit(client, ms)
    requires At(s, i, UpdateHeader(pad, |ms|) + AllBytes(ms, pic, d))
    modifies client
    ensures ok && next == i + UPDATE_HEADER_SIZE + |AllBytes(ms, pic, d)|
    ensures Shows(Shown(client), AllPainted(ms, old(Shown(client)), pic))
  {
    hide UpdateHeader;
    hide AllBytes;
    hide AllMean;
    hide AllFit;
    hide AllPainted;
    hide Shows;
    hide Shown;
    hide ReadBe16;
    AtConcat(s, i, UpdateHeader(pad, |ms|), AllBytes(ms, pic, d));
    UpdateHeaderReadsBack(s, i, pad, |ms|);
    next := i + 4;
    ok := s[i] == FRAMEBUFFER_UPDATE;
    if ok {
      ok, next := HandleRects(client, s, next, ReadBe16(s, i + 2), d, bufferSize, bg, fg, ms, pic);
    }
  }

  /** What an update is to do: paint one area, copy into another, and paint last. */
  ghost predicate ShowsUpdate(now: Picture, was: Picture, pic: Picture, painted: iset<Pt>, copied: iset<Pt>, dx: int, dy: int) {
    forall p :: now(p) == if p in painted then pic(p) else was(if p in copied then Moved(p, -dx, -dy) else p)
  }

  lemma MessageShows(fb: Frame, now: Picture, was: Picture, pic: Picture, painted: SpanList, copied: SpanList, dx: int, dy: int,
                     ms: seq<WireRect>, preferred: Preferred, d: Depth)
    requires WF(painted, 2) && TwoLevels(painted) && WF(copied, 2) && TwoLevels(copied)
    requires PixelsOf(ms, Rects(painted, false, false), preferred, fb, pic, d)
    requires Shows(now, AllPainted(Copies(Rects(copied, dx > 0, dy > 0), dx, dy) + ms, was, pic))
    ensures ShowsUpdate(now, was, pic, AreaOf(painted), AreaOf(copied), dx, dy)
  {
    hide WF;
    hide Rects;
    hide AreaOf;
    hide Origin;
    hide AllPainted;
    hide InSomeRect;
    hide InSomePlace;
    hide AllMean;
    hide AllFit;
    hide Countable;
    hide Total;
    var cs := Rects(copied, dx > 0, dy > 0);
    forall p
      ensures now(p) == if p in AreaOf(painted) then pic(p) else was(if p in AreaOf(copied) then Moved(p, -dx, -dy) else p)
    {
      PixelsPaint(Copies(cs, dx, dy), ms, was, pic, p);
      CopiesPaint(cs, dx, dy, was, pic, p);
      SentOrderMovesRegion(copied, dx, dy, p);
      RectsCover(painted, false, false, p);
    }
  }

  lemma FitsOther(fb: Frame, client: Frame, cs: seq<Rect>, dx: int, dy: int, ms: seq<WireRect>)
    requires fb.Length0 == client.Length0 && fb.Length1 == client.Length1
    requires AllFit(fb, Copies(cs, dx, dy)) && AllFit(fb, ms)
    ensures AllFit(client, Copies(cs, dx, dy) + ms)
  {
    forall m | m in Copies(cs, dx, dy) + ms
      ensures FitsClient(client, m)
    {
      assert FitsClient(fb, m);
    }
  }

  lemma WellCountedMessage(s: Bytestring, start: nat, pad: byte, cs: seq<Rect>, dx: int, dy: int, ms: seq<WireRect>, n: nat, pic: Picture, d: Depth)
    requires start <= |s| && IsUpdate(s[start..], pad, cs, dx, dy, ms, n, pic, d) && n == |ms| && WellCounted(|cs|, n)
    ensures var all := Copies(cs, dx, dy) + ms;
            |all| < 0x1_0000 && AllMean(all, pic, d) && At(s, start, UpdateHeader(pad, |all|) + AllBytes(all, pic, d)) &&
            |s| == start + UPDATE_HEADER_SIZE + |AllBytes(all, pic, d)|
  {
    hide UpdateHeader;
    hide AllBytes;
    hide AllMean;
    AnnouncedIff(|cs|, n);
  }

  /** When a message gets to the client: the copies fit the send buffer, so do raw lines, and the rectangles can be counted. */
  ghost predicate Accounted(painted: SpanList, copied: SpanList, dx: int, dy: int, preferred: Preferred, d: Depth, outcome: Outcome, delivered: bool) {
    TwoLevels(painted) && TwoLevels(copied) && Countable(preferred, Rects(painted, false, false)) &&
    var copies := |Rects(copied, dx > 0, dy > 0)|;
    (outcome.CopiesOverrun? <==> UPDATE_HEADER_SIZE + COPY_SIZE * copies > UPDATE_BUF_SIZE) &&
    (outcome.LineOverrun? ==> LineTooLong(Rects(painted, false, false), preferred, d)) &&
    (delivered <==> outcome.Complete? && WellCounted(copies, Total(preferred, Rects(painted, false, false))))
  }

  /**
   * An update on its way: the client has read the message to its end, and shows the copies and on
   * top of them the pixels.
   */
  method Deliver(cl: Encoder, fb: Frame, client: Frame, updateRegion: Region, updateCopyRegion: Region, dx: int, dy: int, maxRects: int,
                 bufferSize: nat, bg: int, fg: int)
    returns (delivered: bool, ghost painted: SpanList, ghost outcome: Outcome)
    requires cl.Valid() && Encodable(fb, cl.preferred, cl.d) && fb != client && fb.Length0 == client.Length0 && fb.Length1 == client.Length1
    requires updateRegion.Valid() && updateRegion.Area() <= ScreenOf(fb) && Copyable(fb, updateCopyRegion, dx, dy)
    modifies cl.Repr(), client
    ensures cl.Valid() && WF(painted, 2) && updateRegion.Area() <= AreaOf(painted) <= ScreenOf(fb)
    ensures IsLimited(painted, updateRegion.list, cl.preferred, maxRects)
    ensures Accounted(painted, updateCopyRegion.list, dx, dy, cl.preferred, cl.d, outcome, delivered)
    ensures delivered ==> ShowsUpdate(Shown(client), old(Shown(client)), Shown(fb), AreaOf(painted), updateCopyRegion.Area(), dx, dy)
  {
    hide AllMean;
    hide AllBytes;
    hide AllPainted;
    hide AllFit;
    hide AllWritable;
    hide CopiesBytes;
    hide PixelsOf;
    hide LineTooLong;
    hide Countable;
    hide Total;
    hide WellCounted;
    hide InDepth;
    hide ZrleRects.MinBufferSize;
    hide Shown;
    hide Shows;
    hide ShowsUpdate;
    hide Rects;
    hide WF;
    hide Covers;
    hide IsUpdate;
    hide IsLimited;
    hide AllAsPreferred;
    hide UpdateHeader;
    hide OnScreen;
    ghost var was, ms, pad := Shown(client), [], 0;
    var start, copies, n, sent := |cl.ub.sent|, 0, 0, Complete;
    sent, copies, n, painted, ms, pad := SendUpdate(cl, fb, updateRegion, updateCopyRegion, dx, dy, maxRects);
    outcome := sent;
    delivered := sent.Complete? && WellCounted(copies, n);
    if delivered {
      ghost var cs := Rects(updateCopyRegion.list, dx > 0, dy > 0);
      PixelsAreCounted(ms, Rects(painted, false, false), cl.preferred, fb, Shown(fb), cl.d);
      WellCountedMessage(cl.ub.sent, start, pad, cs, dx, dy, ms, n, Shown(fb), cl.d);
      RegionWritable(fb, updateCopyRegion, dx, dy, Shown(fb), cl.d);
      FitsOther(fb, client, cs, dx, dy, ms);
      var ok, next := HandleUpdate(client, cl.ub.sent, start, cl.d, bufferSize, bg, fg, pad, Copies(cs, dx, dy) + ms, Shown(fb));
      assert next == |cl.ub.sent|;
      MessageShows(fb, Shown(client), was, Shown(fb), painted, updateCopyRegion.list, dx, dy, ms, cl.preferred, cl.d);
    }
  }

  lemma PixelsAreCounted(ms: seq<WireRect>, rs: seq<Rect>, preferred: Preferred, fb: Frame, pic: Picture, d: Depth)
    requires PixelsOf(ms, rs, preferred, fb, pic, d)
    ensures Countable(preferred, rs) && |ms| == Total(preferred, rs) && AllFit(fb, ms)
  {
  }
}
