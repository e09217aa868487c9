/** CoRRE's splitting of a rectangle into pieces whose coordinates fit a byte. */
module Corre {
  import opened Arithmetic
  import opened Rectangles
  import opened CopyRects
  import opened Pixels
  import opened RawRects
  import opened RectMessages
  import opened Rre
  import opened UpdateBuffers
  import opened WireRects

  /** The rectangles the recursion ends at, in the order they are sent. */
  function Pieces(x: nat, y: nat, w: nat, h: nat, maxW: nat, maxH: nat): seq<Rect>
    requires maxW > 0 && maxH > 0
    decreases w + h
  {
    if h > maxH then Pieces(x, y, w, maxH, maxW, maxH) + Pieces(x, y + maxH, w, h - maxH, maxW, maxH)
    else if w > maxW then Pieces(x, y, maxW, h, maxW, maxH) + Pieces(x + maxW, y, w - maxW, h, maxW, maxH)
    else [Rect(x, y, x + w, y + h)]
  }

  lemma PiecesAre(x: nat, y: nat, w: nat, h: nat, maxW: nat, maxH: nat)
    requires maxW > 0 && maxH > 0
    ensures h > maxH ==> Pieces(x, y, w, h, maxW, maxH) == Pieces(x, y, w, maxH, maxW, maxH) + Pieces(x, y + maxH, w, h - maxH, maxW, maxH)
    ensures h <= maxH && w > maxW ==> Pieces(x, y, w, h, maxW, maxH) == Pieces(x, y, maxW, h, maxW, maxH) + Pieces(x + maxW, y, w - maxW, h, maxW, maxH)
    ensures h <= maxH && w <= maxW ==> Pieces(x, y, w, h, maxW, maxH) == [Rect(x, y, x + w, y + h)]
  {
  }

  predicate PieceOf(q: Rect, r: Rect, maxW: nat, maxH: nat) {
    r.x1 <= q.x1 < q.x2 <= r.x2 && r.y1 <= q.y1 < q.y2 <= r.y2 && q.x2 - q.x1 <= maxW && q.y2 - q.y1 <= maxH
  }

  /** Every piece lies in the rectangle, is not empty, and is small enough. */
  lemma {:induction false} PiecesAreSmall(x: nat, y: nat, w: nat, h: nat, maxW: nat, maxH: nat)
    requires maxW > 0 && maxH > 0 && w > 0 && h > 0
    ensures forall q :: q in Pieces(x, y, w, h, maxW, maxH) ==> PieceOf(q, Rect(x, y, x + w, y + h), maxW, maxH)
    decreases w + h
  {
    if h > maxH {
      PiecesAreSmall(x, y, w, maxH, maxW, maxH);
      PiecesAreSmall(x, y + maxH, w, h - maxH, maxW, maxH);
    } else if w > maxW {
      PiecesAreSmall(x, y, maxW, h, maxW, maxH);
      PiecesAreSmall(x + maxW, y, w - maxW, h, maxW, maxH);
    }
  }

  /** Which piece holds a pixel. */
  ghost predicate HeldBy(rs: seq<Rect>, k: int, p: Pt) {
    0 <= k < |rs| && InRect(p, rs[k])
  }

  ghost predicate HeldOnce(rs: seq<Rect>, p: Pt) {
    (exists k :: HeldBy(rs, k, p)) && forall j, k :: HeldBy(rs, j, p) && HeldBy(rs, k, p) ==> j == k
  }

  ghost predicate HeldNowhere(rs: seq<Rect>, p: Pt) {
    forall k :: !HeldBy(rs, k, p)
  }

  lemma HeldInOneHalf(a: seq<Rect>, b: seq<Rect>, p: Pt)
    ensures HeldOnce(a, p) && HeldNowhere(b, p) ==> HeldOnce(a + b, p)
    ensures HeldNowhere(a, p) && HeldOnce(b, p) ==> HeldOnce(a + b, p)
    ensures HeldNowhere(a, p) && HeldNowhere(b, p) ==> HeldNowhere(a + b, p)
  {
    forall k
      ensures HeldBy(a + b, k, p) <==> HeldBy(a, k, p) || HeldBy(b, k - |a|, p)
    {
    }
    if HeldNowhere(a, p) && HeldOnce(b, p) {
      var k :| HeldBy(b, k, p);
      assert HeldBy(a + b, k + |a|, p);
    }
    if HeldOnce(a, p) && HeldNowhere(b, p) {
      var k :| HeldBy(a, k, p);
      assert HeldBy(a + b, k, p);
    }
  }

  /** The pieces are a partition: every pixel of the rectangle is in exactly one, no other in any. */
  lemma {:induction false} PiecesPartition(x: nat, y: nat, w: nat, h: nat, maxW: nat, maxH: nat, p: Pt)
    requires maxW > 0 && maxH > 0
    ensures if InRect(p, Rect(x, y, x + w, y + h)) then HeldOnce(Pieces(x, y, w, h, maxW, maxH), p)
            else HeldNowhere(Pieces(x, y, w, h, maxW, maxH), p)
    decreases w + h
  {
    if h > maxH {
      PiecesPartition(x, y, w, maxH, maxW, maxH, p);
      PiecesPartition(x, y + maxH, w, h - maxH, maxW, maxH, p);
      HeldInOneHalf(Pieces(x, y, w, maxH, maxW, maxH), Pieces(x, y + maxH, w, h - maxH, maxW, maxH), p);
    } else if w > maxW {
      PiecesPartition(x, y, maxW, h, maxW, maxH, p);
      PiecesPartition(x + maxW, y, w - maxW, h, maxW, maxH, p);
      HeldInOneHalf(Pieces(x, y, maxW, h, maxW, maxH), Pieces(x + maxW, y, w - maxW, h, maxW, maxH), p);
    } else if InRect(p, Rect(x, y, x + w, y + h)) {
      assert HeldBy(Pieces(x, y, w, h, maxW, maxH), 0, p);
    }
  }

  /** How many strips of at most `max` make up `n`. */
  function Strips(n: nat, max: nat): nat
    requires n > 0 && max > 0
  {
    (n - 1) / max + 1
  }

  lemma OneStripLess(n: nat, max: nat)
    requires 0 < max < n
    ensures Strips(n, max) == 1 + Strips(n - max, max) && Strips(max, max) == 1
  {
    var q, r := (n - 1 - max) / max, (n - 1 - max) % max;
    assert n - 1 == (q + 1) * max + r;
    DivisionIs(n - 1, max, q + 1, r);
    DivisionIs(max - 1, max, 0, max - 1);
  }

  lemma OneStrip(n: nat, max: nat)
    requires 0 < n <= max
    ensures Strips(n, max) == 1
  {
  }

  /** The number announced in the update's header beforehand is the number of pieces that follow. */
  lemma {:induction false} PiecesAreCounted(x: nat, y: nat, w: nat, h: nat, maxW: nat, maxH: nat)
    requires maxW > 0 && maxH > 0 && w > 0 && h > 0
    ensures |Pieces(x, y, w, h, maxW, maxH)| == Strips(w, maxW) * Strips(h, maxH)
    decreases w + h
  {
    hide Strips;
    if h > maxH {
      PiecesAreCounted(x, y, w, maxH, maxW, maxH);
      PiecesAreCounted(x, y + maxH, w, h - maxH, maxW, maxH);
      OneStripLess(h, maxH);
    } else if w > maxW {
      PiecesAreCounted(x, y, maxW, h, maxW, maxH);
      PiecesAreCounted(x + maxW, y, w - maxW, h, maxW, maxH);
      OneStripLess(w, maxW);
      OneStrip(h, maxH);
    } else {
      OneStrip(w, maxW);
      OneStrip(h, maxH);
    }
  }

  /** Pieces that partition a rectangle stand for it. */
  lemma PiecesStand(ms: seq<WireRect>, x: nat, y: nat, w: nat, h: nat, maxW: nat, maxH: nat, pic: Picture, d: Depth)
    requires maxW > 0 && maxH > 0 && w > 0 && h > 0 && AllMean(ms, pic, d) && NoCopies(ms)
    requires PlacesOf(ms) == Pieces(x, y, w, h, maxW, maxH)
    ensures Stands(ms, Rect(x, y, x + w, y + h), Strips(w, maxW) * Strips(h, maxH), pic, d)
  {
    hide AllMean;
    hide Pieces;
    hide Strips;
    var rs, r := PlacesOf(ms), Rect(x, y, x + w, y + h);
    PiecesAreCounted(x, y, w, h, maxW, maxH);
    PiecesAreSmall(x, y, w, h, maxW, maxH);
    forall m | m in ms
      ensures WireRects.Inside(PlaceOf(m), r)
    {
      var k :| 0 <= k < |ms| && ms[k] == m;
      assert rs[k] in rs;
    }
    forall p
      ensures InSomePlace(p, ms) <==> InRect(p, r)
    {
      PiecesPartition(x, y, w, h, maxW, maxH, p);
      if InSomePlace(p, ms) {
        var m :| m in ms && InRect(p, PlaceOf(m));
        var k :| 0 <= k < |ms| && ms[k] == m;
        assert HeldBy(rs, k, p);
      }
      if InRect(p, r) {
        var k :| HeldBy(rs, k, p);
        assert ms[k] in ms;
      }
    }
  }

  // ---------------------------------------------------------------- sending

  ghost predicate CanSend(fb: Frame, x: nat, y: nat, w: nat, h: nat, d: Depth)
    reads fb
  {
    var r := Rect(x, y, x + w, y + h);
    RectOnScreen(fb, r) && InDepth(Shown(fb), r, d) && OnWire(r) && 0 < w && 0 < h
  }

  lemma NotEmpty(fb: Frame, x: nat, y: nat, w: nat, h: nat, d: Depth)
    requires CanSend(fb, x, y, w, h, d)
    ensures w > 0 && h > 0
  {
  }

  lemma CanSendPart(fb: Frame, x: nat, y: nat, w: nat, h: nat, d: Depth, x': nat, y': nat, w': nat, h': nat)
    requires CanSend(fb, x, y, w, h, d) && x <= x' < x' + w' <= x + w && y <= y' < y' + h' <= y + h
    ensures CanSend(fb, x', y', w', h', d)
  {
  }

  /** Every piece is what the search makes of it. */
  ghost predicate AllSearched(ms: seq<WireRect>, pic: Picture, d: Depth, bufSize: nat) {
    forall m :: m in ms ==> m.Plain? && AsSearched(m.m, pic, d, CoRRE, bufSize)
  }

  /** `rfbSendRectEncodingCoRRE` */
  method SendRectEncodingCoRRE(ub: UpdateBuffer, fb: Frame, x: nat, y: nat, w: nat, h: nat, maxW: nat, maxH: nat, d: Depth, bufSize: nat)
    returns (ok: bool, ghost ms: seq<WireRect>)
    requires ub.Valid() && CanSend(fb, x, y, w, h, d) && 0 < maxW < 0x100 && 0 < maxH < 0x100
    modifies ub, ub.updateBuf
    ensures ub.Valid() && ok && PlacesOf(ms) == Pieces(x, y, w, h, maxW, maxH) && NoCopies(ms) && AllMean(ms, Shown(fb), d)
    ensures AllSearched(ms, Shown(fb), d, bufSize)
    ensures ub.Stream() == old(ub.Stream()) + AllBytes(ms, Shown(fb), d)
    decreases w + h, 1
  {
    hide CanSend;
    hide AllMean;
    hide AllBytes;
    hide PlacesOf;
    hide NoCopies;
    hide AllSearched;
    hide Pieces;
    hide Shown;
    hide UpdateBuffer.Valid;
    hide UpdateBuffer.Stream;
    PiecesAre(x, y, w, h, maxW, maxH);
    NotEmpty(fb, x, y, w, h, d);
    if h > maxH {
      CanSendPart(fb, x, y, w, h, d, x, y, w, maxH);
      CanSendPart(fb, x, y, w, h, d, x, y + maxH, w, h - maxH);
      ok, ms := SendBoth(ub, fb, x, y, w, maxH, x, y + maxH, w, h - maxH, maxW, maxH, d, bufSize, w + h);
    } else if w > maxW {
      CanSendPart(fb, x, y, w, h, d, x, y, maxW, h);
      CanSendPart(fb, x, y, w, h, d, x + maxW, y, w - maxW, h);
      ok, ms := SendBoth(ub, fb, x, y, maxW, h, x + maxW, y, w - maxW, h, maxW, maxH, d, bufSize, w + h);
    } else {
      ok := true;
      ms := SendSmall(ub, fb, x, y, w, h, d, bufSize);
    }
  }

  lemma PlacesJoin(a: seq<WireRect>, b: seq<WireRect>)
    ensures PlacesOf(a + b) == PlacesOf(a) + PlacesOf(b) && (NoCopies(a) && NoCopies(b) ==> NoCopies(a + b))
  {
  }

  lemma SearchedJoin(a: seq<WireRect>, b: seq<WireRect>, pic: Picture, d: Depth, bufSize: nat)
    requires AllSearched(a, pic, d, bufSize) && AllSearched(b, pic, d, bufSize)
    ensures AllSearched(a + b, pic, d, bufSize)
  {
    hide AsSearched;
  }

  /** Two smaller rectangles, one after the other. */
  method SendBoth(ub: UpdateBuffer, fb: Frame, x: nat, y: nat, w: nat, h: nat, x': nat, y': nat, w': nat, h': nat,
                  maxW: nat, maxH: nat, d: Depth, bufSize: nat, ghost whole: nat)
    returns (ok: bool, ghost ms: seq<WireRect>)
    requires ub.Valid() && CanSend(fb, x, y, w, h, d) && CanSend(fb, x', y', w', h', d) && 0 < maxW < 0x100 && 0 < maxH < 0x100
    requires w + h < whole && w' + h' < whole
    modifies ub, ub.updateBuf
    ensures ub.Valid() && ok && PlacesOf(ms) == Pieces(x, y, w, h, maxW, maxH) + Pieces(x', y', w', h', maxW, maxH)
    ensures NoCopies(ms) && AllMean(ms, Shown(fb), d) && ub.Stream() == old(ub.Stream()) + AllBytes(ms, Shown(fb), d)
    ensures AllSearched(ms, Shown(fb), d, bufSize)
    decreases whole, 0
  {
    hide CanSend;
    hide AllMean;
    hide AllBytes;
    hide PlacesOf;
    hide NoCopies;
    hide AllSearched;
    hide Pieces;
    hide Shown;
    hide UpdateBuffer.Valid;
    hide UpdateBuffer.Stream;
    PiecesAre(x, y, w, h, maxW, maxH);
    NotEmpty(fb, x, y, w, h, d);
    ghost var b;
    ok, ms := SendRectEncodingCoRRE(ub, fb, x, y, w, h, maxW, maxH, d, bufSize);
    if ok {
      ok, b := SendRectEncodingCoRRE(ub, fb, x', y', w', h', maxW, maxH, d, bufSize);
      PlacesJoin(ms, b);
      BytesJoin(ms, b, Shown(fb), d);
      SearchedJoin(ms, b, Shown(fb), d, bufSize);
      ms := ms + b;
    }
  }

  /** One piece; the source does not look at how it went, and need not. */
  method SendSmall(ub: UpdateBuffer, fb: Frame, x: nat, y: nat, w: nat, h: nat, d: Depth, bufSize: nat) returns (ghost ms: seq<WireRect>)
    requires ub.Valid() && CanSend(fb, x, y, w, h, d) && w < 0x100 && h < 0x100
    modifies ub, ub.updateBuf
    ensures ub.Valid() && PlacesOf(ms) == [Rect(x, y, x + w, y + h)] && NoCopies(ms) && AllMean(ms, Shown(fb), d)
    ensures AllSearched(ms, Shown(fb), d, bufSize)
    ensures ub.Stream() == old(ub.Stream()) + AllBytes(ms, Shown(fb), d)
  {
    hide AsSearched;
    hide Sendable;
    hide Describes;
    hide Manageable;
    hide MessageBytes;
    hide AllMean;
    hide AllBytes;
    hide Means;
    hide WireBytes;
    ghost var m;
    var ok;
    ok, m := SendRect(ub, fb, x, y, w, h, d, CoRRE, bufSize);
    ms := [Plain(m)];
    PlainMeans(m, Shown(fb), d);
    BytesOfOne(Plain(m), Shown(fb), d);
  }

  /** A rectangle of any size arrives unchanged: as many messages as were announced, each in its own piece. */
  method SendAndReceive(ub: UpdateBuffer, fb: Frame, client: Frame, x: nat, y: nat, w: nat, h: nat, maxW: nat, maxH: nat, d: Depth, bufSize: nat)
    requires ub.Valid() && fb != client && CanSend(fb, x, y, w, h, d) && RectOnScreen(client, Rect(x, y, x + w, y + h))
    requires 0 < maxW < 0x100 && 0 < maxH < 0x100
    modifies ub, ub.updateBuf, client
    ensures ShowsPart(Shown(client), old(Shown(client)), Rect(x, y, x + w, y + h), Shown(fb))
  {
    hide ShowsPart;
    hide InDepth;
    hide Stands;
    hide AllMean;
    hide AllBytes;
    hide AllFit;
    hide AllPainted;
    hide Shows;
    hide PlacesOf;
    hide NoCopies;
    hide Pieces;
    hide Shown;
    var rectsPerRow, rows := (w - 1) / maxW + 1, (h - 1) / maxH + 1;
    var start := |ub.sent| + ub.ublen;
    ghost var was, ms, r := Shown(client), [], Rect(x, y, x + w, y + h);
    var ok, next;
    ok, ms := SendRectEncodingCoRRE(ub, fb, x, y, w, h, maxW, maxH, d, bufSize);
    ub.SendUpdateBuf();
    assert ub.sent == ub.Stream();
    PiecesStand(ms, x, y, w, h, maxW, maxH, Shown(fb), d);
    StandsOnScreen(client, ms, r, rectsPerRow * rows, Shown(fb), d);
    ok, next := HandleRects(client, ub.sent, start, rectsPerRow * rows, d, 0, 0, 0, ms, Shown(fb));
    StandsShows(Shown(client), was, ms, r, rectsPerRow * rows, Shown(fb), d);
  }
}
