/**
 * `rfbSendCopyRegion` as messages: the copies of a region are written into the send buffer one
 * behind the other, without a look at how much room is left.
 */
module CopyMessages {
  import opened Bytes
  import opened SpanLists
  import opened Rectangles
  import opened Regions
  import opened RegionWalk
  import opened CopyRects
  import opened Pixels
  import opened RawRects
  import opened UpdateBuffers
  import opened WireRects

  const COPY_SIZE: nat := 16
  const UPDATE_HEADER_SIZE: nat := 4

  /** Rectangle and source can be written. */
  ghost predicate Writable(r: Rect, dx: int, dy: int) {
    OnWire(r) && OnWire(SourceOf(r, dx, dy))
  }

  ghost predicate AllWritable(rs: seq<Rect>, dx: int, dy: int) {
    forall r :: r in rs ==> Writable(r, dx, dy)
  }

  function CopyBytes(r: Rect, dx: int, dy: int): (b: Bytestring)
    requires OnWire(r) && OnWire(SourceOf(r, dx, dy))
    ensures |b| == COPY_SIZE
  {
    HeaderOf(r, ENCODING_COPY_RECT) + CopySource(r, dx, dy)
  }

  ghost function CopiesBytes(rs: seq<Rect>, dx: int, dy: int): (b: Bytestring)
    requires AllWritable(rs, dx, dy)
    ensures |b| == COPY_SIZE * |rs|
  {
    if rs == [] then []
    else
      assert Writable(rs[|rs| - 1], dx, dy);
      CopiesBytes(rs[..|rs| - 1], dx, dy) + CopyBytes(rs[|rs| - 1], dx, dy)
  }

  lemma OneMoreCopyWritten(rs: seq<Rect>, r: Rect, dx: int, dy: int)
    requires AllWritable(rs, dx, dy) && Writable(r, dx, dy)
    ensures AllWritable(rs + [r], dx, dy) && CopiesBytes(rs + [r], dx, dy) == CopiesBytes(rs, dx, dy) + CopyBytes(r, dx, dy)
  {
    assert (rs + [r])[..|rs|] == rs;
  }

  // ---------------------------------------------------------------- sending

  /** One pass of the loop: two blocks of memory, the second behind the first. */
  method PutCopy(ub: UpdateBuffer, r: Rect, dx: int, dy: int) returns (inRange: bool)
    requires ub.Valid() && Writable(r, dx, dy)
    modifies ub, ub.updateBuf
    ensures ub.Valid() && (inRange <==> old(ub.ublen) + COPY_SIZE <= UPDATE_BUF_SIZE) && ub.sent == old(ub.sent)
    ensures inRange ==> ub.Stream() == old(ub.Stream()) + CopyBytes(r, dx, dy) && ub.ublen == old(ub.ublen) + COPY_SIZE
  {
    hide RectHeader;
    inRange := ub.ublen + 12 <= UPDATE_BUF_SIZE;
    if inRange {
      ub.Put(HeaderOf(r, ENCODING_COPY_RECT));
      inRange := ub.ublen + 4 <= UPDATE_BUF_SIZE;
      if inRange {
        ub.Put(CopySource(r, dx, dy));
      }
    }
  }

  /** How far the loop has come: `rs[..k]` are in the buffer, and were in range. */
  ghost predicate Written(ub: UpdateBuffer, rs: seq<Rect>, k: nat, dx: int, dy: int, before: Bytestring, start: nat)
    reads ub, ub.updateBuf
  {
    ub.Valid() && k <= |rs| && AllWritable(rs[..k], dx, dy) &&
    ub.Stream() == before + CopiesBytes(rs[..k], dx, dy) && ub.ublen == start + COPY_SIZE * k <= UPDATE_BUF_SIZE
  }

  lemma NothingWritten(ub: UpdateBuffer, rs: seq<Rect>, dx: int, dy: int)
    requires ub.Valid()
    ensures Written(ub, rs, 0, dx, dy, ub.Stream(), ub.ublen)
  {
    assert rs[..0] == [];
  }

  /** The next rectangle, if there is one. */
  method PutNext(ub: UpdateBuffer, i: RectangleIterator, dx: int, dy: int, ghost rs: seq<Rect>, ghost k: nat, ghost before: Bytestring, ghost start: nat)
    returns (more: bool, inRange: bool)
    requires i.Valid() && AllWritable(rs, dx, dy) && Written(ub, rs, k, dx, dy, before, start) && i.Left() == rs[k..]
    modifies ub, ub.updateBuf, i
    ensures i.Valid() && (more <==> k < |rs|)
    ensures !more ==> inRange && Written(ub, rs, k, dx, dy, before, start)
    ensures more && inRange ==> i.Left() == rs[k + 1..] && Written(ub, rs, k + 1, dx, dy, before, start)
    ensures !inRange ==> ub.Valid() && ub.sent == old(ub.sent) && start + COPY_SIZE * (k + 1) > UPDATE_BUF_SIZE
  {
    hide CopyBytes;
    hide RectangleIterator.Left;
    hide RectangleIterator.Valid;
    hide UpdateBuffer.Stream;
    ghost var left := i.Left();
    var rect1;
    more, rect1 := i.Next();
    inRange := true;
    if more {
      HeadAndRest(rs, k, left, rect1, i.Left());
      assert Writable(rs[k], dx, dy);
      inRange := PutCopy(ub, rect1, dx, dy);
      OneMoreCopyWritten(rs[..k], rect1, dx, dy);
    }
  }

  /** The loop; it ends at the first write past the buffer. */
  method PutCopies(ub: UpdateBuffer, i: RectangleIterator, dx: int, dy: int) returns (inRange: bool)
    requires ub.Valid() && i.Valid() && AllWritable(i.Left(), dx, dy)
    modifies ub, ub.updateBuf, i
    ensures ub.Valid() && (inRange <==> old(ub.ublen) + COPY_SIZE * |old(i.Left())| <= UPDATE_BUF_SIZE)
    ensures inRange ==> ub.Stream() == old(ub.Stream()) + CopiesBytes(old(i.Left()), dx, dy)
  {
    ghost var rs, k: nat, before, start := i.Left(), 0, ub.Stream(), ub.ublen;
    NothingWritten(ub, rs, dx, dy);
    hide CopiesBytes;
    hide AllWritable;
    hide RectangleIterator.Left;
    hide RectangleIterator.Valid;
    var more := true;
    inRange := true;
    while more && inRange
      invariant i.Valid() && ub.Valid() && k <= |rs|
      invariant inRange ==> Written(ub, rs, k, dx, dy, before, start)
      invariant inRange && more ==> i.Left() == rs[k..]
      invariant !more ==> k == |rs| && inRange
      invariant !inRange ==> start + COPY_SIZE * |rs| > UPDATE_BUF_SIZE
      decreases |rs| - k, more, inRange
    {
      more, inRange := PutNext(ub, i, dx, dy, rs, k, before, start);
      if more && inRange {
        k := k + 1;
      }
    }
    assert rs[..|rs|] == rs;
  }

  /**
   * `rfbSendCopyRegion`, in the order that does not spoil a later source. All writes stay within
   * the buffer if and only if there is room for the copies of all rectangles.
   */
  method SendCopyRegion(ub: UpdateBuffer, reg: Region, dx: int, dy: int) returns (inRange: bool)
    requires ub.Valid() && reg.Valid() && AllWritable(Rects(reg.list, dx > 0, dy > 0), dx, dy)
    modifies ub, ub.updateBuf
    ensures ub.Valid()
    ensures inRange <==> old(ub.ublen) + COPY_SIZE * |Rects(reg.list, dx > 0, dy > 0)| <= UPDATE_BUF_SIZE
    ensures inRange ==> ub.Stream() == old(ub.Stream()) + CopiesBytes(Rects(reg.list, dx > 0, dy > 0), dx, dy)
  {
    hide CopiesBytes;
    hide AllWritable;
    hide Rects;
    hide RectangleIterator.Left;
    var i := new RectangleIterator(reg, dx > 0, dy > 0);
    inRange := PutCopies(ub, i, dx, dy);
  }

  // ---------------------------------------------------------------- the witness

  /** Every other pixel of a line. */
  function Dots(n: nat): seq<Span> {
    seq(n, k => Span(2 * k, 2 * k + 1, Null))
  }

  function DottedLine(n: nat): SpanList {
    List([Span(0, 1, List(Dots(n)))])
  }

  lemma DottedLineIsRegion(n: nat)
    requires n > 0
    ensures WF(DottedLine(n), 2) && TwoLevels(DottedLine(n)) && |Rects(DottedLine(n), true, false)| == n
  {
    var dots := Dots(n);
    assert WFSpans(dots, 1);
    var b := Span(0, 1, List(dots));
    assert WFSpan(b, 2);
    assert DottedLine(n) == List([b]);
    BandRectsCount(b, dots, Start(n, true), true);
    assert Ahead(dots, Start(n, true), true) == dots;
    assert RectsBehind([b], 0, true, false) == [];
  }

  /** A line of 1875 dots, moved to the right, is a region that overruns the buffer of an empty update. */
  lemma CopiesOverrun()
    ensures var l := DottedLine(1875);
            WF(l, 2) && TwoLevels(l) && !(UPDATE_HEADER_SIZE + COPY_SIZE * |Rects(l, 1 > 0, 0 > 0)| <= UPDATE_BUF_SIZE)
  {
    DottedLineIsRegion(1875);
  }

  // ---------------------------------------------------------------- the whole way

  lemma {:induction false} CopiesOnWire(rs: seq<Rect>, dx: int, dy: int, pic: Picture, d: Depth)
    requires AllWritable(rs, dx, dy) && forall r :: r in rs ==> Proper(r)
    ensures AllMean(Copies(rs, dx, dy), pic, d) && AllBytes(Copies(rs, dx, dy), pic, d) == CopiesBytes(rs, dx, dy)
  {
    hide RectHeader;
    hide CopySource;
    if rs != [] {
      var before, last := rs[..|rs| - 1], rs[|rs| - 1];
      assert Copies(rs, dx, dy)[..|rs| - 1] == Copies(before, dx, dy);
      assert Writable(last, dx, dy) && Means(Copied(last, dx, dy), pic, d);
      CopiesOnWire(before, dx, dy, pic, d);
    }
  }

  lemma RectsWritable(fb: Frame, rs: seq<Rect>, dx: int, dy: int)
    requires AllOnScreen(fb, rs, dx, dy) && fb.Length0 < 0x1_0000 && fb.Length1 < 0x1_0000
    ensures AllWritable(rs, dx, dy) && AllFit(fb, Copies(rs, dx, dy))
  {
    forall r | r in rs
      ensures Writable(r, dx, dy)
    {
      assert CopyOnScreen(fb, r, dx, dy);
    }
    forall m | m in Copies(rs, dx, dy)
      ensures FitsClient(fb, m)
    {
      assert CopyOnScreen(fb, m.r, dx, dy);
    }
  }

  lemma CopiesShowOrigins(now: Picture, was: Picture, rs: seq<Rect>, dx: int, dy: int, pic: Picture)
    requires Shows(now, AllPainted(Copies(rs, dx, dy), was, pic))
    ensures ShowsOrigins(now, was, rs, dx, dy)
  {
    forall p
      ensures now(p) == was(Origin(rs, dx, dy, p))
    {
      CopiesPaint(rs, dx, dy, was, pic, p);
    }
  }

  /** A region that lies on the screen with its sources can be written and read there. */
  lemma RegionWritable(fb: Frame, reg: Region, dx: int, dy: int, pic: Picture, d: Depth)
    requires reg.Valid() && fb.Length0 < 0x1_0000 && fb.Length1 < 0x1_0000
    requires forall p :: p in reg.Area() ==> OnScreen(fb, p) && OnScreen(fb, Moved(p, -dx, -dy))
    ensures var rs := Rects(reg.list, dx > 0, dy > 0);
            AllWritable(rs, dx, dy) && AllFit(fb, Copies(rs, dx, dy)) &&
            AllMean(Copies(rs, dx, dy), pic, d) && AllBytes(Copies(rs, dx, dy), pic, d) == CopiesBytes(rs, dx, dy)
  {
    hide AllWritable;
    hide AllFit;
    hide AllMean;
    hide AllBytes;
    hide CopiesBytes;
    hide WF;
    hide AreaOf;
    hide Rects;
    hide AllOnScreen;
    var rs := Rects(reg.list, dx > 0, dy > 0);
    RectsOnScreen(fb, reg.list, dx > 0, dy > 0, dx, dy);
    RectsProper(reg.list, dx > 0, dy > 0);
    RectsWritable(fb, rs, dx, dy);
    CopiesOnWire(rs, dx, dy, pic, d);
  }

  /** The client's side. */
  method Receive(client: Frame, s: Bytestring, start: nat, reg: Region, dx: int, dy: int, d: Depth)
    requires reg.Valid() && client.Length0 < 0x1_0000 && client.Length1 < 0x1_0000
    requires forall p :: p in reg.Area() ==> OnScreen(client, p) && OnScreen(client, Moved(p, -dx, -dy))
    requires AllWritable(Rects(reg.list, dx > 0, dy > 0), dx, dy) && At(s, start, CopiesBytes(Rects(reg.list, dx > 0, dy > 0), dx, dy))
    modifies client
    ensures ShowsCopy(Shown(client), old(Shown(client)), reg.Area(), dx, dy)
  {
    hide AllWritable;
    hide AllFit;
    hide AllMean;
    hide AllBytes;
    hide AllPainted;
    hide Copies;
    hide CopiesBytes;
    hide Rects;
    hide AreaOf;
    hide WF;
    hide Shown;
    hide Shows;
    hide ShowsCopy;
    hide ShowsOrigins;
    hide OnScreen;
    ghost var was, rs := Shown(client), Rects(reg.list, dx > 0, dy > 0);
    RegionWritable(client, reg, dx, dy, was, d);
    var n := CountRects(reg);
    CopiesAreMany(rs, dx, dy);
    var ok, next := HandleRects(client, s, start, n, d, 0, 0, 0, Copies(rs, dx, dy), was);
    CopiesShowOrigins(Shown(client), was, rs, dx, dy, was);
    SentOrderShows(Shown(client), was, reg.list, dx, dy);
  }

  lemma CopiesAreMany(rs: seq<Rect>, dx: int, dy: int)
    ensures |Copies(rs, dx, dy)| == |rs|
  {
  }

  /** Sent and received: what the client shows is the region moved as a whole, if the copies are in range. */
  method SendAndReceive(ub: UpdateBuffer, client: Frame, reg: Region, dx: int, dy: int, d: Depth) returns (inRange: bool)
    requires ub.Valid() && reg.Valid() && client.Length0 < 0x1_0000 && client.Length1 < 0x1_0000
    requires forall p :: p in reg.Area() ==> OnScreen(client, p) && OnScreen(client, Moved(p, -dx, -dy))
    modifies ub, ub.updateBuf, client
    ensures inRange <==> old(ub.ublen) + COPY_SIZE * |Rects(reg.list, dx > 0, dy > 0)| <= UPDATE_BUF_SIZE
    ensures inRange ==> ShowsCopy(Shown(client), old(Shown(client)), reg.Area(), dx, dy)
  {
    hide AllWritable;
    hide CopiesBytes;
    hide Rects;
    hide AreaOf;
    hide WF;
    hide Shown;
    hide ShowsCopy;
    hide OnScreen;
    RegionWritable(client, reg, dx, dy, Shown(client), d);
    var start := |ub.sent| + ub.ublen;
    inRange := SendCopyRegion(ub, reg, dx, dy);
    if inRange {
      ub.SendUpdateBuf();
      assert ub.sent == ub.Stream();
      Receive(client, ub.sent, start, reg, dx, dy, d);
    }
  }
}
