/**
 * CopyRect (section 7.7.2 of RFC 6143): a region moved by `(dx, dy)` as a string of rectangle
 * copies, sent by `rfbSendCopyRegion` and executed one by one by the client.
 */
module CopyRects {
  import opened SpanLists
  import opened Rectangles
  import opened Regions
  import opened RegionWalk

  // ---------------------------------------------------------------- meaning of a string of copies

  /** Where the pixel at `p` was before the copies were executed in order. */
  function Origin(rs: seq<Rect>, dx: int, dy: int, p: Pt): Pt {
    if rs == [] then p
    else
      var before, last := rs[..|rs| - 1], rs[|rs| - 1];
      Origin(before, dx, dy, if InRect(p, last) then Moved(p, -dx, -dy) else p)
  }

  /** Where it would have been had the whole area moved at once. */
  ghost function OriginAtOnce(rs: seq<Rect>, dx: int, dy: int, p: Pt): Pt {
    if InSomeRect(p, rs) then Moved(p, -dx, -dy) else p
  }

  ghost predicate AllProper(rs: seq<Rect>) {
    forall r :: r in rs ==> Proper(r)
  }

  lemma InitAndLast(rs: seq<Rect>, p: Pt)
    requires rs != []
    ensures InSomeRect(p, rs) <==> InSomeRect(p, rs[..|rs| - 1]) || InRect(p, rs[|rs| - 1])
  {
    assert rs == rs[..|rs| - 1] + [rs[|rs| - 1]];
    InSomeRectSplit(p, rs[..|rs| - 1], [rs[|rs| - 1]]);
    assert InSomeRect(p, [rs[|rs| - 1]]) <==> InRect(p, rs[|rs| - 1]) by {
      assert rs[|rs| - 1] in [rs[|rs| - 1]];
    }
  }

  lemma {:induction false} UntouchedOrigin(rs: seq<Rect>, dx: int, dy: int, p: Pt)
    requires !InSomeRect(p, rs)
    ensures Origin(rs, dx, dy, p) == p
  {
    if rs != [] {
      InitAndLast(rs, p);
      UntouchedOrigin(rs[..|rs| - 1], dx, dy, p);
    }
  }

  lemma {:induction false} SafeOrderIsSimultaneous(rs: seq<Rect>, dx: int, dy: int, p: Pt)
    requires SafeOrder(rs, dx, dy) && SafeOrder(rs, 0, 0)
    ensures Origin(rs, dx, dy, p) == OriginAtOnce(rs, dx, dy, p)
  {
    if rs != [] {
      var before, last := rs[..|rs| - 1], rs[|rs| - 1];
      InitAndLast(rs, p);
      if InRect(p, last) {
        forall r | r in before
          ensures !InRect(Moved(p, -dx, -dy), r)
        {
          var i :| 0 <= i < |before| && before[i] == r;
          assert Spares(rs[i], rs[|rs| - 1], dx, dy);
        }
        UntouchedOrigin(before, dx, dy, Moved(p, -dx, -dy));
      } else {
        SafeOrderIsSimultaneous(before, dx, dy, p);
      }
    }
  }

  /** Whatever is executed, a pixel comes from some number of displacements back. */
  lemma {:induction false} OriginIsBack(rs: seq<Rect>, dx: int, dy: int, p: Pt) returns (n: nat)
    ensures Origin(rs, dx, dy, p) == Moved(p, -(n * dx), -(n * dy))
    ensures InSomeRect(p, rs) && SafeOrder(rs, 0, 0) ==> n > 0
  {
    n := 0;
    if rs != [] {
      var last := rs[|rs| - 1];
      InitAndLast(rs, p);
      if InRect(p, last) {
        n := OriginIsBack(rs[..|rs| - 1], dx, dy, Moved(p, -dx, -dy));
        n := n + 1;
      } else {
        n := OriginIsBack(rs[..|rs| - 1], dx, dy, p);
      }
    }
  }

  /** A pixel of the last rectangle whose source an earlier one has overwritten. */
  lemma SpoiltSource(rs: seq<Rect>, dx: int, dy: int, i: nat, p: Pt)
    requires SafeOrder(rs, 0, 0) && (dx != 0 || dy != 0) && i + 1 < |rs|
    requires InRect(p, rs[|rs| - 1]) && InRect(Moved(p, -dx, -dy), rs[i])
    ensures Origin(rs, dx, dy, p) != Moved(p, -dx, -dy)
  {
    var before := rs[..|rs| - 1];
    var q := Moved(p, -dx, -dy);
    assert before[i] == rs[i] && before[i] in before;
    assert InSomeRect(q, before);
    var n := OriginIsBack(before, dx, dy, q);
    assert n * dx == 0 <==> dx == 0;
    assert n * dy == 0 <==> dy == 0;
  }

  lemma {:induction false} LaterOriginSame(rs: seq<Rect>, dx: int, dy: int, j: nat, p: Pt)
    requires j < |rs| && SafeOrder(rs, 0, 0) && InRect(p, rs[j])
    ensures Origin(rs, dx, dy, p) == Origin(rs[..j + 1], dx, dy, p)
    decreases |rs|
  {
    if j + 1 == |rs| {
      assert rs[..j + 1] == rs;
    } else {
      assert Spares(rs[j], rs[|rs| - 1], 0, 0);
      LaterOriginSame(rs[..|rs| - 1], dx, dy, j, p);
      assert rs[..|rs| - 1][..j + 1] == rs[..j + 1];
    }
  }

  /**
   * For disjoint rectangles, executing the copies one by one moves the area as a whole if and
   * only if no rectangle overwrites the source of a later one.
   */
  lemma SimultaneousIffSafe(rs: seq<Rect>, dx: int, dy: int)
    requires AllProper(rs) && SafeOrder(rs, 0, 0)
    ensures (forall p :: Origin(rs, dx, dy, p) == OriginAtOnce(rs, dx, dy, p)) <==> SafeOrder(rs, dx, dy)
  {
    if SafeOrder(rs, dx, dy) {
      forall p
        ensures Origin(rs, dx, dy, p) == OriginAtOnce(rs, dx, dy, p)
      {
        SafeOrderIsSimultaneous(rs, dx, dy, p);
      }
    } else {
      var i, j :| 0 <= i < j < |rs| && !Spares(rs[i], rs[j], dx, dy);
      var r, s := rs[i], rs[j];
      assert Proper(r) && Proper(s);
      var q := Pt(if r.x1 <= s.x1 - dx then s.x1 - dx else r.x1, if r.y1 <= s.y1 - dy then s.y1 - dy else r.y1);
      var p := Moved(q, dx, dy);
      assert InRect(q, r) && InRect(p, s);
      assert dx != 0 || dy != 0 by {
        assert Spares(r, s, 0, 0);
      }
      LaterOriginSame(rs, dx, dy, j, p);
      assert Moved(p, -dx, -dy) == q;
      SpoiltSource(rs[..j + 1], dx, dy, i, p);
      assert InSomeRect(p, rs);
      assert Origin(rs, dx, dy, p) != OriginAtOnce(rs, dx, dy, p);
    }
  }

  /** The order `rfbSendCopyRegion` asks for moves any region as a whole, by any displacement. */
  lemma SentOrderMovesRegion(l: SpanList, dx: int, dy: int, p: Pt)
    requires WF(l, 2) && TwoLevels(l)
    ensures Origin(Rects(l, dx > 0, dy > 0), dx, dy, p) == if p in AreaOf(l) then Moved(p, -dx, -dy) else p
  {
    var rs := Rects(l, dx > 0, dy > 0);
    RectsSafe(l, dx > 0, dy > 0, dx, dy);
    RectsDisjoint(l, dx > 0, dy > 0);
    SafeOrderIsSimultaneous(rs, dx, dy, p);
    RectsCover(l, dx > 0, dy > 0, p);
  }

  /** Two bands, the lower one wider. */
  function TwoBands(): SpanList {
    List([Span(1, 2, List([Span(0, 1, Null)])), Span(2, 3, List([Span(0, 2, Null)]))])
  }

  lemma TwoBandsRects()
    ensures WF(TwoBands(), 2) && TwoLevels(TwoBands())
    ensures Rects(TwoBands(), false, false) == [Rect(0, 1, 1, 2), Rect(0, 2, 2, 3)]
  {
    var u, w := Span(0, 1, Null), Span(0, 2, Null);
    var a, b := Span(1, 2, List([u])), Span(2, 3, List([w]));
    assert TwoBands() == List([a, b]);
    assert WFSpans([u], 1) && WFSpans([w], 1) && WFSpan(a, 2) && WFSpan(b, 2);
    assert BandRects(a, [u], 0, false) == [] && BandRects(b, [w], 0, false) == [];
    assert BandRects(a, [u], -1, false) == [Rect(0, 1, 1, 2)];
    assert BandRects(b, [w], -1, false) == [Rect(0, 2, 2, 3)];
    assert RectsBehind([a, b], 1, false, false) == [];
    assert RectsBehind([a, b], 0, false, false) == [Rect(0, 2, 2, 3)];
  }

  /**
   * `rfbDoCopyRegion` asks for the opposite order. Two rectangles one above the other, moved
   * down by one: the lower one receives what the upper one has just been given.
   */
  lemma ServerOrderSpoils()
    ensures var l := TwoBands();
            WF(l, 2) && TwoLevels(l) && Pt(0, 2) in AreaOf(l) && Origin(Rects(l, 0 < 0, 1 < 0), 0, 1, Pt(0, 2)) == Pt(0, 0)
  {
    hide WF;
    hide Rects;
    hide TwoBands;
    hide AreaOf;
    TwoBandsRects();
    var ra, rb := Rect(0, 1, 1, 2), Rect(0, 2, 2, 3);
    assert [ra, rb][..1] == [ra] && [ra][..0] == [];
    assert Origin([ra, rb], 0, 1, Pt(0, 2)) == Origin([ra], 0, 1, Pt(0, 1)) == Pt(0, 0);
    RectsCover(TwoBands(), false, false, Pt(0, 2));
    assert rb in [ra, rb] && InRect(Pt(0, 2), rb);
  }

  /**
   * The order of the server's own copy, opposite to the one above, moves the region exactly when
   * no rectangle written before is the source of one still to come.
   */
  lemma ServerOrderMovesIffSafe(l: SpanList, dx: int, dy: int)
    requires WF(l, 2) && TwoLevels(l)
    ensures var rs := Rects(l, dx < 0, dy < 0);
            (forall p :: Origin(rs, dx, dy, p) == if p in AreaOf(l) then Moved(p, -dx, -dy) else p) <==> SafeOrder(rs, dx, dy)
  {
    hide WF;
    hide Rects;
    hide AreaOf;
    hide SafeOrder;
    hide Origin;
    var rs := Rects(l, dx < 0, dy < 0);
    RectsDisjoint(l, dx < 0, dy < 0);
    RectsProper(l, dx < 0, dy < 0);
    SimultaneousIffSafe(rs, dx, dy);
    forall p
      ensures OriginAtOnce(rs, dx, dy, p) == if p in AreaOf(l) then Moved(p, -dx, -dy) else p
    {
      RectsCover(l, dx < 0, dy < 0, p);
    }
  }

  lemma RectsProper(l: SpanList, revX: bool, revY: bool)
    requires WF(l, 2) && TwoLevels(l)
    ensures AllProper(Rects(l, revX, revY))
  {
    RectsSafe(l, revX, revY, 0, 0);
  }

  /** A single rectangle is moved as a whole in either order. */
  lemma OneRectOrigin(x1: int, y1: int, x2: int, y2: int, revX: bool, revY: bool, dx: int, dy: int, p: Pt)
    requires x1 < x2 && y1 < y2
    ensures TwoLevels(RectList(x1, y1, x2, y2))
    ensures Rects(RectList(x1, y1, x2, y2), revX, revY) == [Rect(x1, y1, x2, y2)]
    ensures Origin([Rect(x1, y1, x2, y2)], dx, dy, p)
         == if InRect(p, Rect(x1, y1, x2, y2)) then Moved(p, -dx, -dy) else p
  {
    var h := Span(x1, x2, Null);
    var v := Span(y1, y2, List([h]));
    var k := Start(1, revX);
    assert BandRects(v, [h], 0, revX) == [];
    assert BandRects(v, [h], k, revX) == [Rect(x1, y1, x2, y2)];
    assert RectsBehind([v], 0, revX, revY) == [];
  }

  // ---------------------------------------------------------------- framebuffers

  /** A framebuffer is indexed by row, then column. */
  type Frame = array2<int>

  predicate OnScreen(fb: Frame, p: Pt) {
    0 <= p.x < fb.Length1 && 0 <= p.y < fb.Length0
  }

  predicate RectOnScreen(fb: Frame, r: Rect) {
    0 <= r.x1 <= r.x2 <= fb.Length1 && 0 <= r.y1 <= r.y2 <= fb.Length0
  }

  /** One row of a copy, in the direction that does not overtake its source. */
  method CopyRow(fb: Frame, y: int, x1: int, x2: int, dx: int, dy: int)
    requires RectOnScreen(fb, Rect(x1, y, x2, y + 1)) && RectOnScreen(fb, Rect(x1 - dx, y - dy, x2 - dx, y + 1 - dy))
    modifies fb
    ensures forall v, u :: 0 <= v < fb.Length0 && 0 <= u < fb.Length1 ==>
              fb[v, u] == if v == y && x1 <= u < x2 then old(fb[y - dy, u - dx]) else old(fb[v, u])
  {
    if dx < 0 {
      var i := x1;
      while i < x2
        invariant x1 <= i <= x2
        invariant forall v, u :: 0 <= v < fb.Length0 && 0 <= u < fb.Length1 ==>
                    fb[v, u] == if v == y && x1 <= u < i then old(fb[y - dy, u - dx]) else old(fb[v, u])
      {
        fb[y, i] := fb[y - dy, i - dx];
        i := i + 1;
      }
    } else {
      var i := x2 - 1;
      while i >= x1
        invariant x1 - 1 <= i < x2
        invariant forall v, u :: 0 <= v < fb.Length0 && 0 <= u < fb.Length1 ==>
                    fb[v, u] == if v == y && i < u < x2 then old(fb[y - dy, u - dx]) else old(fb[v, u])
      {
        fb[y, i] := fb[y - dy, i - dx];
        i := i - 1;
      }
    }
  }

  /**
   * `CopyRectangleFromRectangle`, and the body of `rfbDoCopyRegion`: rows from the top when the
   * source is below, from the bottom otherwise.
   */
  method CopyRect(fb: Frame, r: Rect, dx: int, dy: int)
    requires RectOnScreen(fb, r) && RectOnScreen(fb, Rect(r.x1 - dx, r.y1 - dy, r.x2 - dx, r.y2 - dy))
    modifies fb
    ensures forall v, u :: 0 <= v < fb.Length0 && 0 <= u < fb.Length1 ==>
              fb[v, u] == if InRect(Pt(u, v), r) then old(fb[v - dy, u - dx]) else old(fb[v, u])
  {
    if dy < 0 {
      var j := r.y1;
      while j < r.y2
        invariant r.y1 <= j <= r.y2
        invariant forall v, u :: 0 <= v < fb.Length0 && 0 <= u < fb.Length1 ==>
                    fb[v, u] == if InRect(Pt(u, v), r) && v < j then old(fb[v - dy, u - dx]) else old(fb[v, u])
      {
        CopyRow(fb, j, r.x1, r.x2, dx, dy);
        j := j + 1;
      }
    } else {
      var j := r.y2 - 1;
      while j >= r.y1
        invariant r.y1 - 1 <= j < r.y2
        invariant forall v, u :: 0 <= v < fb.Length0 && 0 <= u < fb.Length1 ==>
                    fb[v, u] == if InRect(Pt(u, v), r) && j < v then old(fb[v - dy, u - dx]) else old(fb[v, u])
      {
        CopyRow(fb, j, r.x1, r.x2, dx, dy);
        j := j - 1;
      }
    }
  }

  predicate CopyOnScreen(fb: Frame, r: Rect, dx: int, dy: int) {
    RectOnScreen(fb, r) && RectOnScreen(fb, Rect(r.x1 - dx, r.y1 - dy, r.x2 - dx, r.y2 - dy))
  }

  lemma {:induction false} OriginOnScreen(fb: Frame, rs: seq<Rect>, dx: int, dy: int, p: Pt)
    requires OnScreen(fb, p) && forall r :: r in rs ==> CopyOnScreen(fb, r, dx, dy)
    ensures OnScreen(fb, Origin(rs, dx, dy, p))
  {
    if rs != [] {
      var last := rs[|rs| - 1];
      assert CopyOnScreen(fb, last, dx, dy);
      OriginOnScreen(fb, rs[..|rs| - 1], dx, dy, if InRect(p, last) then Moved(p, -dx, -dy) else p);
    }
  }

  /** The rectangles of a region on screen are on screen, and so are their sources. */
  lemma RectsOnScreen(fb: Frame, l: SpanList, revX: bool, revY: bool, dx: int, dy: int)
    requires WF(l, 2) && TwoLevels(l)
    requires forall p :: p in AreaOf(l) ==> OnScreen(fb, p) && OnScreen(fb, Moved(p, -dx, -dy))
    ensures AllOnScreen(fb, Rects(l, revX, revY), dx, dy)
  {
    RectsSafe(l, revX, revY, 0, 0);
    forall r | r in Rects(l, revX, revY)
      ensures CopyOnScreen(fb, r, dx, dy)
    {
      assert Proper(r);
      var a, b := Pt(r.x1, r.y1), Pt(r.x2 - 1, r.y2 - 1);
      assert InRect(a, r) && InRect(b, r);
      RectsCover(l, revX, revY, a);
      RectsCover(l, revX, revY, b);
      assert OnScreen(fb, Moved(a, -dx, -dy)) && OnScreen(fb, Moved(b, -dx, -dy));
    }
  }

  /** A picture: a pixel at every position, zero off screen. */
  type Picture = Pt -> int

  ghost function Shown(fb: Frame): (pic: Picture)
    reads fb
    ensures forall p :: pic(p) == if OnScreen(fb, p) then fb[p.y, p.x] else 0
  {
    var m := imap p: Pt | OnScreen(fb, p) :: fb[p.y, p.x];
    (p: Pt) => if p in m then m[p] else 0
  }

  /** `now` shows what `was` showed at each pixel's origin. */
  ghost predicate ShowsOrigins(now: Picture, was: Picture, rs: seq<Rect>, dx: int, dy: int) {
    forall p :: now(p) == was(Origin(rs, dx, dy, p))
  }

  ghost predicate ShowsCopy(now: Picture, was: Picture, area: iset<Pt>, dx: int, dy: int) {
    forall p :: now(p) == was(if p in area then Moved(p, -dx, -dy) else p)
  }

  lemma OneMoreCopy(was: Picture, mid: Picture, now: Picture, done: seq<Rect>, r: Rect, dx: int, dy: int)
    requires ShowsOrigins(mid, was, done, dx, dy) && ShowsCopy(now, mid, RectArea(r), dx, dy)
    ensures ShowsOrigins(now, was, done + [r], dx, dy)
  {
    assert (done + [r])[..|done|] == done;
  }

  method CopyOne(fb: Frame, r: Rect, dx: int, dy: int)
    requires CopyOnScreen(fb, r, dx, dy)
    modifies fb
    ensures ShowsCopy(Shown(fb), old(Shown(fb)), RectArea(r), dx, dy)
  {
    CopyRect(fb, r, dx, dy);
  }

  lemma HeadAndRest<T>(s: seq<T>, k: nat, left: seq<T>, head: T, rest: seq<T>)
    requires k <= |s| && left == s[k..] && left == [head] + rest
    ensures k < |s| && s[k] == head && s[k + 1..] == rest && s[..k + 1] == s[..k] + [head]
  {
    assert s[k..][0] == head;
    assert s[k + 1..] == s[k..][1..];
  }

  ghost predicate NextOnScreen(fb: Frame, left: seq<Rect>, dx: int, dy: int) {
    left != [] ==> CopyOnScreen(fb, left[0], dx, dy)
  }

  /** One round: the next rectangle, if there is one, is copied. */
  method CopyNext(fb: Frame, i: RectangleIterator, dx: int, dy: int) returns (more: bool, ghost rect: Rect)
    requires i.Valid() && NextOnScreen(fb, i.Left(), dx, dy)
    modifies fb, i
    ensures i.Valid() && (more <==> old(i.Left()) != [])
    ensures more ==> old(i.Left()) == [rect] + i.Left() && ShowsCopy(Shown(fb), old(Shown(fb)), RectArea(rect), dx, dy)
    ensures !more ==> forall p :: Shown(fb)(p) == old(Shown(fb)(p))
  {
    hide ShowsCopy;
    hide RectangleIterator.Left;
    hide RectangleIterator.Valid;
    var r;
    more, r := i.Next();
    rect := r;
    if more {
      CopyOne(fb, r, dx, dy);
    }
  }

  ghost predicate AllOnScreen(fb: Frame, rs: seq<Rect>, dx: int, dy: int) {
    forall r :: r in rs ==> CopyOnScreen(fb, r, dx, dy)
  }

  lemma OnScreenAt(fb: Frame, rs: seq<Rect>, dx: int, dy: int, k: nat, left: seq<Rect>)
    requires AllOnScreen(fb, rs, dx, dy) && k <= |rs| && left == rs[k..]
    ensures NextOnScreen(fb, left, dx, dy)
  {
  }

  /** Copies each rectangle as the iterator produces it. */
  method CopyEach(fb: Frame, i: RectangleIterator, dx: int, dy: int)
    requires i.Valid() && AllOnScreen(fb, i.Left(), dx, dy)
    modifies fb, i
    ensures ShowsOrigins(Shown(fb), old(Shown(fb)), old(i.Left()), dx, dy)
  {
    hide ShowsOrigins;
    hide ShowsCopy;
    hide AllOnScreen;
    hide NextOnScreen;
    hide Shown;
    hide RectangleIterator.Left;
    hide RectangleIterator.Valid;
    ghost var rs, k: nat := i.Left(), 0;
    ghost var was := Shown(fb);
    NothingCopied(was, dx, dy);
    while true
      invariant i.Valid() && k <= |rs| && i.Left() == rs[k..]
      invariant ShowsOrigins(Shown(fb), was, rs[..k], dx, dy)
      decreases |rs| - k
    {
      ghost var mid, left := Shown(fb), i.Left();
      OnScreenAt(fb, rs, dx, dy, k, left);
      var more, rect := CopyNext(fb, i, dx, dy);
      if !more {
        assert |left| == |rs| - k;
        assert rs[..k] == rs;
        SamePicture(was, mid, Shown(fb), rs, dx, dy);
        return;
      }
      HeadAndRest(rs, k, left, rect, i.Left());
      OneMoreCopy(was, mid, Shown(fb), rs[..k], rect, dx, dy);
      k := k + 1;
    }
  }

  /** Walks the region in the given order. */
  method CopyAll(fb: Frame, reg: Region, revX: bool, revY: bool, dx: int, dy: int)
    requires reg.Valid() && forall p :: p in reg.Area() ==> OnScreen(fb, p) && OnScreen(fb, Moved(p, -dx, -dy))
    modifies fb
    ensures ShowsOrigins(Shown(fb), old(Shown(fb)), Rects(reg.list, revX, revY), dx, dy)
  {
    RectsOnScreen(fb, reg.list, revX, revY, dx, dy);
    hide AreaOf;
    hide WF;
    hide Rects;
    hide ShowsOrigins;
    hide RectangleIterator.Left;
    var i := new RectangleIterator(reg, revX, revY);
    CopyEach(fb, i, dx, dy);
  }

  lemma SamePicture(was: Picture, mid: Picture, now: Picture, rs: seq<Rect>, dx: int, dy: int)
    requires ShowsOrigins(mid, was, rs, dx, dy) && forall p :: now(p) == mid(p)
    ensures ShowsOrigins(now, was, rs, dx, dy)
  {
  }

  lemma NothingCopied(was: Picture, dx: int, dy: int)
    ensures ShowsOrigins(was, was, [], dx, dy)
  {
  }

  lemma OriginsShowCopy(now: Picture, was: Picture, rs: seq<Rect>, area: iset<Pt>, dx: int, dy: int)
    requires ShowsOrigins(now, was, rs, dx, dy)
    requires forall p :: Origin(rs, dx, dy, p) == if p in area then Moved(p, -dx, -dy) else p
    ensures ShowsCopy(now, was, area, dx, dy)
  {
  }

  lemma SentOrderShows(now: Picture, was: Picture, l: SpanList, dx: int, dy: int)
    requires WF(l, 2) && TwoLevels(l) && ShowsOrigins(now, was, Rects(l, dx > 0, dy > 0), dx, dy)
    ensures ShowsCopy(now, was, AreaOf(l), dx, dy)
  {
    hide WF;
    hide Rects;
    hide Origin;
    hide AreaOf;
    forall p
      ensures Origin(Rects(l, dx > 0, dy > 0), dx, dy, p) == if p in AreaOf(l) then Moved(p, -dx, -dy) else p
    {
      SentOrderMovesRegion(l, dx, dy, p);
    }
    OriginsShowCopy(now, was, Rects(l, dx > 0, dy > 0), AreaOf(l), dx, dy);
  }

  /**
   * `rfbDoCopyRegion`, up to scheduling: the rectangles one after the other in the server's own
   * order, which moves the region as a whole whenever that order is safe.
   */
  method DoCopyRegion(fb: Frame, reg: Region, dx: int, dy: int)
    requires reg.Valid() && forall p :: p in reg.Area() ==> OnScreen(fb, p) && OnScreen(fb, Moved(p, -dx, -dy))
    modifies fb
    ensures ShowsOrigins(Shown(fb), old(Shown(fb)), Rects(reg.list, dx < 0, dy < 0), dx, dy)
    ensures SafeOrder(Rects(reg.list, dx < 0, dy < 0), dx, dy) ==> ShowsCopy(Shown(fb), old(Shown(fb)), reg.Area(), dx, dy)
  {
    hide ShowsOrigins;
    hide ShowsCopy;
    hide Rects;
    hide WF;
    hide AreaOf;
    hide SafeOrder;
    CopyAll(fb, reg, dx < 0, dy < 0, dx, dy);
    if SafeOrder(Rects(reg.list, dx < 0, dy < 0), dx, dy) {
      ServerOrderMovesIffSafe(reg.list, dx, dy);
      OriginsShowCopy(Shown(fb), old(Shown(fb)), Rects(reg.list, dx < 0, dy < 0), reg.Area(), dx, dy);
    }
  }

  /** `rfbDoCopyRect`, up to scheduling: one rectangle is moved as a whole in that order too. */
  method DoCopyRect(fb: Frame, x1: int, y1: int, x2: int, y2: int, dx: int, dy: int)
    requires x1 < x2 && y1 < y2 && CopyOnScreen(fb, Rect(x1, y1, x2, y2), dx, dy)
    modifies fb
    ensures ShowsCopy(Shown(fb), old(Shown(fb)), RectArea(Rect(x1, y1, x2, y2)), dx, dy)
  {
    hide ShowsOrigins;
    hide ShowsCopy;
    hide Rects;
    hide WF;
    hide SafeOrder;
    var reg := new Region.FromRect(x1, y1, x2, y2);
    hide AreaOf;
    DoCopyRegion(fb, reg, dx, dy);
    OneRectShows(Shown(fb), old(Shown(fb)), Rect(x1, y1, x2, y2), dx < 0, dy < 0, dx, dy);
  }

  lemma OneRectShows(now: Picture, was: Picture, r: Rect, revX: bool, revY: bool, dx: int, dy: int)
    requires Proper(r) && TwoLevels(RectList(r.x1, r.y1, r.x2, r.y2))
    requires ShowsOrigins(now, was, Rects(RectList(r.x1, r.y1, r.x2, r.y2), revX, revY), dx, dy)
    ensures ShowsCopy(now, was, RectArea(r), dx, dy)
  {
    forall p
      ensures Origin([r], dx, dy, p) == if p in RectArea(r) then Moved(p, -dx, -dy) else p
    {
      OneRectOrigin(r.x1, r.y1, r.x2, r.y2, revX, revY, dx, dy, p);
    }
    OneRectOrigin(r.x1, r.y1, r.x2, r.y2, revX, revY, dx, dy, Pt(0, 0));
    OriginsShowCopy(now, was, [r], RectArea(r), dx, dy);
  }
}
