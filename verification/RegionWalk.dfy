/** Walking a region: the rectangle iterator, the rectangle count and the bounding box. */
module RegionWalk {
  import opened SpanLists
  import opened Rectangles
  import opened Regions

  lemma SpanStep(band: Span, spans: seq<Span>, i: int, rev: bool, behind: seq<Rect>)
    requires OnWalk(i, |spans|) && i != End(|spans|, rev) && Rectangles.Next(i, rev) != End(|spans|, rev)
    ensures var k := Rectangles.Next(i, rev);
            BandRects(band, spans, i, rev) + behind
              == [Rect(spans[k].start, band.start, spans[k].end, band.end)] + (BandRects(band, spans, k, rev) + behind)
  {
  }

  lemma BandStep(bands: seq<Span>, i: int, revX: bool, revY: bool)
    requires OnWalk(i, |bands|) && i != End(|bands|, revY) && Rectangles.Next(i, revY) != End(|bands|, revY)
    requires forall b :: b in bands ==> b.sub.List?
    ensures var k := Rectangles.Next(i, revY);
            var sub := bands[k].sub.spans;
            RectsBehind(bands, i, revX, revY)
              == BandRects(bands[k], sub, Start(|sub|, revX), revX) + RectsBehind(bands, k, revX, revY)
  {
  }

  /** `sraRectangleIterator`: the pointer pairs of the two levels as positions in their lists. */
  class RectangleIterator {
    const bands: seq<Span>
    const reverseX: bool
    const reverseY: bool
    var v: int
    var h: int
    var ptrPos: int

    ghost predicate Valid()
      reads this
    {
      (forall b :: b in bands ==> b.sub.List? && b.sub.spans != []) &&
      -2 <= ptrPos <= 2 && ptrPos % 2 == 0 &&
      OnWalk(v, |bands|) && v != End(|bands|, reverseY) &&
      (ptrPos == 2 ==> 0 <= v < |bands| && 0 <= h < |bands[v].sub.spans|)
    }

    /** The rectangles still to come. */
    ghost function Left(): seq<Rect>
      requires Valid()
      reads this
    {
      if ptrPos < 0 then []
      else if ptrPos == 0 then RectsBehind(bands, v, reverseX, reverseY)
      else BandRects(bands[v], bands[v].sub.spans, h, reverseX) + RectsBehind(bands, v, reverseX, reverseY)
    }

    /** `sraRgnGetReverseIterator`; both flags off is `sraRgnGetIterator`. */
    constructor (s: Region, reverseX: bool, reverseY: bool)
      requires s.Valid()
      ensures Valid() && Left() == Rects(s.list, reverseX, reverseY)
    {
      RegionHasTwoLevels(s.list);
      this.bands := s.list.spans;
      this.reverseX := reverseX;
      this.reverseY := reverseY;
      v := Start(|s.list.spans|, reverseY);
      h := 0;
      ptrPos := 0;
    }

    /** Is the span the walk at the current level would go to next its end? */
    predicate LevelFinished()
      requires Valid() && ptrPos >= 0
      reads this
    {
      if ptrPos == 2 then Rectangles.Next(h, reverseX) == End(|bands[v].sub.spans|, reverseX)
      else Rectangles.Next(v, reverseY) == End(|bands|, reverseY)
    }

    /** The first loop of `sraRgnIteratorNext`: leaves the levels that have come to their end. */
    method LeaveFinished()
      requires Valid()
      modifies `ptrPos
      ensures Valid() && Left() == old(Left())
      ensures ptrPos < 0 || !LevelFinished()
    {
      while ptrPos >= 0 && LevelFinished()
        invariant Valid() && Left() == old(Left())
        decreases ptrPos + 2
      {
        ptrPos := ptrPos - 2;
      }
    }

    /** The rest of `sraRgnIteratorNext`: one step on, and down to the first span of a new band. */
    method Enter() returns (r: Rect)
      requires Valid() && ptrPos >= 0 && !LevelFinished()
      modifies this
      ensures Valid() && old(Left()) == [r] + Left()
    {
      if ptrPos == 2 {
        SpanStep(bands[v], bands[v].sub.spans, h, reverseX, RectsBehind(bands, v, reverseX, reverseY));
        hide BandRects;
        hide RectsBehind;
        h := Rectangles.Next(h, reverseX);
      } else {
        BandStep(bands, v, reverseX, reverseY);
        v := Rectangles.Next(v, reverseY);
        ptrPos := 2;
        ghost var sub := bands[v].sub.spans;
        SpanStep(bands[v], sub, Start(|sub|, reverseX), reverseX, RectsBehind(bands, v, reverseX, reverseY));
        hide BandRects;
        hide RectsBehind;
        h := Rectangles.Next(Start(|bands[v].sub.spans|, reverseX), reverseX);
      }
      hide BandRects;
      hide RectsBehind;
      var span := bands[v].sub.spans[h];
      r := Rect(span.start, bands[v].start, span.end, bands[v].end);
    }

    /** `sraRgnIteratorNext` */
    method Next() returns (more: bool, r: Rect)
      requires Valid()
      modifies this
      ensures Valid() && (more <==> old(Left()) != [])
      ensures more ==> old(Left()) == [r] + Left()
      ensures !more ==> Left() == []
    {
      r := Rect(0, 0, 0, 0);
      LeaveFinished();
      more := ptrPos >= 0;
      if more {
        r := Enter();
      }
    }
  }

  // ---------------------------------------------------------------- counting

  lemma {:induction false} BandRectsCount(band: Span, spans: seq<Span>, i: int, rev: bool)
    requires OnWalk(i, |spans|) && i != End(|spans|, rev)
    ensures |BandRects(band, spans, i, rev)| == |Ahead(spans, i, rev)|
    decreases StepsLeft(i, |spans|, rev)
  {
    var k := Rectangles.Next(i, rev);
    if k != End(|spans|, rev) {
      BandRectsCount(band, spans, k, rev);
    }
  }

  ghost function Count(bands: seq<Span>): nat
    requires forall b :: b in bands ==> b.sub.List?
  {
    if bands == [] then 0 else Count(bands[..|bands| - 1]) + |bands[|bands| - 1].sub.spans|
  }

  lemma {:induction false} CountConcat(a: seq<Span>, b: seq<Span>)
    requires forall s :: s in a + b ==> s.sub.List?
    ensures Count(a + b) == Count(a) + Count(b)
    decreases |b|
  {
    if b == [] {
      assert a + b == a;
    } else {
      assert (a + b)[..|a + b| - 1] == a + b[..|b| - 1];
      CountConcat(a, b[..|b| - 1]);
    }
  }

  lemma CountAhead(bands: seq<Span>, i: int, rev: bool)
    requires OnWalk(i, |bands|) && i != End(|bands|, rev) && Rectangles.Next(i, rev) != End(|bands|, rev)
    requires forall b :: b in bands ==> b.sub.List?
    ensures var k := Rectangles.Next(i, rev);
            Count(Ahead(bands, i, rev)) == |bands[k].sub.spans| + Count(Ahead(bands, k, rev))
  {
    var k := Rectangles.Next(i, rev);
    var rest := Ahead(bands, k, rev);
    assert Ahead(bands, i, rev) == if rev then rest + [bands[k]] else [bands[k]] + rest;
    assert Count([bands[k]]) == |bands[k].sub.spans|;
    if rev {
      CountConcat(rest, [bands[k]]);
    } else {
      CountConcat([bands[k]], rest);
    }
  }

  lemma {:induction false} RectsBehindCount(bands: seq<Span>, i: int, revX: bool, revY: bool)
    requires OnWalk(i, |bands|) && i != End(|bands|, revY)
    requires forall b :: b in bands ==> b.sub.List?
    ensures |RectsBehind(bands, i, revX, revY)| == Count(Ahead(bands, i, revY))
    decreases StepsLeft(i, |bands|, revY)
  {
    var k := Rectangles.Next(i, revY);
    if k != End(|bands|, revY) {
      var sub := bands[k].sub.spans;
      BandRectsCount(bands[k], sub, Start(|sub|, revX), revX);
      RectsBehindCount(bands, k, revX, revY);
      CountAhead(bands, i, revY);
    }
  }

  /** `sraRgnCountRects`: as many as either iterator will produce. */
  method CountRects(rgn: Region) returns (count: nat)
    requires rgn.Valid()
    ensures forall revX, revY :: |Rects(rgn.list, revX, revY)| == count
  {
    count := 0;
    var bands := rgn.list.spans;
    for v := 0 to |bands|
      invariant count == Count(bands[..v])
    {
      assert bands[..v + 1][..v] == bands[..v];
      count := count + |bands[v].sub.spans|;
    }
    forall revX, revY
      ensures |Rects(rgn.list, revX, revY)| == count
    {
      RectsBehindCount(bands, Start(|bands|, revY), revX, revY);
      assert Ahead(bands, Start(|bands|, revY), revY) == bands == bands[..|bands|];
    }
  }

  // ---------------------------------------------------------------- bounding box

  /** The search starts from the ends of the `int` range; two values are beyond its reach. */
  ghost predicate InIntRange(l: SpanList)
    requires TwoLevels(l)
  {
    forall b :: b in l.spans ==> SpanInIntRange(b) && forall s :: s in b.sub.spans ==> SpanInIntRange(s)
  }

  ghost predicate SpanInIntRange(s: Span) {
    s.start <= INT_MAX && 1 - INT_MAX <= s.end
  }

  /** `r` is the least rectangle around `area`. */
  ghost predicate IsBox(r: Rect, area: iset<Pt>) {
    area <= RectArea(r) &&
    forall q: Rect :: area <= RectArea(q) ==> q.x1 <= r.x1 && q.y1 <= r.y1 && r.x2 <= q.x2 && r.y2 <= q.y2
  }

  ghost predicate Within(bands: seq<Span>, x1: int, y1: int, x2: int, y2: int)
    requires forall b :: b in bands ==> b.sub.List?
  {
    forall b :: b in bands ==> y1 <= b.start && b.end <= y2 && SpansWithin(b.sub.spans, x1, x2)
  }

  ghost predicate SpansWithin(ss: seq<Span>, x1: int, x2: int) {
    forall s :: s in ss ==> x1 <= s.start && s.end <= x2
  }

  lemma CornerCovered(l: SpanList, b: Span, s: Span, p: Pt)
    requires TwoLevels(l) && b in l.spans && s in b.sub.spans && s.sub.Null?
    requires b.start <= p.y < b.end && s.start <= p.x < s.end
    ensures p in AreaOf(l)
  {
    assert [p.y, p.x][1..] == [p.x] && InSpan(s, [p.x]);
    assert InSome(b.sub.spans, [p.x]) && InSpan(b, [p.y, p.x]);
    assert InSome(l.spans, [p.y, p.x]) && Covers(l, p);
  }

  lemma AllWithin(l: SpanList, x1: int, y1: int, x2: int, y2: int)
    requires TwoLevels(l) && Within(l.spans, x1, y1, x2, y2)
    ensures AreaOf(l) <= RectArea(Rect(x1, y1, x2, y2))
  {
    forall p: Pt | p in AreaOf(l)
      ensures InRect(p, Rect(x1, y1, x2, y2))
    {
      assert [p.y, p.x][1..] == [p.x];
      assert InSome(l.spans, [p.y, p.x]);
      var b :| b in l.spans && InSpan(b, [p.y, p.x]);
      assert Has(b.sub, [p.x]) && InSome(b.sub.spans, [p.x]);
      var s :| s in b.sub.spans && InSpan(s, [p.x]);
    }
  }

  ghost predicate HasX(area: iset<Pt>, x: int) {
    exists p :: p in area && p.x == x
  }

  ghost predicate HasY(area: iset<Pt>, y: int) {
    exists p :: p in area && p.y == y
  }

  /** Every side is touched by the area. */
  ghost predicate Tight(area: iset<Pt>, r: Rect) {
    HasX(area, r.x1) && HasX(area, r.x2 - 1) && HasY(area, r.y1) && HasY(area, r.y2 - 1)
  }

  lemma TightIsBox(area: iset<Pt>, r: Rect)
    requires area <= RectArea(r) && Tight(area, r)
    ensures IsBox(r, area) && Proper(r)
  {
    var left :| left in area && left.x == r.x1;
    var right :| right in area && right.x == r.x2 - 1;
    var top :| top in area && top.y == r.y1;
    var bottom :| bottom in area && bottom.y == r.y2 - 1;
    forall q: Rect | area <= RectArea(q)
      ensures q.x1 <= r.x1 && q.y1 <= r.y1 && r.x2 <= q.x2 && r.y2 <= q.y2
    {
      assert left in RectArea(q) && top in RectArea(q) && right in RectArea(q) && bottom in RectArea(q);
    }
    assert left in RectArea(r) && top in RectArea(r);
  }

  /** The inner loop of the search: the horizontal extent of one band. */
  method Widen(sub: seq<Span>, x1: int, x2: int, ghost area: iset<Pt>) returns (xmin: int, xmax: int)
    requires sub != [] && forall s :: s in sub ==> SpanInIntRange(s) && HasX(area, s.start) && HasX(area, s.end - 1)
    requires HasX(area, x1) || x1 == INT_MAX
    requires HasX(area, x2 - 1) || x2 == 1 - INT_MAX
    ensures xmin <= x1 && x2 <= xmax && SpansWithin(sub, xmin, xmax)
    ensures HasX(area, xmin) && HasX(area, xmax - 1)
  {
    xmin, xmax := x1, x2;
    for h := 0 to |sub|
      invariant xmin <= x1 && x2 <= xmax && SpansWithin(sub[..h], xmin, xmax)
      invariant HasX(area, xmin) || (h == 0 && xmin == INT_MAX)
      invariant HasX(area, xmax - 1) || (h == 0 && xmax == 1 - INT_MAX)
    {
      assert sub[h] in sub;
      if sub[h].start < xmin {
        xmin := sub[h].start;
      }
      if sub[h].end > xmax {
        xmax := sub[h].end;
      }
      assert sub[..h + 1] == sub[..h] + [sub[h]];
    }
    assert sub[..|sub|] == sub;
  }

  /** Every span of a band reaches both its ends and both ends of the band. */
  lemma BandTouches(l: SpanList, b: Span)
    requires WF(l, 2) && TwoLevels(l) && b in l.spans
    ensures HasY(AreaOf(l), b.start) && HasY(AreaOf(l), b.end - 1) && b.sub.spans != []
    ensures forall s :: s in b.sub.spans ==> HasX(AreaOf(l), s.start) && HasX(AreaOf(l), s.end - 1)
  {
    assert WFSpan(b, 2);
    forall s | s in b.sub.spans
      ensures HasX(AreaOf(l), s.start) && HasX(AreaOf(l), s.end - 1)
      ensures HasY(AreaOf(l), b.start) && HasY(AreaOf(l), b.end - 1)
    {
      assert WFSpan(s, 1);
      CornerCovered(l, b, s, Pt(s.start, b.start));
      CornerCovered(l, b, s, Pt(s.end - 1, b.end - 1));
    }
    assert b.sub.spans[0] in b.sub.spans;
  }

  /** How far the search has come: the first `v` bands. */
  ghost predicate Searched(bands: seq<Span>, v: nat, xmin: int, ymin: int, xmax: int, ymax: int, area: iset<Pt>)
    requires forall b :: b in bands ==> b.sub.List?
  {
    v <= |bands| && Within(bands[..v], xmin, ymin, xmax, ymax) &&
    (v == 0 ==> xmin == ymin == INT_MAX && xmax == ymax == 1 - INT_MAX) &&
    (v > 0 ==> Tight(area, Rect(xmin, ymin, xmax, ymax)))
  }

  lemma SearchNext(bands: seq<Span>, v: nat, x1: int, y1: int, x2: int, y2: int, xmin: int, ymin: int, xmax: int, ymax: int, area: iset<Pt>)
    requires forall b :: b in bands ==> b.sub.List?
    requires Searched(bands, v, x1, y1, x2, y2, area) && v < |bands| && SpanInIntRange(bands[v])
    requires xmin <= x1 && x2 <= xmax && SpansWithin(bands[v].sub.spans, xmin, xmax) && HasX(area, xmin) && HasX(area, xmax - 1)
    requires HasY(area, bands[v].start) && HasY(area, bands[v].end - 1)
    requires ymin == if bands[v].start < y1 then bands[v].start else y1
    requires ymax == if bands[v].end > y2 then bands[v].end else y2
    ensures Searched(bands, v + 1, xmin, ymin, xmax, ymax, area)
  {
    assert bands[..v + 1] == bands[..v] + [bands[v]];
  }

  lemma SearchEnds(l: SpanList, xmin: int, ymin: int, xmax: int, ymax: int)
    requires WF(l, 2) && TwoLevels(l) && Searched(l.spans, |l.spans|, xmin, ymin, xmax, ymax, AreaOf(l))
    ensures AreaOf(l) == iset{} ==> xmax < xmin
    ensures AreaOf(l) != iset{} ==> IsBox(Rect(xmin, ymin, xmax, ymax), AreaOf(l)) && Proper(Rect(xmin, ymin, xmax, ymax))
  {
    EmptyIffNoArea(l);
    hide WF;
    assert l.spans[..|l.spans|] == l.spans;
    if l.spans != [] {
      AllWithin(l, xmin, ymin, xmax, ymax);
      TightIsBox(AreaOf(l), Rect(xmin, ymin, xmax, ymax));
    }
  }

  /** The search of `sraRgnBBox`. */
  method Extent(src: Region) returns (xmin: int, ymin: int, xmax: int, ymax: int)
    requires src.Valid() && InIntRange(src.list)
    ensures src.Area() == iset{} ==> xmax < xmin
    ensures src.Area() != iset{} ==> IsBox(Rect(xmin, ymin, xmax, ymax), src.Area()) && Proper(Rect(xmin, ymin, xmax, ymax))
  {
    hide WF;
    hide AreaOf;
    hide Searched;
    hide SpansWithin;
    hide HasX;
    hide HasY;
    hide IsBox;
    xmin, ymin, xmax, ymax := INT_MAX, INT_MAX, 1 - INT_MAX, 1 - INT_MAX;
    var bands := src.list.spans;
    ghost var area := src.Area();
    SearchStarts(bands, area);
    for v := 0 to |bands|
      invariant Searched(bands, v, xmin, ymin, xmax, ymax, area)
    {
      var band := bands[v];
      assert band in bands;
      BandTouches(src.list, band);
      ghost var was := Rect(xmin, ymin, xmax, ymax);
      SidesTouched(bands, v, xmin, ymin, xmax, ymax, area);
      if band.start < ymin {
        ymin := band.start;
      }
      if band.end > ymax {
        ymax := band.end;
      }
      xmin, xmax := Widen(band.sub.spans, xmin, xmax, area);
      SearchNext(bands, v, was.x1, was.y1, was.x2, was.y2, xmin, ymin, xmax, ymax, area);
    }
    SearchEnds(src.list, xmin, ymin, xmax, ymax);
  }

  lemma SearchStarts(bands: seq<Span>, area: iset<Pt>)
    requires forall b :: b in bands ==> b.sub.List?
    ensures Searched(bands, 0, INT_MAX, INT_MAX, 1 - INT_MAX, 1 - INT_MAX, area)
  {
  }

  lemma SidesTouched(bands: seq<Span>, v: nat, xmin: int, ymin: int, xmax: int, ymax: int, area: iset<Pt>)
    requires forall b :: b in bands ==> b.sub.List?
    requires Searched(bands, v, xmin, ymin, xmax, ymax, area)
    ensures HasX(area, xmin) || xmin == INT_MAX
    ensures HasX(area, xmax - 1) || xmax == 1 - INT_MAX
  {
  }

  /** `sraRgnBBox` */
  method BBox(src: Region) returns (box: Region)
    requires src.Valid() && InIntRange(src.list)
    ensures fresh(box) && box.Valid()
    ensures src.Area() == iset{} ==> box.Area() == iset{}
    ensures src.Area() != iset{} ==>
              exists r: Rect :: Proper(r) && IsBox(r, src.Area()) && box.Area() == RectArea(r) && box.list == RectList(r.x1, r.y1, r.x2, r.y2)
  {
    hide WF;
    hide AreaOf;
    hide IsBox;
    var xmin, ymin, xmax, ymax := Extent(src);
    if xmax < xmin || ymax < ymin {
      box := new Region();
    } else {
      box := new Region.FromRect(xmin, ymin, xmax, ymax);
      assert box.Area() == RectArea(Rect(xmin, ymin, xmax, ymax));
    }
  }
}
