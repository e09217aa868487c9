/** Screen positions, rectangles, and the rectangles of a span list in iteration order. */
module Rectangles {
  import opened SpanLists

  datatype Pt = Pt(x: int, y: int)

  /** Half-open: `x1 <= x < x2` and `y1 <= y < y2`. */
  datatype Rect = Rect(x1: int, y1: int, x2: int, y2: int)

  predicate InRect(p: Pt, r: Rect) {
    r.x1 <= p.x < r.x2 && r.y1 <= p.y < r.y2
  }

  function Moved(p: Pt, dx: int, dy: int): Pt {
    Pt(p.x + dx, p.y + dy)
  }

  ghost predicate InSomeRect(p: Pt, rs: seq<Rect>) {
    exists r :: r in rs && InRect(p, r)
  }

  ghost predicate Covers(l: SpanList, p: Pt) {
    Has(l, [p.y, p.x])
  }

  /** The positions of a region. */
  ghost function AreaOf(l: SpanList): iset<Pt> {
    iset p: Pt | Covers(l, p)
  }

  // ---------------------------------------------------------------- iteration order

  /** The neighbour in the given direction, as the iterator's pointers walk. */
  function Next(i: int, rev: bool): int {
    if rev then i - 1 else i + 1
  }

  /** The sentinel a walk over `n` spans starts from, and the one it stops at. */
  function Start(n: nat, rev: bool): int {
    if rev then n else -1
  }

  function End(n: nat, rev: bool): int {
    if rev then -1 else n
  }

  predicate OnWalk(i: int, n: nat) {
    -1 <= i <= n
  }

  function StepsLeft(i: int, n: nat, rev: bool): int {
    if rev then i else n - i
  }

  /** The rectangles of one band behind span `i`. */
  function BandRects(band: Span, spans: seq<Span>, i: int, rev: bool): seq<Rect>
    requires OnWalk(i, |spans|) && i != End(|spans|, rev)
    decreases StepsLeft(i, |spans|, rev)
  {
    var k := Next(i, rev);
    if k == End(|spans|, rev) then []
    else [Rect(spans[k].start, band.start, spans[k].end, band.end)] + BandRects(band, spans, k, rev)
  }

  /** The rectangles of all bands behind band `i`. */
  function RectsBehind(bands: seq<Span>, i: int, revX: bool, revY: bool): seq<Rect>
    requires OnWalk(i, |bands|) && i != End(|bands|, revY)
    requires forall b :: b in bands ==> b.sub.List?
    decreases StepsLeft(i, |bands|, revY)
  {
    var k := Next(i, revY);
    if k == End(|bands|, revY) then []
    else
      var sub := bands[k].sub.spans;
      BandRects(bands[k], sub, Start(|sub|, revX), revX) + RectsBehind(bands, k, revX, revY)
  }

  predicate TwoLevels(l: SpanList) {
    l.List? && forall b :: b in l.spans ==> b.sub.List?
  }

  function Rects(l: SpanList, revX: bool, revY: bool): seq<Rect>
    requires TwoLevels(l)
  {
    RectsBehind(l.spans, Start(|l.spans|, revY), revX, revY)
  }

  lemma RegionHasTwoLevels(l: SpanList)
    requires WF(l, 2)
    ensures TwoLevels(l)
    ensures forall b :: b in l.spans ==> b.start < b.end && WF(b.sub, 1) && b.sub.spans != []
  {
    assert forall b :: b in l.spans ==> WFSpan(b, 2);
  }

  // ---------------------------------------------------------------- the rectangles cover the region

  /** The spans a walk at `i` has still ahead. */
  function Ahead(spans: seq<Span>, i: int, rev: bool): seq<Span>
    requires OnWalk(i, |spans|) && i != End(|spans|, rev)
  {
    if rev then spans[..i] else spans[i + 1..]
  }

  lemma AheadSteps(spans: seq<Span>, i: int, rev: bool, p: Point)
    requires OnWalk(i, |spans|) && i != End(|spans|, rev)
    ensures var k := Next(i, rev);
            InSome(Ahead(spans, i, rev), p) ==
            (k != End(|spans|, rev) && (InSpan(spans[k], p) || InSome(Ahead(spans, k, rev), p)))
  {
    var k := Next(i, rev);
    if k != End(|spans|, rev) {
      var rest := Ahead(spans, k, rev);
      assert Ahead(spans, i, rev) == if rev then rest + [spans[k]] else [spans[k]] + rest;
      assert forall s :: s in Ahead(spans, i, rev) <==> s == spans[k] || s in rest;
    }
  }

  lemma InSomeRectSplit(p: Pt, a: seq<Rect>, b: seq<Rect>)
    ensures InSomeRect(p, a + b) <==> InSomeRect(p, a) || InSomeRect(p, b)
  {
  }

  lemma {:induction false} BandRectsCover(band: Span, spans: seq<Span>, i: int, rev: bool, p: Pt)
    requires OnWalk(i, |spans|) && i != End(|spans|, rev) && forall s :: s in spans ==> s.sub.Null?
    ensures InSomeRect(p, BandRects(band, spans, i, rev))
        <==> band.start <= p.y < band.end && InSome(Ahead(spans, i, rev), [p.x])
    decreases StepsLeft(i, |spans|, rev)
  {
    AheadSteps(spans, i, rev, [p.x]);
    var k := Next(i, rev);
    if k != End(|spans|, rev) {
      var r := Rect(spans[k].start, band.start, spans[k].end, band.end);
      BandRectsCover(band, spans, k, rev, p);
      InSomeRectSplit(p, [r], BandRects(band, spans, k, rev));
      assert InSomeRect(p, [r]) <==> InRect(p, r) by {
        assert r in [r];
      }
    }
  }

  lemma {:induction false} RectsBehindCover(bands: seq<Span>, i: int, revX: bool, revY: bool, p: Pt)
    requires OnWalk(i, |bands|) && i != End(|bands|, revY) && WFSpans(bands, 2)
    requires forall b :: b in bands ==> b.sub.List?
    ensures InSomeRect(p, RectsBehind(bands, i, revX, revY)) <==> InSome(Ahead(bands, i, revY), [p.y, p.x])
    decreases StepsLeft(i, |bands|, revY)
  {
    AheadSteps(bands, i, revY, [p.y, p.x]);
    var k := Next(i, revY);
    if k != End(|bands|, revY) {
      var sub := bands[k].sub.spans;
      assert WFSpan(bands[k], 2);
      assert forall s :: s in sub ==> WFSpan(s, 1);
      BandRectsCover(bands[k], sub, Start(|sub|, revX), revX, p);
      assert Ahead(sub, Start(|sub|, revX), revX) == sub;
      assert [p.y, p.x][1..] == [p.x];
      RectsBehindCover(bands, k, revX, revY, p);
      InSomeRectSplit(p, BandRects(bands[k], sub, Start(|sub|, revX), revX), RectsBehind(bands, k, revX, revY));
    }
  }

  /** In every order, the rectangles make up exactly the region. */
  lemma RectsCover(l: SpanList, revX: bool, revY: bool, p: Pt)
    requires WF(l, 2) && TwoLevels(l)
    ensures InSomeRect(p, Rects(l, revX, revY)) <==> p in AreaOf(l)
  {
    hide WF;
    hide WFSpans;
    hide RectsBehind;
    hide InSome;
    hide InSomeRect;
    CoveredBySpans(l, p);
    RectsBehindCover(l.spans, Start(|l.spans|, revY), revX, revY, p);
    assert Ahead(l.spans, Start(|l.spans|, revY), revY) == l.spans;
  }

  lemma CoveredBySpans(l: SpanList, p: Pt)
    requires WF(l, 2) && l.List?
    ensures WFSpans(l.spans, 2) && (p in AreaOf(l) <==> InSome(l.spans, [p.y, p.x]))
  {
  }

  // ---------------------------------------------------------------- the order of copies

  predicate Proper(r: Rect) {
    r.x1 < r.x2 && r.y1 < r.y2
  }

  /** Writing `first` leaves what a copy by `(dx, dy)` into `later` reads. */
  predicate Spares(first: Rect, later: Rect, dx: int, dy: int) {
    first.x2 <= later.x1 - dx || later.x2 - dx <= first.x1 || first.y2 <= later.y1 - dy || later.y2 - dy <= first.y1
  }

  /** No rectangle overwrites the source of one that is copied after it. */
  ghost predicate SafeOrder(rs: seq<Rect>, dx: int, dy: int) {
    forall i, j :: 0 <= i < j < |rs| ==> Spares(rs[i], rs[j], dx, dy)
  }

  /** The directions that suit a displacement; a zero displacement suits both. */
  predicate Suits(rev: bool, delta: int) {
    if rev then delta >= 0 else delta <= 0
  }

  lemma SafeConcat(a: seq<Rect>, b: seq<Rect>, dx: int, dy: int)
    requires SafeOrder(a, dx, dy) && SafeOrder(b, dx, dy)
    requires forall r, s :: r in a && s in b ==> Spares(r, s, dx, dy)
    ensures SafeOrder(a + b, dx, dy)
  {
    var all := a + b;
    forall i, j | 0 <= i < j < |all|
      ensures Spares(all[i], all[j], dx, dy)
    {
      if i < |a| <= j {
        assert all[i] in a && all[j] in b;
      }
    }
  }

  lemma {:induction false} BandRectsSafe(band: Span, spans: seq<Span>, i: int, rev: bool, dx: int, dy: int)
    requires OnWalk(i, |spans|) && i != End(|spans|, rev) && WFSpans(spans, 1) && band.start < band.end
    requires Suits(rev, dx)
    ensures var rs := BandRects(band, spans, i, rev);
            SafeOrder(rs, dx, dy) &&
            forall r :: r in rs ==> Proper(r) && r.y1 == band.start && r.y2 == band.end &&
                                    (0 <= i < |spans| ==> if rev then r.x2 <= spans[i].start else spans[i].end <= r.x1)
    decreases StepsLeft(i, |spans|, rev)
  {
    var k := Next(i, rev);
    if k != End(|spans|, rev) {
      var r := Rect(spans[k].start, band.start, spans[k].end, band.end);
      assert WFSpan(spans[k], 1);
      BandRectsSafe(band, spans, k, rev, dx, dy);
      SafeConcat([r], BandRects(band, spans, k, rev), dx, dy);
    }
  }

  lemma {:induction false} RectsBehindSafe(bands: seq<Span>, i: int, revX: bool, revY: bool, dx: int, dy: int)
    requires OnWalk(i, |bands|) && i != End(|bands|, revY) && WFSpans(bands, 2)
    requires forall b :: b in bands ==> b.sub.List?
    requires Suits(revX, dx) && Suits(revY, dy)
    ensures var rs := RectsBehind(bands, i, revX, revY);
            SafeOrder(rs, dx, dy) &&
            forall r :: r in rs ==> Proper(r) &&
                                    (0 <= i < |bands| ==> if revY then r.y2 <= bands[i].start else bands[i].end <= r.y1)
    decreases StepsLeft(i, |bands|, revY)
  {
    var k := Next(i, revY);
    if k != End(|bands|, revY) {
      var sub := bands[k].sub.spans;
      assert WFSpan(bands[k], 2);
      BandRectsSafe(bands[k], sub, Start(|sub|, revX), revX, dx, dy);
      RectsBehindSafe(bands, k, revX, revY, dx, dy);
      SafeConcat(BandRects(bands[k], sub, Start(|sub|, revX), revX), RectsBehind(bands, k, revX, revY), dx, dy);
    }
  }

  /** Walking against the displacement in both directions never spoils a later source. */
  lemma RectsSafe(l: SpanList, revX: bool, revY: bool, dx: int, dy: int)
    requires WF(l, 2) && TwoLevels(l) && Suits(revX, dx) && Suits(revY, dy)
    ensures SafeOrder(Rects(l, revX, revY), dx, dy)
    ensures forall r :: r in Rects(l, revX, revY) ==> Proper(r)
  {
    RectsBehindSafe(l.spans, Start(|l.spans|, revY), revX, revY, dx, dy);
  }

  /** In every order, no two rectangles overlap. */
  lemma RectsDisjoint(l: SpanList, revX: bool, revY: bool)
    requires WF(l, 2) && TwoLevels(l)
    ensures SafeOrder(Rects(l, revX, revY), 0, 0)
  {
    RectsSafe(l, revX, revY, 0, 0);
  }
}
