/** `sraRegion`: the region object, its operations and its rectangle iterator. */
module Regions {
  import opened SpanLists
  import opened SpanOr
  import opened SpanAndSubtract
  import opened Rectangles

  const INT_MAX := 0x7fff_ffff

  ghost function Shifted(area: iset<Pt>, dx: int, dy: int): iset<Pt> {
    iset p: Pt | Pt(p.x - dx, p.y - dy) in area
  }

  ghost function RectArea(r: Rect): iset<Pt> {
    iset p: Pt | InRect(p, r)
  }

  lemma SameOperation(a: SpanList, b: SpanList, c: SpanList)
    ensures Points(c) == Points(a) + Points(b) ==> AreaOf(c) == AreaOf(a) + AreaOf(b)
    ensures Points(c) == Points(a) * Points(b) ==> AreaOf(c) == AreaOf(a) * AreaOf(b)
    ensures Points(c) == Points(a) - Points(b) ==> AreaOf(c) == AreaOf(a) - AreaOf(b)
  {
    assert forall l: SpanList, p: Pt :: p in AreaOf(l) <==> [p.y, p.x] in Points(l);
  }

  lemma {:induction false} EmptyIffNoArea(l: SpanList)
    requires WF(l, 2)
    ensures Empty(l) <==> AreaOf(l) == iset{}
  {
    if !Empty(l) {
      var b := l.spans[0];
      assert WFSpan(b, 2);
      var s := b.sub.spans[0];
      assert WFSpan(s, 1);
      assert s in b.sub.spans && InSpan(s, [s.start]);
      assert [b.start, s.start][1..] == [s.start] && Has(b.sub, [s.start]);
      assert b in l.spans && InSpan(b, [b.start, s.start]);
      assert InSome(l.spans, [b.start, s.start]);
      assert Covers(l, Pt(s.start, b.start));
      assert Pt(s.start, b.start) in AreaOf(l);
    } else {
      assert forall p :: !Has(l, p);
    }
  }

  function RectList(x1: int, y1: int, x2: int, y2: int): SpanList {
    List([Span(y1, y2, List([Span(x1, x2, Null)]))])
  }

  lemma RectListArea(x1: int, y1: int, x2: int, y2: int)
    requires x1 < x2 && y1 < y2
    ensures WF(RectList(x1, y1, x2, y2), 2)
    ensures AreaOf(RectList(x1, y1, x2, y2)) == RectArea(Rect(x1, y1, x2, y2))
  {
    var h := Span(x1, x2, Null);
    var v := Span(y1, y2, List([h]));
    forall p: Pt
      ensures Covers(RectList(x1, y1, x2, y2), p) <==> InRect(p, Rect(x1, y1, x2, y2))
    {
      assert [p.y, p.x][1..] == [p.x];
      assert h in [h] && v in [v];
      assert InSome([h], [p.x]) <==> InSpan(h, [p.x]);
      assert InSome([v], [p.y, p.x]) <==> InSpan(v, [p.y, p.x]);
      assert Has(v.sub, [p.x]) <==> InSome([h], [p.x]);
      assert InSpan(h, [p.x]) <==> x1 <= p.x < x2;
      assert Covers(List([v]), p) <==> InSome([v], [p.y, p.x]);
    }
  }

  // ---------------------------------------------------------------- displacement

  function MovedSpan(s: Span, d: int): Span {
    s.(start := s.start + d, end := s.end + d)
  }

  function MovedSpans(ss: seq<Span>, d: int): seq<Span> {
    seq(|ss|, i requires 0 <= i < |ss| => MovedSpan(ss[i], d))
  }

  function MovedList(l: SpanList, dx: int, dy: int): SpanList
    requires TwoLevels(l)
  {
    List(seq(|l.spans|, i requires 0 <= i < |l.spans| =>
      MovedSpan(l.spans[i], dy).(sub := List(MovedSpans(l.spans[i].sub.spans, dx)))))
  }

  lemma MovedSpansKeep(ss: seq<Span>, d: int)
    requires WFSpans(ss, 1)
    ensures WFSpans(MovedSpans(ss, d), 1)
  {
    var ms := MovedSpans(ss, d);
    assert forall i :: 0 <= i < |ss| ==> ss[i] in ss && ms[i] in ms && WFSpan(ss[i], 1);
  }

  lemma MovedSpansPoints(ss: seq<Span>, d: int, x: int)
    requires WFSpans(ss, 1)
    ensures WFSpans(MovedSpans(ss, d), 1)
    ensures InSome(MovedSpans(ss, d), [x]) <==> InSome(ss, [x - d])
  {
    hide WFSpan;
    hide Has;
    MovedSpansKeep(ss, d);
    var ms := MovedSpans(ss, d);
    forall i | 0 <= i < |ss|
      ensures ss[i] in ss && ms[i] in ms && (InSpan(ms[i], [x]) <==> InSpan(ss[i], [x - d]))
    {
      assert [x][1..] == [] == [x - d][1..];
    }
  }

  lemma MovedKeeps(l: SpanList, dx: int, dy: int)
    requires WF(l, 2) && TwoLevels(l)
    ensures WF(MovedList(l, dx, dy), 2)
  {
    var bs, ms := l.spans, MovedList(l, dx, dy).spans;
    forall i | 0 <= i < |bs|
      ensures bs[i] in bs && ms[i] in ms && WFSpan(bs[i], 2) && WFSpan(ms[i], 2)
    {
      assert WFSpan(bs[i], 2);
      MovedSpansPoints(bs[i].sub.spans, dx, 0);
    }
  }

  /** A pixel of a displaced band. */
  lemma MovedBand(b: Span, dx: int, dy: int, p: Pt)
    requires WFSpan(b, 2) && b.sub.List?
    ensures var m := MovedSpan(b, dy).(sub := List(MovedSpans(b.sub.spans, dx)));
            InSpan(m, [p.y, p.x]) <==> InSpan(b, [p.y - dy, p.x - dx])
  {
    var m := MovedSpan(b, dy).(sub := List(MovedSpans(b.sub.spans, dx)));
    assert [p.y, p.x][1..] == [p.x] && [p.y - dy, p.x - dx][1..] == [p.x - dx];
    MovedSpansPoints(b.sub.spans, dx, p.x);
    assert Has(m.sub, [p.x]) <==> InSome(m.sub.spans, [p.x]);
    assert Has(b.sub, [p.x - dx]) <==> InSome(b.sub.spans, [p.x - dx]);
  }

  lemma MovedArea(l: SpanList, dx: int, dy: int)
    requires WF(l, 2) && TwoLevels(l)
    ensures WF(MovedList(l, dx, dy), 2)
    ensures AreaOf(MovedList(l, dx, dy)) == Shifted(AreaOf(l), dx, dy)
  {
    hide InSpan;
    hide WFSpan;
    MovedKeeps(l, dx, dy);
    var bs, ms := l.spans, MovedList(l, dx, dy).spans;
    forall p: Pt
      ensures Covers(MovedList(l, dx, dy), p) <==> Covers(l, Pt(p.x - dx, p.y - dy))
    {
      forall i | 0 <= i < |bs|
        ensures bs[i] in bs && ms[i] in ms && (InSpan(ms[i], [p.y, p.x]) <==> InSpan(bs[i], [p.y - dy, p.x - dx]))
      {
        MovedBand(bs[i], dx, dy, p);
      }
      assert InSome(ms, [p.y, p.x]) <==> InSome(bs, [p.y - dy, p.x - dx]);
    }
  }

  class Region {
    var list: SpanList

    ghost predicate Valid()
      reads this
    {
      WF(list, 2) && TwoLevels(list)
    }

    ghost function Area(): iset<Pt>
      reads this
    {
      AreaOf(list)
    }

    /** `sraRgnCreate` */
    constructor ()
      ensures Valid() && Area() == iset{}
    {
      list := List([]);
      new;
      EmptyIffNoArea(list);
    }

    /** `sraRgnCreateRect` */
    constructor FromRect(x1: int, y1: int, x2: int, y2: int)
      requires x1 < x2 && y1 < y2
      ensures Valid() && Area() == RectArea(Rect(x1, y1, x2, y2)) && list == RectList(x1, y1, x2, y2)
    {
      list := RectList(x1, y1, x2, y2);
      new;
      RectListArea(x1, y1, x2, y2);
      RegionHasTwoLevels(list);
    }

    /** `sraRgnCreateRgn` */
    constructor Copy(src: Region)
      requires src.Valid()
      ensures Valid() && Area() == src.Area() && list == src.list
    {
      list := src.list;
    }

    method MakeEmpty()
      modifies this
      ensures Valid() && Area() == iset{}
    {
      list := List([]);
      EmptyIffNoArea(list);
    }

    method IsEmpty() returns (e: bool)
      requires Valid()
      ensures e <==> Area() == iset{}
    {
      EmptyIffNoArea(list);
      e := list.spans == [];
    }

    method Or(src: Region)
      requires Valid() && src.Valid()
      modifies this
      ensures Valid() && Area() == old(Area()) + old(src.Area())
    {
      ghost var before := list;
      var l := SpanListOr(list, src.list, 2);
      SameOperation(before, src.list, l);
      RegionHasTwoLevels(l);
      list := l;
    }

    method And(src: Region) returns (some: bool)
      requires Valid() && src.Valid()
      modifies this
      ensures Valid() && Area() == old(Area()) * old(src.Area())
      ensures some <==> Area() != iset{}
    {
      var l, some' := SpanListAnd(list, src.list, 2);
      SameOperation(list, src.list, l);
      RegionHasTwoLevels(l);
      EmptyIffNoArea(l);
      list, some := l, some';
    }

    method Subtract(src: Region) returns (some: bool)
      requires Valid() && src.Valid()
      modifies this
      ensures Valid() && Area() == old(Area()) - old(src.Area())
      ensures some <==> Area() != iset{}
    {
      var l, some' := SpanListSubtract(list, src.list, 2);
      SameOperation(list, src.list, l);
      RegionHasTwoLevels(l);
      EmptyIffNoArea(l);
      list, some := l, some';
    }

    method Offset(dx: int, dy: int)
      requires Valid()
      modifies this
      ensures Valid() && Area() == Shifted(old(Area()), dx, dy)
    {
      MovedArea(list, dx, dy);
      RegionHasTwoLevels(MovedList(list, dx, dy));
      ghost var before := list;
      var v := 0;
      while v < |list.spans|
        invariant list.List? && |list.spans| == |before.spans| && v <= |before.spans|
        invariant forall i :: 0 <= i < v ==> list.spans[i] == MovedList(before, dx, dy).spans[i]
        invariant forall i :: v <= i < |before.spans| ==> list.spans[i] == before.spans[i]
        decreases |before.spans| - v
      {
        var band := MovedSpan(list.spans[v], dy);
        var sub := list.spans[v].sub.spans;
        ghost var was := sub;
        var h := 0;
        while h < |sub|
          invariant |sub| == |was| && h <= |sub|
          invariant forall i :: 0 <= i < h ==> sub[i] == MovedSpan(was[i], dx)
          invariant forall i :: h <= i < |sub| ==> sub[i] == was[i]
        {
          sub := sub[h := MovedSpan(sub[h], dx)];
          h := h + 1;
        }
        assert sub == MovedSpans(was, dx);
        list := List(list.spans[v := band.(sub := List(sub))]);
        v := v + 1;
      }
      assert list.spans == MovedList(before, dx, dy).spans;
    }
  }
}
