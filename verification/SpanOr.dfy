/** `sraSpanListOr`: union in place, one sweep over both lists. */
module SpanOr {
  import opened SpanLists

  /** What is left of the source: the current span from `start` on, and the spans behind it. */
  function Rest(src: seq<Span>, j: nat, start: int): seq<Span>
    requires j <= |src|
  {
    if j == |src| then [] else [src[j].(start := start)] + src[j + 1..]
  }

  lemma RestUnfolds(src: seq<Span>, j: nat, start: int, d: nat)
    requires d > 0 && j < |src| && WFSpans(src, d) && src[j].start <= start < src[j].end
    ensures WFSpans(Rest(src, j, start), d)
    ensures After(src[j].end, src[j + 1..]) && WFSpans(src[j + 1..], d)
    ensures PointsOf(Rest(src, j, start))
         == Block(start, src[j].end, Points(src[j].sub)) + PointsOf(src[j + 1..])
  {
    assert src == src[..j] + src[j..];
    WholeIsCut(src[..j], src[j..], d);
    assert src[j..] == [src[j]] + src[j + 1..];
    WholeIsCut([src[j]], src[j + 1..], d);
    assert src[j] in src && WFSpan(src[j], d);
    FirstAndRest(Rest(src, j, start));
    CutIsWhole([src[j].(start := start)], src[j].end, src[j + 1..], d);
  }

  /** The part of `s` in front of the current span becomes a span of its own. */
  method OrFront(done0: seq<Span>, todo0: seq<Span>, s: Span, ghost lo0: int, ghost d: nat)
    returns (done: seq<Span>, todo: seq<Span>, ghost lo: int, ghost from: int)
    requires d > 0 && todo0 != [] && Cut(done0, lo0, todo0, d) && WFSpan(s, d) && lo0 <= s.start
    requires s.start < todo0[0].end && todo0[0].start < s.end
    ensures Cut(done, lo, todo, d) && s.start <= from < s.end
    ensures todo != [] && todo == Stretched(todo0, todo[0].start) && todo[0].start <= from < todo[0].end
    ensures PointsOf(done) + PointsOf(todo) + Block(from, s.end, Points(s.sub))
         == PointsOf(done0) + PointsOf(todo0) + Block(s.start, s.end, Points(s.sub))
  {
    hide Block;
    hide PointsOf;
    hide Points;
    done, todo, lo, from := done0, todo0, lo0, s.start;
    assert WFSpan(todo[0], d);
    if s.start < todo[0].start {
      from := todo[0].start;
      InsertKeeps(done, lo, s.(end := from), todo, d);
      BlockSplit(s.start, from, s.end, Points(s.sub));
      done, lo := done + [s.(end := todo[0].start)], from;
      done, todo, lo := MergePrevious(done, todo, lo, d);
    }
  }

  /** Cuts the current span at both ends of `s`. */
  method OrAlign(done0: seq<Span>, todo0: seq<Span>, s: Span, ghost lo0: int, ghost d: nat)
    returns (done: seq<Span>, todo: seq<Span>, ghost lo: int)
    requires d > 0 && todo0 != [] && Cut(done0, lo0, todo0, d)
    requires s.start < todo0[0].end && todo0[0].start < s.end && s.start < s.end
    ensures Cut(done, lo, todo, d) && todo != [] && todo[0].sub == todo0[0].sub
    ensures todo[0].start == if todo0[0].start < s.start then s.start else todo0[0].start
    ensures todo[0].end == if s.end < todo0[0].end then s.end else todo0[0].end
    ensures |todo| == |todo0| + if s.end < todo0[0].end then 1 else 0
    ensures PointsOf(done) + PointsOf(todo) == PointsOf(done0) + PointsOf(todo0)
  {
    hide Block;
    hide PointsOf;
    hide Points;
    done, todo, lo := done0, todo0, lo0;
    assert WFSpan(todo[0], d);
    if s.end < todo[0].end {
      SplitAfterKeeps(done, lo, todo, d, s.end);
      todo := SplitAfter(todo, s.end);
    }
    if s.start > todo[0].start {
      SplitBeforeKeeps(done, lo, todo, d, s.start);
      done, todo, lo := done + [todo[0].(end := s.start)], Stretched(todo, s.start), s.start;
    }
  }

  /** The current span gains the source's points, and may then equal its neighbours. */
  method OrInto(done0: seq<Span>, todo0: seq<Span>, s: Span, ghost lo0: int, ghost d: nat)
    returns (done: seq<Span>, todo: seq<Span>, ghost lo: int)
    requires d > 0 && todo0 != [] && Cut(done0, lo0, todo0, d) && WFSpan(s, d)
    ensures Cut(done, lo, todo, d) && todo != [] && |todo| <= |todo0|
    ensures todo[0].start <= todo0[0].start && todo0[0].end <= todo[0].end
    ensures Points(s.sub) <= Points(todo[0].sub)
    ensures PointsOf(done) + PointsOf(todo)
         == PointsOf(done0) + PointsOf(todo0) + Block(todo0[0].start, todo0[0].end, Points(s.sub))
    decreases d, 0
  {
    assert WFSpan(todo0[0], d);
    var sub := SpanListOr(todo0[0].sub, s.sub, d - 1);
    BlockUnion(todo0[0].start, todo0[0].end, Points(todo0[0].sub), Points(s.sub));
    hide Block;
    hide PointsOf;
    hide Points;
    FirstAndRest(todo0);
    WithSubKeeps(done0, lo0, todo0, d, sub);
    done, todo, lo := MergePrevious(done0, WithSub(todo0, sub), lo0, d);
    todo := MergeNext(todo, d);
  }

  lemma BlockUnion(a: int, b: int, x: iset<Point>, y: iset<Point>)
    ensures Block(a, b, x + y) == Block(a, b, x) + Block(a, b, y)
  {
  }

  lemma BlockWithin(a: int, b: int, c: int, e: int, x: iset<Point>, y: iset<Point>)
    requires a <= b && c <= e && x <= y
    ensures Block(b, c, x) <= Block(a, e, y)
  {
  }

  /**
   * The branch for overlapping spans, up to moving on: everything but what `s` has beyond the
   * current span is now in the list.
   */
  method OrOverlap(done0: seq<Span>, todo0: seq<Span>, s: Span, ghost lo0: int, ghost d: nat)
    returns (done: seq<Span>, todo: seq<Span>, ghost lo: int)
    requires d > 0 && todo0 != [] && Cut(done0, lo0, todo0, d) && WFSpan(s, d) && lo0 <= s.start
    requires s.start < todo0[0].end && todo0[0].start < s.end
    ensures todo != [] && Cut(done, lo, todo, d) && todo[0].start < s.end && s.start < todo[0].end
    ensures |todo| <= if s.end > todo[0].end then |todo0| else |todo0| + 1
    ensures PointsOf(done) + PointsOf(todo) + Block(todo[0].end, s.end, Points(s.sub))
         == PointsOf(done0) + PointsOf(todo0) + Block(s.start, s.end, Points(s.sub))
    decreases d, 1
  {
    hide Block;
    hide PointsOf;
    hide Points;
    ghost var sp := Points(s.sub);
    ghost var from: int;
    done, todo, lo, from := OrFront(done0, todo0, s, lo0, d);
    done, todo, lo := OrAlign(done, todo, s, lo, d);
    ghost var start, end := todo[0].start, todo[0].end;
    BlockSplit(from, end, s.end, sp);
    BlockWithin(start, from, end, end, sp, sp);
    BlockWithin(s.start, start, end, s.end, sp, sp);
    done, todo, lo := OrInto(done, todo, s, lo, d);
    if todo[0].end <= s.end {
      BlockSplit(end, todo[0].end, s.end, sp);
    } else {
      BlockEmpty(todo[0].end, s.end, sp);
    }
    FirstAndRest(todo);
    BlockWithin(todo[0].start, end, if todo[0].end <= s.end then todo[0].end else s.end, todo[0].end, sp, Points(todo[0].sub));
  }

  /** Where to start `lo`: not beyond either list. */
  ghost function Floor(a: seq<Span>, b: seq<Span>): int {
    if a == [] then (if b == [] then 0 else b[0].start)
    else if b == [] || a[0].start <= b[0].start then a[0].start
    else b[0].start
  }

  lemma FloorIsBelow(a: seq<Span>, b: seq<Span>, d: nat)
    requires d > 0 && WFSpans(a, d) && WFSpans(b, d)
    ensures Cut([], Floor(a, b), a, d) && After(Floor(a, b), b)
  {
    forall s | s in a
      ensures Floor(a, b) <= s.start
    {
      assert WFSpan(a[0], d);
    }
    forall s | s in b
      ensures Floor(a, b) <= s.start
    {
      assert WFSpan(b[0], d);
    }
  }

  method NextSource(src: seq<Span>, j0: nat, ghost d: nat) returns (j: nat, start: int)
    requires d > 0 && WFSpans(src, d) && j0 < |src|
    ensures j == j0 + 1 && Rest(src, j, start) == src[j..]
    ensures j < |src| ==> start == src[j].start < src[j].end
  {
    j := j0 + 1;
    start := if j < |src| then src[j].start else 0;
    if j < |src| {
      assert WFSpan(src[j], d);
      assert src[j..] == [src[j]] + src[j + 1..];
    }
  }

  lemma InsertReady(done: seq<Span>, lo: int, todo: seq<Span>, src: seq<Span>, j: nat, start: int, d: nat)
    requires d > 0 && WFSpans(src, d) && j < |src| && src[j].start <= start < src[j].end
    requires Cut(done, lo, todo, d) && After(lo, Rest(src, j, start)) && (todo == [] || todo[0].start >= src[j].end)
    ensures var s := src[j].(start := start);
            WFSpan(s, d) && lo <= s.start && After(s.end, todo) && After(s.end, src[j + 1..]) &&
            PointsOf(Rest(src, j, start)) == Block(s.start, s.end, Points(s.sub)) + PointsOf(src[j + 1..])
  {
    hide Block;
    hide PointsOf;
    hide Points;
    RestUnfolds(src, j, start, d);
    assert src[j].(start := start) in Rest(src, j, start);
    if todo != [] {
      FloorIsBelow(todo, [], d);
    }
  }

  lemma AfterEarlier(x: int, y: int, ss: seq<Span>)
    requires x <= y && After(y, ss)
    ensures After(x, ss)
  {
  }

  /** A source span that ends before the current one starts. */
  method OrInsert(done0: seq<Span>, todo0: seq<Span>, src: seq<Span>, j0: nat, start0: int, ghost lo0: int, ghost d: nat)
    returns (done: seq<Span>, todo: seq<Span>, j: nat, start: int, ghost lo: int)
    requires d > 0 && WFSpans(src, d) && j0 < |src| && src[j0].start <= start0 < src[j0].end
    requires Cut(done0, lo0, todo0, d) && After(lo0, Rest(src, j0, start0))
    requires todo0 == [] || todo0[0].start >= src[j0].end
    ensures j0 <= j <= |src| && (j < |src| ==> src[j].start <= start < src[j].end)
    ensures Cut(done, lo, todo, d) && After(lo, Rest(src, j, start))
    ensures PointsOf(done) + PointsOf(todo) + PointsOf(Rest(src, j, start))
         == PointsOf(done0) + PointsOf(todo0) + PointsOf(Rest(src, j0, start0))
    ensures j > j0
  {
    hide Block;
    hide PointsOf;
    hide Points;
    hide Cut;
    hide After;
    hide WFSpans;
    hide WFSpan;
    hide Rest;
    done, todo, lo := done0, todo0, lo0;
    var s := src[j0].(start := start0);
    InsertReady(done, lo, todo, src, j0, start0, d);
    InsertKeeps(done, lo, s, todo, d);
    done, lo := done + [s], s.end;
    if todo != [] {
      done, todo, lo := MergePrevious(done, todo, lo, d);
    }
    AfterEarlier(lo, s.end, src[j0 + 1..]);
    j, start := NextSource(src, j0, d);
  }

  lemma FirstIsWF(ss: seq<Span>, d: nat)
    requires d > 0 && WFSpans(ss, d) && ss != []
    ensures WFSpan(ss[0], d)
  {
  }

  /** A source span that meets the current one. */
  method OrMeet(done0: seq<Span>, todo0: seq<Span>, src: seq<Span>, j0: nat, start0: int, ghost lo0: int, ghost d: nat)
    returns (done: seq<Span>, todo: seq<Span>, j: nat, start: int, ghost lo: int)
    requires d > 0 && WFSpans(src, d) && j0 < |src| && src[j0].start <= start0 < src[j0].end
    requires Cut(done0, lo0, todo0, d) && After(lo0, Rest(src, j0, start0))
    requires todo0 != [] && start0 < todo0[0].end && todo0[0].start < src[j0].end
    ensures j0 <= j <= |src| && (j < |src| ==> src[j].start <= start < src[j].end)
    ensures Cut(done, lo, todo, d) && After(lo, Rest(src, j, start))
    ensures PointsOf(done) + PointsOf(todo) + PointsOf(Rest(src, j, start))
         == PointsOf(done0) + PointsOf(todo0) + PointsOf(Rest(src, j0, start0))
    ensures j > j0 || |todo| < |todo0|
    decreases d, 2
  {
    hide Block;
    hide PointsOf;
    hide Points;
    hide WFSpans;
    j, start := j0, start0;
    var s := src[j].(start := start);
    RestUnfolds(src, j, start, d);
    assert s in Rest(src, j, start);
    done, todo, lo := OrOverlap(done0, todo0, s, lo0, d);
    assert todo[0] in todo;
    if s.end > todo[0].end {
      start := todo[0].end;
      FirstIsWF(todo, d);
      StepKeeps(done, lo, todo, d);
      RestUnfolds(src, j, start, d);
      done, todo, lo := done + [todo[0]], todo[1..], todo[0].end;
    } else {
      BlockEmpty(todo[0].end, s.end, Points(s.sub));
      j, start := NextSource(src, j, d);
    }
  }

  /** One round of the sweep: the cursors that move on, and what is then left of the source. */
  method OrRound(done0: seq<Span>, todo0: seq<Span>, src: seq<Span>, j0: nat, start0: int, ghost lo0: int, ghost d: nat)
    returns (done: seq<Span>, todo: seq<Span>, j: nat, start: int, ghost lo: int)
    requires d > 0 && WFSpans(src, d) && j0 < |src| && src[j0].start <= start0 < src[j0].end
    requires Cut(done0, lo0, todo0, d) && After(lo0, Rest(src, j0, start0))
    ensures j0 <= j <= |src| && (j < |src| ==> src[j].start <= start < src[j].end)
    ensures Cut(done, lo, todo, d) && After(lo, Rest(src, j, start))
    ensures PointsOf(done) + PointsOf(todo) + PointsOf(Rest(src, j, start))
         == PointsOf(done0) + PointsOf(todo0) + PointsOf(Rest(src, j0, start0))
    ensures j > j0 || |todo| < |todo0|
    decreases d, 3
  {
    hide PointsOf;
    if todo0 == [] || todo0[0].start >= src[j0].end {
      done, todo, j, start, lo := OrInsert(done0, todo0, src, j0, start0, lo0, d);
    } else if start0 < todo0[0].end && src[j0].end > todo0[0].start {
      done, todo, j, start, lo := OrMeet(done0, todo0, src, j0, start0, lo0, d);
    } else {
      StepKeeps(done0, lo0, todo0, d);
      RestUnfolds(src, j0, start0, d);
      done, todo, j, start, lo := done0 + [todo0[0]], todo0[1..], j0, start0, todo0[0].end;
    }
  }

  method SpanListOr(dest: SpanList, src: SpanList, ghost d: nat) returns (r: SpanList)
    requires WF(dest, d) && WF(src, d)
    ensures WF(r, d) && Points(r) == Points(dest) + Points(src)
    ensures Empty(r) <==> Empty(dest) && Empty(src)
    decreases d, 4
  {
    hide Block;
    hide WFSpans;
    if dest.Null? {
      return dest;
    }
    var done: seq<Span>, todo := [], dest.spans;
    var j: nat, start := 0, if src.spans == [] then 0 else src.spans[0].start;
    ghost var lo := Floor(dest.spans, src.spans);
    FloorIsBelow(dest.spans, src.spans, d);
    if src.spans != [] {
      FirstIsWF(src.spans, d);
      assert src.spans == [src.spans[0]] + src.spans[1..];
    }
    PointsAreSpans(dest.spans);
    PointsAreSpans(src.spans);
    while j < |src.spans|
      invariant j <= |src.spans| && (j < |src.spans| ==> src.spans[j].start <= start < src.spans[j].end)
      invariant Cut(done, lo, todo, d) && After(lo, Rest(src.spans, j, start))
      invariant PointsOf(done) + PointsOf(todo) + PointsOf(Rest(src.spans, j, start)) == Points(dest) + Points(src)
      decreases |src.spans| - j, |todo|
    {
      done, todo, j, start, lo := OrRound(done, todo, src.spans, j, start, lo, d);
    }
    r := List(done + todo);
    CutIsWhole(done, lo, todo, d);
    PointsAreSpans(done + todo);
    EmptyIffNoPoints(dest, d);
    EmptyIffNoPoints(src, d);
    EmptyIffNoPoints(r, d);
  }
}
