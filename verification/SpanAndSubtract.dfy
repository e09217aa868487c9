/** `sraSpanListAnd` and `sraSpanListSubtract`: intersection and difference in place. */
module SpanAndSubtract {
  import opened SpanLists

  lemma SourceUnfolds(src: seq<Span>, j: nat, d: nat)
    requires d > 0 && j < |src| && WFSpans(src, d)
    ensures WFSpan(src[j], d) && WFSpans(src[j + 1..], d) && After(src[j].end, src[j + 1..])
    ensures After(src[j].start, src[j..])
    ensures PointsOf(src[j..]) == Block(src[j].start, src[j].end, Points(src[j].sub)) + PointsOf(src[j + 1..])
  {
    assert src == src[..j] + src[j..];
    WholeIsCut(src[..j], src[j..], d);
    assert src[j..] == [src[j]] + src[j + 1..];
    WholeIsCut([src[j]], src[j + 1..], d);
    assert src[j] in src;
    FirstAndRest(src[j..]);
  }

  lemma TodoUnfolds(done: seq<Span>, lo: int, todo: seq<Span>, d: nat)
    requires d > 0 && todo != [] && Cut(done, lo, todo, d)
    ensures WFSpan(todo[0], d) && After(todo[0].end, todo[1..]) && lo <= todo[0].start && After(todo[0].start, todo)
    ensures Cut(done, todo[0].end, todo[1..], d)
    ensures PointsOf(todo) == Block(todo[0].start, todo[0].end, Points(todo[0].sub)) + PointsOf(todo[1..])
  {
    assert todo == [todo[0]] + todo[1..];
    WholeIsCut([todo[0]], todo[1..], d);
    assert todo[0] in todo;
    FirstAndRest(todo);
  }

  /** Starting the current span later. */
  lemma TrimKeeps(done: seq<Span>, lo: int, todo: seq<Span>, d: nat, x: int)
    requires d > 0 && todo != [] && Cut(done, lo, todo, d) && todo[0].start <= x < todo[0].end
    ensures Cut(done, lo, Stretched(todo, x), d)
    ensures PointsOf(todo) == Block(todo[0].start, x, Points(todo[0].sub)) + PointsOf(Stretched(todo, x))
  {
    assert WFSpan(todo[0], d);
    FirstAndRest(todo);
    FirstAndRest(Stretched(todo, x));
    BlockSplit(todo[0].start, x, todo[0].end, Points(todo[0].sub));
  }

  // ---------------------------------------------------------------- intersection

  /** Trims the current span to the source span it meets. */
  method AndAlign(done: seq<Span>, todo0: seq<Span>, s: Span, ghost q: seq<Span>, ghost lo: int, ghost d: nat)
    returns (todo: seq<Span>)
    requires d > 0 && todo0 != [] && Cut(done, lo, todo0, d)
    requires s.start < todo0[0].end && todo0[0].start < s.end && s.start < s.end && After(s.start, q)
    ensures todo != [] && Cut(done, lo, todo, d) && todo[0].sub == todo0[0].sub
    ensures todo[0].start == if todo0[0].start < s.start then s.start else todo0[0].start
    ensures todo[0].end == if s.end < todo0[0].end then s.end else todo0[0].end
    ensures |todo| == |todo0| + if s.end < todo0[0].end then 1 else 0
    ensures PointsOf(todo) * PointsOf(q) == PointsOf(todo0) * PointsOf(q)
  {
    hide Block;
    hide PointsOf;
    todo := todo0;
    if s.start > todo[0].start {
      TrimKeeps(done, lo, todo, d, s.start);
      BlockApart(todo[0].start, s.start, Points(todo[0].sub), q);
      todo := Stretched(todo, s.start);
    }
    if s.end < todo[0].end {
      SplitAfterKeeps(done, lo, todo, d, s.end);
      todo := SplitAfter(todo, s.end);
    }
  }

  /** What a current span within a source span contributes to the intersection. */
  lemma AndContribution(done: seq<Span>, lo: int, todo: seq<Span>, src: seq<Span>, j: nat, d: nat)
    requires d > 0 && todo != [] && Cut(done, lo, todo, d) && j < |src| && WFSpans(src, d)
    requires src[j].start <= todo[0].start && todo[0].end <= src[j].end
    ensures PointsOf(todo) * PointsOf(src[j..])
         == Block(todo[0].start, todo[0].end, Points(todo[0].sub) * Points(src[j].sub)) + PointsOf(todo[1..]) * PointsOf(src[j..])
    ensures todo[0].end == src[j].end ==>
              PointsOf(todo[1..]) * PointsOf(src[j..]) == PointsOf(todo[1..]) * PointsOf(src[j + 1..])
  {
    hide Block;
    hide PointsOf;
    hide Points;
    SourceUnfolds(src, j, d);
    TodoUnfolds(done, lo, todo, d);
    var c, s := todo[0], src[j];
    BlockMeet(c.start, c.end, Points(c.sub), s.start, s.end, Points(s.sub));
    BlockApart(c.start, c.end, Points(c.sub), src[j + 1..]);
    if c.end == s.end {
      BlockApart(s.start, s.end, Points(s.sub), todo[1..]);
    }
  }

  /** A current span within a source span: intersect, merge backwards, move on. */
  method AndInto(done0: seq<Span>, todo0: seq<Span>, src: seq<Span>, j0: nat, ghost lo0: int, ghost d: nat)
    returns (done: seq<Span>, todo: seq<Span>, j: nat, ghost lo: int)
    requires d > 0 && todo0 != [] && Cut(done0, lo0, todo0, d) && j0 < |src| && WFSpans(src, d)
    requires src[j0].start <= todo0[0].start && todo0[0].end <= src[j0].end
    ensures todo == todo0[1..] && Cut(done, lo, todo, d)
    ensures j == j0 || (j == j0 + 1 && todo0[0].end == src[j0].end)
    ensures todo0[0].end == src[j0].end ==> j == j0 + 1 || (done == done0 && After(src[j0].end, todo))
    ensures PointsOf(done) == PointsOf(done0)
                              + Block(todo0[0].start, todo0[0].end, Points(todo0[0].sub) * Points(src[j0].sub))
    decreases d, 0
  {
    hide Block;
    hide PointsOf;
    hide Points;
    done, todo, j, lo := done0, todo0, j0, lo0;
    var s := src[j];
    SourceUnfolds(src, j, d);
    TodoUnfolds(done, lo, todo, d);
    var sub, some := SpanListAnd(todo[0].sub, s.sub, d - 1);
    if !some {
      EmptyIffNoPoints(sub, d - 1);
      BlockEmpty(todo[0].start, todo[0].end, Points(sub));
      todo, lo := todo[1..], todo[0].end;
    } else {
      WithSubKeeps(done, lo, todo, d, sub);
      done, todo, lo := MergeBehind(done, WithSub(todo, sub), lo, d);
      if s.end <= todo0[0].end {
        j := j + 1;
      }
    }
  }

  /** `sraSpanMergePrevious`, and on to the next span. */
  method MergeBehind(done0: seq<Span>, todo0: seq<Span>, ghost lo0: int, ghost d: nat)
    returns (done: seq<Span>, todo: seq<Span>, ghost lo: int)
    requires d > 0 && todo0 != [] && Cut(done0, lo0, todo0, d)
    ensures todo == todo0[1..] && Cut(done, lo, todo, d)
    ensures PointsOf(done) == PointsOf(done0) + Block(todo0[0].start, todo0[0].end, Points(todo0[0].sub))
  {
    hide Block;
    done, todo, lo := MergePrevious(done0, todo0, lo0, d);
    StepKeeps(done, lo, todo, d);
    Together(done, [todo[0]]);
    OneSpan(todo[0]);
    done, todo, lo := done + [todo[0]], todo[1..], todo[0].end;
  }

  /** One round of the sweep. */
  method AndRound(done0: seq<Span>, todo0: seq<Span>, src: seq<Span>, j0: nat, ghost lo0: int, ghost d: nat)
    returns (done: seq<Span>, todo: seq<Span>, j: nat, ghost lo: int)
    requires d > 0 && todo0 != [] && Cut(done0, lo0, todo0, d) && j0 < |src| && WFSpans(src, d)
    ensures j0 <= j <= j0 + 1 && Cut(done, lo, todo, d)
    ensures PointsOf(done) + PointsOf(todo) * PointsOf(src[j..]) == PointsOf(done0) + PointsOf(todo0) * PointsOf(src[j0..])
    ensures j > j0 || |todo| < |todo0| || (|todo| == |todo0| && todo0[0].start < src[j].end <= todo[0].start)
    decreases d, 1
  {
    hide Block;
    hide PointsOf;
    hide Points;
    done, todo, j, lo := done0, todo0, j0, lo0;
    SourceUnfolds(src, j, d);
    TodoUnfolds(done, lo, todo, d);
    if todo[0].start >= src[j].end {
      assert After(src[j].end, todo);
      BlockApart(src[j].start, src[j].end, Points(src[j].sub), todo);
      j := j + 1;
    } else if todo[0].end <= src[j].start {
      BlockApart(todo[0].start, todo[0].end, Points(todo[0].sub), src[j..]);
      todo, lo := todo[1..], todo[0].end;
    } else {
      todo := AndAlign(done, todo, src[j], src[j..], lo, d);
      AndContribution(done, lo, todo, src, j, d);
      TodoUnfolds(done, lo, todo, d);
      done, todo, j, lo := AndInto(done, todo, src, j, lo, d);
      assert todo != [] ==> todo[0] in todo;
    }
  }

  method SpanListAnd(dest: SpanList, src: SpanList, ghost d: nat) returns (r: SpanList, some: bool)
    requires WF(dest, d) && WF(src, d)
    ensures WF(r, d) && Points(r) == Points(dest) * Points(src)
    ensures some <==> !Empty(r)
    decreases d, 2
  {
    hide Block;
    if dest.Null? {
      return dest, true;
    }
    var done: seq<Span>, todo, j: nat := [], dest.spans, 0;
    ghost var lo := if todo == [] then 0 else todo[0].start;
    if todo != [] {
      WholeCut(todo, d);
    }
    PointsAreSpans(dest.spans);
    PointsAreSpans(src.spans);
    while j < |src.spans| && todo != []
      invariant j <= |src.spans| && Cut(done, lo, todo, d)
      invariant PointsOf(done) + PointsOf(todo) * PointsOf(src.spans[j..]) == Points(dest) * Points(src)
      decreases |src.spans| - j, |todo|, todo != [] && j < |src.spans| && todo[0].start < src.spans[j].end
    {
      done, todo, j, lo := AndRound(done, todo, src.spans, j, lo, d);
    }
    r := List(done);
    PointsAreSpans(done);
    some := done != [];
  }

  lemma WholeCut(todo: seq<Span>, d: nat)
    requires d > 0 && todo != [] && WFSpans(todo, d)
    ensures Cut([], todo[0].start, todo, d)
  {
    assert todo[0] in todo && WFSpan(todo[0], d);
  }

  // ---------------------------------------------------------------- difference

  /** The source spans still to come cannot touch what is before the cursor. */
  ghost predicate SubState(done: seq<Span>, lo: int, todo: seq<Span>, src: seq<Span>, j: nat, d: nat, all: iset<Point>)
    requires d > 0
  {
    Cut(done, lo, todo, d) && j <= |src| && WFSpans(src, d) && PointsOf(done) !! PointsOf(src[j..]) &&
    PointsOf(done) + PointsOf(todo) - PointsOf(src[j..]) == all
  }

  /** Passing over a current span that nothing left of the source touches. */
  lemma SubPass(done: seq<Span>, lo: int, todo: seq<Span>, src: seq<Span>, j: nat, d: nat, all: iset<Point>)
    requires d > 0 && todo != [] && SubState(done, lo, todo, src, j, d, all)
    requires BlockOf(todo[0]) !! PointsOf(src[j..])
    ensures SubState(done + [todo[0]], todo[0].end, todo[1..], src, j, d, all)
  {
    hide Block;
    hide PointsOf;
    hide Points;
    StepKeeps(done, lo, todo, d);
    Together(done, [todo[0]]);
    OneSpan(todo[0]);
  }

  /** Being finished with a source span that nothing in the list touches any more. */
  lemma SubNext(done: seq<Span>, lo: int, todo: seq<Span>, src: seq<Span>, j: nat, d: nat, all: iset<Point>)
    requires d > 0 && j < |src| && SubState(done, lo, todo, src, j, d, all)
    requires BlockOf(src[j]) !! PointsOf(todo)
    ensures SubState(done, lo, todo, src, j + 1, d, all)
  {
    hide Block;
    hide PointsOf;
    hide Points;
    SourceUnfolds(src, j, d);
  }

  /** Cuts the current span at the ends of the source span it meets. */
  method SubAlign(done0: seq<Span>, todo0: seq<Span>, src: seq<Span>, j: nat, ghost lo0: int, ghost d: nat,
                  ghost all: iset<Point>)
    returns (done: seq<Span>, todo: seq<Span>, ghost lo: int)
    requires d > 0 && todo0 != [] && j < |src| && SubState(done0, lo0, todo0, src, j, d, all)
    requires src[j].start < todo0[0].end && todo0[0].start < src[j].end
    ensures todo != [] && SubState(done, lo, todo, src, j, d, all) && todo[0].sub == todo0[0].sub
    ensures src[j].start <= todo[0].start && todo[0].end <= src[j].end && todo0[0].start <= todo[0].start
    ensures |todo| == |todo0| || (|todo| == |todo0| + 1 && todo[0].end == src[j].end)
  {
    done, todo, lo := done0, todo0, lo0;
    var s := src[j];
    SourceUnfolds(src, j, d);
    if s.start > todo[0].start {
      var front := todo[0].(end := s.start);
      SplitBeforeKeeps(done, lo, todo, d, s.start);
      BlockApart(front.start, front.end, Points(front.sub), src[j..]);
      Together(done, [front]);
      OneSpan(front);
      done, todo, lo := done + [front], Stretched(todo, s.start), s.start;
    }
    if s.end < todo[0].end {
      SplitAfterKeeps(done, lo, todo, d, s.end);
      todo := SplitAfter(todo, s.end);
    }
  }

  /** Dropping the source span's points from the current span, which lies within it. */
  lemma SubCurrent(done: seq<Span>, lo: int, todo: seq<Span>, src: seq<Span>, j: nat, d: nat,
                   all: iset<Point>, left: iset<Point>)
    requires d > 0 && todo != [] && j < |src| && SubState(done, lo, todo, src, j, d, all)
    requires src[j].start <= todo[0].start && todo[0].end <= src[j].end
    requires left == Points(todo[0].sub) - Points(src[j].sub)
    ensures PointsOf(done) + (Block(todo[0].start, todo[0].end, left) + PointsOf(todo[1..])) - PointsOf(src[j..]) == all
  {
    hide Block;
    hide PointsOf;
    hide Points;
    TodoUnfolds(done, lo, todo, d);
    SourceUnfolds(src, j, d);
    var c, s := todo[0], src[j];
    BlockApart(c.start, c.end, Points(c.sub), src[j + 1..]);
    BlockMinus(c.start, c.end, Points(c.sub), s.start, s.end, Points(s.sub));
  }

  lemma BlockMinus(a: int, b: int, x: iset<Point>, c: int, e: int, y: iset<Point>)
    requires c <= a && b <= e
    ensures Block(a, b, x) - Block(c, e, y) == Block(a, b, x - y)
  {
  }

  lemma BlockDisjointSub(a: int, b: int, x: iset<Point>, c: int, e: int, y: iset<Point>)
    requires x !! y
    ensures Block(a, b, x) !! Block(c, e, y)
  {
  }

  /** Merges a current span that has lost the source span's points, and moves one cursor. */
  method SubMerge(done0: seq<Span>, todo0: seq<Span>, src: seq<Span>, j0: nat, ghost lo0: int, ghost d: nat,
                  ghost all: iset<Point>)
    returns (done: seq<Span>, todo: seq<Span>, j: nat, ghost lo: int)
    requires d > 0 && todo0 != [] && j0 < |src| && SubState(done0, lo0, todo0, src, j0, d, all)
    requires todo0[0].end <= src[j0].end && Points(todo0[0].sub) !! Points(src[j0].sub)
    ensures SubState(done, lo, todo, src, j, d, all)
    ensures j == j0 + 1 || (j == j0 && |todo| < |todo0| && todo0[0].end < src[j0].end)
  {
    hide Block;
    hide PointsOf;
    hide Points;
    var s := src[j0];
    done, todo, lo := MergePrevious(done0, todo0, lo0, d);
    todo := MergeNext(todo, d);
    j := j0;
    SourceUnfolds(src, j, d);
    TodoUnfolds(done, lo, todo, d);
    BlockDisjointSub(todo[0].start, todo[0].end, Points(todo[0].sub), s.start, s.end, Points(s.sub));
    if s.end > todo[0].end {
      BlockApart(todo[0].start, todo[0].end, Points(todo[0].sub), src[j + 1..]);
      SubPass(done, lo, todo, src, j, d, all);
      done, todo, lo := done + [todo[0]], todo[1..], todo[0].end;
    } else {
      BlockApart(s.start, s.end, Points(s.sub), todo[1..]);
      SubNext(done, lo, todo, src, j, d, all);
      j := j + 1;
    }
  }

  /** `(!d_curr->subspan) || !sraSpanListSubtract(...)` decides whether anything is left. */
  method SubSub(dest: SpanList, src: SpanList, ghost d: nat) returns (sub: SpanList, some: bool)
    requires d > 0 && WF(dest, d - 1) && WF(src, d - 1)
    ensures !some ==> Points(dest) - Points(src) == iset{}
    ensures some ==> WF(sub, d - 1) && !Empty(sub) && Points(sub) == Points(dest) - Points(src)
    decreases d, 0
  {
    sub, some := dest, false;
    if !dest.Null? {
      sub, some := SpanListSubtract(dest, src, d - 1);
      EmptyIffNoPoints(sub, d - 1);
    }
  }

  /** The current span, which lies within the source span, loses its points. */
  method SubInto(done0: seq<Span>, todo0: seq<Span>, src: seq<Span>, j0: nat, ghost lo0: int, ghost d: nat,
                 ghost all: iset<Point>)
    returns (done: seq<Span>, todo: seq<Span>, j: nat, ghost lo: int)
    requires d > 0 && todo0 != [] && j0 < |src| && SubState(done0, lo0, todo0, src, j0, d, all)
    requires src[j0].start <= todo0[0].start && todo0[0].end <= src[j0].end
    ensures SubState(done, lo, todo, src, j, d, all)
    ensures j == j0 + 1 || (j == j0 && |todo| < |todo0| && (todo0[0].end < src[j0].end || After(src[j0].end, todo)))
    decreases d, 1
  {
    hide Block;
    hide PointsOf;
    hide Points;
    done, todo, j, lo := done0, todo0, j0, lo0;
    var s := src[j];
    SourceUnfolds(src, j, d);
    TodoUnfolds(done, lo, todo, d);
    ghost var left := Points(todo[0].sub) - Points(s.sub);
    SubCurrent(done, lo, todo, src, j, d, all, left);
    var sub, some := SubSub(todo[0].sub, s.sub, d);
    if !some {
      BlockEmpty(todo[0].start, todo[0].end, left);
      todo, lo := todo[1..], todo[0].end;
    } else {
      WithSubKeeps(done, lo, todo, d, sub);
      done, todo, j, lo := SubMerge(done, WithSub(todo, sub), src, j, lo, d, all);
    }
  }

  /** One round of the sweep. */
  method SubRound(done0: seq<Span>, todo0: seq<Span>, src: seq<Span>, j0: nat, ghost lo0: int, ghost d: nat,
                  ghost all: iset<Point>)
    returns (done: seq<Span>, todo: seq<Span>, j: nat, ghost lo: int)
    requires d > 0 && todo0 != [] && j0 < |src| && SubState(done0, lo0, todo0, src, j0, d, all)
    ensures SubState(done, lo, todo, src, j, d, all)
    ensures j == j0 + 1 ||
            (j == j0 && (|todo| < |todo0| || (|todo| == |todo0| && todo0[0].start < src[j].end <= todo[0].start)))
    decreases d, 2
  {
    done, todo, j, lo := done0, todo0, j0, lo0;
    SourceUnfolds(src, j, d);
    TodoUnfolds(done, lo, todo, d);
    if todo[0].start >= src[j].end {
      assert After(src[j].end, todo);
      BlockApart(src[j].start, src[j].end, Points(src[j].sub), todo);
      SubNext(done, lo, todo, src, j, d, all);
      j := j + 1;
    } else if todo[0].end <= src[j].start {
      BlockApart(todo[0].start, todo[0].end, Points(todo[0].sub), src[j..]);
      SubPass(done, lo, todo, src, j, d, all);
      done, todo, lo := done + [todo[0]], todo[1..], todo[0].end;
    } else {
      done, todo, lo := SubAlign(done, todo, src, j, lo, d, all);
      done, todo, j, lo := SubInto(done, todo, src, j, lo, d, all);
      assert todo != [] ==> todo[0] in todo;
    }
  }

  method SpanListSubtract(dest: SpanList, src: SpanList, ghost d: nat) returns (r: SpanList, some: bool)
    requires d > 0 && WF(dest, d) && WF(src, d)
    ensures WF(r, d) && Points(r) == Points(dest) - Points(src)
    ensures some <==> !Empty(r)
    decreases d, 3
  {
    hide SubState;
    hide WF;
    hide Points;
    hide PointsOf;
    ghost var lo, all := SubStart(dest, src, d);
    var done: seq<Span>, todo, j: nat := [], dest.spans, 0;
    while j < |src.spans| && todo != []
      invariant j <= |src.spans| && SubState(done, lo, todo, src.spans, j, d, all)
      decreases |src.spans| - j, |todo|, todo != [] && j < |src.spans| && todo[0].start < src.spans[j].end
    {
      done, todo, j, lo := SubRound(done, todo, src.spans, j, lo, d, all);
    }
    r := List(done + todo);
    SubEnd(done, lo, todo, src, j, d, all);
    some := done + todo != [];
  }

  lemma SubStart(dest: SpanList, src: SpanList, d: nat) returns (lo: int, all: iset<Point>)
    requires d > 0 && WF(dest, d) && WF(src, d)
    ensures dest.List? && src.List? && all == Points(dest) - Points(src) && SubState([], lo, dest.spans, src.spans, 0, d, all)
  {
    var todo := dest.spans;
    lo, all := if todo == [] then 0 else todo[0].start, Points(dest) - Points(src);
    if todo != [] {
      WholeCut(todo, d);
    }
    PointsAreSpans(dest.spans);
    PointsAreSpans(src.spans);
  }

  lemma SubEnd(done: seq<Span>, lo: int, todo: seq<Span>, src: SpanList, j: nat, d: nat, all: iset<Point>)
    requires d > 0 && src.List? && SubState(done, lo, todo, src.spans, j, d, all) && (j >= |src.spans| || todo == [])
    ensures WF(List(done + todo), d) && Points(List(done + todo)) == all
  {
    hide Points;
    CutIsWhole(done, lo, todo, d);
    PointsAreSpans(done + todo);
  }
}
