/**
 * Span lists: sorted lists of half-open intervals, each carrying a list for the next
 * dimension. A region is a list of depth 2 (bands of rows over spans of columns); depth 0 is
 * the C code's null pointer, which stands for "everything left of the point".
 *
 * The list a routine edits is split at its cursor: `done` is what lies before `d_curr`,
 * `todo` starts with it and is empty when it has reached the end sentinel.
 */
module SpanLists {

  datatype Span = Span(start: int, end: int, sub: SpanList)
  datatype SpanList = Null | List(spans: seq<Span>)

  type Point = seq<int>

  // ---------------------------------------------------------------- meaning

  ghost predicate Has(l: SpanList, p: Point)
    decreases |p|, 2
  {
    l.Null? || InSome(l.spans, p)
  }

  ghost predicate InSome(ss: seq<Span>, p: Point)
    decreases |p|, 1
  {
    exists s :: s in ss && InSpan(s, p)
  }

  ghost predicate InSpan(s: Span, p: Point)
    decreases |p|, 0
  {
    p != [] && s.start <= p[0] < s.end && Has(s.sub, p[1..])
  }

  ghost function Points(l: SpanList): iset<Point> {
    iset p: Point | Has(l, p)
  }

  ghost function PointsOf(ss: seq<Span>): iset<Point> {
    iset p: Point | InSome(ss, p)
  }

  /** The points whose first coordinate is in `a..b` and whose others are in `rest`. */
  ghost function Block(a: int, b: int, rest: iset<Point>): iset<Point> {
    iset p: Point | p != [] && a <= p[0] < b && p[1..] in rest
  }

  lemma PointsAreSpans(ss: seq<Span>)
    ensures Points(List(ss)) == PointsOf(ss)
  {
  }

  lemma OneSpan(s: Span)
    ensures PointsOf([s]) == Block(s.start, s.end, Points(s.sub))
  {
    forall p: Point
      ensures p in PointsOf([s]) <==> p in Block(s.start, s.end, Points(s.sub))
    {
      assert s in [s];
      assert InSome([s], p) <==> InSpan(s, p);
    }
  }

  lemma Together(a: seq<Span>, b: seq<Span>)
    ensures PointsOf(a + b) == PointsOf(a) + PointsOf(b)
  {
  }

  lemma FirstAndRest(ss: seq<Span>)
    requires ss != []
    ensures PointsOf(ss) == Block(ss[0].start, ss[0].end, Points(ss[0].sub)) + PointsOf(ss[1..])
  {
    assert ss == [ss[0]] + ss[1..];
    Together([ss[0]], ss[1..]);
    OneSpan(ss[0]);
  }

  lemma BlockSplit(a: int, b: int, c: int, rest: iset<Point>)
    requires a <= b <= c
    ensures Block(a, c, rest) == Block(a, b, rest) + Block(b, c, rest)
  {
  }

  lemma BlockEmpty(a: int, b: int, rest: iset<Point>)
    requires b <= a || rest == iset{}
    ensures Block(a, b, rest) == iset{}
  {
  }

  lemma BlockMeet(a: int, b: int, x: iset<Point>, c: int, e: int, y: iset<Point>)
    ensures Block(a, b, x) * Block(c, e, y) == Block(if a <= c then c else a, if b <= e then b else e, x * y)
  {
  }

  /** Nothing before `b` meets spans that start there or later. */
  lemma BlockApart(a: int, b: int, x: iset<Point>, ss: seq<Span>)
    requires After(b, ss)
    ensures Block(a, b, x) !! PointsOf(ss)
  {
    assert forall p: Point :: InSome(ss, p) ==> p != [] && b <= p[0];
  }

  // ---------------------------------------------------------------- well-formedness

  predicate Empty(l: SpanList) {
    l.List? && l.spans == []
  }

  /** Depth `d`, sorted and disjoint, no empty interval and no empty sublist anywhere. */
  ghost predicate WF(l: SpanList, d: nat)
    decreases d, 1
  {
    if d == 0 then l.Null? else l.List? && WFSpans(l.spans, d)
  }

  ghost predicate WFSpan(s: Span, d: nat)
    requires d > 0
    decreases d - 1, 2
  {
    s.start < s.end && WF(s.sub, d - 1) && !Empty(s.sub)
  }

  ghost predicate WFSpans(ss: seq<Span>, d: nat)
    requires d > 0
    decreases d, 0
  {
    (forall s :: s in ss ==> WFSpan(s, d)) &&
    forall i, j :: 0 <= i < j < |ss| ==> ss[i].end <= ss[j].start
  }

  ghost predicate Before(ss: seq<Span>, x: int) {
    forall s :: s in ss ==> s.end <= x
  }

  ghost predicate After(x: int, ss: seq<Span>) {
    forall s :: s in ss ==> x <= s.start
  }

  /** A list cut at its cursor: nothing in `done` reaches beyond `lo`, nothing in `todo` before it. */
  ghost predicate Cut(done: seq<Span>, lo: int, todo: seq<Span>, d: nat)
    requires d > 0
  {
    WFSpans(done, d) && WFSpans(todo, d) && Before(done, lo) && After(lo, todo)
  }

  lemma CutIsWhole(done: seq<Span>, lo: int, todo: seq<Span>, d: nat)
    requires d > 0 && Cut(done, lo, todo, d)
    ensures WFSpans(done + todo, d) && PointsOf(done + todo) == PointsOf(done) + PointsOf(todo)
  {
    Together(done, todo);
    forall i, j | 0 <= i < j < |done + todo|
      ensures (done + todo)[i].end <= (done + todo)[j].start
    {
      if i < |done| <= j {
        assert done[i] in done && todo[j - |done|] in todo;
      }
    }
  }

  lemma WholeIsCut(a: seq<Span>, b: seq<Span>, d: nat)
    requires d > 0 && WFSpans(a + b, d)
    ensures WFSpans(a, d) && WFSpans(b, d)
    ensures forall s, t :: s in a && t in b ==> s.end <= t.start
  {
    var all := a + b;
    assert forall i :: 0 <= i < |a| ==> all[i] == a[i];
    assert forall j :: 0 <= j < |b| ==> all[|a| + j] == b[j];
  }

  /** A list that is not empty has a point. */
  lemma {:induction false} HasPoint(l: SpanList, d: nat) returns (p: Point)
    requires WF(l, d) && !Empty(l)
    ensures Has(l, p)
    decreases d
  {
    if d == 0 {
      p := [];
    } else {
      var s := l.spans[0];
      assert s in l.spans;
      assert WFSpan(s, d);
      var q := HasPoint(s.sub, d - 1);
      p := [s.start] + q;
      assert p[1..] == q && InSpan(s, p);
    }
  }

  lemma EmptyIffNoPoints(l: SpanList, d: nat)
    requires WF(l, d)
    ensures Empty(l) <==> Points(l) == iset{}
  {
    if !Empty(l) {
      var p := HasPoint(l, d);
      assert p in Points(l);
    } else {
      assert forall p :: !Has(l, p);
    }
  }

  // ---------------------------------------------------------------- merging neighbours

  /** `todo` with its first span starting earlier. */
  function Stretched(todo: seq<Span>, start: int): (r: seq<Span>)
    requires todo != []
  {
    [todo[0].(start := start)] + todo[1..]
  }

  ghost function BlockOf(s: Span): iset<Point> {
    Block(s.start, s.end, Points(s.sub))
  }

  lemma PreviousMerged(done: seq<Span>, prev: Span, lo: int, todo: seq<Span>, d: nat)
    requires d > 0 && todo != [] && Cut(done + [prev], lo, todo, d)
    requires prev.end == todo[0].start && prev.sub == todo[0].sub
    ensures Cut(done, prev.start, Stretched(todo, prev.start), d) && prev.start <= lo && prev.start < todo[0].start
    ensures PointsOf(done) + PointsOf(Stretched(todo, prev.start)) == PointsOf(done + [prev]) + PointsOf(todo)
    ensures PointsOf(done) + BlockOf(todo[0].(start := prev.start)) == PointsOf(done + [prev]) + BlockOf(todo[0])
  {
    var all := done + [prev];
    assert all[|done|] == prev && prev in all && todo[0] in todo;
    assert WFSpan(prev, d) && WFSpan(todo[0], d);
    Together(done, [prev]);
    OneSpan(prev);
    FirstAndRest(todo);
    FirstAndRest(Stretched(todo, prev.start));
    BlockSplit(prev.start, prev.end, todo[0].end, Points(prev.sub));
    WholeIsCut(done, [prev], d);
  }

  method MergePrevious(done0: seq<Span>, todo0: seq<Span>, ghost lo0: int, ghost d: nat)
    returns (done: seq<Span>, todo: seq<Span>, ghost lo: int)
    requires d > 0 && todo0 != [] && Cut(done0, lo0, todo0, d)
    ensures Cut(done, lo, todo, d) && lo <= lo0 && |done| <= |done0|
    ensures todo != [] && todo == Stretched(todo0, todo[0].start) && todo[0].start <= todo0[0].start
    ensures PointsOf(done) + PointsOf(todo) == PointsOf(done0) + PointsOf(todo0)
    ensures PointsOf(done) + BlockOf(todo[0]) == PointsOf(done0) + BlockOf(todo0[0])
    ensures PointsOf(done) <= PointsOf(done0)
  {
    done, todo, lo := done0, todo0, lo0;
    while done != [] && done[|done| - 1].end == todo[0].start && done[|done| - 1].sub == todo[0].sub
      invariant Cut(done, lo, todo, d) && lo <= lo0 && |done| <= |done0|
      invariant todo != [] && todo == Stretched(todo0, todo[0].start) && todo[0].start <= todo0[0].start
      invariant PointsOf(done) + PointsOf(todo) == PointsOf(done0) + PointsOf(todo0)
      invariant PointsOf(done) + BlockOf(todo[0]) == PointsOf(done0) + BlockOf(todo0[0])
      invariant PointsOf(done) <= PointsOf(done0)
    {
      var rest, prev := done[..|done| - 1], done[|done| - 1];
      assert done == rest + [prev];
      Together(rest, [prev]);
      PreviousMerged(rest, prev, lo, todo, d);
      done, todo, lo := rest, Stretched(todo, prev.start), prev.start;
    }
  }

  /** `todo` with its first span taking in the second. */
  function WithNext(todo: seq<Span>): seq<Span>
    requires |todo| > 1
  {
    [todo[0].(end := todo[1].end)] + todo[2..]
  }

  lemma NextMerged(todo: seq<Span>, d: nat)
    requires d > 0 && |todo| > 1 && WFSpans(todo, d) && todo[1].start == todo[0].end && todo[1].sub == todo[0].sub
    ensures WFSpans(WithNext(todo), d) && todo[1].end >= todo[0].end
    ensures PointsOf(WithNext(todo)) == PointsOf(todo)
    ensures forall x :: After(x, todo) ==> After(x, WithNext(todo))
  {
    hide Block;
    hide PointsOf;
    hide Points;
    var merged := WithNext(todo);
    FirstAndRest(todo);
    FirstAndRest(todo[1..]);
    FirstAndRest(merged);
    assert todo[1..][1..] == todo[2..] == merged[1..];
    assert WFSpan(todo[0], d) && WFSpan(todo[1], d);
    assert forall i :: 1 <= i < |merged| ==> merged[i] == todo[i + 1] && merged[i] in todo;
    BlockSplit(todo[0].start, todo[0].end, todo[1].end, Points(todo[0].sub));
  }

  method MergeNext(todo0: seq<Span>, ghost d: nat) returns (todo: seq<Span>)
    requires d > 0 && todo0 != [] && WFSpans(todo0, d)
    ensures todo != [] && WFSpans(todo, d) && |todo| <= |todo0|
    ensures todo[0] == todo0[0].(end := todo[0].end) && todo[0].end >= todo0[0].end
    ensures PointsOf(todo) == PointsOf(todo0)
    ensures forall x :: After(x, todo0) ==> After(x, todo)
  {
    todo := todo0;
    while |todo| > 1 && todo[1].start == todo[0].end && todo[1].sub == todo[0].sub
      invariant todo != [] && WFSpans(todo, d) && |todo| <= |todo0|
      invariant todo[0] == todo0[0].(end := todo[0].end) && todo[0].end >= todo0[0].end
      invariant PointsOf(todo) == PointsOf(todo0)
      invariant forall x :: After(x, todo0) ==> After(x, todo)
      decreases |todo|
    {
      NextMerged(todo, d);
      todo := WithNext(todo);
    }
  }

  // ---------------------------------------------------------------- editing at the cursor

  /** `sraSpanInsertAfter` of the part from `x` on. */
  function SplitAfter(todo: seq<Span>, x: int): seq<Span>
    requires todo != []
  {
    [todo[0].(end := x), todo[0].(start := x)] + todo[1..]
  }

  function WithSub(todo: seq<Span>, sub: SpanList): seq<Span>
    requires todo != []
  {
    [todo[0].(sub := sub)] + todo[1..]
  }

  lemma SplitAfterPoints(todo: seq<Span>, x: int)
    requires todo != [] && todo[0].start < x < todo[0].end
    ensures PointsOf(SplitAfter(todo, x)) == PointsOf(todo)
  {
    hide Block;
    hide PointsOf;
    hide Points;
    var rest := SplitAfter(todo, x)[1..];
    assert rest[1..] == todo[1..];
    FirstAndRest(todo);
    FirstAndRest(SplitAfter(todo, x));
    FirstAndRest(rest);
    BlockSplit(todo[0].start, x, todo[0].end, Points(todo[0].sub));
  }

  lemma SplitAfterKeeps(done: seq<Span>, lo: int, todo: seq<Span>, d: nat, x: int)
    requires d > 0 && todo != [] && Cut(done, lo, todo, d) && todo[0].start < x < todo[0].end
    ensures Cut(done, lo, SplitAfter(todo, x), d)
    ensures PointsOf(SplitAfter(todo, x)) == PointsOf(todo)
  {
    hide Block;
    hide PointsOf;
    hide Points;
    assert WFSpan(todo[0], d);
    var cut := SplitAfter(todo, x);
    assert todo[0] in todo && forall i :: 2 <= i < |cut| ==> cut[i] == todo[i - 1] && cut[i] in todo;
    assert forall s :: s in cut ==> s == cut[0] || s == cut[1] || s in todo;
    assert WFSpan(cut[0], d) && WFSpan(cut[1], d);
    SplitAfterPoints(todo, x);
  }

  /** Cutting the front of the current span off and leaving it before the cursor. */
  lemma SplitBeforeKeeps(done: seq<Span>, lo: int, todo: seq<Span>, d: nat, x: int)
    requires d > 0 && todo != [] && Cut(done, lo, todo, d) && todo[0].start < x < todo[0].end
    ensures Cut(done + [todo[0].(end := x)], x, Stretched(todo, x), d)
    ensures PointsOf(done + [todo[0].(end := x)]) + PointsOf(Stretched(todo, x)) == PointsOf(done) + PointsOf(todo)
  {
    var front := todo[0].(end := x);
    assert WFSpan(todo[0], d);
    Together(done, [front]);
    OneSpan(front);
    FirstAndRest(todo);
    FirstAndRest(Stretched(todo, x));
    BlockSplit(todo[0].start, x, todo[0].end, Points(todo[0].sub));
    CutIsWhole(done, lo, [front], d);
  }

  lemma StepKeeps(done: seq<Span>, lo: int, todo: seq<Span>, d: nat)
    requires d > 0 && todo != [] && Cut(done, lo, todo, d)
    ensures Cut(done + [todo[0]], todo[0].end, todo[1..], d)
    ensures PointsOf(done + [todo[0]]) + PointsOf(todo[1..]) == PointsOf(done) + PointsOf(todo)
  {
    assert WFSpan(todo[0], d);
    Together(done, [todo[0]]);
    Together([todo[0]], todo[1..]);
    assert todo == [todo[0]] + todo[1..];
    WholeIsCut([todo[0]], todo[1..], d);
    CutIsWhole(done, lo, [todo[0]], d);
  }

  lemma InsertKeeps(done: seq<Span>, lo: int, new_: Span, todo: seq<Span>, d: nat)
    requires d > 0 && Cut(done, lo, todo, d) && WFSpan(new_, d) && lo <= new_.start && After(new_.end, todo)
    ensures Cut(done + [new_], new_.end, todo, d)
    ensures PointsOf(done + [new_]) == PointsOf(done) + Block(new_.start, new_.end, Points(new_.sub))
  {
    Together(done, [new_]);
    OneSpan(new_);
    CutIsWhole(done, lo, [new_], d);
  }

  lemma WithSubKeeps(done: seq<Span>, lo: int, todo: seq<Span>, d: nat, sub: SpanList)
    requires d > 0 && todo != [] && Cut(done, lo, todo, d) && WF(sub, d - 1) && !Empty(sub)
    ensures Cut(done, lo, WithSub(todo, sub), d)
    ensures PointsOf(WithSub(todo, sub)) == Block(todo[0].start, todo[0].end, Points(sub)) + PointsOf(todo[1..])
  {
    assert WFSpan(todo[0], d);
    FirstAndRest(WithSub(todo, sub));
  }
}
