/**
 * The rectangles a search for subrectangles has to find, told by the picture alone: in reading
 * order, at each pixel that is neither background nor covered yet, the bigger of two rectangles
 * of its colour that start there.
 */
module Greedy {
  import opened Arithmetic
  import opened Rectangles
  import opened CopyRects
  import opened Subrects

  // ---------------------------------------------------------------- the rectangle at one pixel

  /** The run of one colour from `(x, j)` to the right is at least, or exactly, `n` pixels long. */
  ghost predicate RunAtLeast(pic: Picture, w: nat, h: nat, x: nat, j: nat, c: int, n: nat) {
    j < h && x + n <= w && forall i :: x <= i < x + n ==> pic(Pt(i, j)) == c
  }

  ghost predicate RunIs(pic: Picture, w: nat, h: nat, x: nat, j: nat, c: int, n: nat) {
    RunAtLeast(pic, w, h, x, j, c, n) && (x + n == w || pic(Pt(x + n, j)) != c)
  }

  /** `n` rows from `y` on with runs of `m` pixels or more. */
  ghost predicate AllRuns(pic: Picture, w: nat, h: nat, x: nat, y: nat, c: int, m: nat, n: nat) {
    forall j :: y <= j < y + n ==> RunAtLeast(pic, w, h, x, j, c, m)
  }

  /** The widest rectangle: all of the first row's run, as high as the rows below allow. */
  ghost predicate IsHorizontal(pic: Picture, w: nat, h: nat, x: nat, y: nat, c: int, m: nat, n: nat) {
    RunIs(pic, w, h, x, y, c, m) && 0 < n && y + n <= h && AllRuns(pic, w, h, x, y, c, m, n) &&
    (y + n == h || !RunAtLeast(pic, w, h, x, y + n, c, m))
  }

  /** The tallest rectangle: all of the left column's run, as wide as every row of it allows. */
  ghost predicate IsVertical(pic: Picture, w: nat, h: nat, x: nat, y: nat, c: int, m: nat, n: nat) {
    0 < n && y + n <= h && AllRuns(pic, w, h, x, y, c, m, n) && 0 < m && (y + n == h || pic(Pt(x, y + n)) != c) &&
    exists j :: y <= j < y + n && RunIs(pic, w, h, x, j, c, m)
  }

  /** The bigger of the two, which is the tall one if they are alike. */
  ghost predicate Chosen(pic: Picture, w: nat, h: nat, s: Sub) {
    exists hw: nat, hh: nat, vw: nat, vh: nat ::
      IsHorizontal(pic, w, h, s.x, s.y, s.colour, hw, hh) && IsVertical(pic, w, h, s.x, s.y, s.colour, vw, vh) &&
      if hw * hh > vw * vh then s.w == hw && s.h == hh else s.w == vw && s.h == vh
  }

  lemma HorizontalIsUnique(pic: Picture, w: nat, h: nat, x: nat, y: nat, c: int, m: nat, n: nat, m': nat, n': nat)
    requires IsHorizontal(pic, w, h, x, y, c, m, n) && IsHorizontal(pic, w, h, x, y, c, m', n')
    ensures m == m' && n == n'
  {
    assert m == m';
  }

  lemma HeightIsUnique(pic: Picture, w: nat, h: nat, x: nat, y: nat, c: int, m: nat, n: nat, m': nat, n': nat)
    requires IsVertical(pic, w, h, x, y, c, m, n) && IsVertical(pic, w, h, x, y, c, m', n')
    ensures n == n'
  {
    hide RunAtLeast;
    forall j | y <= j < y + n
      ensures pic(Pt(x, j)) == c
    {
      FirstOfRun(pic, w, h, x, j, c, m);
    }
    forall j | y <= j < y + n'
      ensures pic(Pt(x, j)) == c
    {
      FirstOfRun(pic, w, h, x, j, c, m');
    }
  }

  lemma FirstOfRun(pic: Picture, w: nat, h: nat, x: nat, j: nat, c: int, n: nat)
    requires RunAtLeast(pic, w, h, x, j, c, n) && n > 0
    ensures pic(Pt(x, j)) == c
  {
  }

  lemma VerticalIsUnique(pic: Picture, w: nat, h: nat, x: nat, y: nat, c: int, m: nat, n: nat, m': nat, n': nat)
    requires IsVertical(pic, w, h, x, y, c, m, n) && IsVertical(pic, w, h, x, y, c, m', n')
    ensures m == m' && n == n'
  {
    HeightIsUnique(pic, w, h, x, y, c, m, n, m', n');
    var j :| y <= j < y + n && RunIs(pic, w, h, x, j, c, m);
    var j' :| y <= j' < y + n' && RunIs(pic, w, h, x, j', c, m');
    assert RunAtLeast(pic, w, h, x, j, c, m') && RunAtLeast(pic, w, h, x, j', c, m);
  }

  /** There is one choice at a pixel. */
  lemma ChosenIsUnique(pic: Picture, w: nat, h: nat, s: Sub, t: Sub)
    requires Chosen(pic, w, h, s) && Chosen(pic, w, h, t) && s.x == t.x && s.y == t.y && s.colour == t.colour
    ensures s == t
  {
    hide IsHorizontal;
    hide IsVertical;
    var hw: nat, hh: nat, vw: nat, vh: nat :|
      IsHorizontal(pic, w, h, s.x, s.y, s.colour, hw, hh) && IsVertical(pic, w, h, s.x, s.y, s.colour, vw, vh) &&
      if hw * hh > vw * vh then s.w == hw && s.h == hh else s.w == vw && s.h == vh;
    var hw': nat, hh': nat, vw': nat, vh': nat :|
      IsHorizontal(pic, w, h, t.x, t.y, t.colour, hw', hh') && IsVertical(pic, w, h, t.x, t.y, t.colour, vw', vh') &&
      if hw' * hh' > vw' * vh' then t.w == hw' && t.h == hh' else t.w == vw' && t.h == vh';
    HorizontalIsUnique(pic, w, h, s.x, s.y, s.colour, hw, hh, hw', hh');
    VerticalIsUnique(pic, w, h, s.x, s.y, s.colour, vw, vh, vw', vh');
  }

  lemma RunOfSame(pic: Picture, pic': Picture, w: nat, h: nat, x: nat, j: nat, c: int, n: nat)
    requires forall p :: InTile(p, w, h) ==> pic'(p) == pic(p)
    ensures RunAtLeast(pic', w, h, x, j, c, n) == RunAtLeast(pic, w, h, x, j, c, n)
    ensures RunIs(pic', w, h, x, j, c, n) == RunIs(pic, w, h, x, j, c, n)
  {
    if j < h && x + n <= w {
      assert forall i :: x <= i < x + n ==> InTile(Pt(i, j), w, h);
      assert x + n < w ==> InTile(Pt(x + n, j), w, h);
    }
  }

  lemma HorizontalOfSame(pic: Picture, pic': Picture, w: nat, h: nat, x: nat, y: nat, c: int, m: nat, n: nat)
    requires IsHorizontal(pic, w, h, x, y, c, m, n) && forall p :: InTile(p, w, h) ==> pic'(p) == pic(p)
    ensures IsHorizontal(pic', w, h, x, y, c, m, n)
  {
    hide RunIs;
    hide RunAtLeast;
    forall j: nat
      ensures RunAtLeast(pic', w, h, x, j, c, m) == RunAtLeast(pic, w, h, x, j, c, m)
    {
      RunOfSame(pic, pic', w, h, x, j, c, m);
    }
    RunOfSame(pic, pic', w, h, x, y, c, m);
  }

  lemma VerticalOfSame(pic: Picture, pic': Picture, w: nat, h: nat, x: nat, y: nat, c: int, m: nat, n: nat)
    requires IsVertical(pic, w, h, x, y, c, m, n) && x < w && forall p :: InTile(p, w, h) ==> pic'(p) == pic(p)
    ensures IsVertical(pic', w, h, x, y, c, m, n)
  {
    hide RunIs;
    hide RunAtLeast;
    forall j: nat
      ensures RunAtLeast(pic', w, h, x, j, c, m) == RunAtLeast(pic, w, h, x, j, c, m)
      ensures RunIs(pic', w, h, x, j, c, m) == RunIs(pic, w, h, x, j, c, m)
    {
      RunOfSame(pic, pic', w, h, x, j, c, m);
    }
    assert y + n < h ==> InTile(Pt(x, y + n), w, h);
  }

  /** Only the pixels of the tile matter. */
  lemma ChosenOfSame(pic: Picture, pic': Picture, w: nat, h: nat, s: Sub)
    requires Chosen(pic, w, h, s) && s.x < w && forall p :: InTile(p, w, h) ==> pic'(p) == pic(p)
    ensures Chosen(pic', w, h, s)
  {
    hide IsHorizontal;
    hide IsVertical;
    var hw: nat, hh: nat, vw: nat, vh: nat :|
      IsHorizontal(pic, w, h, s.x, s.y, s.colour, hw, hh) && IsVertical(pic, w, h, s.x, s.y, s.colour, vw, vh) &&
      if hw * hh > vw * vh then s.w == hw && s.h == hh else s.w == vw && s.h == vh;
    HorizontalOfSame(pic, pic', w, h, s.x, s.y, s.colour, hw, hh);
    VerticalOfSame(pic, pic', w, h, s.x, s.y, s.colour, vw, vh);
  }

  // ---------------------------------------------------------------- the search

  /** The picture with the rectangles found turned into background. */
  ghost function Left(pic: Picture, bg: int, subs: seq<Sub>): Picture {
    (p: Pt) => if Covered(subs, p) then bg else pic(p)
  }

  /** `s` is what is found behind `subs`: chosen at the first pixel left. */
  ghost predicate NextSub(pic: Picture, bg: int, subs: seq<Sub>, s: Sub, w: nat, h: nat) {
    s.x < w && s.y < h && s.colour == Left(pic, bg, subs)(Pt(s.x, s.y)) != bg && Chosen(Left(pic, bg, subs), w, h, s) &&
    forall p :: InTile(p, w, h) && Scanned(p, s.x, s.y) ==> Left(pic, bg, subs)(p) == bg
  }

  /** Each of the rectangles is the one to be found behind those before it. */
  ghost predicate Searched(pic: Picture, bg: int, subs: seq<Sub>, w: nat, h: nat) {
    forall k :: 0 <= k < |subs| ==> NextSub(pic, bg, subs[..k], subs[k], w, h)
  }

  ghost predicate NothingLeft(pic: Picture, bg: int, subs: seq<Sub>, w: nat, h: nat) {
    forall p :: InTile(p, w, h) ==> Left(pic, bg, subs)(p) == bg
  }

  /** The search to its end. */
  ghost predicate GreedyCover(pic: Picture, bg: int, subs: seq<Sub>, w: nat, h: nat) {
    Searched(pic, bg, subs, w, h) && NothingLeft(pic, bg, subs, w, h)
  }

  /** `head` bytes and `per` for each of the rectangles are within the limit; no rectangles always are. */
  predicate Fits(n: nat, head: nat, per: nat, limit: nat) {
    n == 0 || head + per * n <= limit
  }

  /** The search to its end is within the limit. */
  ghost predicate Pays(pic: Picture, bg: int, w: nat, h: nat, head: nat, per: nat, limit: nat) {
    exists subs :: GreedyCover(pic, bg, subs, w, h) && Fits(|subs|, head, per, limit)
  }

  lemma NextSubIsUnique(pic: Picture, bg: int, subs: seq<Sub>, s: Sub, t: Sub, w: nat, h: nat)
    requires NextSub(pic, bg, subs, s, w, h) && NextSub(pic, bg, subs, t, w, h)
    ensures s == t
  {
    hide Chosen;
    hide Left;
    var a, b := Pt(s.x, s.y), Pt(t.x, t.y);
    assert InTile(a, w, h) && InTile(b, w, h);
    assert !Scanned(a, t.x, t.y) && !Scanned(b, s.x, s.y);
    ChosenIsUnique(Left(pic, bg, subs), w, h, s, t);
  }

  lemma {:induction false} SearchesAgree(pic: Picture, bg: int, a: seq<Sub>, b: seq<Sub>, w: nat, h: nat, k: nat)
    requires Searched(pic, bg, a, w, h) && Searched(pic, bg, b, w, h) && k <= |a| && k <= |b|
    ensures a[..k] == b[..k]
  {
    hide NextSub;
    if k > 0 {
      SearchesAgree(pic, bg, a, b, w, h, k - 1);
      NextSubIsUnique(pic, bg, a[..k - 1], a[k - 1], b[k - 1], w, h);
      assert a[..k] == a[..k - 1] + [a[k - 1]] && b[..k] == b[..k - 1] + [b[k - 1]];
    }
  }

  /** A longer search found something that the shorter one left. */
  lemma LongerSearch(pic: Picture, bg: int, a: seq<Sub>, b: seq<Sub>, w: nat, h: nat)
    requires Searched(pic, bg, a, w, h) && Searched(pic, bg, b, w, h) && |a| < |b|
    ensures !NothingLeft(pic, bg, a, w, h)
  {
    hide Left;
    hide Chosen;
    SearchesAgree(pic, bg, a, b, w, h, |a|);
    assert b[..|a|] == a;
    assert InTile(Pt(b[|a|].x, b[|a|].y), w, h);
  }

  /** Every search is a start of the one that leaves nothing. */
  lemma SearchIsPrefix(pic: Picture, bg: int, full: seq<Sub>, subs: seq<Sub>, w: nat, h: nat)
    requires GreedyCover(pic, bg, full, w, h) && Searched(pic, bg, subs, w, h)
    ensures subs <= full
  {
    hide Searched;
    hide NothingLeft;
    if |subs| > |full| {
      LongerSearch(pic, bg, full, subs, w, h);
    } else {
      SearchesAgree(pic, bg, full, subs, w, h, |subs|);
    }
  }

  /** A search given up in the middle because the next rectangle is too much: the whole does not pay. */
  lemma GivenUp(pic: Picture, bg: int, subs: seq<Sub>, w: nat, h: nat, head: nat, per: nat, limit: nat)
    requires Searched(pic, bg, subs, w, h) && !NothingLeft(pic, bg, subs, w, h) && limit < head + per * (|subs| + 1)
    ensures !Pays(pic, bg, w, h, head, per, limit)
  {
    forall full | GreedyCover(pic, bg, full, w, h)
      ensures !Fits(|full|, head, per, limit)
    {
      SearchIsPrefix(pic, bg, full, subs, w, h);
      assert |full| == |subs| ==> full == subs;
      ProductAtMost(|subs| + 1, |full|, per);
    }
  }

  /** A search that came to its end decides whether it pays. */
  lemma PaysIff(pic: Picture, bg: int, subs: seq<Sub>, w: nat, h: nat, head: nat, per: nat, limit: nat)
    requires GreedyCover(pic, bg, subs, w, h)
    ensures Pays(pic, bg, w, h, head, per, limit) <==> Fits(|subs|, head, per, limit)
  {
    forall full | GreedyCover(pic, bg, full, w, h)
      ensures full == subs
    {
      SearchIsPrefix(pic, bg, full, subs, w, h);
      SearchIsPrefix(pic, bg, subs, full, w, h);
    }
  }

  lemma NextSubOfSame(pic: Picture, pic': Picture, bg: int, subs: seq<Sub>, s: Sub, w: nat, h: nat)
    requires NextSub(pic, bg, subs, s, w, h) && forall p :: InTile(p, w, h) ==> pic'(p) == pic(p)
    ensures NextSub(pic', bg, subs, s, w, h)
  {
    hide Chosen;
    assert InTile(Pt(s.x, s.y), w, h);
    ChosenOfSame(Left(pic, bg, subs), Left(pic', bg, subs), w, h, s);
  }

  /** Only the pixels of the tile matter. */
  lemma GreedyOfSame(pic: Picture, pic': Picture, bg: int, subs: seq<Sub>, w: nat, h: nat)
    requires GreedyCover(pic, bg, subs, w, h) && forall p :: InTile(p, w, h) ==> pic'(p) == pic(p)
    ensures GreedyCover(pic', bg, subs, w, h)
  {
    hide NextSub;
    forall k | 0 <= k < |subs|
      ensures NextSub(pic', bg, subs[..k], subs[k], w, h)
    {
      NextSubOfSame(pic, pic', bg, subs[..k], subs[k], w, h);
    }
  }

  lemma PaysForSame(pic: Picture, pic': Picture, bg: int, w: nat, h: nat, head: nat, per: nat, limit: nat)
    requires forall p :: InTile(p, w, h) ==> pic'(p) == pic(p)
    ensures Pays(pic, bg, w, h, head, per, limit) <==> Pays(pic', bg, w, h, head, per, limit)
  {
    hide GreedyCover;
    if Pays(pic, bg, w, h, head, per, limit) {
      var subs :| GreedyCover(pic, bg, subs, w, h) && Fits(|subs|, head, per, limit);
      GreedyOfSame(pic, pic', bg, subs, w, h);
    }
    if Pays(pic', bg, w, h, head, per, limit) {
      var subs :| GreedyCover(pic', bg, subs, w, h) && Fits(|subs|, head, per, limit);
      GreedyOfSame(pic', pic, bg, subs, w, h);
    }
  }

  // ---------------------------------------------------------------- two pictures

  /** Where all is background there is nothing to find. */
  lemma OneColour(pic: Picture, bg: int, w: nat, h: nat)
    requires forall p :: InTile(p, w, h) ==> pic(p) == bg
    ensures GreedyCover(pic, bg, [], w, h)
  {
  }

  /** One rectangle of another colour is found as it is. */
  lemma OneRectangle(pic: Picture, bg: int, s: Sub, w: nat, h: nat)
    requires SubFits(s, w, h) && s.colour != bg
    requires forall p :: InTile(p, w, h) ==> pic(p) == if InRect(p, RectOf(s)) then s.colour else bg
    ensures GreedyCover(pic, bg, [s], w, h)
  {
    hide Chosen;
    var left := Left(pic, bg, []);
    ChosenAlone(pic, bg, s, w, h);
    ChosenOfSame(pic, left, w, h, s);
    assert [s][..0] == [] && InTile(Pt(s.x, s.y), w, h);
    assert s in [s];
    assert NextSub(pic, bg, [], s, w, h);
  }

  lemma ChosenAlone(pic: Picture, bg: int, s: Sub, w: nat, h: nat)
    requires SubFits(s, w, h) && s.colour != bg
    requires forall p :: InTile(p, w, h) ==> pic(p) == if InRect(p, RectOf(s)) then s.colour else bg
    ensures Chosen(pic, w, h, s)
  {
    assert forall i, j :: 0 <= i < w && 0 <= j < h ==> InTile(Pt(i, j), w, h);
    assert AllRuns(pic, w, h, s.x, s.y, s.colour, s.w, s.h);
    assert RunIs(pic, w, h, s.x, s.y, s.colour, s.w);
    if s.y + s.h < h {
      assert pic(Pt(s.x, s.y + s.h)) == bg;
    }
    assert IsHorizontal(pic, w, h, s.x, s.y, s.colour, s.w, s.h);
    assert IsVertical(pic, w, h, s.x, s.y, s.colour, s.w, s.h);
  }
}
