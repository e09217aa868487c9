/**
 * The search for subrectangles behind RRE, CoRRE and Hextile. The three encoders share it and
 * differ in what a rectangle costs.
 */
module CoverSearch {
  import opened Rectangles
  import opened CopyRects
  import opened Greedy
  import opened Pixels
  import opened Subrects

  // ---------------------------------------------------------------- one pixel

  method RunLength(data: Frame, x: nat, j: nat, c: int) returns (i: nat)
    requires x < data.Length1 && j < data.Length0 && data[j, x] == c
    ensures i >= x && RunIs(Shown(data), data.Length1, data.Length0, x, j, c, i + 1 - x)
  {
    var k := x;
    while k < data.Length1 && data[j, k] == c
      invariant x <= k <= data.Length1 && RunAtLeast(Shown(data), data.Length1, data.Length0, x, j, c, k - x)
      invariant k == x ==> data[j, x] == c
    {
      k := k + 1;
    }
    i := k - 1;
  }

  lemma RunsCompare(pic: Picture, w: nat, h: nat, x: nat, j: nat, c: int, m: nat, n: nat)
    requires RunIs(pic, w, h, x, j, c, m)
    ensures RunAtLeast(pic, w, h, x, j, c, n) <==> n <= m
  {
  }

  /** One more row, and no wider than it. */
  lemma OneMoreRow(pic: Picture, w: nat, h: nat, x: nat, y: nat, c: int, m: nat, n: nat, next: nat, m': nat)
    requires AllRuns(pic, w, h, x, y, c, m, n) && RunIs(pic, w, h, x, y + n, c, next) && m' <= next && (n > 0 ==> m' <= m)
    ensures AllRuns(pic, w, h, x, y, c, m', n + 1)
  {
    forall j | y <= j < y + n + 1
      ensures RunAtLeast(pic, w, h, x, j, c, m')
    {
      if j < y + n {
        assert RunAtLeast(pic, w, h, x, j, c, m);
      }
    }
  }

  /**
   * What is known once the rows from `y` to before `j` have been looked at: the first `n1` of them
   * are at least as wide as the first one, `m1`, and the narrowest is `m2` wide.
   */
  ghost predicate Looking(pic: Picture, w: nat, h: nat, x: nat, y: nat, c: int, j: nat, m1: int, n1: int, m2: int, same: bool) {
    y <= j <= h && 0 <= n1 <= j - y && (same <==> n1 == j - y) &&
    (j > y ==>
      0 < m2 <= m1 && 0 < n1 && RunIs(pic, w, h, x, y, c, m1) && AllRuns(pic, w, h, x, y, c, m1, n1) &&
      (!same ==> !RunAtLeast(pic, w, h, x, y + n1, c, m1)) &&
      AllRuns(pic, w, h, x, y, c, m2, j - y) && exists k :: y <= k < j && RunIs(pic, w, h, x, k, c, m2))
  }

  /** The first row. */
  lemma LookFirst(pic: Picture, w: nat, h: nat, x: nat, y: nat, c: int, m: nat)
    requires y < h && RunIs(pic, w, h, x, y, c, m) && m > 0
    ensures Looking(pic, w, h, x, y, c, y + 1, m, 1, m, true)
  {
    hide RunAtLeast;
    assert RunAtLeast(pic, w, h, x, y, c, m);
  }

  /** Another row, `m` wide. */
  lemma LookNext(pic: Picture, w: nat, h: nat, x: nat, y: nat, c: int, j: nat, m1: int, n1: int, m2: int, same: bool, m: nat)
    requires Looking(pic, w, h, x, y, c, j, m1, n1, m2, same) && y < j < h && RunIs(pic, w, h, x, j, c, m) && m > 0
    ensures Looking(pic, w, h, x, y, c, j + 1, m1, if same && m >= m1 then n1 + 1 else n1, if m < m2 then m else m2, same && m >= m1)
  {
    hide RunAtLeast;
    hide RunIs;
    RunsCompare(pic, w, h, x, j, c, m, m1);
    OneMoreRow(pic, w, h, x, y, c, m2, j - y, m, if m < m2 then m else m2);
    if same && m >= m1 {
      OneMoreRow(pic, w, h, x, y, c, m1, j - y, m, m1);
    }
    var k :| y <= k < j && RunIs(pic, w, h, x, k, c, m2);
  }

  /** All rows of the left column's run have been looked at. */
  lemma LookEnds(pic: Picture, w: nat, h: nat, x: nat, y: nat, c: int, j: nat, m1: int, n1: int, m2: int, same: bool)
    requires Looking(pic, w, h, x, y, c, j, m1, n1, m2, same) && y < j && x < w && (j == h || pic(Pt(x, j)) != c)
    ensures m1 >= 0 && n1 >= 0 && m2 >= 0 && IsHorizontal(pic, w, h, x, y, c, m1, n1) && IsVertical(pic, w, h, x, y, c, m2, j - y)
  {
    if same && j < h {
      assert !RunAtLeast(pic, w, h, x, y + n1, c, m1);
    }
  }

  /** The two candidates at a pixel, of which the bigger is taken. */
  method FindSub(data: Frame, x: nat, y: nat) returns (thew: nat, theh: nat)
    requires x < data.Length1 && y < data.Length0
    ensures Chosen(Shown(data), data.Length1, data.Length0, Sub(x, y, thew, theh, data[y, x]))
  {
    hide Looking;
    hide IsHorizontal;
    hide IsVertical;
    hide RunIs;
    var c := data[y, x];
    ghost var pic, w, h := Shown(data), data.Length1, data.Length0;
    var hx, hy, vx := x, y - 1, x;
    var hyflag := true;
    var j := y;
    while j < data.Length0 && data[j, x] == c
      invariant y <= j <= data.Length0 && (j == y ==> hyflag && hy == y - 1)
      invariant j > y ==> Looking(pic, w, h, x, y, c, j, hx - x + 1, hy - y + 1, vx - x + 1, hyflag)
    {
      var i := RunLength(data, x, j, c);
      if j == y {
        LookFirst(pic, w, h, x, y, c, i + 1 - x);
        vx, hx := i, i;
      } else {
        LookNext(pic, w, h, x, y, c, j, hx - x + 1, hy - y + 1, vx - x + 1, hyflag, i + 1 - x);
      }
      if i < vx {
        vx := i;
      }
      if hyflag && i >= hx {
        hy := hy + 1;
      } else {
        hyflag := false;
      }
      j := j + 1;
    }
    assert j < data.Length0 ==> pic(Pt(x, j)) == data[j, x];
    LookEnds(pic, w, h, x, y, c, j, hx - x + 1, hy - y + 1, vx - x + 1, hyflag);
    var vy := j - 1;
    var hw, hh, vw, vh := hx - x + 1, hy - y + 1, vx - x + 1, vy - y + 1;
    if hw * hh > vw * vh {
      thew, theh := hw, hh;
    } else {
      thew, theh := vw, vh;
    }
  }

  /** What is chosen lies in the tile and is of one colour. */
  lemma ChosenFits(pic: Picture, w: nat, h: nat, s: Sub)
    requires Chosen(pic, w, h, s) && s.x < w && s.y < h && pic(Pt(s.x, s.y)) == s.colour
    ensures SubFits(s, w, h) && forall p :: InRect(p, RectOf(s)) ==> pic(p) == s.colour
  {
    assert AllRuns(pic, w, h, s.x, s.y, s.colour, s.w, s.h) && 0 < s.w && 0 < s.h && s.y + s.h <= h;
    assert RunAtLeast(pic, w, h, s.x, s.y, s.colour, s.w);
    forall p | InRect(p, RectOf(s))
      ensures pic(p) == s.colour
    {
      assert RunAtLeast(pic, w, h, s.x, p.y, s.colour, s.w);
    }
  }

  /** The rectangle at a pixel: chosen, and all of its colour. */
  method TakeSub(data: Frame, x: nat, y: nat) returns (s: Sub)
    requires x < data.Length1 && y < data.Length0
    ensures s.x == x && s.y == y && s.colour == data[y, x] && SubFits(s, data.Length1, data.Length0)
    ensures Chosen(Shown(data), data.Length1, data.Length0, s)
    ensures forall p :: InRect(p, RectOf(s)) ==> Shown(data)(p) == s.colour
  {
    hide Chosen;
    var w, h := FindSub(data, x, y);
    s := Sub(x, y, w, h, data[y, x]);
    assert OnScreen(data, Pt(x, y));
    ChosenFits(Shown(data), data.Length1, data.Length0, s);
  }

  // ---------------------------------------------------------------- the whole tile

  /** There is a pixel of the background among those scanned. */
  ghost predicate SeenBackground(pic: Picture, bg: int, w: nat, h: nat, x: nat, y: nat) {
    exists p :: InTile(p, w, h) && Scanned(p, x, y) && pic(p) == bg
  }

  /** Everything scanned is covered or background, and every rectangle was found at a pixel of its own. */
  ghost predicate ScanState(pic: Picture, rest: Picture, bg: int, subs: seq<Sub>, w: nat, h: nat, x: nat, y: nat) {
    Covering(pic, rest, bg, subs, w, h) && Searched(pic, bg, subs, w, h) &&
    (forall p :: InTile(p, w, h) && Scanned(p, x, y) ==> rest(p) == bg) &&
    |subs| + (if SeenBackground(pic, bg, w, h, x, y) then 1 else 0) <= y * w + x
  }

  lemma ScanStarts(pic: Picture, bg: int, w: nat, h: nat)
    ensures ScanState(pic, pic, bg, [], w, h, 0, 0)
  {
  }

  /** A background pixel is passed over. */
  lemma ScanSkips(pic: Picture, rest: Picture, bg: int, subs: seq<Sub>, w: nat, h: nat, x: nat, y: nat)
    requires x < w && y < h && ScanState(pic, rest, bg, subs, w, h, x, y) && rest(Pt(x, y)) == bg
    ensures ScanState(pic, rest, bg, subs, w, h, x + 1, y)
  {
    assert forall p :: InTile(p, w, h) && Scanned(p, x + 1, y) ==> Scanned(p, x, y) || p == Pt(x, y);
  }

  /** What has been found is what is told by the picture alone. */
  lemma SearchGoesOn(pic: Picture, rest: Picture, bg: int, subs: seq<Sub>, s: Sub, w: nat, h: nat)
    requires Covering(pic, rest, bg, subs, w, h) && Searched(pic, bg, subs, w, h) && s.x < w && s.y < h && s.colour != bg
    requires Chosen(rest, w, h, s) && rest(Pt(s.x, s.y)) == s.colour
    requires forall p :: InTile(p, w, h) && Scanned(p, s.x, s.y) ==> rest(p) == bg
    ensures Searched(pic, bg, subs + [s], w, h)
  {
    hide Chosen;
    hide Disjoint;
    var left, subs' := Left(pic, bg, subs), subs + [s];
    assert forall p :: InTile(p, w, h) ==> left(p) == rest(p);
    assert InTile(Pt(s.x, s.y), w, h);
    ChosenOfSame(rest, left, w, h, s);
    assert NextSub(pic, bg, subs, s, w, h);
    hide NextSub;
    forall k | 0 <= k < |subs'|
      ensures NextSub(pic, bg, subs'[..k], subs'[k], w, h)
    {
      assert subs'[..k] == subs[..k];
      assert subs[..|subs|] == subs;
    }
  }

  /** A pixel left at the end of the scan would be left in the picture. */
  lemma LeftOver(pic: Picture, rest: Picture, bg: int, subs: seq<Sub>, w: nat, h: nat)
    requires Covering(pic, rest, bg, subs, w, h)
    ensures NothingLeft(pic, bg, subs, w, h) <==> forall p :: InTile(p, w, h) ==> rest(p) == bg
  {
    hide Disjoint;
    assert forall p :: InTile(p, w, h) ==> Left(pic, bg, subs)(p) == rest(p);
  }

  /** A rectangle starting at any other pixel is taken. */
  lemma ScanTakes(pic: Picture, rest: Picture, rest': Picture, bg: int, subs: seq<Sub>, s: Sub, w: nat, h: nat)
    requires ScanState(pic, rest, bg, subs, w, h, s.x, s.y) && SubFits(s, w, h) && s.colour != bg
    requires Chosen(rest, w, h, s) && forall p :: InRect(p, RectOf(s)) ==> rest(p) == s.colour
    requires ShowsFill(rest', rest, RectOf(s), bg)
    ensures ScanState(pic, rest', bg, subs + [s], w, h, s.x + 1, s.y)
  {
    hide Chosen;
    hide Searched;
    assert InRect(Pt(s.x, s.y), RectOf(s));
    SearchGoesOn(pic, rest, bg, subs, s, w, h);
    CoverGrows(pic, rest, rest', bg, subs, s, w, h);
    var at := Pt(s.x, s.y);
    assert InRect(at, RectOf(s)) && InTile(at, w, h);
    CoveredSteps(subs, s, at);
    assert pic(at) != bg;
    assert forall p :: InTile(p, w, h) && Scanned(p, s.x + 1, s.y) ==> Scanned(p, s.x, s.y) || p == at;
  }

  lemma NextRow(pic: Picture, rest: Picture, bg: int, subs: seq<Sub>, w: nat, h: nat, y: nat)
    requires ScanState(pic, rest, bg, subs, w, h, w, y)
    ensures ScanState(pic, rest, bg, subs, w, h, 0, y + 1)
  {
    assert forall p :: InTile(p, w, h) && Scanned(p, 0, y + 1) ==> Scanned(p, w, y);
    assert (y + 1) * w == y * w + w;
  }

  lemma ScanEnds(pic: Picture, rest: Picture, bg: int, subs: seq<Sub>, w: nat, h: nat)
    requires ScanState(pic, rest, bg, subs, w, h, 0, h)
    ensures IsCover(pic, bg, subs, w, h) && GreedyCover(pic, bg, subs, w, h)
    ensures (exists p :: InTile(p, w, h) && pic(p) == bg) ==> |subs| < w * h
  {
    hide Searched;
    assert forall p :: InTile(p, w, h) ==> Scanned(p, 0, h);
    LeftOver(pic, rest, bg, subs, w, h);
    CoverPaints(pic, rest, bg, subs, w, h);
    if exists p :: InTile(p, w, h) && pic(p) == bg {
      var p :| InTile(p, w, h) && pic(p) == bg;
      assert Scanned(p, 0, h);
    }
  }

  /** The body of the two scanning loops; `newLen` is what the encoding would grow to. */
  method CoverPixel(data: Frame, bg: int, x: nat, y: nat, subs0: seq<Sub>, newLen: nat, limit: nat, ghost pic: Picture)
    returns (ok: bool, subs: seq<Sub>)
    requires x < data.Length1 && y < data.Length0
    requires ScanState(pic, Shown(data), bg, subs0, data.Length1, data.Length0, x, y)
    modifies data
    ensures ok ==> ScanState(pic, Shown(data), bg, subs, data.Length1, data.Length0, x + 1, y)
    ensures ok ==> subs == subs0 || (|subs| == |subs0| + 1 && newLen <= limit)
    ensures !ok ==> subs == subs0 && newLen > limit && Searched(pic, bg, subs, data.Length1, data.Length0)
    ensures !ok ==> !NothingLeft(pic, bg, subs, data.Length1, data.Length0)
  {
    hide Chosen;
    hide Searched;
    hide NothingLeft;
    ok, subs := true, subs0;
    if data[y, x] != bg {
      var s := TakeSub(data, x, y);
      if newLen > limit {
        assert InTile(Pt(x, y), data.Length1, data.Length0) && OnScreen(data, Pt(x, y));
        LeftOver(pic, Shown(data), bg, subs, data.Length1, data.Length0);
        return false, subs;
      }
      ghost var rest := Shown(data);
      hide ScanState;
      FillRectangle(data, s.x, s.y, s.w, s.h, bg);
      ScanTakes(pic, rest, Shown(data), bg, subs, s, data.Length1, data.Length0);
      subs := subs + [s];
    } else {
      ScanSkips(pic, Shown(data), bg, subs, data.Length1, data.Length0, x, y);
    }
  }

  /** The lengths that go with a list of rectangles. */
  predicate LengthOk(subs: seq<Sub>, len: nat, head: nat, per: nat, limit: nat) {
    len == head + per * |subs| && (subs == [] || len <= limit)
  }

  /** One row of the scan. */
  method CoverRow(data: Frame, bg: int, y: nat, subs0: seq<Sub>, len0: nat, head: nat, per: nat, limit: nat, ghost pic: Picture)
    returns (ok: bool, subs: seq<Sub>, len: nat)
    requires y < data.Length0 && LengthOk(subs0, len0, head, per, limit)
    requires ScanState(pic, Shown(data), bg, subs0, data.Length1, data.Length0, 0, y)
    modifies data
    ensures LengthOk(subs, len, head, per, limit)
    ensures ok ==> ScanState(pic, Shown(data), bg, subs, data.Length1, data.Length0, 0, y + 1)
    ensures !ok ==> len + per > limit && Searched(pic, bg, subs, data.Length1, data.Length0)
    ensures !ok ==> !NothingLeft(pic, bg, subs, data.Length1, data.Length0)
  {
    hide ScanState;
    hide Searched;
    hide NothingLeft;
    ok, subs, len := true, subs0, len0;
    for x := 0 to data.Length1
      invariant ok && ScanState(pic, Shown(data), bg, subs, data.Length1, data.Length0, x, y)
      invariant LengthOk(subs, len, head, per, limit)
    {
      var n := |subs|;
      ok, subs := CoverPixel(data, bg, x, y, subs, len + per, limit, pic);
      if !ok {
        return;
      }
      if |subs| > n {
        len := len + per;
      }
    }
    NextRow(pic, Shown(data), bg, subs, data.Length1, data.Length0, y);
  }

  /**
   * `subrectEncode`: `head` bytes precede the rectangles, each of which takes `per` bytes; as
   * soon as the next one would make it more than `limit`, the attempt is given up. That happens
   * exactly when all of the search would be too much.
   */
  method Cover(data: Frame, bg: int, head: nat, per: nat, limit: nat) returns (ok: bool, subs: seq<Sub>)
    modifies data
    ensures ok <==> Pays(old(Shown(data)), bg, data.Length1, data.Length0, head, per, limit)
    ensures ok ==> IsCover(old(Shown(data)), bg, subs, data.Length1, data.Length0)
    ensures ok ==> GreedyCover(old(Shown(data)), bg, subs, data.Length1, data.Length0) && Fits(|subs|, head, per, limit)
    ensures ok && (exists p :: InTile(p, data.Length1, data.Length0) && old(Shown(data))(p) == bg) ==>
              |subs| < data.Length1 * data.Length0
  {
    ghost var pic := Shown(data);
    ScanStarts(pic, bg, data.Length1, data.Length0);
    hide ScanState;
    hide GreedyCover;
    hide Searched;
    hide NothingLeft;
    hide Pays;
    hide IsCover;
    subs, ok := [], true;
    var len := head;
    for y := 0 to data.Length0
      invariant ok && ScanState(pic, Shown(data), bg, subs, data.Length1, data.Length0, 0, y)
      invariant LengthOk(subs, len, head, per, limit)
    {
      ok, subs, len := CoverRow(data, bg, y, subs, len, head, per, limit, pic);
      if !ok {
        assert head + per * |subs| + per == head + per * (|subs| + 1);
        GivenUp(pic, bg, subs, data.Length1, data.Length0, head, per, limit);
        return;
      }
    }
    ScanEnds(pic, Shown(data), bg, subs, data.Length1, data.Length0);
    PaysIff(pic, bg, subs, data.Length1, data.Length0, head, per, limit);
  }

}
