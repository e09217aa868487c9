/**
 * The greedy cover behind RRE, CoRRE and Hextile: a background overwritten by rectangles of one
 * colour each. The three encoders share the search and differ in what a rectangle costs.
 */
module Subrects {
  import opened Rectangles
  import opened CopyRects
  import opened Pixels
  import opened RawRects

  /** A rectangle of one colour, relative to its tile. */
  datatype Sub = Sub(x: nat, y: nat, w: nat, h: nat, colour: int)

  function RectOf(s: Sub): Rect {
    Rect(s.x, s.y, s.x + s.w, s.y + s.h)
  }

  /** Painting in order: the last rectangle that holds a pixel decides. */
  function ColourAt(bg: int, subs: seq<Sub>, p: Pt): int {
    if subs == [] then bg
    else if InRect(p, RectOf(subs[|subs| - 1])) then subs[|subs| - 1].colour
    else ColourAt(bg, subs[..|subs| - 1], p)
  }

  ghost predicate Covered(subs: seq<Sub>, p: Pt) {
    exists s :: s in subs && InRect(p, RectOf(s))
  }

  /** No two rectangles share a pixel. */
  ghost predicate Disjoint(subs: seq<Sub>) {
    forall i, j, p :: 0 <= i < j < |subs| && InRect(p, RectOf(subs[i])) ==> !InRect(p, RectOf(subs[j]))
  }

  predicate SubFits(s: Sub, w: int, h: int) {
    0 < s.w && 0 < s.h && s.x + s.w <= w && s.y + s.h <= h
  }

  ghost predicate InTile(p: Pt, w: nat, h: nat) {
    0 <= p.x < w && 0 <= p.y < h
  }

  /**
   * `subs` cover exactly the pixels of `pic` that differ from the background and are not left
   * in `rest`, each in its own colour, and no pixel twice.
   */
  ghost predicate Covering(pic: Picture, rest: Picture, bg: int, subs: seq<Sub>, w: nat, h: nat) {
    Disjoint(subs) && (forall s :: s in subs ==> SubFits(s, w, h) && s.colour != bg) &&
    forall p :: InTile(p, w, h) ==>
      if Covered(subs, p) then rest(p) == bg && pic(p) != bg && pic(p) == ColourAt(bg, subs, p)
      else rest(p) == pic(p)
  }

  lemma {:induction false} UncoveredIsBackground(bg: int, subs: seq<Sub>, p: Pt)
    requires !Covered(subs, p)
    ensures ColourAt(bg, subs, p) == bg
  {
    if subs != [] {
      assert subs[|subs| - 1] in subs;
      UncoveredIsBackground(bg, subs[..|subs| - 1], p);
    }
  }

  lemma CoveredSteps(subs: seq<Sub>, s: Sub, p: Pt)
    ensures Covered(subs + [s], p) <==> Covered(subs, p) || InRect(p, RectOf(s))
  {
    if InRect(p, RectOf(s)) {
      assert s in subs + [s];
    }
    if Covered(subs, p) {
      var t :| t in subs && InRect(p, RectOf(t));
      assert t in subs + [s];
    }
  }

  /** Nothing but background left: painting the rectangles gives the picture. */
  lemma CoverPaints(pic: Picture, rest: Picture, bg: int, subs: seq<Sub>, w: nat, h: nat)
    requires Covering(pic, rest, bg, subs, w, h) && forall p :: InTile(p, w, h) ==> rest(p) == bg
    ensures forall p :: InTile(p, w, h) ==> pic(p) == ColourAt(bg, subs, p) && (Covered(subs, p) <==> pic(p) != bg)
  {
    forall p | InTile(p, w, h)
      ensures pic(p) == ColourAt(bg, subs, p) && (Covered(subs, p) <==> pic(p) != bg)
    {
      if !Covered(subs, p) {
        UncoveredIsBackground(bg, subs, p);
      }
    }
  }

  /** A rectangle of one colour other than the background joins the cover. */
  lemma CoverGrows(pic: Picture, rest: Picture, rest': Picture, bg: int, subs: seq<Sub>, s: Sub, w: nat, h: nat)
    requires Covering(pic, rest, bg, subs, w, h) && SubFits(s, w, h) && s.colour != bg
    requires forall p :: InRect(p, RectOf(s)) ==> rest(p) == s.colour
    requires ShowsFill(rest', rest, RectOf(s), bg)
    ensures Covering(pic, rest', bg, subs + [s], w, h)
  {
    var subs' := subs + [s];
    assert subs'[..|subs|] == subs;
    forall p | InTile(p, w, h)
      ensures if Covered(subs', p) then rest'(p) == bg && pic(p) != bg && pic(p) == ColourAt(bg, subs', p)
              else rest'(p) == pic(p)
    {
      CoveredSteps(subs, s, p);
    }
    forall i, j, p | 0 <= i < j < |subs'| && InRect(p, RectOf(subs'[i]))
      ensures !InRect(p, RectOf(subs'[j]))
    {
      if j == |subs| {
        assert subs'[i] in subs;
        assert InTile(p, w, h) && Covered(subs, p);
      }
    }
  }

  // ---------------------------------------------------------------- the whole tile

  /**
   * Painting `subs` over the background gives `pic`: they cover exactly the pixels that differ
   * from the background, each in its own colour, and no pixel twice.
   */
  ghost predicate IsCover(pic: Picture, bg: int, subs: seq<Sub>, w: nat, h: nat) {
    Disjoint(subs) && (forall s :: s in subs ==> SubFits(s, w, h) && s.colour != bg) &&
    forall p :: InTile(p, w, h) ==> pic(p) == ColourAt(bg, subs, p) && (Covered(subs, p) <==> pic(p) != bg)
  }

  /** The pixels before `(x, y)` in reading order. */
  predicate Scanned(p: Pt, x: nat, y: nat) {
    p.y < y || (p.y == y && p.x < x)
  }

  // ---------------------------------------------------------------- what a cover tells

  /** Disjoint rectangles show their own colours. */
  lemma {:induction false} OwnColour(bg: int, subs: seq<Sub>, k: nat, p: Pt)
    requires Disjoint(subs) && k < |subs| && InRect(p, RectOf(subs[k]))
    ensures ColourAt(bg, subs, p) == subs[k].colour
  {
    if k < |subs| - 1 {
      var before := subs[..|subs| - 1];
      assert forall i :: 0 <= i < |before| ==> before[i] == subs[i];
      OwnColour(bg, before, k, p);
    }
  }

  /** Every rectangle of a cover is of one colour in the picture. */
  lemma CoverIsMonochrome(pic: Picture, bg: int, subs: seq<Sub>, w: nat, h: nat, s: Sub, p: Pt)
    requires IsCover(pic, bg, subs, w, h) && s in subs && InRect(p, RectOf(s))
    ensures InTile(p, w, h) && pic(p) == s.colour
  {
    var k :| 0 <= k < |subs| && subs[k] == s;
    OwnColour(bg, subs, k, p);
  }

  lemma CoverOfSame(pic: Picture, pic': Picture, bg: int, subs: seq<Sub>, w: nat, h: nat)
    requires IsCover(pic, bg, subs, w, h) && forall p :: InTile(p, w, h) ==> pic'(p) == pic(p)
    ensures IsCover(pic', bg, subs, w, h)
  {
  }

  // ---------------------------------------------------------------- a copy to work on

  /** The part of a picture that starts at `(x, y)`, moved to the origin. */
  ghost function PartOf(pic: Picture, x: int, y: int): Picture {
    (p: Pt) => pic(Moved(p, x, y))
  }

  lemma PartInDepth(pic: Picture, part: Picture, x: int, y: int, w: nat, h: nat, d: Depth)
    requires InDepth(pic, Rect(x, y, x + w, y + h), d) && forall p :: InTile(p, w, h) ==> part(p) == PartOf(pic, x, y)(p)
    ensures InDepth(part, Rect(0, 0, w, h), d)
  {
    forall p | InRect(p, Rect(0, 0, w, h))
      ensures IsPixel(part(p), d)
    {
      assert InTile(p, w, h) && InRect(Moved(p, x, y), Rect(x, y, x + w, y + h));
    }
  }

  lemma CopiedPart(fb: Frame, data: Frame, x: nat, y: nat)
    requires RectOnScreen(fb, Rect(x, y, x + data.Length1, y + data.Length0))
    requires forall v, u :: 0 <= v < data.Length0 && 0 <= u < data.Length1 ==> data[v, u] == fb[y + v, x + u]
    ensures forall p :: InTile(p, data.Length1, data.Length0) ==> Shown(data)(p) == PartOf(Shown(fb), x, y)(p)
  {
    forall p | InTile(p, data.Length1, data.Length0)
      ensures Shown(data)(p) == PartOf(Shown(fb), x, y)(p)
    {
      assert OnScreen(data, p) && OnScreen(fb, Moved(p, x, y));
    }
  }

  /** The encoders work on a copy of the rectangle, one array row per pixel row. */
  method CopyPart(fb: Frame, x: nat, y: nat, w: nat, h: nat) returns (data: Frame)
    requires RectOnScreen(fb, Rect(x, y, x + w, y + h))
    ensures fresh(data) && data.Length0 == h && data.Length1 == w
    ensures forall p :: InTile(p, w, h) ==> Shown(data)(p) == PartOf(Shown(fb), x, y)(p)
  {
    hide Shown;
    hide PartOf;
    hide InTile;
    data := new int[h, w];
    for j := 0 to h
      invariant forall v, u :: 0 <= v < j && 0 <= u < w ==> data[v, u] == fb[y + v, x + u]
    {
      CopyPartRow(fb, data, x, y, j);
    }
    CopiedPart(fb, data, x, y);
  }

  method CopyPartRow(fb: Frame, data: Frame, x: nat, y: nat, j: nat)
    requires RectOnScreen(fb, Rect(x, y, x + data.Length1, y + data.Length0)) && j < data.Length0 && data != fb
    modifies data
    ensures forall v, u :: 0 <= v < data.Length0 && 0 <= u < data.Length1 ==>
              data[v, u] == if v == j then fb[y + j, x + u] else old(data[v, u])
  {
    for i := 0 to data.Length1
      invariant forall v, u :: 0 <= v < data.Length0 && 0 <= u < data.Length1 ==>
                  data[v, u] == if v == j && u < i then fb[y + j, x + u] else old(data[v, u])
    {
      data[j, i] := fb[y + j, x + i];
    }
  }
}
