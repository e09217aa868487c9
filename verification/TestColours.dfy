/** Hextile's look at the colours of a tile: one, two, or more. */
module TestColours {
  import opened Background
  import opened Rectangles
  import opened CopyRects
  import opened Subrects

  /** How many of the pixels before `(x, y)` in reading order are of colour `c`. */
  ghost function CountTo(pic: Picture, c: int, w: nat, x: nat, y: nat): nat {
    Count(pic, c, w, y) + RowCount(pic, c, y, x)
  }

  /** What the loop knows before `(x, y)`. */
  ghost predicate Tested(pic: Picture, w: nat, h: nat, x: nat, y: nat, c1: int, n1: nat, c2: int, n2: nat, solid: bool) {
    n1 == CountTo(pic, c1, w, x, y) && (n1 == 0 <==> x == 0 && y == 0) && (n1 == 0 ==> solid) &&
    (if solid then n2 == 0 else c1 != c2 && n2 > 0 && n2 == CountTo(pic, c2, w, x, y)) &&
    forall p :: InTile(p, w, h) && Scanned(p, x, y) ==> pic(p) == c1 || (!solid && pic(p) == c2)
  }

  lemma {:induction false} NoneInRow(pic: Picture, c: int, w: nat, h: nat, y: nat, x: nat)
    requires y < h && x <= w && forall p :: InTile(p, w, h) && p.y == y && p.x < x ==> pic(p) != c
    ensures RowCount(pic, c, y, x) == 0
  {
    if x > 0 {
      NoneInRow(pic, c, w, h, y, x - 1);
      assert InTile(Pt(x - 1, y), w, h);
    }
  }

  lemma {:induction false} NoneBefore(pic: Picture, c: int, w: nat, h: nat, y: nat)
    requires y <= h && forall p :: InTile(p, w, h) && p.y < y ==> pic(p) != c
    ensures Count(pic, c, w, y) == 0
  {
    if y > 0 {
      NoneBefore(pic, c, w, h, y - 1);
      NoneInRow(pic, c, w, h, y - 1, w);
    }
  }

  /** A colour that is counted occurs. */
  lemma CountedToOccurs(pic: Picture, c: int, w: nat, h: nat, x: nat, y: nat)
    requires y <= h && x <= w && (x > 0 ==> y < h) && CountTo(pic, c, w, x, y) > 0
    ensures Occurs(pic, c, w, h)
  {
    if Count(pic, c, w, y) > 0 {
      CountedOccurs(pic, c, w, h, y);
    } else {
      assert x > 0;
      CountedInRow(pic, c, w, h, y, x);
    }
  }

  /** The pixel at `(x, y)` is looked at. */
  method TestPixel(v: nat, c1: nat, n1: nat, c2: nat, n2: nat, solid: bool, ghost pic: Picture, ghost w: nat, ghost h: nat, ghost x: nat, ghost y: nat)
    returns (c1': nat, n1': nat, c2': nat, n2': nat, solid': bool, third: bool)
    requires x < w && y < h && v == pic(Pt(x, y)) && Tested(pic, w, h, x, y, c1, n1, c2, n2, solid)
    ensures third ==> solid' == solid && !solid && v != c1 && v != c2 && c1' == c1 && n1' == n1 && c2' == c2 && n2' == n2
    ensures !third ==> Tested(pic, w, h, x + 1, y, c1', n1', c2', n2', solid')
  {
    c1', n1', c2', n2', solid', third := c1, n1, c2, n2, solid, false;
    assert forall p :: InTile(p, w, h) && Scanned(p, x + 1, y) ==> Scanned(p, x, y) || p == Pt(x, y);
    if n1' == 0 {
      c1' := v;
      assert CountTo(pic, v, w, x, y) == 0;
    }
    assert forall c :: CountTo(pic, c, w, x + 1, y) == CountTo(pic, c, w, x, y) + if c == v then 1 else 0;
    if v == c1' {
      n1' := n1' + 1;
      return;
    }
    if n2' == 0 {
      NoneBefore(pic, v, w, h, y);
      NoneInRow(pic, v, w, h, y, x);
      solid' := false;
      c2' := v;
    }
    if v == c2' {
      n2' := n2' + 1;
      return;
    }
    third := true;
  }

  /** What `testColours` returns through its pointers. */
  datatype Colours = Colours(mono: bool, solid: bool, bg: nat, fg: nat)

  /** Up to `(x, y)`, where there is a third colour, there are only two, and `bg` is the more frequent. */
  ghost predicate UpToThird(pic: Picture, w: nat, h: nat, x: nat, y: nat, bg: int, other: int) {
    x < w && y < h && pic(Pt(x, y)) != bg && pic(Pt(x, y)) != other && bg != other &&
    (forall p :: InTile(p, w, h) && Scanned(p, x, y) ==> pic(p) == bg || pic(p) == other) &&
    CountTo(pic, bg, w, x, y) >= CountTo(pic, other, w, x, y) > 0
  }

  /** The verdict: what the two flags and the two colours mean. */
  ghost predicate Verdict(pic: Picture, w: nat, h: nat, k: Colours) {
    var Colours(mono, solid, bg, fg) := k;
    Occurs(pic, bg, w, h) &&
    (solid <==> forall p :: InTile(p, w, h) ==> pic(p) == bg) &&
    (mono <==> exists c :: OnlyColours(pic, w, h, bg, c)) &&
    (mono ==> OnlyColours(pic, w, h, bg, fg) || solid) &&
    (mono && !solid ==> Occurs(pic, fg, w, h) && fg != bg && Count(pic, bg, w, h) >= Count(pic, fg, w, h)) &&
    (!mono ==> exists x, y, other :: UpToThird(pic, w, h, x, y, bg, other))
  }

  lemma UpToThirdOfSame(pic: Picture, pic': Picture, w: nat, h: nat, x: nat, y: nat, bg: int, other: int)
    requires UpToThird(pic, w, h, x, y, bg, other) && forall p :: InTile(p, w, h) ==> pic'(p) == pic(p)
    ensures UpToThird(pic', w, h, x, y, bg, other)
  {
    hide Count;
    hide RowCount;
    assert InTile(Pt(x, y), w, h);
    forall c
      ensures CountTo(pic', c, w, x, y) == CountTo(pic, c, w, x, y)
    {
      CountOfSame(pic, pic', c, w, h, y);
      RowCountOfSame(pic, pic', c, w, h, y, x);
    }
  }

  /** Only the pixels of the tile matter. */
  lemma VerdictOfSame(pic: Picture, pic': Picture, w: nat, h: nat, k: Colours)
    requires Verdict(pic, w, h, k) && forall p :: InTile(p, w, h) ==> pic'(p) == pic(p)
    ensures Verdict(pic', w, h, k)
  {
    hide Count;
    CountOfSame(pic, pic', k.bg, w, h, h);
    CountOfSame(pic, pic', k.fg, w, h, h);
    hide UpToThird;
    if !k.mono {
      var x, y, other :| UpToThird(pic, w, h, x, y, k.bg, other);
      UpToThirdOfSame(pic, pic', w, h, x, y, k.bg, other);
    }
    forall c
      ensures OnlyColours(pic', w, h, k.bg, c) == OnlyColours(pic, w, h, k.bg, c)
    {
    }
  }

  ghost predicate OnlyColours(pic: Picture, w: nat, h: nat, a: int, b: int) {
    forall p :: InTile(p, w, h) ==> pic(p) == a || pic(p) == b
  }

  /** Pixels are unsigned. */
  ghost predicate Unsigned(data: Frame)
    reads data
  {
    forall v, u :: 0 <= v < data.Length0 && 0 <= u < data.Length1 ==> 0 <= data[v, u]
  }

  /** The loop over the pixels, left at the first third colour. */
  method TestLoop(data: Frame) returns (mono: bool, c1: nat, n1: nat, c2: nat, n2: nat, solid: bool, ghost x: nat, ghost y: nat)
    requires data.Length0 > 0 && data.Length1 > 0 && Unsigned(data)
    ensures Tested(Shown(data), data.Length1, data.Length0, x, y, c1, n1, c2, n2, solid)
    ensures if mono then x == 0 && y == data.Length0
            else x < data.Length1 && y < data.Length0 && !solid && Shown(data)(Pt(x, y)) != c1 && Shown(data)(Pt(x, y)) != c2
  {
    hide Tested;
    mono, solid := true, true;
    c1, n1, c2, n2 := 0, 0, 0, 0;
    x, y := 0, 0;
    TestStarts(Shown(data), data.Length1, data.Length0);
    var j := 0;
    while j < data.Length0
      invariant j <= data.Length0 && y == j && x == 0 && Tested(Shown(data), data.Length1, data.Length0, 0, j, c1, n1, c2, n2, solid)
    {
      var i := 0;
      while i < data.Length1
        invariant i <= data.Length1 && x == i && Tested(Shown(data), data.Length1, data.Length0, i, j, c1, n1, c2, n2, solid)
      {
        var third;
        c1, n1, c2, n2, solid, third := TestPixel(data[j, i], c1, n1, c2, n2, solid, Shown(data), data.Length1, data.Length0, i, j);
        if third {
          mono := false;
          return;
        }
        i := i + 1;
        x := i;
      }
      TestNextRow(Shown(data), data.Length1, data.Length0, j, c1, n1, c2, n2, solid);
      j := j + 1;
      x, y := 0, j;
    }
  }

  lemma TestStarts(pic: Picture, w: nat, h: nat)
    ensures Tested(pic, w, h, 0, 0, 0, 0, 0, 0, true)
  {
  }

  lemma TestNextRow(pic: Picture, w: nat, h: nat, y: nat, c1: int, n1: nat, c2: int, n2: nat, solid: bool)
    requires w > 0 && Tested(pic, w, h, w, y, c1, n1, c2, n2, solid)
    ensures Tested(pic, w, h, 0, y + 1, c1, n1, c2, n2, solid)
  {
    assert forall p :: InTile(p, w, h) && Scanned(p, 0, y + 1) ==> Scanned(p, w, y);
  }

  lemma TestEnds(pic: Picture, w: nat, h: nat, x: nat, y: nat, mono: bool, c1: nat, n1: nat, c2: nat, n2: nat, solid: bool)
    requires w > 0 && h > 0 && Tested(pic, w, h, x, y, c1, n1, c2, n2, solid)
    requires if mono then x == 0 && y == h else x < w && y < h && !solid && pic(Pt(x, y)) != c1 && pic(Pt(x, y)) != c2
    ensures Verdict(pic, w, h, if n1 > n2 then Colours(mono, solid, c1, c2) else Colours(mono, solid, c2, c1))
  {
    assert n1 > 0;
    CountedToOccurs(pic, c1, w, h, x, y);
    if !solid {
      CountedToOccurs(pic, c2, w, h, x, y);
    }
    var bg := if n1 > n2 then c1 else c2;
    var fg := if n1 > n2 then c2 else c1;
    if mono {
      assert forall p :: InTile(p, w, h) ==> Scanned(p, 0, h);
      assert OnlyColours(pic, w, h, bg, fg);
    } else {
      var p := Pt(x, y);
      assert InTile(p, w, h);
      var q :| InTile(q, w, h) && pic(q) == fg;
      forall c
        ensures !OnlyColours(pic, w, h, bg, c)
      {
        assert pic(p) != bg && pic(q) != bg && pic(p) != pic(q);
      }
      assert UpToThird(pic, w, h, x, y, bg, fg);
    }
  }

  /** `testColours` */
  method TestColours(data: Frame) returns (k: Colours)
    requires data.Length0 > 0 && data.Length1 > 0 && Unsigned(data)
    ensures Verdict(Shown(data), data.Length1, data.Length0, k)
  {
    hide Verdict;
    hide Tested;
    ghost var x, y;
    var mono, c1, n1, c2, n2, solid;
    mono, c1, n1, c2, n2, solid, x, y := TestLoop(data);
    TestEnds(Shown(data), data.Length1, data.Length0, x, y, mono, c1, n1, c2, n2, solid);
    if n1 > n2 {
      k := Colours(mono, solid, c1, c2);
    } else {
      k := Colours(mono, solid, c2, c1);
    }
  }
}
