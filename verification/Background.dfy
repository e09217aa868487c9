/** The background colour RRE and CoRRE choose: the most frequent one, where that is cheap to find. */
module Background {
  import opened Rectangles
  import opened CopyRects
  import opened Pixels
  import opened RawRects
  import opened Subrects

  ghost function RowCount(pic: Picture, c: int, y: nat, n: nat): nat {
    if n == 0 then 0 else RowCount(pic, c, y, n - 1) + if pic(Pt(n - 1, y)) == c then 1 else 0
  }

  /** How many pixels of the top `h` rows are of colour `c`. */
  ghost function Count(pic: Picture, c: int, w: nat, h: nat): nat {
    if h == 0 then 0 else Count(pic, c, w, h - 1) + RowCount(pic, c, h - 1, w)
  }

  ghost predicate Occurs(pic: Picture, c: int, w: nat, h: nat) {
    exists p :: InTile(p, w, h) && pic(p) == c
  }

  lemma {:induction false} CountedInRow(pic: Picture, c: int, w: nat, h: nat, y: nat, n: nat)
    requires y < h && n <= w && RowCount(pic, c, y, n) > 0
    ensures Occurs(pic, c, w, h)
  {
    assert n > 0;
    if pic(Pt(n - 1, y)) == c {
      assert InTile(Pt(n - 1, y), w, h);
    } else {
      CountedInRow(pic, c, w, h, y, n - 1);
    }
  }

  lemma {:induction false} CountedOccurs(pic: Picture, c: int, w: nat, h: nat, n: nat)
    requires n <= h && Count(pic, c, w, n) > 0
    ensures Occurs(pic, c, w, h)
  {
    assert n > 0;
    if RowCount(pic, c, n - 1, w) > 0 {
      CountedInRow(pic, c, w, h, n - 1, w);
    } else {
      CountedOccurs(pic, c, w, h, n - 1);
    }
  }

  /** The state of the counting loops after `y` rows and `x` pixels. */
  ghost predicate Counted(counts: seq<int>, maxcount: int, maxclr: nat, pic: Picture, w: nat, y: nat, x: nat) {
    |counts| == 256 && maxclr < 256 && counts[maxclr] == maxcount &&
    forall c :: 0 <= c < 256 ==> counts[c] == Count(pic, c, w, y) + RowCount(pic, c, y, x) && counts[c] <= maxcount
  }

  lemma CountStarts(counts: seq<int>, pic: Picture, w: nat)
    requires |counts| == 256 && forall c :: 0 <= c < 256 ==> counts[c] == 0
    ensures Counted(counts, 0, 0, pic, w, 0, 0)
  {
  }

  /** One pixel of colour `k` more. */
  lemma CountNext(counts: seq<int>, maxcount: int, maxclr: nat, pic: Picture, w: nat, y: nat, x: nat, k: nat)
    requires Counted(counts, maxcount, maxclr, pic, w, y, x) && k < 256 && pic(Pt(x, y)) == k
    ensures |counts| == 256
    ensures var n := counts[k] + 1;
            Counted(counts[k := n], if n > maxcount then n else maxcount, if n > maxcount then k else maxclr, pic, w, y, x + 1) &&
            (n > maxcount || maxcount > 0) && n > 0
  {
  }

  lemma CountNextRow(counts: seq<int>, maxcount: int, maxclr: nat, pic: Picture, w: nat, y: nat)
    requires Counted(counts, maxcount, maxclr, pic, w, y, w)
    ensures Counted(counts, maxcount, maxclr, pic, w, y + 1, 0)
  {
  }

  lemma CountEnds(counts: seq<int>, maxcount: int, maxclr: nat, pic: Picture, w: nat, h: nat)
    requires Counted(counts, maxcount, maxclr, pic, w, h, 0) && maxcount > 0
    ensures Occurs(pic, maxclr, w, h) && maxclr < 256 && forall c :: 0 <= c < 256 ==> Count(pic, c, w, h) <= Count(pic, maxclr, w, h)
  {
    CountedOccurs(pic, maxclr, w, h, h);
  }

  method CountColours(data: Frame) returns (maxclr: nat)
    requires data.Length0 > 0 && data.Length1 > 0
    requires forall v, u :: 0 <= v < data.Length0 && 0 <= u < data.Length1 ==> 0 <= data[v, u] < 256
    ensures Occurs(Shown(data), maxclr, data.Length1, data.Length0) && maxclr < 256
    ensures forall c :: 0 <= c < 256 ==> Count(Shown(data), c, data.Length1, data.Length0) <= Count(Shown(data), maxclr, data.Length1, data.Length0)
  {
    hide Counted;
    hide Count;
    hide Occurs;
    ghost var pic, w := Shown(data), data.Length1;
    var counts := new int[256](k => 0);
    var maxcount := 0;
    maxclr := 0;
    CountStarts(counts[..], pic, w);
    for y := 0 to data.Length0
      invariant Counted(counts[..], maxcount, maxclr, pic, w, y, 0)
      invariant y > 0 ==> maxcount > 0
    {
      for x := 0 to data.Length1
        invariant Counted(counts[..], maxcount, maxclr, pic, w, y, x)
        invariant y > 0 || x > 0 ==> maxcount > 0
      {
        var k := data[y, x];
        CountNext(counts[..], maxcount, maxclr, pic, w, y, x, k);
        ghost var was := counts[..];
        counts[k] := counts[k] + 1;
        assert counts[..] == was[k := was[k] + 1];
        if counts[k] > maxcount {
          maxcount, maxclr := counts[k], k;
        }
      }
      CountNextRow(counts[..], maxcount, maxclr, pic, w, y);
    }
    CountEnds(counts[..], maxcount, maxclr, pic, w, data.Length0);
  }

  /** What is taken for the background: a most frequent colour of 8-bit pixels, or else the first pixel's. */
  ghost predicate IsBackground(pic: Picture, bg: int, w: nat, h: nat, d: Depth) {
    Occurs(pic, bg, w, h) && IsPixel(bg, d) &&
    if d == 1 then forall c :: 0 <= c < 256 ==> Count(pic, c, w, h) <= Count(pic, bg, w, h) else pic(Pt(0, 0)) == bg
  }

  lemma {:induction false} RowCountOfSame(pic: Picture, pic': Picture, c: int, w: nat, h: nat, y: nat, n: nat)
    requires y < h && n <= w && forall p :: InTile(p, w, h) ==> pic'(p) == pic(p)
    ensures RowCount(pic', c, y, n) == RowCount(pic, c, y, n)
  {
    if n > 0 {
      assert InTile(Pt(n - 1, y), w, h);
      RowCountOfSame(pic, pic', c, w, h, y, n - 1);
    }
  }

  lemma {:induction false} CountOfSame(pic: Picture, pic': Picture, c: int, w: nat, h: nat, n: nat)
    requires n <= h && forall p :: InTile(p, w, h) ==> pic'(p) == pic(p)
    ensures Count(pic', c, w, n) == Count(pic, c, w, n)
  {
    if n > 0 {
      RowCountOfSame(pic, pic', c, w, h, n - 1, w);
      CountOfSame(pic, pic', c, w, h, n - 1);
    }
  }

  /** Only the pixels of the tile matter. */
  lemma BackgroundOfSame(pic: Picture, pic': Picture, bg: int, w: nat, h: nat, d: Depth)
    requires IsBackground(pic, bg, w, h, d) && w > 0 && h > 0 && forall p :: InTile(p, w, h) ==> pic'(p) == pic(p)
    ensures IsBackground(pic', bg, w, h, d)
  {
    hide Count;
    assert InTile(Pt(0, 0), w, h);
    forall c
      ensures Count(pic', c, w, h) == Count(pic, c, w, h)
    {
      CountOfSame(pic, pic', c, w, h, h);
    }
  }

  /** `getBgColour` */
  method GetBgColour(data: Frame, d: Depth) returns (bg: nat)
    requires data.Length0 > 0 && data.Length1 > 0 && InDepth(Shown(data), Rect(0, 0, data.Length1, data.Length0), d)
    ensures IsBackground(Shown(data), bg, data.Length1, data.Length0, d)
  {
    hide Count;
    assert forall p :: InTile(p, data.Length1, data.Length0) ==> InRect(p, Rect(0, 0, data.Length1, data.Length0));
    forall v, u | 0 <= v < data.Length0 && 0 <= u < data.Length1
      ensures IsPixel(data[v, u], d)
    {
      assert InRect(Pt(u, v), Rect(0, 0, data.Length1, data.Length0));
    }
    if d == 1 {
      bg := CountColours(data);
    } else {
      bg := data[0, 0];
      assert InTile(Pt(0, 0), data.Length1, data.Length0) && Shown(data)(Pt(0, 0)) == bg;
    }
  }
}
