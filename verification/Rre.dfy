/**
 * RRE and CoRRE (section 7.7.3 of RFC 6143 and its compact variant): a background pixel and a
 * list of subrectangles. The two differ in how a rectangle's place is written.
 */
module Rre {
  import opened Arithmetic
  import opened Bytes
  import opened Rectangles
  import opened CopyRects
  import opened Pixels
  import opened RawRects
  import opened Subrects
  import opened UpdateBuffers

  datatype Kind = RRE | CoRRE

  /** `sz_rfbRectangle` and `sz_rfbCoRRERectangle` */
  function PlaceSize(kind: Kind): nat {
    if kind == RRE then 8 else 4
  }

  function SubSize(d: Depth, kind: Kind): nat {
    d + PlaceSize(kind)
  }

  /** What the fields of a subrectangle can hold. */
  predicate Writable(s: Sub, d: Depth, kind: Kind) {
    var most := if kind == RRE then 0x1_0000 else 0x100;
    IsPixel(s.colour, d) && s.x < most && s.y < most && s.w < most && s.h < most
  }

  function PlaceBytes(s: Sub, kind: Kind): (b: Bytestring)
    requires Writable(s, 4, kind)
    ensures |b| == PlaceSize(kind)
  {
    if kind == RRE then Be16(s.x) + Be16(s.y) + Be16(s.w) + Be16(s.h) else [s.x, s.y, s.w, s.h]
  }

  function SubBytes(s: Sub, d: Depth, kind: Kind): (b: Bytestring)
    requires Writable(s, d, kind)
    ensures |b| == SubSize(d, kind)
  {
    PixelBytes(s.colour, d) + PlaceBytes(s, kind)
  }

  function SubsBytes(subs: seq<Sub>, d: Depth, kind: Kind): (b: Bytestring)
    requires forall s :: s in subs ==> Writable(s, d, kind)
    ensures |b| == |subs| * SubSize(d, kind)
  {
    if subs == [] then []
    else
      assert |subs| * SubSize(d, kind) == (|subs| - 1) * SubSize(d, kind) + SubSize(d, kind);
      SubsBytes(subs[..|subs| - 1], d, kind) + SubBytes(subs[|subs| - 1], d, kind)
  }

  /** The message behind the rectangle header. */
  function Message(bg: nat, subs: seq<Sub>, d: Depth, kind: Kind): Bytestring
    requires IsPixel(bg, d) && |subs| < 0x1_0000_0000 && forall s :: s in subs ==> Writable(s, d, kind)
  {
    Be32(|subs|) + PixelBytes(bg, d) + SubsBytes(subs, d, kind)
  }

  // ---------------------------------------------------------------- reading

  function SubAt(s: Bytestring, i: nat, d: Depth, kind: Kind): Sub
    requires i + SubSize(d, kind) <= |s|
  {
    var p := i + d;
    var colour := ReadPixel(s, i, d);
    if kind == RRE then Sub(ReadBe16(s, p), ReadBe16(s, p + 2), ReadBe16(s, p + 4), ReadBe16(s, p + 6), colour)
    else Sub(s[p], s[p + 1], s[p + 2], s[p + 3], colour)
  }

  function SubsAt(s: Bytestring, i: nat, n: nat, d: Depth, kind: Kind): (subs: seq<Sub>)
    requires i + n * SubSize(d, kind) <= |s|
    ensures |subs| == n
  {
    if n == 0 then [] else SubsAt(s, i, n - 1, d, kind) + [SubAt(s, i + (n - 1) * SubSize(d, kind), d, kind)]
  }

  /** The client reads what there is, or the connection is given up. */
  datatype Parsed = Parsed(bg: nat, subs: seq<Sub>, next: nat) | Truncated

  function Parse(s: Bytestring, i: nat, d: Depth, kind: Kind): Parsed {
    if i + 4 + d > |s| then Truncated
    else
      var n, at := ReadBe32(s, i), i + 4 + d;
      if at + n * SubSize(d, kind) > |s| then Truncated
      else Parsed(ReadPixel(s, i + 4, d), SubsAt(s, at, n, d, kind), at + n * SubSize(d, kind))
  }

  lemma SubReadBack(s: Bytestring, i: nat, sub: Sub, d: Depth, kind: Kind)
    requires Writable(sub, d, kind) && At(s, i, SubBytes(sub, d, kind))
    ensures SubAt(s, i, d, kind) == sub
  {
    hide PixelBytes;
    hide ReadPixel;
    AtConcat(s, i, PixelBytes(sub.colour, d), PlaceBytes(sub, kind));
    ReadWritten(s, i, sub.colour, d);
    var p := i + d;
    if kind == RRE {
      AtConcat(s, p, Be16(sub.x) + Be16(sub.y) + Be16(sub.w), Be16(sub.h));
      AtConcat(s, p, Be16(sub.x) + Be16(sub.y), Be16(sub.w));
      AtConcat(s, p, Be16(sub.x), Be16(sub.y));
      hide Be16;
      hide ReadBe16;
      ReadBe16Written(s, p, sub.x);
      ReadBe16Written(s, p + 2, sub.y);
      ReadBe16Written(s, p + 4, sub.w);
      ReadBe16Written(s, p + 6, sub.h);
    } else {
      var b := PlaceBytes(sub, kind);
      AtIndex(s, p, b, 0);
      AtIndex(s, p, b, 1);
      AtIndex(s, p, b, 2);
      AtIndex(s, p, b, 3);
    }
  }

  lemma {:induction false} SubsReadBack(s: Bytestring, i: nat, subs: seq<Sub>, d: Depth, kind: Kind)
    requires (forall s :: s in subs ==> Writable(s, d, kind)) && At(s, i, SubsBytes(subs, d, kind))
    ensures SubsAt(s, i, |subs|, d, kind) == subs
  {
    hide SubBytes;
    hide SubAt;
    if subs != [] {
      var before, last := subs[..|subs| - 1], subs[|subs| - 1];
      AtConcat(s, i, SubsBytes(before, d, kind), SubBytes(last, d, kind));
      SubsReadBack(s, i, before, d, kind);
      SubReadBack(s, i + |before| * SubSize(d, kind), last, d, kind);
    }
  }

  /** A message reads back as what was written, and not a byte more is taken. */
  lemma MessageReadsBack(s: Bytestring, i: nat, bg: nat, subs: seq<Sub>, d: Depth, kind: Kind)
    requires IsPixel(bg, d) && |subs| < 0x1_0000_0000 && forall s :: s in subs ==> Writable(s, d, kind)
    requires At(s, i, Message(bg, subs, d, kind))
    ensures Parse(s, i, d, kind) == Parsed(bg, subs, i + |Message(bg, subs, d, kind)|)
  {
    hide PixelBytes;
    hide ReadPixel;
    hide SubsBytes;
    hide SubsAt;
    AtConcat(s, i, Be32(|subs|) + PixelBytes(bg, d), SubsBytes(subs, d, kind));
    AtConcat(s, i, Be32(|subs|), PixelBytes(bg, d));
    ReadBe32Written(s, i, |subs|);
    ReadWritten(s, i + 4, bg, d);
    SubsReadBack(s, i + 4 + d, subs, d, kind);
  }

  // ---------------------------------------------------------------- the client

  /** The rectangle shows the subrectangles over their background; all else is as before. */
  ghost predicate ShowsSubs(now: Picture, was: Picture, r: Rect, bg: int, subs: seq<Sub>) {
    forall p :: now(p) == if InRect(p, r) then ColourAt(bg, subs, Moved(p, -r.x1, -r.y1)) else was(p)
  }

  /** Painting a cover of the picture shows the picture. */
  lemma CoverShows(now: Picture, was: Picture, pic: Picture, r: Rect, bg: int, subs: seq<Sub>)
    requires r.x1 <= r.x2 && r.y1 <= r.y2 && ShowsSubs(now, was, r, bg, subs)
    requires IsCover(PartOf(pic, r.x1, r.y1), bg, subs, r.x2 - r.x1, r.y2 - r.y1)
    ensures ShowsPart(now, was, r, pic)
  {
    forall p
      ensures now(p) == if InRect(p, r) then pic(p) else was(p)
    {
      if InRect(p, r) {
        var q := Moved(p, -r.x1, -r.y1);
        assert InTile(q, r.x2 - r.x1, r.y2 - r.y1) && Moved(q, r.x1, r.y1) == p;
        assert PartOf(pic, r.x1, r.y1)(q) == pic(p);
      }
    }
  }

  predicate Inside(s: Sub, r: Rect) {
    s.x + s.w <= r.x2 - r.x1 && s.y + s.h <= r.y2 - r.y1
  }

  lemma OneMoreSub(now: Picture, mid: Picture, was: Picture, r: Rect, bg: int, subs: seq<Sub>, s: Sub)
    requires ShowsSubs(mid, was, r, bg, subs) && Inside(s, r)
    requires ShowsFill(now, mid, Rect(r.x1 + s.x, r.y1 + s.y, r.x1 + s.x + s.w, r.y1 + s.y + s.h), s.colour)
    ensures ShowsSubs(now, was, r, bg, subs + [s])
  {
    assert (subs + [s])[..|subs|] == subs;
  }

  lemma BackgroundFirst(now: Picture, was: Picture, r: Rect, bg: int)
    requires ShowsFill(now, was, r, bg)
    ensures ShowsSubs(now, was, r, bg, [])
  {
  }

  /** The client checks no coordinate, so every subrectangle that has arrived must lie in its rectangle. */
  ghost predicate SubsInside(s: Bytestring, at: nat, n: nat, r: Rect, d: Depth, kind: Kind) {
    forall k :: 0 <= k < n ==> SubInside(s, at, k, r, d, kind)
  }

  predicate SubInside(s: Bytestring, at: nat, k: nat, r: Rect, d: Depth, kind: Kind) {
    var p := at + k * SubSize(d, kind);
    p + SubSize(d, kind) <= |s| ==> Inside(SubAt(s, p, d, kind), r)
  }

  /** What the client takes for granted about a message. */
  ghost predicate Trusted(s: Bytestring, i: nat, r: Rect, d: Depth, kind: Kind) {
    i + 4 + d <= |s| ==>
      SubsInside(s, i + 4 + d, ReadBe32(s, i), r, d, kind) &&
      (kind == CoRRE ==> ReadBe32(s, i) * SubSize(d, kind) <= RFB_BUFFER_SIZE)
  }

  method PaintSub(fb: Frame, r: Rect, sub: Sub, ghost was: Picture, ghost bg: int, ghost subs: seq<Sub>)
    requires RectOnScreen(fb, r) && Inside(sub, r) && ShowsSubs(Shown(fb), was, r, bg, subs)
    modifies fb
    ensures ShowsSubs(Shown(fb), was, r, bg, subs + [sub])
  {
    ghost var mid := Shown(fb);
    hide ShowsSubs;
    FillRectangle(fb, r.x1 + sub.x, r.y1 + sub.y, sub.w, sub.h, sub.colour);
    OneMoreSub(Shown(fb), mid, was, r, bg, subs, sub);
  }

  /** The loop over the subrectangles; RRE reads them one at a time, CoRRE all at once. */
  method HandleSubs(fb: Frame, s: Bytestring, at: nat, n: nat, r: Rect, d: Depth, kind: Kind, ghost was: Picture, ghost bg: int)
    returns (ok: bool, next: nat)
    requires RectOnScreen(fb, r) && at <= |s| && SubsInside(s, at, n, r, d, kind) && ShowsSubs(Shown(fb), was, r, bg, [])
    modifies fb
    ensures ok <==> at + n * SubSize(d, kind) <= |s|
    ensures ok ==> next == at + n * SubSize(d, kind) && ShowsSubs(Shown(fb), was, r, bg, SubsAt(s, at, n, d, kind))
  {
    hide ShowsSubs;
    hide SubAt;
    hide ReadPixel;
    next := at;
    var size := SubSize(d, kind);
    if kind == CoRRE && at + n * size > |s| {
      return false, next;
    }
    for k := 0 to n
      invariant next == at + k * size <= |s| && ShowsSubs(Shown(fb), was, r, bg, SubsAt(s, at, k, d, kind))
    {
      assert SubInside(s, at, k, r, d, kind);
      assert (k + 1) * size == k * size + size;
      if next + size > |s| {
        ProductAtMost(k + 1, n, size);
        return false, next;
      }
      PaintSub(fb, r, SubAt(s, next, d, kind), was, bg, SubsAt(s, at, k, d, kind));
      next := next + size;
    }
    ok := true;
  }

  /** `HandleRRE` and `HandleCoRRE` */
  method HandleSubrects(fb: Frame, s: Bytestring, i: nat, r: Rect, d: Depth, kind: Kind) returns (ok: bool, next: nat)
    requires RectOnScreen(fb, r) && Trusted(s, i, r, d, kind)
    modifies fb
    ensures ok <==> Parse(s, i, d, kind).Parsed?
    ensures ok ==> var m := Parse(s, i, d, kind); next == m.next && ShowsSubs(Shown(fb), old(Shown(fb)), r, m.bg, m.subs)
  {
    next := i;
    if i + 4 + d > |s| {
      return false, next;
    }
    hide ReadBe32;
    hide ReadPixel;
    hide SubsAt;
    hide SubAt;
    hide SubsInside;
    var n, bg := ReadBe32(s, i), ReadPixel(s, i + 4, d);
    FillRectangle(fb, r.x1, r.y1, r.x2 - r.x1, r.y2 - r.y1, bg);
    BackgroundFirst(Shown(fb), old(Shown(fb)), r, bg);
    ok, next := HandleSubs(fb, s, i + 4 + d, n, r, d, kind, old(Shown(fb)), bg);
  }
}
