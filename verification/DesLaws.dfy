/**
 * What the block cipher does with its key: complementing both key and block complements the
 * result, whatever the S-boxes hold.
 */
module DesLaws {
  import opened Des

  // ---------------------------------------------------------------- complements

  function NotBlock(b: Block): Block {
    [!b[0], !b[1], !b[2], !b[3], !b[4], !b[5], !b[6], !b[7]]
  }

  /** Every bit differs. */
  predicate Contrary(v: word, w: word) {
    v == !w
  }

  predicate ContraryPairs(p: Pair, q: Pair) {
    Contrary(p.l, q.l) && Contrary(p.r, q.r)
  }

  lemma ContraryJoin(a: bv8, b: bv8, c: bv8, d: bv8)
    ensures Contrary(Join(!a, !b, !c, !d), Join(a, b, c, d))
  {
  }

  lemma ContraryScrunch(b: Block)
    ensures ContraryPairs(Scrunch(NotBlock(b)), Scrunch(b))
  {
    hide Join;
    hide Contrary;
    ContraryJoin(b[0], b[1], b[2], b[3]);
    ContraryJoin(b[4], b[5], b[6], b[7]);
  }

  lemma ContraryParts(v: word, w: word)
    requires Contrary(v, w)
    ensures Part(v, 0) == !Part(w, 0) && Part(v, 1) == !Part(w, 1) && Part(v, 2) == !Part(w, 2) && Part(v, 3) == !Part(w, 3)
  {
  }

  lemma ContraryUnscrunch(p: Pair, q: Pair)
    requires ContraryPairs(p, q)
    ensures Unscrunch(p) == NotBlock(Unscrunch(q))
  {
    hide Part;
    hide Contrary;
    ContraryParts(p.l, q.l);
    ContraryParts(p.r, q.r);
  }

  // ---------------------------------------------------------------- the bit swaps

  lemma ContrarySwap4(p: Pair, q: Pair)
    requires ContraryPairs(p, q)
    ensures ContraryPairs(Swap4(p), Swap4(q))
  {
  }

  lemma ContrarySwap16(p: Pair, q: Pair)
    requires ContraryPairs(p, q)
    ensures ContraryPairs(Swap16(p), Swap16(q))
  {
  }

  lemma ContrarySwap2(p: Pair, q: Pair)
    requires ContraryPairs(p, q)
    ensures ContraryPairs(Swap2(p), Swap2(q))
  {
  }

  lemma ContrarySwap8(p: Pair, q: Pair)
    requires ContraryPairs(p, q)
    ensures ContraryPairs(Swap8(p), Swap8(q))
  {
  }

  // What holds of bits is proved on words, and then carried to the functions that compute them.

  lemma BitsOfXor(v: word, w: word, f: word, m: word, n: word)
    requires Contrary(v, w) && m == v ^ f && n == w ^ f
    ensures Contrary(m, n)
  {
  }

  lemma ContraryXor(v: word, w: word, f: word)
    requires Contrary(v, w)
    ensures Contrary(Xor(v, f), Xor(w, f))
  {
    hide Contrary;
    BitsOfXor(v, w, f, Xor(v, f), Xor(w, f));
  }

  lemma BitsOfRotateLeft(v: word, w: word, m: word, n: word)
    requires Contrary(v, w) && m == (v << 1) | ((v >> 31) & 1) && n == (w << 1) | ((w >> 31) & 1)
    ensures Contrary(m, n)
  {
  }

  lemma BitsOfRotateRight(v: word, w: word, m: word, n: word)
    requires Contrary(v, w) && m == (v << 31) | (v >> 1) && n == (w << 31) | (w >> 1)
    ensures Contrary(m, n)
  {
  }

  lemma ContraryLeft(v: word, w: word)
    requires Contrary(v, w)
    ensures Contrary(RotateLeft(v), RotateLeft(w))
  {
    hide Contrary;
    BitsOfRotateLeft(v, w, RotateLeft(v), RotateLeft(w));
  }

  lemma ContraryRight(v: word, w: word)
    requires Contrary(v, w)
    ensures Contrary(RotateRight(v), RotateRight(w))
  {
    hide Contrary;
    BitsOfRotateRight(v, w, RotateRight(v), RotateRight(w));
  }

  lemma BitsOfWork(v: word, w: word, x: word, y: word, m: word, n: word)
    requires Contrary(v, w) && Contrary(x, y) && m == (v ^ x) & 0xaaaa_aaaa && n == (w ^ y) & 0xaaaa_aaaa
    ensures m == n
  {
  }

  lemma SameWork(v: word, w: word, x: word, y: word)
    requires Contrary(v, w) && Contrary(x, y)
    ensures Work(v, x) == Work(w, y)
  {
    hide Contrary;
    BitsOfWork(v, w, x, y, Work(v, x), Work(w, y));
  }

  lemma ContraryMiddle(p: Pair, q: Pair)
    requires ContraryPairs(p, q)
    ensures ContraryPairs(Middle(p), Middle(q))
  {
    hide RotateLeft; hide Xor; hide Work; hide Contrary;
    ContraryLeft(p.r, q.r);
    SameWork(p.l, q.l, RotateLeft(p.r), RotateLeft(q.r));
    var work := Work(q.l, RotateLeft(q.r));
    ContraryXor(p.l, q.l, work);
    ContraryXor(RotateLeft(p.r), RotateLeft(q.r), work);
    ContraryLeft(Xor(p.l, work), Xor(q.l, work));
  }

  lemma ContraryUnmiddle(p: Pair, q: Pair)
    requires ContraryPairs(p, q)
    ensures ContraryPairs(Unmiddle(p), Unmiddle(q))
  {
    hide RotateRight; hide Xor; hide Work; hide Contrary;
    ContraryRight(p.r, q.r);
    SameWork(p.l, q.l, RotateRight(p.r), RotateRight(q.r));
    var work := Work(q.l, RotateRight(q.r));
    ContraryXor(p.l, q.l, work);
    ContraryXor(RotateRight(p.r), RotateRight(q.r), work);
    ContraryRight(Xor(p.l, work), Xor(q.l, work));
  }

  lemma ContraryFlip(p: Pair, q: Pair)
    requires ContraryPairs(p, q)
    ensures ContraryPairs(Flip(p), Flip(q))
  {
  }

  lemma ContraryStages(p: Pair, q: Pair)
    requires ContraryPairs(p, q)
    ensures ContraryPairs(InStage(p), InStage(q)) && ContraryPairs(OutStage(p), OutStage(q))
  {
    hide Swap2; hide Swap4; hide Swap8; hide Swap16; hide Middle; hide Unmiddle; hide Flip; hide ContraryPairs;
    var p1, q1 := Swap16(Swap4(p)), Swap16(Swap4(q));
    ContrarySwap4(p, q);
    ContrarySwap16(Swap4(p), Swap4(q));
    ContraryFlip(p1, q1);
    ContrarySwap2(Flip(p1), Flip(q1));
    ContrarySwap8(Swap2(Flip(p1)), Swap2(Flip(q1)));
    ContraryFlip(Swap8(Swap2(Flip(p1))), Swap8(Swap2(Flip(q1))));
    ContraryMiddle(Flip(Swap8(Swap2(Flip(p1)))), Flip(Swap8(Swap2(Flip(q1)))));
    var p2, q2 := Swap2(Swap8(Unmiddle(p))), Swap2(Swap8(Unmiddle(q)));
    ContraryUnmiddle(p, q);
    ContrarySwap8(Unmiddle(p), Unmiddle(q));
    ContrarySwap2(Swap8(Unmiddle(p)), Swap8(Unmiddle(q)));
    ContraryFlip(p2, q2);
    ContrarySwap16(Flip(p2), Flip(q2));
    ContrarySwap4(Swap16(Flip(p2)), Swap16(Flip(q2)));
  }

  // ---------------------------------------------------------------- the schedule

  lemma ContraryBit(k: bv8, j: nat)
    requires j < 8
    ensures (!k & ByteBit(j) != 0) == !(k & ByteBit(j) != 0)
  {
    var b := ByteBit(j);
    assert b == 1 || b == 2 || b == 4 || b == 8 || b == 16 || b == 32 || b == 64 || b == 128;
  }

  lemma ContraryKeyBit(key: Block, j: nat)
    requires j < 56
    ensures KeyBit(NotBlock(key), j) == !KeyBit(key, j)
  {
    hide ByteBit;
    hide Pc1;
    ContraryBit(key[Pc1(j) / 8], Pc1(j) % 8);
  }

  const TOPS: seq<word> := [
    0, 0x800000, 0xc00000, 0xe00000, 0xf00000, 0xf80000, 0xfc0000, 0xfe0000, 0xff0000,
    0xff8000, 0xffc000, 0xffe000, 0xfff000, 0xfff800, 0xfffc00, 0xfffe00, 0xffff00,
    0xffff80, 0xffffc0, 0xffffe0, 0xfffff0, 0xfffff8, 0xfffffc, 0xfffffe, 0xffffff]

  /** The highest `n` of the 24 bits of a raw word. */
  function Top(n: nat): word
    requires n <= 24
  {
    TOPS[n]
  }

  lemma NextTop(n: nat)
    requires n < 24
    ensures Top(n + 1) == Top(n) | BigByte(n) && Top(n) & BigByte(n) == 0 && BigByte(n) != 0
  {
    if n < 6 {
      NextTopFrom0(n);
    } else if n < 12 {
      NextTopFrom6(n);
    } else if n < 18 {
      NextTopFrom12(n);
    } else {
      NextTopFrom18(n);
    }
  }

  lemma NextTopFrom0(n: nat)
    requires 0 <= n < 6
    ensures Top(n + 1) == Top(n) | BigByte(n) && Top(n) & BigByte(n) == 0 && BigByte(n) != 0
  {
    assert n == 0 || n == 1 || n == 2 || n == 3 || n == 4 || n == 5;
  }

  lemma NextTopFrom6(n: nat)
    requires 6 <= n < 12
    ensures Top(n + 1) == Top(n) | BigByte(n) && Top(n) & BigByte(n) == 0 && BigByte(n) != 0
  {
    assert n == 6 || n == 7 || n == 8 || n == 9 || n == 10 || n == 11;
  }

  lemma NextTopFrom12(n: nat)
    requires 12 <= n < 18
    ensures Top(n + 1) == Top(n) | BigByte(n) && Top(n) & BigByte(n) == 0 && BigByte(n) != 0
  {
    assert n == 12 || n == 13 || n == 14 || n == 15 || n == 16 || n == 17;
  }

  lemma NextTopFrom18(n: nat)
    requires 18 <= n < 24
    ensures Top(n + 1) == Top(n) | BigByte(n) && Top(n) & BigByte(n) == 0 && BigByte(n) != 0
  {
    assert n == 18 || n == 19 || n == 20 || n == 21 || n == 22 || n == 23;
  }

  /** Exactly the bits of `top` differ, and there are no others. */
  predicate Changed(v: word, w: word, top: word) {
    v == w ^ top && w | top == top
  }

  /** A bit outside `top`, set on one side. */
  lemma BitsSet(w: word, top: word, mask: word)
    requires w | top == top && top & mask == 0
    ensures (w | mask) ^ (top | mask) == w ^ top && (w | mask) | (top | mask) == top | mask
  {
  }

  lemma BitsLeft(w: word, top: word, mask: word)
    requires w | top == top && top & mask == 0
    ensures (w ^ top) | mask == w ^ (top | mask) && w | (top | mask) == top | mask
  {
  }

  lemma SetAgainst(v: word, w: word, top: word, mask: word, w': word, more: word)
    requires Changed(v, w, top) && top & mask == 0 && w' == w | mask && more == top | mask
    ensures Changed(v, w', more)
  {
    BitsSet(w, top, mask);
  }

  lemma LeftAgainst(v: word, w: word, top: word, mask: word, w': word, more: word)
    requires Changed(v, w, top) && top & mask == 0 && w' == v | mask && more == top | mask
    ensures Changed(w', w, more)
  {
    BitsLeft(w, top, mask);
  }

  lemma OneMoreBit(v: word, w: word, top: word, mask: word, more: word, bit: bool)
    requires Changed(v, w, top) && top & mask == 0 && more == top | mask
    ensures Changed(With(v, !bit, mask), With(w, bit, mask), more)
  {
    hide Changed;
    if bit {
      SetAgainst(v, w, top, mask, With(w, bit, mask), more);
    } else {
      LeftAgainst(v, w, top, mask, With(v, !bit, mask), more);
    }
  }

  lemma BitsOfFirstWord(v: word, a: word, w: word, b: word, m: word, n: word)
    requires Changed(v, a, 0xff_ffff) && Changed(w, b, 0xff_ffff)
    requires m == ((v & 0x00fc_0000) << 6) | ((v & 0x0000_0fc0) << 10) | ((w & 0x00fc_0000) >> 10) | ((w & 0x0000_0fc0) >> 6)
    requires n == ((a & 0x00fc_0000) << 6) | ((a & 0x0000_0fc0) << 10) | ((b & 0x00fc_0000) >> 10) | ((b & 0x0000_0fc0) >> 6)
    ensures Toggled(m, n)
  {
  }

  lemma BitsOfSecondWord(v: word, a: word, w: word, b: word, m: word, n: word)
    requires Changed(v, a, 0xff_ffff) && Changed(w, b, 0xff_ffff)
    requires m == ((v & 0x0003_f000) << 12) | ((v & 0x0000_003f) << 16) | ((w & 0x0003_f000) >> 4) | (w & 0x0000_003f)
    requires n == ((a & 0x0003_f000) << 12) | ((a & 0x0000_003f) << 16) | ((b & 0x0003_f000) >> 4) | (b & 0x0000_003f)
    ensures Toggled(m, n)
  {
  }

  lemma ToggledCooked(v: word, a: word, w: word, b: word)
    requires Changed(v, a, 0xff_ffff) && Changed(w, b, 0xff_ffff)
    ensures Toggled(CookFirst(v, w), CookFirst(a, b)) && Toggled(CookSecond(v, w), CookSecond(a, b))
  {
    hide Changed; hide Toggled;
    BitsOfFirstWord(v, a, w, b, CookFirst(v, w), CookFirst(a, b));
    BitsOfSecondWord(v, a, w, b, CookSecond(v, w), CookSecond(a, b));
  }

  // ---------------------------------------------------------------- the rounds

  /** Exactly the bits that select from the S-boxes differ. */
  predicate Toggled(j: word, k: word) {
    j == k ^ 0x3f3f_3f3f
  }

  /** The two words select the same entries. */
  predicate SelectAlike(v: word, w: word) {
    v & 0x3f3f_3f3f == w & 0x3f3f_3f3f
  }

  lemma BitsOfFirst(y: word, x: word, j: word, k: word, m: word, n: word)
    requires Contrary(y, x) && Toggled(j, k) && m == ((y << 28) | (y >> 4)) ^ j && n == ((x << 28) | (x >> 4)) ^ k
    ensures SelectAlike(m, n)
  {
  }

  lemma BitsOfSecond(y: word, x: word, j: word, k: word, m: word, n: word)
    requires Contrary(y, x) && Toggled(j, k) && m == y ^ j && n == x ^ k
    ensures SelectAlike(m, n)
  {
  }

  lemma SameFirst(y: word, x: word, j: word, k: word)
    requires Contrary(y, x) && Toggled(j, k)
    ensures SelectAlike(FirstIndex(y, j), FirstIndex(x, k))
  {
    hide Contrary; hide Toggled; hide SelectAlike;
    BitsOfFirst(y, x, j, k, FirstIndex(y, j), FirstIndex(x, k));
  }

  lemma SameSecond(y: word, x: word, j: word, k: word)
    requires Contrary(y, x) && Toggled(j, k)
    ensures SelectAlike(SecondIndex(y, j), SecondIndex(x, k))
  {
    hide Contrary; hide Toggled; hide SelectAlike;
    BitsOfSecond(y, x, j, k, SecondIndex(y, j), SecondIndex(x, k));
  }

  lemma SameEntries(v: word, w: word)
    requires SelectAlike(v, w)
    ensures v & 0x3f == w & 0x3f && (v >> 8) & 0x3f == (w >> 8) & 0x3f
    ensures (v >> 16) & 0x3f == (w >> 16) & 0x3f && (v >> 24) & 0x3f == (w >> 24) & 0x3f
  {
  }

  lemma SamePicks(a: seq<word>, b: seq<word>, c: seq<word>, d: seq<word>, v: word, w: word)
    requires |a| == 64 && |b| == 64 && |c| == 64 && |d| == 64 && SelectAlike(v, w)
    ensures Picks(a, b, c, d, v) == Picks(a, b, c, d, w)
  {
    hide SelectAlike;
    SameEntries(v, w);
  }

  lemma SameLookUp(boxes: Boxes, v0: word, w0: word, v1: word, w1: word)
    requires SelectAlike(v0, w0) && SelectAlike(v1, w1)
    ensures LookUp(boxes, v0, v1) == LookUp(boxes, w0, w1)
  {
    hide SelectAlike;
    hide Picks;
    hide Or;
    SamePicks(boxes[6], boxes[4], boxes[2], boxes[0], v0, w0);
    SamePicks(boxes[7], boxes[5], boxes[3], boxes[1], v1, w1);
  }

  /** The key words meet the other half before anything is looked up: two complements cancel. */
  lemma ComplementsCancel(boxes: Boxes, y: word, x: word, j0: word, k0: word, j1: word, k1: word)
    requires Contrary(y, x) && Toggled(j0, k0) && Toggled(j1, k1)
    ensures F(boxes, y, j0, j1) == F(boxes, x, k0, k1)
  {
    hide LookUp;
    hide SelectAlike;
    hide FirstIndex;
    hide SecondIndex;
    hide Contrary;
    hide Toggled;
    SameFirst(y, x, j0, k0);
    SameSecond(y, x, j1, k1);
    SameLookUp(boxes, FirstIndex(y, j0), FirstIndex(x, k0), SecondIndex(y, j1), SecondIndex(x, k1));
  }

  lemma ContraryHalf(boxes: Boxes, s: word, t: word, y: word, x: word, j0: word, k0: word, j1: word, k1: word)
    requires Contrary(s, t) && Contrary(y, x) && Toggled(j0, k0) && Toggled(j1, k1)
    ensures Contrary(Half(boxes, s, y, j0, j1), Half(boxes, t, x, k0, k1))
  {
    hide F;
    hide Xor;
    hide Contrary;
    hide Toggled;
    ComplementsCancel(boxes, y, x, j0, k0, j1, k1);
    ContraryXor(s, t, F(boxes, x, k0, k1));
  }

  /** In every word of the schedules exactly the bits that select from the S-boxes differ. */
  predicate Opposite(js: Schedule, ks: Schedule) {
    forall i :: 0 <= i < 32 ==> Toggled(js[i], ks[i])
  }

  lemma {:induction false} ContraryRounds(boxes: Boxes, js: Schedule, ks: Schedule, p: Pair, q: Pair, n: nat)
    requires n <= 8 && Opposite(js, ks) && ContraryPairs(p, q)
    ensures ContraryPairs(Rounds(boxes, js, p, n), Rounds(boxes, ks, q, n))
  {
    hide Half;
    hide Rounds;
    hide Contrary;
    hide Toggled;
    if n == 0 {
      RoundsFromNothing(boxes, js, p);
      RoundsFromNothing(boxes, ks, q);
    } else {
      ContraryRounds(boxes, js, ks, p, q, n - 1);
      var k := 4 * (n - 1);
      var y, x := Rounds(boxes, js, p, n - 1), Rounds(boxes, ks, q, n - 1);
      OneMoreRound(boxes, js, p, n);
      OneMoreRound(boxes, ks, q, n);
      ContraryHalf(boxes, y.l, x.l, y.r, x.r, js[k], ks[k], js[k + 1], ks[k + 1]);
      var l, m := Half(boxes, y.l, y.r, js[k], js[k + 1]), Half(boxes, x.l, x.r, ks[k], ks[k + 1]);
      ContraryHalf(boxes, y.r, x.r, l, m, js[k + 2], ks[k + 2], js[k + 3], ks[k + 3]);
    }
  }

  // ---------------------------------------------------------------- the law

  lemma {:induction false} ContraryRawWord(key: Block, i: nat, from: nat, n: nat)
    requires i < 16 && n <= 24 && from <= 24
    ensures Changed(RawWord(NotBlock(key), i, from, n), RawWord(key, i, from, n), Top(n))
  {
    hide With;
    hide KeyBit;
    hide BigByte;
    hide Rotated;
    hide NotBlock;
    hide Pc2;
    hide Top;
    hide Changed;
    if n == 0 {
      NoBits();
    } else {
      var bit := Rotated(i, Pc2(from + n - 1));
      ContraryRawWord(key, i, from, n - 1);
      ContraryKeyBit(key, bit);
      NextTop(n - 1);
      OneMoreBit(RawWord(NotBlock(key), i, from, n - 1), RawWord(key, i, from, n - 1), Top(n - 1), BigByte(n - 1), Top(n), KeyBit(key, bit));
    }
  }

  lemma NoBits()
    ensures Changed(0, 0, Top(0)) && Top(24) == 0xff_ffff
  {
  }

  lemma OppositeSchedules(key: Block, edf: Direction)
    ensures Opposite(KeySchedule(NotBlock(key), edf), KeySchedule(key, edf))
  {
    hide RawWord;
    hide CookFirst;
    hide CookSecond;
    hide NotBlock;
    hide Changed;
    hide Toggled;
    hide Top;
    NoBits();
    forall i | 0 <= i < 32
      ensures Toggled(KeySchedule(NotBlock(key), edf)[i], KeySchedule(key, edf)[i])
    {
      var round := RoundAt(i / 2, edf);
      ContraryRawWord(key, round, 0, 24);
      ContraryRawWord(key, round, 24, 24);
      ToggledCooked(RawWord(NotBlock(key), round, 0, 24), RawWord(key, round, 0, 24),
                    RawWord(NotBlock(key), round, 24, 24), RawWord(key, round, 24, 24));
    }
  }

  /**
   * Complementation: the complemented block under the complemented key becomes the complement of
   * what the block becomes under the key, in both directions.
   */
  lemma Complementation(boxes: Boxes, key: Block, edf: Direction, b: Block)
    ensures Crypt(boxes, KeySchedule(NotBlock(key), edf), NotBlock(b)) == NotBlock(Crypt(boxes, KeySchedule(key, edf), b))
  {
    hide KeySchedule;
    hide Rounds;
    hide InStage;
    hide OutStage;
    hide Scrunch;
    hide Unscrunch;
    hide NotBlock;
    hide ContraryPairs;
    hide Opposite;
    var js, ks := KeySchedule(NotBlock(key), edf), KeySchedule(key, edf);
    var p, q := Scrunch(NotBlock(b)), Scrunch(b);
    OppositeSchedules(key, edf);
    ContraryScrunch(b);
    ContraryStages(p, q);
    ContraryRounds(boxes, js, ks, InStage(p), InStage(q), 8);
    ContraryStages(Rounds(boxes, js, InStage(p), 8), Rounds(boxes, ks, InStage(q), 8));
    ContraryUnscrunch(OutStage(Rounds(boxes, js, InStage(p), 8)), OutStage(Rounds(boxes, ks, InStage(q), 8)));
  }
}
