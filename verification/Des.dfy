/**
 * `d3des.c`: the key schedules and the block transformation, on 32-bit words. The contents of
 * the S-boxes are a parameter; nothing depends on them.
 */
module Des {

  type word = bv32

  // ---------------------------------------------------------------- the round function

  type Boxes = b: seq<seq<word>> | WfBoxes(b) witness seq(8, _ => seq(64, _ => 0))

  predicate WfBoxes(b: seq<seq<word>>) {
    |b| == 8 && forall i :: 0 <= i < 8 ==> |b[i]| == 64
  }

  function Pick(box: seq<word>, x: word): word
    requires |box| == 64
  {
    box[(x & 0x3f) as bv6 as nat]
  }

  /** The two index words of a half round. */
  function FirstIndex(x: word, k0: word): word {
    ((x << 28) | (x >> 4)) ^ k0
  }

  function SecondIndex(x: word, k1: word): word {
    x ^ k1
  }

  function Xor(a: word, b: word): word {
    a ^ b
  }

  function Or(a: word, b: word): word {
    a | b
  }

  /** Four look-ups with the low six bits of the bytes of `w`, from the lowest up. */
  function Picks(a: seq<word>, b: seq<word>, c: seq<word>, d: seq<word>, w: word): word
    requires |a| == 64 && |b| == 64 && |c| == 64 && |d| == 64
  {
    Pick(a, w) | Pick(b, w >> 8) | Pick(c, w >> 16) | Pick(d, w >> 24)
  }

  function LookUp(boxes: Boxes, first: word, second: word): word {
    Or(Picks(boxes[6], boxes[4], boxes[2], boxes[0], first), Picks(boxes[7], boxes[5], boxes[3], boxes[1], second))
  }

  /** `fval` of one half round: SP1..SP8 are boxes 0..7. */
  function F(boxes: Boxes, x: word, k0: word, k1: word): word {
    LookUp(boxes, FirstIndex(x, k0), SecondIndex(x, k1))
  }

  // ---------------------------------------------------------------- input and output stages

  datatype Pair = Pair(l: word, r: word)

  function Flip(p: Pair): Pair {
    Pair(p.r, p.l)
  }

  // SwapN exchanges the bits of the right word under a mask with those of the left that lie N places higher.

  function Swap4(p: Pair): Pair {
    var work := ((p.l >> 4) ^ p.r) & 0x0f0f_0f0f;
    Pair(p.l ^ (work << 4), p.r ^ work)
  }

  function Swap16(p: Pair): Pair {
    var work := ((p.l >> 16) ^ p.r) & 0x0000_ffff;
    Pair(p.l ^ (work << 16), p.r ^ work)
  }

  function Swap2(p: Pair): Pair {
    var work := ((p.l >> 2) ^ p.r) & 0x3333_3333;
    Pair(p.l ^ (work << 2), p.r ^ work)
  }

  function Swap8(p: Pair): Pair {
    var work := ((p.l >> 8) ^ p.r) & 0x00ff_00ff;
    Pair(p.l ^ (work << 8), p.r ^ work)
  }

  lemma Twice4(p: Pair)
    ensures Swap4(Swap4(p)) == p
  {
  }

  lemma Twice16(p: Pair)
    ensures Swap16(Swap16(p)) == p
  {
  }

  lemma Twice2(p: Pair)
    ensures Swap2(Swap2(p)) == p
  {
  }

  lemma Twice8(p: Pair)
    ensures Swap8(Swap8(p)) == p
  {
  }

  function RotateLeft(x: word): word {
    (x << 1) | ((x >> 31) & 1)
  }

  function RotateRight(x: word): word {
    (x << 31) | (x >> 1)
  }

  /** Where every second bit differs. */
  function Work(l: word, r: word): word {
    (l ^ r) & 0xaaaa_aaaa
  }

  /** The innermost steps of the input stage: a rotation on either side of an exchange of every second bit. */
  function Middle(p: Pair): Pair {
    var right := RotateLeft(p.r);
    var work := Work(p.l, right);
    Pair(RotateLeft(Xor(p.l, work)), Xor(right, work))
  }

  /** The first steps of the output stage. */
  function Unmiddle(p: Pair): Pair {
    var right := RotateRight(p.r);
    var work := Work(p.l, right);
    Pair(RotateRight(Xor(p.l, work)), Xor(right, work))
  }

  lemma RotatedTwice(x: word)
    ensures RotateRight(RotateLeft(x)) == x && RotateLeft(RotateRight(x)) == x
  {
  }

  lemma XorTwice(a: word, b: word)
    ensures Xor(Xor(a, b), b) == a
  {
  }

  lemma BitsOfWork(l: word, r: word, w: word, x: word, y: word, m: word, n: word)
    requires x == r ^ w && y == l ^ w && m == (x ^ y) & 0xaaaa_aaaa && n == (l ^ r) & 0xaaaa_aaaa
    ensures m == n
  {
  }

  lemma WorkOf(l: word, r: word, w: word, x: word, y: word)
    requires x == r ^ w && y == l ^ w
    ensures Work(x, y) == Work(l, r)
  {
    BitsOfWork(l, r, w, x, y, Work(x, y), Work(l, r));
  }

  /** The exchange leaves what differs where it was. */
  lemma WorkAgain(l: word, r: word, w: word)
    ensures Work(Xor(r, w), Xor(l, w)) == Work(l, r)
  {
    hide Work;
    WorkOf(l, r, w, Xor(r, w), Xor(l, w));
  }

  lemma MiddleUndone(p: Pair)
    ensures Unmiddle(Flip(Middle(p))) == Flip(p)
  {
    hide RotateLeft; hide RotateRight; hide Xor; hide Work;
    var right := RotateLeft(p.r);
    var work := Work(p.l, right);
    RotatedTwice(Xor(p.l, work));
    WorkAgain(p.l, right, work);
    XorTwice(right, work);
    XorTwice(p.l, work);
    RotatedTwice(p.r);
  }

  lemma MiddleRedone(p: Pair)
    ensures Middle(Flip(Unmiddle(p))) == Flip(p)
  {
    hide RotateLeft; hide RotateRight; hide Xor; hide Work;
    var right := RotateRight(p.r);
    var work := Work(p.l, right);
    RotatedTwice(Xor(p.l, work));
    WorkAgain(p.l, right, work);
    XorTwice(right, work);
    XorTwice(p.l, work);
    RotatedTwice(p.r);
  }

  /** The bit swaps before the rounds. */
  function InStage(p: Pair): Pair {
    Middle(Flip(Swap8(Swap2(Flip(Swap16(Swap4(p)))))))
  }

  /** The bit swaps after the rounds; the halves change places when they are stored. */
  function OutStage(p: Pair): Pair {
    Swap4(Swap16(Flip(Swap2(Swap8(Unmiddle(p))))))
  }

  /** The output stage undoes the input stage once the halves are exchanged. */
  lemma OutUndoesIn(p: Pair)
    ensures OutStage(Flip(InStage(p))) == p
  {
    hide Swap2; hide Swap4; hide Swap8; hide Swap16; hide Middle; hide Unmiddle;
    var p2 := Swap16(Swap4(p));
    var q4 := Swap8(Swap2(Flip(p2)));
    MiddleUndone(Flip(q4));
    Twice8(Swap2(Flip(p2)));
    Twice2(Flip(p2));
    Twice16(Swap4(p));
    Twice4(p);
  }

  /** What the output stage stores, read back and put through the input stage, is the halves exchanged. */
  lemma InUndoesOut(p: Pair)
    ensures InStage(OutStage(p)) == Flip(p)
  {
    hide Swap2; hide Swap4; hide Swap8; hide Swap16; hide Middle; hide Unmiddle;
    var q1 := Unmiddle(p);
    var q3 := Flip(Swap2(Swap8(q1)));
    Twice4(Swap16(q3));
    Twice16(q3);
    Twice2(Swap8(q1));
    Twice8(q1);
    MiddleRedone(p);
  }

  // ---------------------------------------------------------------- rounds

  type Schedule = k: seq<word> | |k| == 32 witness seq(32, _ => 0)

  /** The two half rounds of one turn of the loop. */
  function DoubleRound(boxes: Boxes, p: Pair, k0: word, k1: word, k2: word, k3: word): Pair {
    var l := Half(boxes, p.l, p.r, k0, k1);
    Pair(l, Half(boxes, p.r, l, k2, k3))
  }

  function Half(boxes: Boxes, target: word, other: word, k0: word, k1: word): word {
    Xor(target, F(boxes, other, k0, k1))
  }

  lemma HalfTwice(boxes: Boxes, target: word, other: word, k0: word, k1: word)
    ensures Half(boxes, Half(boxes, target, other, k0, k1), other, k0, k1) == target
  {
    hide F;
    hide Xor;
    XorTwice(target, F(boxes, other, k0, k1));
  }

  function Rounds(boxes: Boxes, ks: Schedule, p: Pair, n: nat): Pair
    requires n <= 8
  {
    if n == 0 then p
    else
      var i := 4 * (n - 1);
      DoubleRound(boxes, Rounds(boxes, ks, p, n - 1), ks[i], ks[i + 1], ks[i + 2], ks[i + 3])
  }

  /** The same keys, pair by pair from the last to the first. */
  function Backwards(ks: Schedule): Schedule {
    seq(32, i requires 0 <= i < 32 => ks[30 - i / 2 * 2 + i % 2])
  }

  lemma DoubleRoundUndone(boxes: Boxes, p: Pair, k0: word, k1: word, k2: word, k3: word)
    ensures DoubleRound(boxes, Flip(DoubleRound(boxes, p, k0, k1, k2, k3)), k2, k3, k0, k1) == Flip(p)
  {
    hide Half;
    HalfTwice(boxes, p.r, Half(boxes, p.l, p.r, k0, k1), k2, k3);
    HalfTwice(boxes, p.l, p.r, k0, k1);
  }

  lemma BackwardsAt(ks: Schedule, n: nat)
    requires 0 < n <= 8
    ensures var bs, i, k := Backwards(ks), 4 * (8 - n), 4 * (n - 1);
            bs[k] == ks[i + 2] && bs[k + 1] == ks[i + 3] && bs[k + 2] == ks[i] && bs[k + 3] == ks[i + 1]
  {
  }

  lemma OneMoreRound(boxes: Boxes, ks: Schedule, p: Pair, n: nat)
    requires 0 < n <= 8
    ensures var k := 4 * (n - 1);
            Rounds(boxes, ks, p, n) == DoubleRound(boxes, Rounds(boxes, ks, p, n - 1), ks[k], ks[k + 1], ks[k + 2], ks[k + 3])
  {
    hide DoubleRound;
  }

  lemma {:induction false} RoundsUndone(boxes: Boxes, ks: Schedule, p: Pair, n: nat)
    requires n <= 8
    ensures Rounds(boxes, Backwards(ks), Flip(Rounds(boxes, ks, p, 8)), n) == Flip(Rounds(boxes, ks, p, 8 - n))
  {
    hide DoubleRound;
    hide Rounds;
    hide Backwards;
    if n == 0 {
      RoundsFromNothing(boxes, Backwards(ks), Flip(Rounds(boxes, ks, p, 8)));
    } else {
      RoundsUndone(boxes, ks, p, n - 1);
      var i := 4 * (8 - n);
      BackwardsAt(ks, n);
      OneMoreRound(boxes, Backwards(ks), Flip(Rounds(boxes, ks, p, 8)), n);
      OneMoreRound(boxes, ks, p, 9 - n);
      DoubleRoundUndone(boxes, Rounds(boxes, ks, p, 8 - n), ks[i], ks[i + 1], ks[i + 2], ks[i + 3]);
    }
  }

  lemma RoundsFromNothing(boxes: Boxes, ks: Schedule, p: Pair)
    ensures Rounds(boxes, ks, p, 0) == p
  {
  }

  // ---------------------------------------------------------------- blocks

  type Block = b: seq<bv8> | |b| == 8 witness [0, 0, 0, 0, 0, 0, 0, 0]

  function Join(a: bv8, b: bv8, c: bv8, d: bv8): word {
    ((a as word) << 24) | ((b as word) << 16) | ((c as word) << 8) | (d as word)
  }

  /** Bytes 0 to 3 of a word, from the top. */
  function Part(x: word, i: nat): bv8
    requires i < 4
  {
    if i == 0 then ((x >> 24) & 0xff) as bv8
    else if i == 1 then ((x >> 16) & 0xff) as bv8
    else if i == 2 then ((x >> 8) & 0xff) as bv8
    else (x & 0xff) as bv8
  }

  function Scrunch(b: Block): Pair {
    Pair(Join(b[0], b[1], b[2], b[3]), Join(b[4], b[5], b[6], b[7]))
  }

  function Unscrunch(p: Pair): Block {
    [Part(p.l, 0), Part(p.l, 1), Part(p.l, 2), Part(p.l, 3), Part(p.r, 0), Part(p.r, 1), Part(p.r, 2), Part(p.r, 3)]
  }

  lemma PartsOfJoin(a: bv8, b: bv8, c: bv8, d: bv8)
    ensures var x := Join(a, b, c, d); Part(x, 0) == a && Part(x, 1) == b && Part(x, 2) == c && Part(x, 3) == d
  {
  }

  lemma JoinOfParts(x: word)
    ensures Join(Part(x, 0), Part(x, 1), Part(x, 2), Part(x, 3)) == x
  {
  }

  /** `rfbDes` on a block, under the schedule in use. */
  function Crypt(boxes: Boxes, ks: Schedule, b: Block): Block {
    Unscrunch(OutStage(Rounds(boxes, ks, InStage(Scrunch(b)), 8)))
  }

  /** Whatever the keys and the boxes are, the backwards schedule undoes a block. */
  lemma CryptUndone(boxes: Boxes, ks: Schedule, b: Block)
    ensures Crypt(boxes, Backwards(ks), Crypt(boxes, ks, b)) == b
  {
    hide Rounds;
    hide InStage;
    hide OutStage;
    hide Join;
    hide Part;
    hide Backwards;
    var p := InStage(Scrunch(b));
    var q := Rounds(boxes, ks, p, 8);
    var o := OutStage(q);
    JoinOfParts(o.l);
    JoinOfParts(o.r);
    assert Scrunch(Unscrunch(o)) == o;
    InUndoesOut(q);
    RoundsUndone(boxes, ks, p, 8);
    assert Rounds(boxes, ks, p, 0) == p by {
      RoundsFromNothing(boxes, ks, p);
    }
    OutUndoesIn(Scrunch(b));
    PartsOfJoin(b[0], b[1], b[2], b[3]);
    PartsOfJoin(b[4], b[5], b[6], b[7]);
  }

  // ---------------------------------------------------------------- key schedule

  datatype Direction = EN0 | DE1

  type KeyBitIndex = i: nat | i < 64
  type HalvesIndex = i: nat | i < 56
  type Rotation = i: nat | i <= 28

  const PC1: seq<KeyBitIndex> :=
    [56, 48, 40, 32, 24, 16,  8,  0, 57, 49, 41, 33, 25, 17] +
    [9,  1, 58, 50, 42, 34, 26, 18, 10,  2, 59, 51, 43, 35] +
    [62, 54, 46, 38, 30, 22, 14,  6, 61, 53, 45, 37, 29, 21] +
    [13,  5, 60, 52, 44, 36, 28, 20, 12,  4, 27, 19, 11,  3]

  const TOTROT: seq<Rotation> := [1, 2, 4, 6, 8, 10, 12, 14, 15, 17, 19, 21, 23, 25, 27, 28]

  const PC2: seq<HalvesIndex> :=
    [13, 16, 10, 23,  0,  4,  2, 27, 14,  5, 20,  9] +
    [22, 18, 11,  3, 25,  7, 15,  6, 26, 19, 12,  1] +
    [40, 51, 30, 36, 46, 54, 29, 39, 50, 44, 32, 47] +
    [43, 48, 38, 55, 33, 52, 45, 41, 49, 35, 28, 31]

  const BYTEBIT: seq<bv8> := [1, 2, 4, 8, 16, 32, 64, 128]

  const BIGBYTE: seq<word> := [
    0x800000, 0x400000, 0x200000, 0x100000, 0x80000, 0x40000, 0x20000, 0x10000,
    0x8000, 0x4000, 0x2000, 0x1000, 0x800, 0x400, 0x200, 0x100,
    0x80, 0x40, 0x20, 0x10, 0x8, 0x4, 0x2, 0x1]

  function Pc1(j: nat): KeyBitIndex
    requires j < 56
  {
    PC1[j]
  }

  function Pc2(j: nat): HalvesIndex
    requires j < 48
  {
    PC2[j]
  }

  function Totrot(i: nat): Rotation
    requires i < 16
  {
    TOTROT[i]
  }

  function BigByte(j: nat): word
    requires j < 24
  {
    BIGBYTE[j]
  }

  function ByteBit(j: nat): bv8
    requires j < 8
  {
    BYTEBIT[j]
  }

  /** Bit `j` of the permuted key. */
  function KeyBit(key: Block, j: nat): bool
    requires j < 56
  {
    key[Pc1(j) / 8] & ByteBit(Pc1(j) % 8) != 0
  }

  /** Where bit `j` of round `i` comes from: each half of 28 rotates on its own. */
  function Rotated(i: nat, j: nat): (k: nat)
    requires i < 16 && j < 56
    ensures k < 56
  {
    var l, top := j + Totrot(i), if j < 28 then 28 else 56;
    if l < top then l else l - 28
  }

  function With(w: word, bit: bool, mask: word): word {
    if bit then w | mask else w
  }

  /** The first `n` of the 24 bits, from table position `from` on, that round `i` selects. */
  function RawWord(key: Block, i: nat, from: nat, n: nat): word
    requires i < 16 && n <= 24 && from <= 24
  {
    if n == 0 then 0
    else
      With(RawWord(key, i, from, n - 1), KeyBit(key, Rotated(i, Pc2(from + n - 1))), BigByte(n - 1))
  }

  /** The two words that `cookey` makes of the two raw words of a round. */
  function CookFirst(raw0: word, raw1: word): word {
    ((raw0 & 0x00fc_0000) << 6) | ((raw0 & 0x0000_0fc0) << 10) | ((raw1 & 0x00fc_0000) >> 10) | ((raw1 & 0x0000_0fc0) >> 6)
  }

  function CookSecond(raw0: word, raw1: word): word {
    ((raw0 & 0x0003_f000) << 12) | ((raw0 & 0x0000_003f) << 16) | ((raw1 & 0x0003_f000) >> 4) | (raw1 & 0x0000_003f)
  }

  /** The round whose key goes to pair `i` of the schedule. */
  function RoundAt(i: nat, edf: Direction): nat
    requires i < 16
  {
    if edf == DE1 then 15 - i else i
  }

  function KeyWord(key: Block, edf: Direction, i: nat): word
    requires i < 32
  {
    var round := RoundAt(i / 2, edf);
    var raw0, raw1 := RawWord(key, round, 0, 24), RawWord(key, round, 24, 24);
    if i % 2 == 0 then CookFirst(raw0, raw1) else CookSecond(raw0, raw1)
  }

  function KeySchedule(key: Block, edf: Direction): Schedule {
    seq(32, i requires 0 <= i < 32 => KeyWord(key, edf, i))
  }

  /** The decryption schedule is the encryption schedule backwards, pair by pair. */
  lemma DecryptionIsBackwards(key: Block)
    ensures KeySchedule(key, DE1) == Backwards(KeySchedule(key, EN0))
  {
    hide RawWord;
    hide CookFirst;
    hide CookSecond;
    forall i | 0 <= i < 32
      ensures KeySchedule(key, DE1)[i] == Backwards(KeySchedule(key, EN0))[i]
    {
      assert (30 - i / 2 * 2 + i % 2) / 2 == 15 - i / 2 && (30 - i / 2 * 2 + i % 2) % 2 == i % 2;
    }
  }

  /** Decryption undoes encryption, for every key and every block. */
  lemma DecryptEncrypt(boxes: Boxes, key: Block, b: Block)
    ensures Crypt(boxes, KeySchedule(key, DE1), Crypt(boxes, KeySchedule(key, EN0), b)) == b
  {
    DecryptionIsBackwards(key);
    CryptUndone(boxes, KeySchedule(key, EN0), b);
  }

  /** And encryption undoes decryption. */
  lemma EncryptDecrypt(boxes: Boxes, key: Block, b: Block)
    ensures Crypt(boxes, KeySchedule(key, EN0), Crypt(boxes, KeySchedule(key, DE1), b)) == b
  {
    var ks := KeySchedule(key, DE1);
    DecryptionIsBackwards(key);
    assert Backwards(ks) == KeySchedule(key, EN0) by {
      hide KeySchedule;
      BackwardsTwice(KeySchedule(key, EN0));
    }
    CryptUndone(boxes, ks, b);
  }

  lemma BackwardsTwice(ks: Schedule)
    ensures Backwards(Backwards(ks)) == ks
  {
    forall i | 0 <= i < 32
      ensures Backwards(Backwards(ks))[i] == ks[i]
    {
      var j := 30 - i / 2 * 2 + i % 2;
      assert j / 2 == 15 - i / 2 && j % 2 == i % 2;
    }
  }

  // ---------------------------------------------------------------- the routines

  /** The file's one piece of state: the schedule in use. */
  class Cipher {
    const boxes: Boxes
    const KnL: array<word>

    constructor (boxes: Boxes)
      ensures this.boxes == boxes && KnL.Length == 32 && fresh(KnL)
    {
      this.boxes := boxes;
      KnL := new word[32](_ => 0);
    }

    /** The permuted key bits, one per byte. */
    method Permute(key: Block) returns (pc1m: array<bool>)
      ensures fresh(pc1m) && pc1m.Length == 56 && forall j :: 0 <= j < 56 ==> pc1m[j] == KeyBit(key, j)
    {
      hide Pc1;
      hide ByteBit;
      pc1m := new bool[56](_ => false);
      for j := 0 to 56
        invariant forall k :: 0 <= k < j ==> pc1m[k] == KeyBit(key, k)
      {
        var l: nat := Pc1(j);
        pc1m[j] := key[l / 8] & ByteBit(l % 8) != 0;
      }
    }

    method Rotate(key: Block, pc1m: array<bool>, i: nat) returns (pcr: array<bool>)
      requires i < 16 && pc1m.Length == 56 && forall j :: 0 <= j < 56 ==> pc1m[j] == KeyBit(key, j)
      ensures fresh(pcr) && pcr.Length == 56 && forall j :: 0 <= j < 56 ==> pcr[j] == KeyBit(key, Rotated(i, j))
    {
      hide KeyBit;
      hide Totrot;
      pcr := new bool[56](_ => false);
      for j := 0 to 28
        invariant forall k :: 0 <= k < j ==> pcr[k] == KeyBit(key, Rotated(i, k))
      {
        var l := j + Totrot(i) as int;
        pcr[j] := if l < 28 then pc1m[l] else pc1m[l - 28];
      }
      for j := 28 to 56
        invariant forall k :: 0 <= k < j ==> pcr[k] == KeyBit(key, Rotated(i, k))
      {
        var l := j + Totrot(i) as int;
        pcr[j] := if l < 56 then pc1m[l] else pc1m[l - 28];
      }
    }

    /** The two raw words of a round. */
    method Select(key: Block, pcr: array<bool>, i: nat) returns (raw0: word, raw1: word)
      requires i < 16 && pcr.Length == 56 && forall j :: 0 <= j < 56 ==> pcr[j] == KeyBit(key, Rotated(i, j))
      ensures raw0 == RawWord(key, i, 0, 24) && raw1 == RawWord(key, i, 24, 24)
    {
      hide KeyBit;
      hide Rotated;
      hide Pc2;
      hide BigByte;
      hide With;
      raw0, raw1 := 0, 0;
      for j := 0 to 24
        invariant raw0 == RawWord(key, i, 0, j) && raw1 == RawWord(key, i, 24, j)
      {
        raw0 := With(raw0, pcr[Pc2(j)], BigByte(j));
        raw1 := With(raw1, pcr[Pc2(j + 24)], BigByte(j));
      }
    }

    method RoundWords(key: Block, pc1m: array<bool>, i: nat) returns (raw0: word, raw1: word)
      requires i < 16 && pc1m.Length == 56 && forall j :: 0 <= j < 56 ==> pc1m[j] == KeyBit(key, j)
      ensures raw0 == RawWord(key, i, 0, 24) && raw1 == RawWord(key, i, 24, 24)
    {
      hide KeyBit;
      hide Rotated;
      hide RawWord;
      var pcr := Rotate(key, pc1m, i);
      raw0, raw1 := Select(key, pcr, i);
    }

    /** The raw words of all rounds, in the order of the direction. */
    method RawKeys(key: Block, edf: Direction) returns (kn: array<word>)
      ensures fresh(kn) && kn.Length == 32
      ensures forall k :: 0 <= k < 32 ==> kn[k] == RawWord(key, RoundAt(k / 2, edf), k % 2 * 24, 24)
    {
      hide RawWord;
      hide KeyBit;
      hide Rotated;
      kn := new word[32](_ => 0);
      var pc1m := Permute(key);
      for i := 0 to 16
        invariant forall j :: 0 <= j < 56 ==> pc1m[j] == KeyBit(key, j)
        invariant forall k :: 0 <= k < 32 && RoundAt(k / 2, edf) < i ==>
                    kn[k] == RawWord(key, RoundAt(k / 2, edf), k % 2 * 24, 24)
      {
        var m := if edf == DE1 then (15 - i) * 2 else i * 2;
        var n := m + 1;
        var raw0, raw1 := RoundWords(key, pc1m, i);
        kn[m], kn[n] := raw0, raw1;
      }
    }

    /** `cookey` and `rfbUseKey` */
    method Cookey(raw: array<word>)
      requires raw.Length == 32 && KnL.Length == 32 && raw != KnL
      modifies KnL
      ensures forall k :: 0 <= k < 16 ==>
                KnL[2 * k] == CookFirst(raw[2 * k], raw[2 * k + 1]) && KnL[2 * k + 1] == CookSecond(raw[2 * k], raw[2 * k + 1])
    {
      hide CookFirst;
      hide CookSecond;
      var dough := new word[32](_ => 0);
      for i := 0 to 16
        invariant forall k :: 0 <= k < i ==>
                    dough[2 * k] == CookFirst(raw[2 * k], raw[2 * k + 1]) &&
                    dough[2 * k + 1] == CookSecond(raw[2 * k], raw[2 * k + 1])
      {
        dough[2 * i] := CookFirst(raw[2 * i], raw[2 * i + 1]);
        dough[2 * i + 1] := CookSecond(raw[2 * i], raw[2 * i + 1]);
      }
      ghost var cooked := dough[..];
      for i := 0 to 32
        invariant dough[..] == cooked && forall k :: 0 <= k < i ==> KnL[k] == cooked[k]
      {
        KnL[i] := dough[i];
      }
    }

    /** `rfbDesKey` */
    method DesKey(key: Block, edf: Direction)
      requires KnL.Length == 32
      modifies KnL
      ensures KnL[..] == KeySchedule(key, edf)
    {
      hide CookFirst;
      hide CookSecond;
      hide RawWord;
      var kn := RawKeys(key, edf);
      Cookey(kn);
      forall i | 0 <= i < 32
        ensures KnL[i] == KeyWord(key, edf, i)
      {
        var k := i / 2;
        assert i == 2 * k || i == 2 * k + 1;
        assert kn[2 * k] == RawWord(key, RoundAt(k, edf), 0, 24);
        assert kn[2 * k + 1] == RawWord(key, RoundAt(k, edf), 24, 24);
      }
    }

    /** `desfunc` */
    method DesFunc(block: array<word>)
      requires block.Length == 2 && KnL.Length == 32 && block != KnL
      modifies block
      ensures Pair(block[0], block[1]) == OutStage(Rounds(boxes, KnL[..], InStage(Pair(old(block[0]), old(block[1]))), 8))
    {
      hide InStage;
      hide OutStage;
      hide Rounds;
      hide Half;
      var p := InStage(Pair(block[0], block[1]));
      var leftt, right := p.l, p.r;
      var keys := 0;
      ghost var ks := KnL[..];
      RoundsFromNothing(boxes, ks, p);
      for round := 0 to 8
        invariant keys == 4 * round && Pair(leftt, right) == Rounds(boxes, ks, p, round)
      {
        OneMoreRound(boxes, ks, p, round + 1);
        leftt := Half(boxes, leftt, right, KnL[keys], KnL[keys + 1]);
        right := Half(boxes, right, leftt, KnL[keys + 2], KnL[keys + 3]);
        keys := keys + 4;
      }
      var o := OutStage(Pair(leftt, right));
      block[0], block[1] := o.l, o.r;
    }

    /** `rfbDes`; input and output may be the same bytes. */
    method Des(inp: array<bv8>, i: nat, out: array<bv8>, o: nat)
      requires KnL.Length == 32 && i + 8 <= inp.Length && o + 8 <= out.Length
      modifies out
      ensures out[o..o + 8] == Crypt(boxes, KnL[..], old(inp[i..i + 8]))
      ensures out[..o] == old(out[..o]) && out[o + 8..] == old(out[o + 8..])
    {
      hide OutStage;
      hide InStage;
      hide Rounds;
      hide Join;
      hide Part;
      var work := new word[2](_ => 0);
      ScrunchInto(inp, i, work);
      DesFunc(work);
      UnscrunchInto(work, out, o);
    }

    /** `scrunch` */
    method ScrunchInto(inp: array<bv8>, i: nat, work: array<word>)
      requires i + 8 <= inp.Length && work.Length == 2
      modifies work
      ensures Pair(work[0], work[1]) == Scrunch(inp[i..i + 8])
    {
      hide Join;
      work[0] := Join(inp[i], inp[i + 1], inp[i + 2], inp[i + 3]);
      work[1] := Join(inp[i + 4], inp[i + 5], inp[i + 6], inp[i + 7]);
    }

    /** `unscrun` */
    method UnscrunchInto(work: array<word>, out: array<bv8>, o: nat)
      requires work.Length == 2 && o + 8 <= out.Length
      modifies out
      ensures out[o..o + 8] == Unscrunch(Pair(work[0], work[1]))
      ensures out[..o] == old(out[..o]) && out[o + 8..] == old(out[o + 8..])
    {
      hide Part;
      var x, y := work[0], work[1];
      PutWord(x, out, o);
      PutWord(y, out, o + 4);
      assert out[o..o + 8] == [out[o], out[o + 1], out[o + 2], out[o + 3], out[o + 4], out[o + 5], out[o + 6], out[o + 7]];
    }

    method PutWord(w: word, out: array<bv8>, o: nat)
      requires o + 4 <= out.Length
      modifies out
      ensures forall k :: 0 <= k < out.Length ==> out[k] == if o <= k < o + 4 then Part(w, k - o) else old(out[k])
    {
      hide Part;
      out[o] := Part(w, 0);
      out[o + 1] := Part(w, 1);
      out[o + 2] := Part(w, 2);
      out[o + 3] := Part(w, 3);
    }
  }
}
