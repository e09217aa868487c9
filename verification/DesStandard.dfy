/**
 * The cipher as the standard has it (FIPS 46-3): an initial permutation, sixteen rounds on two
 * halves, and the permutation undone. What `d3des.c` computes with halves turned by one place,
 * bit swaps and rearranged keys is that cipher; the tables of the S-boxes are a parameter.
 */
module DesStandard {
  import opened Des
  import opened DesKeys
  import opened DesLaws

  // ---------------------------------------------------------------- the initial permutation

  /** A byte holds one bit of each byte of the block, those of the last byte first. */
  predicate Gathers(b: bv8, p: Pair, bit: word) {
    (b & 0x80 != 0) == (p.r & bit != 0) && (b & 0x40 != 0) == (p.r & (bit << 8) != 0) &&
    (b & 0x20 != 0) == (p.r & (bit << 16) != 0) && (b & 0x10 != 0) == (p.r & (bit << 24) != 0) &&
    (b & 0x08 != 0) == (p.l & bit != 0) && (b & 0x04 != 0) == (p.l & (bit << 8) != 0) &&
    (b & 0x02 != 0) == (p.l & (bit << 16) != 0) && (b & 0x01 != 0) == (p.l & (bit << 24) != 0)
  }

  /** The left half holds the second, fourth, sixth and eighth bits of the bytes, the right half the others. */
  predicate Permuted(q: Pair, p: Pair) {
    Gathers(Part(q.l, 0), p, 0x40) && Gathers(Part(q.l, 1), p, 0x10) && Gathers(Part(q.l, 2), p, 0x04) && Gathers(Part(q.l, 3), p, 0x01) &&
    Gathers(Part(q.r, 0), p, 0x80) && Gathers(Part(q.r, 1), p, 0x20) && Gathers(Part(q.r, 2), p, 0x08) && Gathers(Part(q.r, 3), p, 0x02)
  }

  /** Both halves turned by one place to the left, as the rounds work on them. */
  function Turned(p: Pair): Pair {
    Pair(RotateLeft(p.l), RotateLeft(p.r))
  }

  function TurnedBack(p: Pair): Pair {
    Pair(RotateRight(p.l), RotateRight(p.r))
  }

  lemma InitialByte0(p: Pair)
    ensures Gathers(Part(RotateRight(InStage(p).l), 0), p, 0x40)
  {
  }

  lemma InitialByte1(p: Pair)
    ensures Gathers(Part(RotateRight(InStage(p).l), 1), p, 0x10)
  {
  }

  lemma InitialByte2(p: Pair)
    ensures Gathers(Part(RotateRight(InStage(p).l), 2), p, 0x04)
  {
  }

  lemma InitialByte3(p: Pair)
    ensures Gathers(Part(RotateRight(InStage(p).l), 3), p, 0x01)
  {
  }

  lemma InitialByte4(p: Pair)
    ensures Gathers(Part(RotateRight(InStage(p).r), 0), p, 0x80)
  {
  }

  lemma InitialByte5(p: Pair)
    ensures Gathers(Part(RotateRight(InStage(p).r), 1), p, 0x20)
  {
  }

  lemma InitialByte6(p: Pair)
    ensures Gathers(Part(RotateRight(InStage(p).r), 2), p, 0x08)
  {
  }

  lemma InitialByte7(p: Pair)
    ensures Gathers(Part(RotateRight(InStage(p).r), 3), p, 0x02)
  {
  }

  /** The bit swaps before the rounds are the initial permutation, turned. */
  lemma InStageIsPermutation(p: Pair)
    ensures Permuted(TurnedBack(InStage(p)), p)
  {
    hide InStage; hide RotateRight; hide Gathers; hide Part;
    InitialByte0(p);
    InitialByte1(p);
    InitialByte2(p);
    InitialByte3(p);
    InitialByte4(p);
    InitialByte5(p);
    InitialByte6(p);
    InitialByte7(p);
  }

  /** And those behind them undo it, with the halves exchanged. */
  lemma OutStageIsInverse(p: Pair)
    ensures Permuted(TurnedBack(Flip(p)), OutStage(p))
  {
    hide InStage; hide OutStage; hide TurnedBack; hide Permuted;
    InUndoesOut(p);
    InStageIsPermutation(OutStage(p));
  }

  // ---------------------------------------------------------------- a round

  /** Eight times six bits. */
  type RoundKey = k: seq<bv6> | |k| == 8 witness [0, 0, 0, 0, 0, 0, 0, 0]

  /** The six bits around the `j`th four, the ends joined. */
  function Expanded(r: word, j: nat): bv6
    requires j < 8
  {
    (match j
     case 0 => ((r << 31) | (r >> 1)) >> 26
     case 1 => ((r << 3) | (r >> 29)) >> 26
     case 2 => ((r << 7) | (r >> 25)) >> 26
     case 3 => ((r << 11) | (r >> 21)) >> 26
     case 4 => ((r << 15) | (r >> 17)) >> 26
     case 5 => ((r << 19) | (r >> 13)) >> 26
     case 6 => ((r << 23) | (r >> 9)) >> 26
     case _ => ((r << 27) | (r >> 5)) >> 26) as bv6
  }

  function Entry(box: seq<word>, x: bv6): word
    requires |box| == 64
  {
    box[x as nat]
  }

  /** What box `j` adds; the tables hold it permuted, and turned by one place. */
  function Added(boxes: Boxes, r: word, ks: RoundKey, j: nat): word
    requires j < 8
  {
    Entry(boxes[j], Expanded(r, j) ^ ks[j])
  }

  function AllAdded(boxes: Boxes, r: word, ks: RoundKey): word {
    Added(boxes, r, ks, 0) | Added(boxes, r, ks, 1) | Added(boxes, r, ks, 2) | Added(boxes, r, ks, 3) |
    Added(boxes, r, ks, 4) | Added(boxes, r, ks, 5) | Added(boxes, r, ks, 6) | Added(boxes, r, ks, 7)
  }

  /** The function of right half and key that a round adds to the left half. */
  function StandardF(boxes: Boxes, r: word, ks: RoundKey): word {
    RotateRight(AllAdded(boxes, r, ks))
  }

  /** The halves after `n` rounds. */
  function StandardRounds(boxes: Boxes, keys: seq<RoundKey>, p: Pair, n: nat): Pair
    requires n <= |keys|
  {
    if n == 0 then p
    else
      var q := StandardRounds(boxes, keys, p, n - 1);
      Pair(q.r, Xor(q.l, StandardF(boxes, q.r, keys[n - 1])))
  }

  function Six(k: word): bv6 {
    (k & 0x3f) as bv6
  }

  /** The low six bits of byte `n` of a word, from the top. */
  function SixOf(k: word, n: nat): bv6
    requires n < 4
  {
    Six(if n == 0 then k >> 24 else if n == 1 then k >> 16 else if n == 2 then k >> 8 else k)
  }

  /** The two key words of a half round hold the six bits for each box, those for the first box in the highest byte. */
  predicate Holds(k0: word, k1: word, ks: RoundKey) {
    SixOf(k0, 0) == ks[0] && SixOf(k1, 0) == ks[1] && SixOf(k0, 1) == ks[2] && SixOf(k1, 1) == ks[3] &&
    SixOf(k0, 2) == ks[4] && SixOf(k1, 2) == ks[5] && SixOf(k0, 3) == ks[6] && SixOf(k1, 3) == ks[7]
  }

  lemma Index0(r: word, k: word)
    ensures Six(FirstIndex(RotateLeft(r), k) >> 24) == Expanded(r, 0) ^ Six(k >> 24)
  {
  }

  lemma Index1(r: word, k: word)
    ensures Six(SecondIndex(RotateLeft(r), k) >> 24) == Expanded(r, 1) ^ Six(k >> 24)
  {
  }

  lemma Index2(r: word, k: word)
    ensures Six(FirstIndex(RotateLeft(r), k) >> 16) == Expanded(r, 2) ^ Six(k >> 16)
  {
  }

  lemma Index3(r: word, k: word)
    ensures Six(SecondIndex(RotateLeft(r), k) >> 16) == Expanded(r, 3) ^ Six(k >> 16)
  {
  }

  lemma Index4(r: word, k: word)
    ensures Six(FirstIndex(RotateLeft(r), k) >> 8) == Expanded(r, 4) ^ Six(k >> 8)
  {
  }

  lemma Index5(r: word, k: word)
    ensures Six(SecondIndex(RotateLeft(r), k) >> 8) == Expanded(r, 5) ^ Six(k >> 8)
  {
  }

  lemma Index6(r: word, k: word)
    ensures Six(FirstIndex(RotateLeft(r), k)) == Expanded(r, 6) ^ Six(k)
  {
  }

  lemma Index7(r: word, k: word)
    ensures Six(SecondIndex(RotateLeft(r), k)) == Expanded(r, 7) ^ Six(k)
  {
  }

  lemma PickIsEntry(box: seq<word>, x: word)
    requires |box| == 64
    ensures Pick(box, x) == Entry(box, Six(x))
  {
  }

  lemma AllOfThem(a: word, b: word, c: word, d: word, e: word, f: word, g: word, h: word)
    ensures (g | e | c | a) | (h | f | d | b) == a | b | c | d | e | f | g | h
  {
  }

  /** What is picked by byte `n` of an index word. */
  predicate Picked(box: seq<word>, x: word, n: nat, v: word)
    requires |box| == 64 && n < 4
  {
    v == Pick(box, if n == 0 then x >> 24 else if n == 1 then x >> 16 else if n == 2 then x >> 8 else x)
  }

  lemma Box0(boxes: Boxes, r: word, k0: word, k1: word, ks: RoundKey)
    requires Holds(k0, k1, ks)
    ensures Picked(boxes[0], FirstIndex(RotateLeft(r), k0), 0, Added(boxes, r, ks, 0))
  {
    hide RotateLeft; hide FirstIndex; hide Expanded; hide Six; hide Pick; hide Entry;
    Index0(r, k0);
    PickIsEntry(boxes[0], FirstIndex(RotateLeft(r), k0) >> 24);
  }

  lemma Box1(boxes: Boxes, r: word, k0: word, k1: word, ks: RoundKey)
    requires Holds(k0, k1, ks)
    ensures Picked(boxes[1], SecondIndex(RotateLeft(r), k1), 0, Added(boxes, r, ks, 1))
  {
    hide RotateLeft; hide SecondIndex; hide Expanded; hide Six; hide Pick; hide Entry;
    Index1(r, k1);
    PickIsEntry(boxes[1], SecondIndex(RotateLeft(r), k1) >> 24);
  }

  lemma Box2(boxes: Boxes, r: word, k0: word, k1: word, ks: RoundKey)
    requires Holds(k0, k1, ks)
    ensures Picked(boxes[2], FirstIndex(RotateLeft(r), k0), 1, Added(boxes, r, ks, 2))
  {
    hide RotateLeft; hide FirstIndex; hide Expanded; hide Six; hide Pick; hide Entry;
    Index2(r, k0);
    PickIsEntry(boxes[2], FirstIndex(RotateLeft(r), k0) >> 16);
  }

  lemma Box3(boxes: Boxes, r: word, k0: word, k1: word, ks: RoundKey)
    requires Holds(k0, k1, ks)
    ensures Picked(boxes[3], SecondIndex(RotateLeft(r), k1), 1, Added(boxes, r, ks, 3))
  {
    hide RotateLeft; hide SecondIndex; hide Expanded; hide Six; hide Pick; hide Entry;
    Index3(r, k1);
    PickIsEntry(boxes[3], SecondIndex(RotateLeft(r), k1) >> 16);
  }

  lemma Box4(boxes: Boxes, r: word, k0: word, k1: word, ks: RoundKey)
    requires Holds(k0, k1, ks)
    ensures Picked(boxes[4], FirstIndex(RotateLeft(r), k0), 2, Added(boxes, r, ks, 4))
  {
    hide RotateLeft; hide FirstIndex; hide Expanded; hide Six; hide Pick; hide Entry;
    Index4(r, k0);
    PickIsEntry(boxes[4], FirstIndex(RotateLeft(r), k0) >> 8);
  }

  lemma Box5(boxes: Boxes, r: word, k0: word, k1: word, ks: RoundKey)
    requires Holds(k0, k1, ks)
    ensures Picked(boxes[5], SecondIndex(RotateLeft(r), k1), 2, Added(boxes, r, ks, 5))
  {
    hide RotateLeft; hide SecondIndex; hide Expanded; hide Six; hide Pick; hide Entry;
    Index5(r, k1);
    PickIsEntry(boxes[5], SecondIndex(RotateLeft(r), k1) >> 8);
  }

  lemma Box6(boxes: Boxes, r: word, k0: word, k1: word, ks: RoundKey)
    requires Holds(k0, k1, ks)
    ensures Picked(boxes[6], FirstIndex(RotateLeft(r), k0), 3, Added(boxes, r, ks, 6))
  {
    hide RotateLeft; hide FirstIndex; hide Expanded; hide Six; hide Pick; hide Entry;
    Index6(r, k0);
    PickIsEntry(boxes[6], FirstIndex(RotateLeft(r), k0));
  }

  lemma Box7(boxes: Boxes, r: word, k0: word, k1: word, ks: RoundKey)
    requires Holds(k0, k1, ks)
    ensures Picked(boxes[7], SecondIndex(RotateLeft(r), k1), 3, Added(boxes, r, ks, 7))
  {
    hide RotateLeft; hide SecondIndex; hide Expanded; hide Six; hide Pick; hide Entry;
    Index7(r, k1);
    PickIsEntry(boxes[7], SecondIndex(RotateLeft(r), k1));
  }

  predicate AllPicked(boxes: Boxes, a: word, b: word, w: seq<word>) {
    |w| == 8 && Picked(boxes[0], a, 0, w[0]) && Picked(boxes[1], b, 0, w[1]) && Picked(boxes[2], a, 1, w[2]) && Picked(boxes[3], b, 1, w[3]) &&
    Picked(boxes[4], a, 2, w[4]) && Picked(boxes[5], b, 2, w[5]) && Picked(boxes[6], a, 3, w[6]) && Picked(boxes[7], b, 3, w[7])
  }

  lemma FourPicked(a: seq<word>, b: seq<word>, c: seq<word>, d: seq<word>, x: word, v: word, w: word, y: word, z: word)
    requires |a| == 64 && |b| == 64 && |c| == 64 && |d| == 64
    requires Picked(a, x, 3, v) && Picked(b, x, 2, w) && Picked(c, x, 1, y) && Picked(d, x, 0, z)
    ensures Picks(a, b, c, d, x) == v | w | y | z
  {
    hide Pick;
  }

  lemma LookedUp(boxes: Boxes, a: word, b: word, w: seq<word>)
    requires AllPicked(boxes, a, b, w)
    ensures LookUp(boxes, a, b) == w[0] | w[1] | w[2] | w[3] | w[4] | w[5] | w[6] | w[7]
  {
    hide Picked; hide Picks;
    FourPicked(boxes[6], boxes[4], boxes[2], boxes[0], a, w[6], w[4], w[2], w[0]);
    FourPicked(boxes[7], boxes[5], boxes[3], boxes[1], b, w[7], w[5], w[3], w[1]);
    AllOfThem(w[0], w[1], w[2], w[3], w[4], w[5], w[6], w[7]);
  }

  lemma LookedUpIsAdded(boxes: Boxes, r: word, ks: RoundKey, a: word, b: word, w: seq<word>)
    requires AllPicked(boxes, a, b, w) && forall j :: 0 <= j < 8 ==> w[j] == Added(boxes, r, ks, j)
    ensures LookUp(boxes, a, b) == AllAdded(boxes, r, ks)
  {
    hide Picked; hide LookUp; hide Added;
    LookedUp(boxes, a, b, w);
  }

  /** What is looked up for a half round is what the standard adds, turned. */
  lemma HalfRoundIsStandard(boxes: Boxes, r: word, k0: word, k1: word, ks: RoundKey)
    requires Holds(k0, k1, ks)
    ensures RotateRight(F(boxes, RotateLeft(r), k0, k1)) == StandardF(boxes, r, ks)
  {
    hide RotateLeft; hide RotateRight; hide FirstIndex; hide SecondIndex; hide Holds; hide Picked; hide Added; hide LookUp; hide AllAdded;
    Box0(boxes, r, k0, k1, ks);
    Box1(boxes, r, k0, k1, ks);
    Box2(boxes, r, k0, k1, ks);
    Box3(boxes, r, k0, k1, ks);
    Box4(boxes, r, k0, k1, ks);
    Box5(boxes, r, k0, k1, ks);
    Box6(boxes, r, k0, k1, ks);
    Box7(boxes, r, k0, k1, ks);
    var w := seq(8, j requires 0 <= j < 8 => Added(boxes, r, ks, j));
    LookedUpIsAdded(boxes, r, ks, FirstIndex(RotateLeft(r), k0), SecondIndex(RotateLeft(r), k1), w);
  }

  // ---------------------------------------------------------------- sixteen rounds

  /** The schedule holds the keys of the rounds, two words for each. */
  predicate HoldsAll(ks: Schedule, keys: seq<RoundKey>) {
    |keys| == 16 && forall i :: 0 <= i < 16 ==> Holds(ks[2 * i], ks[2 * i + 1], keys[i])
  }

  lemma TurnedXor(a: word, b: word)
    ensures RotateLeft(Xor(a, b)) == Xor(RotateLeft(a), RotateLeft(b))
  {
  }

  lemma HalfIsStandard(boxes: Boxes, l: word, r: word, k0: word, k1: word, ks: RoundKey)
    requires Holds(k0, k1, ks)
    ensures Half(boxes, RotateLeft(l), RotateLeft(r), k0, k1) == RotateLeft(Xor(l, StandardF(boxes, r, ks)))
  {
    hide RotateLeft; hide RotateRight; hide Xor; hide F; hide StandardF; hide Holds;
    HalfRoundIsStandard(boxes, r, k0, k1, ks);
    RotatedTwice(F(boxes, RotateLeft(r), k0, k1));
    TurnedXor(l, StandardF(boxes, r, ks));
  }

  lemma TwoRounds(boxes: Boxes, keys: seq<RoundKey>, p: Pair, n: nat)
    requires n + 2 <= |keys|
    ensures var q := StandardRounds(boxes, keys, p, n);
            var l := Xor(q.l, StandardF(boxes, q.r, keys[n]));
            StandardRounds(boxes, keys, p, n + 2) == Pair(l, Xor(q.r, StandardF(boxes, l, keys[n + 1])))
  {
    hide Xor; hide StandardF;
    assert StandardRounds(boxes, keys, p, n + 1).r == Xor(StandardRounds(boxes, keys, p, n).l, StandardF(boxes, StandardRounds(boxes, keys, p, n).r, keys[n]));
  }

  lemma DoubleRoundIsStandard(boxes: Boxes, q: Pair, k0: word, k1: word, k2: word, k3: word, first: RoundKey, second: RoundKey)
    requires Holds(k0, k1, first) && Holds(k2, k3, second)
    ensures var l := Xor(q.l, StandardF(boxes, q.r, first));
            DoubleRound(boxes, Turned(q), k0, k1, k2, k3) == Turned(Pair(l, Xor(q.r, StandardF(boxes, l, second))))
  {
    hide RotateLeft; hide Xor; hide StandardF; hide Half; hide Holds;
    HalfIsStandard(boxes, q.l, q.r, k0, k1, first);
    HalfIsStandard(boxes, q.r, Xor(q.l, StandardF(boxes, q.r, first)), k2, k3, second);
  }

  /** The eight turns of the loop are sixteen rounds, on halves that are turned. */
  lemma {:induction false} RoundsAreStandard(boxes: Boxes, ks: Schedule, keys: seq<RoundKey>, p: Pair, n: nat)
    requires HoldsAll(ks, keys) && n <= 8
    ensures Rounds(boxes, ks, Turned(p), n) == Turned(StandardRounds(boxes, keys, p, 2 * n))
  {
    hide Turned; hide Xor; hide StandardF; hide StandardRounds; hide Rounds; hide DoubleRound; hide Holds;
    if n == 0 {
      NoRounds(boxes, keys, p);
      RoundsFromNothing(boxes, ks, Turned(p));
    } else {
      RoundsAreStandard(boxes, ks, keys, p, n - 1);
      var i := 2 * (n - 1);
      OneMoreRound(boxes, ks, Turned(p), n);
      TwoRounds(boxes, keys, p, i);
      assert Holds(ks[2 * i], ks[2 * i + 1], keys[i]) && Holds(ks[2 * (i + 1)], ks[2 * (i + 1) + 1], keys[i + 1]);
      DoubleRoundIsStandard(boxes, StandardRounds(boxes, keys, p, i), ks[2 * i], ks[2 * i + 1], ks[2 * i + 2], ks[2 * i + 3], keys[i], keys[i + 1]);
    }
  }

  lemma NoRounds(boxes: Boxes, keys: seq<RoundKey>, p: Pair)
    ensures StandardRounds(boxes, keys, p, 0) == p
  {
  }

  // ---------------------------------------------------------------- the keys of the rounds

  /** The first choice: the columns of the key's bits, read upwards, without the one that is ignored. */
  function StandardPc1(j: nat): (p: nat)
    requires j < 56
    ensures p < 64
  {
    if j < 28 then 8 * (7 - j % 8) + j / 8
    else if j < 52 then 8 * (7 - (j - 28) % 8) + 6 - (j - 28) / 8
    else 8 * (55 - j) + 3
  }

  const SHIFTS: seq<nat> := [1, 1, 2, 2, 2, 2, 2, 2, 1, 2, 2, 2, 2, 2, 2, 1]

  function Shift(n: nat): (s: nat)
    requires n < 16
    ensures s == 1 || s == 2
  {
    SHIFTS[n]
  }

  /** Each half of 28 shifts on its own. */
  function Shifted(j: nat, s: nat): (k: nat)
    requires j < 56 && s <= 28
    ensures k < 56
  {
    if j + s < (if j < 28 then 28 else 56) then j + s else j + s - 28
  }

  /** Which bit has come to place `j` after `n` shifts. */
  function Source(n: nat, j: nat): (k: nat)
    requires n <= 16 && j < 56
    ensures k < 56
  {
    if n == 0 then j else Source(n - 1, Shifted(j, Shift(n - 1)))
  }

  /** Bit `t` of the key of round `n`, counted from 0; the bits of each byte of the key are taken in reverse. */
  function RoundKeyBit(key: Block, n: nat, t: nat): bool
    requires n < 16 && t < 48
  {
    var p := StandardPc1(Source(n + 1, Pc2(t)));
    key[p / 8] & ByteBit(p % 8) != 0
  }

  function SixBits(a: bool, b: bool, c: bool, d: bool, e: bool, f: bool): bv6 {
    (if a then 0x20 else 0) | (if b then 0x10 else 0) | (if c then 8 else 0) | (if d then 4 else 0) | (if e then 2 else 0) | (if f then 1 else 0)
  }

  function KeyGroup(key: Block, n: nat, j: nat): bv6
    requires n < 16 && j < 8
  {
    SixBits(RoundKeyBit(key, n, 6 * j), RoundKeyBit(key, n, 6 * j + 1), RoundKeyBit(key, n, 6 * j + 2),
            RoundKeyBit(key, n, 6 * j + 3), RoundKeyBit(key, n, 6 * j + 4), RoundKeyBit(key, n, 6 * j + 5))
  }

  function StandardKey(key: Block, n: nat): RoundKey
    requires n < 16
  {
    seq(8, j requires 0 <= j < 8 => KeyGroup(key, n, j))
  }

  /** The keys in the order of the rounds: for decryption, the last comes first. */
  function StandardKeys(key: Block, edf: Direction): seq<RoundKey> {
    seq(16, i requires 0 <= i < 16 => StandardKey(key, RoundAt(i, edf)))
  }

  lemma Pc1From0(j: nat)
    requires 0 <= j < 14
    ensures Pc1(j) == StandardPc1(j)
  {
    assert j == 0 || j == 1 || j == 2 || j == 3 || j == 4 || j == 5 || j == 6 ||
           j == 7 || j == 8 || j == 9 || j == 10 || j == 11 || j == 12 || j == 13;
  }

  lemma Pc1From14(j: nat)
    requires 14 <= j < 28
    ensures Pc1(j) == StandardPc1(j)
  {
    assert j == 14 || j == 15 || j == 16 || j == 17 || j == 18 || j == 19 || j == 20 ||
           j == 21 || j == 22 || j == 23 || j == 24 || j == 25 || j == 26 || j == 27;
  }

  lemma Pc1From28(j: nat)
    requires 28 <= j < 42
    ensures Pc1(j) == StandardPc1(j)
  {
    assert j == 28 || j == 29 || j == 30 || j == 31 || j == 32 || j == 33 || j == 34 ||
           j == 35 || j == 36 || j == 37 || j == 38 || j == 39 || j == 40 || j == 41;
  }

  lemma Pc1From42(j: nat)
    requires 42 <= j < 56
    ensures Pc1(j) == StandardPc1(j)
  {
    assert j == 42 || j == 43 || j == 44 || j == 45 || j == 46 || j == 47 || j == 48 ||
           j == 49 || j == 50 || j == 51 || j == 52 || j == 53 || j == 54 || j == 55;
  }

  lemma Pc1IsStandard(j: nat)
    requires j < 56
    ensures Pc1(j) == StandardPc1(j)
  {
    hide Pc1; hide StandardPc1;
    if j < 14 {
      Pc1From0(j);
    } else if j < 28 {
      Pc1From14(j);
    } else if j < 42 {
      Pc1From28(j);
    } else {
      Pc1From42(j);
    }
  }

  lemma ShiftsAdd(n: nat)
    requires n < 16
    ensures Totrot(n) == (if n == 0 then 0 else Totrot(n - 1)) + Shift(n)
  {
  }

  /** The table of total rotations holds the sums of the shifts. */
  lemma {:induction false} SourceIsRotated(n: nat, j: nat)
    requires n < 16 && j < 56
    ensures Source(n + 1, j) == Rotated(n, j)
  {
    hide Totrot; hide Shift;
    ShiftsAdd(n);
    if n > 0 {
      SourceIsRotated(n - 1, Shifted(j, Shift(n)));
    } else {
      assert Source(0, Shifted(j, Shift(0))) == Shifted(j, Shift(0));
    }
  }

  lemma KeyBitIsStandard(key: Block, n: nat, t: nat)
    requires n < 16 && t < 48
    ensures KeyBit(key, Rotated(n, Pc2(t))) == RoundKeyBit(key, n, t)
  {
    hide Pc1; hide StandardPc1; hide Pc2; hide Source; hide Rotated; hide ByteBit;
    SourceIsRotated(n, Pc2(t));
    Pc1IsStandard(Rotated(n, Pc2(t)));
  }

  predicate IsNext(top': word, top: word, mask: word) {
    top' == top | mask
  }

  lemma NextTopIs(n: nat)
    requires n < 24
    ensures IsNext(Top(n + 1), Top(n), BigByte(n))
  {
    NextTop(n);
  }

  lemma OneMoreInTop(mask: word, top: word, next: word, top': word)
    requires InTop(mask, top) && IsNext(top', top, next)
    ensures InTop(mask, top')
  {
  }

  lemma LastInTop(top: word, next: word, top': word)
    requires IsNext(top', top, next)
    ensures InTop(next, top')
  {
  }

  /** The bits written before place `n`. */
  lemma {:induction false} WrittenBefore(m: nat, n: nat)
    requires m < n <= 24
    ensures InTop(BigByte(m), Top(n))
  {
    hide BigByte; hide Top; hide InTop; hide IsNext;
    NextTopIs(n - 1);
    if m < n - 1 {
      WrittenBefore(m, n - 1);
      OneMoreInTop(BigByte(m), Top(n - 1), BigByte(n - 1), Top(n));
    } else {
      LastInTop(Top(n - 1), BigByte(n - 1), Top(n));
    }
  }

  predicate IsSet(w: word, mask: word) {
    w & mask != 0
  }

  lemma Apart(mask: word, other: word, top: word)
    requires InTop(other, top) && Below(mask, top)
    ensures mask & other == 0
  {
  }

  lemma SetElsewhere(w: word, w': word, mask: word, other: word)
    requires mask & other == 0 && w' == w | mask
    ensures IsSet(w', other) == IsSet(w, other)
  {
  }

  lemma OtherBit(w: word, bit: bool, mask: word, other: word, top: word)
    requires InTop(other, top) && Below(mask, top)
    ensures IsSet(With(w, bit, mask), other) == IsSet(w, other)
  {
    hide IsSet; hide InTop; hide Below;
    if bit {
      Apart(mask, other, top);
      SetElsewhere(w, With(w, bit, mask), mask, other);
    }
  }

  lemma OwnBit(w: word, bit: bool, mask: word, top: word)
    requires InTop(w, top) && Below(mask, top)
    ensures IsSet(With(w, bit, mask), mask) == bit
  {
  }

  /** Each bit of a raw word is the bit of the key that was selected for it. */
  lemma {:induction false} RawBit(key: Block, i: nat, from: nat, n: nat, m: nat)
    requires i < 16 && m < n <= 24 && from <= 24
    ensures IsSet(RawWord(key, i, from, n), BigByte(m)) == KeyBit(key, Rotated(i, Pc2(from + m)))
  {
    hide With; hide KeyBit; hide BigByte; hide Rotated; hide Pc2; hide Top; hide InTop; hide Below; hide IsSet;
    var w, bit := RawWord(key, i, from, n - 1), KeyBit(key, Rotated(i, Pc2(from + n - 1)));
    NextBelow(n - 1);
    if m < n - 1 {
      RawBit(key, i, from, n - 1, m);
      WrittenBefore(m, n - 1);
      OtherBit(w, bit, BigByte(n - 1), BigByte(m), Top(n - 1));
    } else {
      RawInside(key, i, from, n - 1);
      OwnBit(w, bit, BigByte(n - 1), Top(n - 1));
    }
  }

  /** Bits `6 * g` to `6 * g + 5` of the 24 of a raw word. */
  function RawSix(w: word, g: nat): bv6
    requires g < 4
  {
    Six(if g == 0 then w >> 18 else if g == 1 then w >> 12 else if g == 2 then w >> 6 else w)
  }

  lemma RawSixAre0(w: word)
    ensures RawSix(w, 0) == SixBits(IsSet(w, BigByte(0)), IsSet(w, BigByte(1)), IsSet(w, BigByte(2)),
                                   IsSet(w, BigByte(3)), IsSet(w, BigByte(4)), IsSet(w, BigByte(5)))
  {
  }

  lemma RawSixAre1(w: word)
    ensures RawSix(w, 1) == SixBits(IsSet(w, BigByte(6)), IsSet(w, BigByte(7)), IsSet(w, BigByte(8)),
                                   IsSet(w, BigByte(9)), IsSet(w, BigByte(10)), IsSet(w, BigByte(11)))
  {
  }

  lemma RawSixAre2(w: word)
    ensures RawSix(w, 2) == SixBits(IsSet(w, BigByte(12)), IsSet(w, BigByte(13)), IsSet(w, BigByte(14)),
                                   IsSet(w, BigByte(15)), IsSet(w, BigByte(16)), IsSet(w, BigByte(17)))
  {
  }

  lemma RawSixAre3(w: word)
    ensures RawSix(w, 3) == SixBits(IsSet(w, BigByte(18)), IsSet(w, BigByte(19)), IsSet(w, BigByte(20)),
                                   IsSet(w, BigByte(21)), IsSet(w, BigByte(22)), IsSet(w, BigByte(23)))
  {
  }

  lemma SelectedBit(key: Block, n: nat, from: nat, m: nat)
    requires n < 16 && m < 24 && (from == 0 || from == 24)
    ensures IsSet(RawWord(key, n, from, 24), BigByte(m)) == RoundKeyBit(key, n, from + m)
  {
    hide RawWord; hide BigByte; hide RoundKeyBit; hide KeyBit; hide Rotated; hide Pc2; hide IsSet;
    RawBit(key, n, from, 24, m);
    KeyBitIsStandard(key, n, from + m);
  }

  lemma RawGroup0(key: Block, n: nat, from: nat)
    requires n < 16 && (from == 0 || from == 24)
    ensures RawSix(RawWord(key, n, from, 24), 0) == KeyGroup(key, n, from / 6 + 0)
  {
    hide RawWord; hide BigByte; hide RoundKeyBit; hide SixBits; hide RawSix; hide IsSet;
    RawSixAre0(RawWord(key, n, from, 24));
    SelectedBit(key, n, from, 0);
    SelectedBit(key, n, from, 1);
    SelectedBit(key, n, from, 2);
    SelectedBit(key, n, from, 3);
    SelectedBit(key, n, from, 4);
    SelectedBit(key, n, from, 5);
  }

  lemma RawGroup1(key: Block, n: nat, from: nat)
    requires n < 16 && (from == 0 || from == 24)
    ensures RawSix(RawWord(key, n, from, 24), 1) == KeyGroup(key, n, from / 6 + 1)
  {
    hide RawWord; hide BigByte; hide RoundKeyBit; hide SixBits; hide RawSix; hide IsSet;
    RawSixAre1(RawWord(key, n, from, 24));
    SelectedBit(key, n, from, 6);
    SelectedBit(key, n, from, 7);
    SelectedBit(key, n, from, 8);
    SelectedBit(key, n, from, 9);
    SelectedBit(key, n, from, 10);
    SelectedBit(key, n, from, 11);
  }

  lemma RawGroup2(key: Block, n: nat, from: nat)
    requires n < 16 && (from == 0 || from == 24)
    ensures RawSix(RawWord(key, n, from, 24), 2) == KeyGroup(key, n, from / 6 + 2)
  {
    hide RawWord; hide BigByte; hide RoundKeyBit; hide SixBits; hide RawSix; hide IsSet;
    RawSixAre2(RawWord(key, n, from, 24));
    SelectedBit(key, n, from, 12);
    SelectedBit(key, n, from, 13);
    SelectedBit(key, n, from, 14);
    SelectedBit(key, n, from, 15);
    SelectedBit(key, n, from, 16);
    SelectedBit(key, n, from, 17);
  }

  lemma RawGroup3(key: Block, n: nat, from: nat)
    requires n < 16 && (from == 0 || from == 24)
    ensures RawSix(RawWord(key, n, from, 24), 3) == KeyGroup(key, n, from / 6 + 3)
  {
    hide RawWord; hide BigByte; hide RoundKeyBit; hide SixBits; hide RawSix; hide IsSet;
    RawSixAre3(RawWord(key, n, from, 24));
    SelectedBit(key, n, from, 18);
    SelectedBit(key, n, from, 19);
    SelectedBit(key, n, from, 20);
    SelectedBit(key, n, from, 21);
    SelectedBit(key, n, from, 22);
    SelectedBit(key, n, from, 23);
  }

  /** `cookey` deals the groups of six out, the odd ones to one word and the even ones to the other. */
  lemma CookedGroups(a: word, b: word)
    ensures SixOf(CookFirst(a, b), 0) == RawSix(a, 0) && SixOf(CookFirst(a, b), 1) == RawSix(a, 2)
    ensures SixOf(CookFirst(a, b), 2) == RawSix(b, 0) && SixOf(CookFirst(a, b), 3) == RawSix(b, 2)
    ensures SixOf(CookSecond(a, b), 0) == RawSix(a, 1) && SixOf(CookSecond(a, b), 1) == RawSix(a, 3)
    ensures SixOf(CookSecond(a, b), 2) == RawSix(b, 1) && SixOf(CookSecond(a, b), 3) == RawSix(b, 3)
  {
  }

  lemma CookedHolds(key: Block, n: nat)
    requires n < 16
    ensures var a, b := RawWord(key, n, 0, 24), RawWord(key, n, 24, 24);
            Holds(CookFirst(a, b), CookSecond(a, b), StandardKey(key, n))
  {
    hide RawWord; hide CookFirst; hide CookSecond; hide KeyGroup; hide SixOf; hide RawSix;
    CookedGroups(RawWord(key, n, 0, 24), RawWord(key, n, 24, 24));
    RawGroup0(key, n, 0);
    RawGroup1(key, n, 0);
    RawGroup2(key, n, 0);
    RawGroup3(key, n, 0);
    RawGroup0(key, n, 24);
    RawGroup1(key, n, 24);
    RawGroup2(key, n, 24);
    RawGroup3(key, n, 24);
  }

  /** The schedule in use holds the keys of the standard. */
  lemma ScheduleIsStandard(key: Block, edf: Direction)
    ensures HoldsAll(KeySchedule(key, edf), StandardKeys(key, edf))
  {
    hide RawWord; hide CookFirst; hide CookSecond; hide StandardKey; hide Holds;
    var ks, keys := KeySchedule(key, edf), StandardKeys(key, edf);
    forall i | 0 <= i < 16
      ensures Holds(ks[2 * i], ks[2 * i + 1], keys[i])
    {
      assert 2 * i / 2 == i && (2 * i + 1) / 2 == i;
      CookedHolds(key, RoundAt(i, edf));
    }
  }

  // ---------------------------------------------------------------- the whole cipher

  lemma TurnedAndBack(p: Pair)
    ensures Turned(TurnedBack(p)) == p && TurnedBack(Turned(p)) == p
  {
    hide RotateLeft; hide RotateRight;
    RotatedTwice(p.l);
    RotatedTwice(p.r);
  }

  /**
   * A block is put through the initial permutation, sixteen rounds with the keys of the standard,
   * and with its halves exchanged back through the permutation.
   */
  lemma CipherIsStandard(boxes: Boxes, key: Block, edf: Direction, b: Block) returns (p: Pair)
    ensures Permuted(p, Scrunch(b))
    ensures Permuted(Flip(StandardRounds(boxes, StandardKeys(key, edf), p, 16)), Scrunch(Crypt(boxes, KeySchedule(key, edf), b)))
  {
    hide Permuted; hide InStage; hide OutStage; hide Rounds; hide StandardRounds; hide KeySchedule; hide Turned; hide TurnedBack;
    hide Join; hide Part; hide HoldsAll; hide StandardKeys;
    var start, ks, keys := InStage(Scrunch(b)), KeySchedule(key, edf), StandardKeys(key, edf);
    p := TurnedBack(start);
    InStageIsPermutation(Scrunch(b));
    TurnedAndBack(start);
    ScheduleIsStandard(key, edf);
    SixteenKeys(key, edf);
    RoundsAreStandard(boxes, ks, keys, p, 8);
    var q := StandardRounds(boxes, keys, p, 16);
    OutStageIsInverse(Turned(q));
    BackFromTurned(q);
    var o := OutStage(Turned(q));
    JoinOfParts(o.l);
    JoinOfParts(o.r);
    assert Scrunch(Unscrunch(o)) == o;
  }

  lemma SixteenKeys(key: Block, edf: Direction)
    ensures |StandardKeys(key, edf)| == 16
  {
  }

  lemma BackFromTurned(q: Pair)
    ensures TurnedBack(Flip(Turned(q))) == Flip(q)
  {
    hide RotateLeft; hide RotateRight;
    RotatedTwice(q.l);
    RotatedTwice(q.r);
  }
}
