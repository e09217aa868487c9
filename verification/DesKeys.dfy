/** Which bits of a key the schedule depends on: exactly the seven low bits of each byte. */
module DesKeys {
  import opened Des
  import opened DesLaws

  /** The keys agree where the cipher looks. */
  predicate SameKey(key: Block, key': Block) {
    forall b :: 0 <= b < 8 ==> key[b] & 0x7f == key'[b] & 0x7f
  }

  // ---------------------------------------------------------------- the bits that are ignored

  lemma LowBit(k: bv8, k': bv8, m: nat)
    requires m < 7 && k & 0x7f == k' & 0x7f
    ensures (k & ByteBit(m) != 0) == (k' & ByteBit(m) != 0)
  {
    var b := ByteBit(m);
    assert b == 1 || b == 2 || b == 4 || b == 8 || b == 16 || b == 32 || b == 64;
    assert k & b == (k & 0x7f) & b && k' & b == (k' & 0x7f) & b;
  }

  lemma NoTopBit(j: nat)
    requires j < 56
    ensures Pc1(j) % 8 < 7
  {
  }

  lemma SameKeyBit(key: Block, key': Block, j: nat)
    requires SameKey(key, key') && j < 56
    ensures KeyBit(key, j) == KeyBit(key', j)
  {
    hide ByteBit; hide Pc1;
    NoTopBit(j);
    LowBit(key[Pc1(j) / 8], key'[Pc1(j) / 8], Pc1(j) % 8);
  }

  lemma {:induction false} SameRawWord(key: Block, key': Block, i: nat, from: nat, n: nat)
    requires SameKey(key, key') && i < 16 && n <= 24 && from <= 24
    ensures RawWord(key, i, from, n) == RawWord(key', i, from, n)
  {
    hide With; hide KeyBit; hide BigByte; hide Rotated; hide Pc2; hide SameKey;
    if n > 0 {
      SameRawWord(key, key', i, from, n - 1);
      SameKeyBit(key, key', Rotated(i, Pc2(from + n - 1)));
    }
  }

  lemma SameSchedule(key: Block, key': Block, edf: Direction)
    requires SameKey(key, key')
    ensures KeySchedule(key, edf) == KeySchedule(key', edf)
  {
    hide RawWord; hide CookFirst; hide CookSecond; hide SameKey;
    forall i | 0 <= i < 32
      ensures KeySchedule(key, edf)[i] == KeySchedule(key', edf)[i]
    {
      SameRawWord(key, key', RoundAt(i / 2, edf), 0, 24);
      SameRawWord(key, key', RoundAt(i / 2, edf), 24, 24);
    }
  }

  // ---------------------------------------------------------------- the bits that count

  /** Round `i` selects bit `j` of the permuted key for place `n`. */
  predicate Selects(i: nat, n: nat, j: nat) {
    i < 16 && n < 48 && Rotated(i, Pc2(n)) == j
  }

  lemma SelectedFrom0(j: nat) returns (i: nat, n: nat)
    requires 0 <= j < 7
    ensures Selects(i, n, j)
  {
    i, n := 0, [7, 4, 23, 6, 15, 5, 9][j];
  }

  lemma SelectedFrom7(j: nat) returns (i: nat, n: nat)
    requires 7 <= j < 14
    ensures Selects(i, n, j)
  {
    i, n := if j == 9 then 1 else 0, [19, 17, 17, 11, 2, 14, 22][j - 7];
  }

  lemma SelectedFrom14(j: nat) returns (i: nat, n: nat)
    requires 14 <= j < 21
    ensures Selects(i, n, j)
  {
    i, n := if j == 18 then 1 else 0, [0, 8, 18, 1, 1, 13, 21][j - 14];
  }

  lemma SelectedFrom21(j: nat) returns (i: nat, n: nat)
    requires 21 <= j < 28
    ensures Selects(i, n, j)
  {
    i, n := if j == 22 || j == 25 then 1 else 0, [10, 10, 12, 3, 3, 16, 20][j - 21];
  }

  lemma SelectedFrom28(j: nat) returns (i: nat, n: nat)
    requires 28 <= j < 35
    ensures Selects(i, n, j)
  {
    i, n := 0, [39, 46, 30, 26, 47, 34, 40][j - 28];
  }

  lemma SelectedFrom35(j: nat) returns (i: nat, n: nat)
    requires 35 <= j < 42
    ensures Selects(i, n, j)
  {
    i, n := if j == 35 || j == 38 then 1 else 0, [40, 45, 27, 27, 38, 31, 24][j - 35];
  }

  lemma SelectedFrom42(j: nat) returns (i: nat, n: nat)
    requires 42 <= j < 49
    ensures Selects(i, n, j)
  {
    i, n := if j == 43 then 1 else 0, [43, 43, 36, 33, 42, 28, 35][j - 42];
  }

  lemma SelectedFrom49(j: nat) returns (i: nat, n: nat)
    requires 49 <= j < 56
    ensures Selects(i, n, j)
  {
    i, n := if j == 54 then 1 else 0, [37, 44, 32, 25, 41, 41, 29][j - 49];
  }

  /** The first two rounds select every bit. */
  lemma EveryBitIsSelected(j: nat) returns (i: nat, n: nat)
    requires j < 56
    ensures Selects(i, n, j)
  {
    hide Selects;
    if j < 7 {
      i, n := SelectedFrom0(j);
    } else if j < 14 {
      i, n := SelectedFrom7(j);
    } else if j < 21 {
      i, n := SelectedFrom14(j);
    } else if j < 28 {
      i, n := SelectedFrom21(j);
    } else if j < 35 {
      i, n := SelectedFrom28(j);
    } else if j < 42 {
      i, n := SelectedFrom35(j);
    } else if j < 49 {
      i, n := SelectedFrom42(j);
    } else {
      i, n := SelectedFrom49(j);
    }
  }

  lemma HeldFrom0(p: nat) returns (j: nat)
    requires 0 <= p < 16 && p % 8 < 7
    ensures j < 56 && Pc1(j) == p
  {
    j := [7, 15, 23, 55, 51, 43, 35, 0, 6, 14, 22, 54, 50, 42, 34, 0][p];
  }

  lemma HeldFrom16(p: nat) returns (j: nat)
    requires 16 <= p < 32 && p % 8 < 7
    ensures j < 56 && Pc1(j) == p
  {
    j := [5, 13, 21, 53, 49, 41, 33, 0, 4, 12, 20, 52, 48, 40, 32, 0][p - 16];
  }

  lemma HeldFrom32(p: nat) returns (j: nat)
    requires 32 <= p < 48 && p % 8 < 7
    ensures j < 56 && Pc1(j) == p
  {
    j := [3, 11, 19, 27, 47, 39, 31, 0, 2, 10, 18, 26, 46, 38, 30, 0][p - 32];
  }

  lemma HeldFrom48(p: nat) returns (j: nat)
    requires 48 <= p < 64 && p % 8 < 7
    ensures j < 56 && Pc1(j) == p
  {
    j := [1, 9, 17, 25, 45, 37, 29, 0, 0, 8, 16, 24, 44, 36, 28, 0][p - 48];
  }

  /** The permuted key holds every bit but the most significant of each byte. */
  lemma EveryBitIsHeld(p: nat) returns (j: nat)
    requires p < 64 && p % 8 < 7
    ensures j < 56 && Pc1(j) == p
  {
    hide Pc1;
    if p < 16 {
      j := HeldFrom0(p);
    } else if p < 32 {
      j := HeldFrom16(p);
    } else if p < 48 {
      j := HeldFrom32(p);
    } else {
      j := HeldFrom48(p);
    }
  }

  predicate InTop(w: word, top: word) {
    w | top == top
  }

  /** A bit that is not in `top`. */
  predicate Below(mask: word, top: word) {
    top & mask == 0 && mask != 0
  }

  lemma NotSetYet(w: word, top: word, mask: word)
    requires InTop(w, top) && Below(mask, top)
    ensures w & mask == 0 && mask != 0
  {
  }

  lemma SetTakenApart(w: word, w': word, mask: word)
    requires w & mask == 0 && w' & mask == 0 && w | mask == w' | mask
    ensures w == w'
  {
  }

  lemma SetOrNot(w: word, w': word, mask: word)
    requires w' & mask == 0 && mask != 0
    ensures w | mask != w'
  {
  }

  lemma WithTakenApart(w: word, w': word, top: word, mask: word, bit: bool, bit': bool)
    requires InTop(w, top) && InTop(w', top) && Below(mask, top) && With(w, bit, mask) == With(w', bit', mask)
    ensures w == w' && bit == bit'
  {
    hide InTop; hide Below;
    NotSetYet(w, top, mask);
    NotSetYet(w', top, mask);
    if bit && bit' {
      SetTakenApart(w, w', mask);
    } else if bit {
      SetOrNot(w, w', mask);
    } else if bit' {
      SetOrNot(w', w, mask);
    }
  }

  lemma ChangedInTop(v: word, w: word, top: word)
    requires Changed(v, w, top)
    ensures InTop(w, top)
  {
  }

  lemma RawInside(key: Block, i: nat, from: nat, n: nat)
    requires i < 16 && n <= 24 && from <= 24
    ensures InTop(RawWord(key, i, from, n), Top(n))
  {
    hide RawWord; hide Top; hide Changed; hide InTop; hide NotBlock;
    ContraryRawWord(key, i, from, n);
    ChangedInTop(RawWord(NotBlock(key), i, from, n), RawWord(key, i, from, n), Top(n));
  }

  lemma NextBelow(n: nat)
    requires n < 24
    ensures Below(BigByte(n), Top(n))
  {
    NextTop(n);
  }

  /** Equal raw words were selected from equal bits. */
  lemma {:induction false} EqualRawWords(key: Block, key': Block, i: nat, from: nat, n: nat, k: nat)
    requires i < 16 && n <= 24 && from <= 24 && RawWord(key, i, from, n) == RawWord(key', i, from, n) && k < n
    ensures KeyBit(key, Rotated(i, Pc2(from + k))) == KeyBit(key', Rotated(i, Pc2(from + k)))
  {
    hide With; hide KeyBit; hide BigByte; hide Rotated; hide Pc2; hide Top; hide InTop; hide Below;
    RawInside(key, i, from, n - 1);
    RawInside(key', i, from, n - 1);
    NextBelow(n - 1);
    var bit := Rotated(i, Pc2(from + n - 1));
    WithTakenApart(RawWord(key, i, from, n - 1), RawWord(key', i, from, n - 1), Top(n - 1), BigByte(n - 1), KeyBit(key, bit), KeyBit(key', bit));
    if k < n - 1 {
      EqualRawWords(key, key', i, from, n - 1, k);
    }
  }

  lemma CookedTakenApart(a: word, b: word, a': word, b': word)
    requires InTop(a, 0xff_ffff) && InTop(b, 0xff_ffff) && InTop(a', 0xff_ffff) && InTop(b', 0xff_ffff)
    requires CookFirst(a, b) == CookFirst(a', b') && CookSecond(a, b) == CookSecond(a', b')
    ensures a == a' && b == b'
  {
  }

  lemma EqualSchedulesAt(key: Block, key': Block, edf: Direction, i: nat)
    requires KeySchedule(key, edf) == KeySchedule(key', edf) && i < 16
    ensures RawWord(key, i, 0, 24) == RawWord(key', i, 0, 24) && RawWord(key, i, 24, 24) == RawWord(key', i, 24, 24)
  {
    hide RawWord; hide CookFirst; hide CookSecond; hide Top; hide InTop;
    var k := if edf == DE1 then 15 - i else i;
    assert KeySchedule(key, edf)[2 * k] == KeySchedule(key', edf)[2 * k];
    assert KeySchedule(key, edf)[2 * k + 1] == KeySchedule(key', edf)[2 * k + 1];
    assert RoundAt(2 * k / 2, edf) == i && RoundAt((2 * k + 1) / 2, edf) == i;
    NoBits();
    RawInside(key, i, 0, 24);
    RawInside(key, i, 24, 24);
    RawInside(key', i, 0, 24);
    RawInside(key', i, 24, 24);
    CookedTakenApart(RawWord(key, i, 0, 24), RawWord(key, i, 24, 24), RawWord(key', i, 0, 24), RawWord(key', i, 24, 24));
  }

  lemma EqualSelected(key: Block, key': Block, edf: Direction, j: nat)
    requires KeySchedule(key, edf) == KeySchedule(key', edf) && j < 56
    ensures KeyBit(key, j) == KeyBit(key', j)
  {
    hide RawWord; hide KeyBit; hide KeySchedule; hide Pc2; hide Rotated;
    var i, n := EveryBitIsSelected(j);
    EqualSchedulesAt(key, key', edf, i);
    if n < 24 {
      EqualRawWords(key, key', i, 0, 24, n);
    } else {
      EqualRawWords(key, key', i, 24, 24, n - 24);
    }
  }

  lemma EqualBit(key: Block, key': Block, edf: Direction, b: nat, m: nat)
    requires KeySchedule(key, edf) == KeySchedule(key', edf) && b < 8 && m < 7
    ensures (key[b] & ByteBit(m) != 0) == (key'[b] & ByteBit(m) != 0)
  {
    hide KeySchedule; hide Pc1; hide ByteBit;
    var p := 8 * b + m;
    assert p / 8 == b && p % 8 == m;
    var j := EveryBitIsHeld(p);
    EqualSelected(key, key', edf, j);
  }

  lemma LowBits(k: bv8, k': bv8)
    requires (k & 1 != 0) == (k' & 1 != 0) && (k & 2 != 0) == (k' & 2 != 0) && (k & 4 != 0) == (k' & 4 != 0) && (k & 8 != 0) == (k' & 8 != 0)
    requires (k & 16 != 0) == (k' & 16 != 0) && (k & 32 != 0) == (k' & 32 != 0) && (k & 64 != 0) == (k' & 64 != 0)
    ensures k & 0x7f == k' & 0x7f
  {
  }

  lemma BitValues()
    ensures ByteBit(0) == 1 && ByteBit(1) == 2 && ByteBit(2) == 4 && ByteBit(3) == 8 && ByteBit(4) == 16 && ByteBit(5) == 32 && ByteBit(6) == 64
  {
  }

  /**
   * Two keys give the same schedule if and only if they agree in the seven low bits of every byte:
   * the most significant bit is ignored, and every other bit counts.
   */
  lemma SameScheduleIff(key: Block, key': Block, edf: Direction)
    ensures KeySchedule(key, edf) == KeySchedule(key', edf) <==> SameKey(key, key')
  {
    hide KeySchedule; hide ByteBit;
    if SameKey(key, key') {
      SameSchedule(key, key', edf);
    }
    if KeySchedule(key, edf) == KeySchedule(key', edf) {
      BitValues();
      forall b | 0 <= b < 8
        ensures key[b] & 0x7f == key'[b] & 0x7f
      {
        EqualBit(key, key', edf, b, 0);
        EqualBit(key, key', edf, b, 1);
        EqualBit(key, key', edf, b, 2);
        EqualBit(key, key', edf, b, 3);
        EqualBit(key, key', edf, b, 4);
        EqualBit(key, key', edf, b, 5);
        EqualBit(key, key', edf, b, 6);
        LowBits(key[b], key'[b]);
      }
    }
  }
}
