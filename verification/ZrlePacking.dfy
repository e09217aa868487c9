/** Packing indices into bytes, most significant first, and taking them out again. */
module ZrlePacking {
  import opened Arithmetic
  import opened Bytes
  import opened ZrleFormat

  // ---------------------------------------------------------------- the accumulator

  /**
   * The low bits of the accumulator are the indices not written yet; above them may be what is
   * left of bytes written before.
   */
  ghost predicate Holds(acc: byte, idx: seq<nat>, b: Bits) {
    AllBelow(idx, b) && b * |idx| <= 8 && acc as int % Pow2(b * |idx|) == Value(idx, b)
  }

  /** An index is shifted in from below; eight bits are kept. */
  function Shift(acc: byte, index: nat, b: Bits): byte {
    (acc as int * Pow2(b) + index) % 256
  }

  lemma Below(s: nat, q: nat, r: nat, p: nat)
    requires s < q && r < p
    ensures s * p + r < q * p
  {
    ProductAtMost(s + 1, q, p);
  }

  lemma ShiftedSum(k: nat, p: nat, v: nat, q: nat)
    ensures (k * p + v) * q == k * (p * q) + v * q
  {
    assert (k * p) * q == k * (p * q);
  }

  lemma LessMultiples(k: int, t: int, r: int, n: int)
    ensures k * n - t * (n * r) == (k - t * r) * n
  {
    assert t * (n * r) == (t * r) * n;
  }

  lemma ShiftModulo(acc: nat, p: nat, q: nat, r: nat, v: nat, index: nat)
    requires p > 0 && q > 0 && (p * q) * r == 256 && acc % p == v && index < q
    ensures p * q > 0 && ((acc * q + index) % 256) % (p * q) == v * q + index
  {
    var k := acc / p;
    var x := acc * q + index;
    var t, n := x / 256, p * q;
    Below(v, p, index, q);
    ShiftedSum(k, p, v, q);
    LessMultiples(k, t, r, n);
    assert x % 256 == (k - t * r) * n + (v * q + index);
    DivisionIs(x % 256, n, k - t * r, v * q + index);
  }

  lemma PowFactors(b: Bits, n: nat)
    requires b * n + b <= 8
    ensures b * (n + 1) <= 8 && Pow2(b * (n + 1)) == Pow2(b * n) * Pow2(b)
    ensures (Pow2(b * n) * Pow2(b)) * Pow2(8 - b * n - b) == 256
  {
  }

  /** One more index. */
  lemma ShiftHolds(acc: byte, idx: seq<nat>, b: Bits, index: nat)
    requires Holds(acc, idx, b) && b * |idx| + b <= 8 && index < Pow2(b)
    ensures Holds(Shift(acc, index, b), idx + [index], b)
  {
    hide Pow2;
    PowFactors(b, |idx|);
    assert (idx + [index])[..|idx|] == idx;
    ShiftModulo(acc, Pow2(b * |idx|), Pow2(b), Pow2(8 - b * |idx| - b), Value(idx, b), index);
  }

  /** A full accumulator is the byte to write. */
  lemma FullByte(acc: byte, idx: seq<nat>, b: Bits)
    requires Holds(acc, idx, b) && b * |idx| == 8
    ensures acc == PackedByte(idx, b)
  {
  }

  /** At the end of a row the accumulator is shifted up, which pushes out what was left above. */
  lemma LastByte(acc: byte, idx: seq<nat>, b: Bits)
    requires Holds(acc, idx, b) && b * |idx| < 8
    ensures (acc as int * Pow2(8 - b * |idx|)) % 256 == PackedByte(idx, b)
  {
    hide Pow2;
    hide Value;
    Whole(b * |idx|);
    PushOut(acc, Pow2(b * |idx|), Pow2(8 - b * |idx|), Value(idx, b));
  }

  lemma PushOut(acc: nat, p: nat, q: nat, v: nat)
    requires p > 0 && q > 0 && p * q == 256 && acc % p == v
    ensures (acc * q) % 256 == v * q
  {
    var k := acc / p;
    assert acc == k * p + v;
    assert (k * p + v) * q == k * (p * q) + v * q;
    assert v * q < p * q by {
      assert (p - 1 - v) * q >= 0;
      assert (p - 1 - v) * q == p * q - q - v * q;
    }
    DivisionIs(acc * q, 256, k, v * q);
  }

  lemma Whole(n: nat)
    requires n <= 8
    ensures Pow2(n) * Pow2(8 - n) == 256
  {
  }

  // ---------------------------------------------------------------- taking out

  /** What lies `shift` bits up in a byte, as wide as the packing. */
  function Extract(packed: byte, shift: nat, b: Bits): nat
    requires shift <= 8
  {
    packed as int / Pow2(shift) % Pow2(b)
  }

  lemma ValueSplits(idx: seq<nat>, b: Bits)
    requires AllBelow(idx, b) && b * |idx| <= 8 && idx != []
    ensures b * (|idx| - 1) <= 8 && Value(idx, b) == Value(idx[..|idx| - 1], b) * Pow2(b) + idx[|idx| - 1]
  {
    hide Pow2;
    PowSplits(b, |idx|);
  }

  lemma {:induction false} ValueAt(idx: seq<nat>, b: Bits, k: nat)
    requires AllBelow(idx, b) && b * |idx| <= 8 && k < |idx|
    ensures b * (|idx| - 1 - k) <= 8 && Value(idx, b) / Pow2(b * (|idx| - 1 - k)) % Pow2(b) == idx[k]
  {
    hide Pow2;
    hide Value;
    var n := |idx| - 1;
    ValueSplits(idx, b);
    var v := Value(idx[..n], b);
    if k == n {
      One();
      DivisionIs(v * Pow2(b) + idx[n], Pow2(b), v, idx[n]);
    } else {
      ValueAt(idx[..n], b, k);
      PowSplits(b, n - k);
      DigitBehind(Value(idx, b), v, idx[n], Pow2(b), Pow2(b * (n - 1 - k)), idx[k]);
    }
  }

  lemma DigitBehind(x: nat, v: nat, last: nat, p: nat, q: nat, digit: nat)
    requires p > 0 && q > 0 && x == v * p + last && last < p && v / q % p == digit
    ensures q * p > 0 && x / (q * p) % p == digit
  {
    DivisionIs(x, p, v, last);
    DivideTwice(x, p, q);
    assert p * q == q * p;
  }

  lemma One()
    ensures Pow2(0) == 1
  {
  }

  lemma Swapped(p: nat, q: nat)
    requires p > 0 && q > 0
    ensures q * p == p * q > 0
  {
  }

  lemma DivideTwice(a: nat, p: nat, q: nat)
    requires p > 0 && q > 0
    ensures p * q > 0 && a / (p * q) == a / p / q
  {
    var x, y := a / p, a / p / q;
    var r, s := a % p, x % q;
    Recombine(y, q, s, p, r);
    Below(s, q, r, p);
    Swapped(p, q);
    DivisionIs(a, p * q, y, s * p + r);
  }

  lemma Recombine(y: nat, q: nat, s: nat, p: nat, r: nat)
    ensures (y * q + s) * p + r == y * (p * q) + (s * p + r)
  {
  }

  lemma PowJoins(b: Bits, n: nat, k: nat)
    requires k < n && b * n <= 8
    ensures b * (n - 1 - k) <= 8 && 8 - b - b * k >= 0 && Pow2(8 - b - b * k) == Pow2(8 - b * n) * Pow2(b * (n - 1 - k))
  {
  }

  /** Every index comes out of its byte again. */
  lemma ExtractAt(idx: seq<nat>, b: Bits, k: nat)
    requires AllBelow(idx, b) && b * |idx| <= 8 && k < |idx|
    ensures b + b * k <= 8 && Extract(PackedByte(idx, b), 8 - b - b * k, b) == idx[k]
  {
    hide Pow2;
    hide Value;
    var n := |idx|;
    PowJoins(b, n, k);
    ValueAt(idx, b, k);
    DivideTwice(PackedByte(idx, b), Pow2(8 - b * n), Pow2(b * (n - 1 - k)));
    DivisionIs(Value(idx, b) * Pow2(8 - b * n), Pow2(8 - b * n), Value(idx, b), 0);
  }
}
