/**
 * `rfbAddM64`, `rfbMulM64` and `rfbPowM64`: modular arithmetic on 64-bit words, in which a sum
 * that carries out of the word is put right by adding 2^64 mod m.
 */
module ModArith {
  import opened Arithmetic

  const WORD := 0x1_0000_0000_0000_0000

  /** A `uint64_t`. */
  type word = x: int | 0 <= x < WORD

  /** The macro, operation by operation; `%` and `+` wrap as the C type does. */
  function AddM64(x: word, y: word, m: word): (r: word)
    requires m > 0
  {
    var sum := (x + y) % WORD;
    var carry := if sum < x then ((WORD - 1) % m + 1) % m else 0;
    (sum % m + carry) % WORD
  }

  function Pow(b: nat, e: nat): nat {
    if e == 0 then 1 else b * Pow(b, e - 1)
  }

  ghost predicate Congruent(a: int, b: int, m: int)
    requires m > 0
  {
    a % m == b % m
  }

  lemma ModAddMultiple(a: int, k: int, m: int)
    requires m > 0
    ensures (a + k * m) % m == a % m
  {
    assert a + k * m == (a / m + k) * m + a % m;
    DivisionIs(a + k * m, m, a / m + k, a % m);
  }

  lemma ModAdd(a: int, b: int, m: int)
    requires m > 0
    ensures (a % m + b % m) % m == (a + b) % m
  {
    assert a + b == (a % m + b % m) + (a / m + b / m) * m;
    ModAddMultiple(a % m + b % m, a / m + b / m, m);
  }

  lemma ModMul(a: int, b: int, m: int)
    requires m > 0
    ensures (a % m * (b % m)) % m == (a * b) % m
  {
    var qa, qb, ra, rb := a / m, b / m, a % m, b % m;
    assert a * b == (qa * m + ra) * (qb * m + rb);
    assert (qa * m + ra) * (qb * m + rb) == ra * rb + (qa * qb * m + qa * rb + qb * ra) * m;
    ModAddMultiple(ra * rb, qa * qb * m + qa * rb + qb * ra, m);
  }

  lemma SameAdd(a: int, a': int, b: int, b': int, m: int)
    requires m > 0 && Congruent(a, a', m) && Congruent(b, b', m)
    ensures Congruent(a + b, a' + b', m)
  {
    ModAdd(a, b, m);
    ModAdd(a', b', m);
  }

  lemma SameMul(a: int, a': int, b: int, b': int, m: int)
    requires m > 0 && Congruent(a, a', m) && Congruent(b, b', m)
    ensures Congruent(a * b, a' * b', m)
  {
    ModMul(a, b, m);
    ModMul(a', b', m);
  }

  lemma ModAtMost(a: int, m: int)
    requires m > 0 && a >= 0
    ensures a % m <= a
  {
    assert a / m >= 0;
    assert a / m * m >= 0;
  }

  lemma OneLess(a: int, m: int)
    requires m > 0
    ensures ((a - 1) % m + 1) % m == a % m
  {
    assert a == ((a - 1) % m + 1) + (a - 1) / m * m;
    ModAddMultiple((a - 1) % m + 1, (a - 1) / m, m);
  }

  lemma ModBelowRest(a: int, m: int)
    requires 0 < m <= a
    ensures a % m <= a - m
  {
    ModAddMultiple(a - m, 1, m);
    ModAtMost(a - m, m);
  }

  lemma SmallMod(a: int, m: int)
    requires m > 0 && 0 <= a < m
    ensures a % m == a
  {
  }

  /** The sum of the two terms never wraps, and it is the sum of the operands modulo `m`. */
  lemma AddM64Value(x: word, y: word, m: word)
    requires m > 0
    ensures AddM64(x, y, m) == (x + y) % WORD % m + (if x + y < WORD then 0 else WORD % m)
  {
    var sum := (x + y) % WORD;
    OneLess(WORD, m);
    ModBelowRest(WORD, m);
    if x + y < WORD {
      SmallMod(x + y, WORD);
      assert sum == x + y >= x;
    } else {
      DivisionIs(x + y, WORD, 1, x + y - WORD);
      assert sum == x + y - WORD < x;
    }
    assert 0 <= sum % m < m;
    SmallMod(AddM64Sum(x, y, m), WORD);
  }

  function AddM64Sum(x: word, y: word, m: word): int
    requires m > 0
  {
    (x + y) % WORD % m + if x + y < WORD then 0 else WORD % m
  }

  /** The macro is right modulo `m` for all words, reduced or not. */
  lemma AddM64Congruent(x: word, y: word, m: word)
    requires m > 0
    ensures Congruent(AddM64(x, y, m), x + y, m)
  {
    AddM64Value(x, y, m);
    var sum := (x + y) % WORD;
    if x + y < WORD {
      SmallMod(x + y, WORD);
      ModAdd(x + y, 0, m);
    } else {
      DivisionIs(x + y, WORD, 1, x + y - WORD);
      ModAdd(sum, WORD, m);
    }
  }

  /**
   * It is `(x + y) % m` itself unless the sum carries and what is left of it, put right by the
   * remainder of 2^64, reaches the modulus: the remark beside the macro that it works beyond
   * 64 bits holds on exactly the other operands.
   */
  lemma AddM64ExactIff(x: word, y: word, m: word)
    requires m > 0
    ensures AddM64(x, y, m) == (x + y) % m <==> x + y < WORD || (x + y - WORD) % m + WORD % m < m
  {
    AddM64Value(x, y, m);
    AddM64Congruent(x, y, m);
    var v := AddM64(x, y, m);
    if x + y < WORD {
      SmallMod(x + y, WORD);
    } else {
      DivisionIs(x + y, WORD, 1, x + y - WORD);
      if v < m {
        SmallMod(v, m);
      } else {
        DivisionIs(v, m, 1, v - m);
      }
    }
  }

  /** Ten instead of zero. */
  lemma AddM64Inexact()
    ensures AddM64(WORD - 1, WORD - 1, 10) == 10 && (WORD - 1 + WORD - 1) % 10 == 0
  {
  }

  /** Reduced operands are always added exactly. */
  lemma AddM64Exact(x: word, y: word, m: word)
    requires x < m && y < m
    ensures AddM64(x, y, m) == (x + y) % m
  {
    hide AddM64;
    AddM64ExactIff(x, y, m);
    if x + y >= WORD {
      SmallMod(x + y - WORD, m);
      ModBelowRest(WORD, m);
    }
  }

  /** Russian peasant multiplication. */
  method MulM64(x0: word, y0: word, m: word) returns (r: word)
    requires m > 0
    ensures Congruent(r, x0 * y0, m)
    ensures y0 < m ==> r == x0 * y0 % m
  {
    var x: word, y: word := x0, y0;
    r := 0;
    while x > 0
      invariant Congruent(r + x * y, x0 * y0, m)
      invariant y0 < m ==> r < m && y < m
    {
      var r', y' := if x % 2 == 1 then AddM64(r, y, m) else r, AddM64(y, y, m);
      MulRound(r, r', x, y, y', m);
      if y0 < m {
        AddM64Exact(r, y, m);
        AddM64Exact(y, y, m);
      }
      hide AddM64;
      hide Congruent;
      r, y, x := r', y', x / 2;
    }
    if y0 < m {
      SmallMod(r, m);
    }
  }

  lemma MulRound(r: word, r': word, x: word, y: word, y': word, m: word)
    requires m > 0 && y' == AddM64(y, y, m) && r' == if x % 2 == 1 then AddM64(r, y, m) else r
    ensures Congruent(r' + x / 2 * y', r + x * y, m)
  {
    AddM64Congruent(r, y, m);
    AddM64Congruent(y, y, m);
    hide AddM64;
    var half := x / 2;
    var once := if x % 2 == 1 then r + y else r;
    SameMul(half, half, y', y + y, m);
    SameAdd(r', once, half * y', half * (y + y), m);
    Halved(r, x, y);
    hide Congruent;
  }

  lemma Halved(r: int, x: nat, y: int)
    ensures (if x % 2 == 1 then r + y else r) + x / 2 * (y + y) == r + x * y
  {
    var h := x / 2;
    assert h * (y + y) == 2 * h * y;
    if x % 2 == 1 {
      assert x == 2 * h + 1;
      assert (2 * h + 1) * y == 2 * h * y + y;
    } else {
      assert x == 2 * h;
    }
  }

  lemma {:induction false} PowSquare(b: nat, e: nat)
    ensures Pow(b * b, e) == Pow(b, 2 * e)
  {
    if e > 0 {
      PowSquare(b, e - 1);
      assert Pow(b, 2 * e) == b * (b * Pow(b, 2 * e - 2));
      assert b * (b * Pow(b, 2 * e - 2)) == b * b * Pow(b, 2 * e - 2);
    }
  }

  lemma {:induction false} SamePow(b: nat, b': nat, e: nat, m: int)
    requires m > 0 && Congruent(b, b', m)
    ensures Congruent(Pow(b, e), Pow(b', e), m)
  {
    if e > 0 {
      SamePow(b, b', e - 1, m);
      SameMul(b, b', Pow(b, e - 1), Pow(b', e - 1), m);
    }
  }

  lemma PowStep(r: int, r': int, b: nat, b': nat, e: nat, m: int)
    requires m > 0 && e > 0 && Congruent(b', b * b, m) && b' >= 0
    requires Congruent(r', if e % 2 == 1 then r * b else r, m)
    ensures Congruent(r' * Pow(b', e / 2), r * Pow(b, e), m)
  {
    SamePow(b', b * b, e / 2, m);
    PowSquare(b, e / 2);
    SameMul(r', if e % 2 == 1 then r * b else r, Pow(b', e / 2), Pow(b, 2 * (e / 2)), m);
    if e % 2 == 1 {
      assert Pow(b, e) == b * Pow(b, 2 * (e / 2));
      assert r * b * Pow(b, 2 * (e / 2)) == r * (b * Pow(b, 2 * (e / 2)));
    } else {
      assert 2 * (e / 2) == e;
    }
  }

  /** Square and multiply. */
  method PowM64(b0: word, e0: word, m: word) returns (r: word)
    requires m > 0
    ensures Congruent(r, Pow(b0, e0), m)
    ensures b0 < m && m > 1 ==> r == Pow(b0, e0) % m
  {
    var b: word, e: word := b0, e0;
    r := 1;
    while e > 0
      invariant Congruent(r * Pow(b, e), Pow(b0, e0), m)
      invariant b0 < m && m > 1 ==> r < m && b < m
    {
      ghost var was := r;
      if e % 2 == 1 {
        r := MulM64(r, b, m);
      }
      var b' := MulM64(b, b, m);
      PowStep(was, r, b, b', e, m);
      b := b';
      e := e / 2;
    }
    assert r * Pow(b, 0) == r;
    if b0 < m && m > 1 {
      SmallMod(r, m);
    }
  }

  lemma {:induction false} PowSum(b: nat, i: nat, j: nat)
    ensures Pow(b, i + j) == Pow(b, i) * Pow(b, j)
  {
    if i > 0 {
      PowSum(b, i - 1, j);
      assert b * (Pow(b, i - 1) * Pow(b, j)) == b * Pow(b, i - 1) * Pow(b, j);
    }
  }

  lemma {:induction false} PowPow(b: nat, i: nat, j: nat)
    ensures Pow(Pow(b, i), j) == Pow(b, i * j)
  {
    if j > 0 {
      PowPow(b, i, j - 1);
      PowSum(b, i, i * (j - 1));
      assert i + i * (j - 1) == i * j;
    }
  }

  /**
   * The key exchange of `HandleMSLogonAuth`: each side raises the other's public value to its
   * own private one, and both arrive at the same key.
   */
  method KeyExchange(gen: word, mod: word, priv: word, otherPriv: word) returns (key: word, otherKey: word)
    requires gen < mod && mod > 1
    ensures key == otherKey == Pow(gen, priv * otherPriv) % mod
  {
    var pub := PowM64(gen, priv, mod);
    var resp := PowM64(gen, otherPriv, mod);
    key := PowM64(resp, priv, mod);
    otherKey := PowM64(pub, otherPriv, mod);
    Reduced(gen, otherPriv, mod);
    Reduced(gen, priv, mod);
    SamePow(resp, Pow(gen, otherPriv), priv, mod);
    SamePow(pub, Pow(gen, priv), otherPriv, mod);
    PowPow(gen, otherPriv, priv);
    PowPow(gen, priv, otherPriv);
    assert priv * otherPriv == otherPriv * priv;
  }

  lemma Reduced(b: nat, e: nat, m: int)
    requires m > 0
    ensures Congruent(Pow(b, e) % m, Pow(b, e), m)
  {
    hide Pow;
    ModAdd(Pow(b, e), 0, m);
  }
}
