/**
 * ZRLE's palette: an insert-only hash table with linear probing, over a list of distinct colours
 * in order of first insertion.
 */
module Palette {

  const ZRLE_PALETTE_MAX_SIZE: nat := 127
  const HASH_SIZE: nat := 4096
  const EMPTY: nat := 255

  type pixel = x: int | 0 <= x < 0x1_0000_0000

  /** `ZRLE_HASH` */
  function Hash(pix: pixel): (i: nat)
    ensures i < HASH_SIZE
  {
    var p := pix as bv32;
    ((p ^ (p >> 17)) & 4095) as nat
  }

  ghost predicate Distinct<T>(s: seq<T>) {
    forall i, j :: 0 <= i < j < |s| ==> s[i] != s[j]
  }

  /** A list of distinct numbers below `m` has at most `m` of them. */
  lemma {:induction false} Pigeonhole(s: seq<nat>, m: nat)
    requires Distinct(s) && forall x :: x in s ==> x < m
    ensures |s| <= m
  {
    if s == [] {
    } else if m - 1 in s {
      var k :| 0 <= k < |s| && s[k] == m - 1;
      var rest := s[..k] + s[k + 1..];
      assert forall i :: 0 <= i < |rest| ==> rest[i] == if i < k then s[i] else s[i + 1];
      assert forall i :: 0 <= i < |s| && i != k ==> s[i] in s && s[i] != s[k];
      Pigeonhole(rest, m - 1);
    } else {
      assert m > 0 by {
        assert s[0] in s;
      }
      Pigeonhole(s, m - 1);
    }
  }

  /** What an insertion does to the list. */
  function Inserted(colours: seq<pixel>, pix: pixel): seq<pixel> {
    if pix in colours then colours else colours + [pix]
  }

  class PaletteHelper {
    const palette: array<pixel>
    const index: array<nat>
    const key: array<pixel>
    var size: nat
    /** Where each colour is in the table. */
    ghost var slots: seq<nat>

    function Stored(): nat
      reads this
    {
      if size < ZRLE_PALETTE_MAX_SIZE then size else ZRLE_PALETTE_MAX_SIZE
    }

    /** The colours, in the order they first came. */
    ghost function Colours(): seq<pixel>
      reads this, palette, index, key
      requires Valid()
    {
      palette[..Stored()]
    }

    /** Slot `s` is empty, or holds one of the stored colours. */
    ghost predicate SlotOk(s: nat)
      reads this, palette, index, key
      requires palette.Length == ZRLE_PALETTE_MAX_SIZE && s < index.Length && s < key.Length
    {
      index[s] == EMPTY || (index[s] < Stored() && index[s] < |slots| && slots[index[s]] == s && key[s] == palette[index[s]])
    }

    /** Colour `k` is where probing for it ends: everything before is taken. */
    ghost predicate ColourOk(k: nat)
      reads this, palette, index
      requires palette.Length == ZRLE_PALETTE_MAX_SIZE && k < |slots| && k < palette.Length
    {
      Hash(palette[k]) <= slots[k] < index.Length && index[slots[k]] == k &&
      forall s :: Hash(palette[k]) <= s < slots[k] ==> index[s] != EMPTY
    }

    ghost predicate Shape()
      reads this
    {
      palette.Length == ZRLE_PALETTE_MAX_SIZE && index.Length == ZRLE_PALETTE_MAX_SIZE + HASH_SIZE && key.Length == index.Length &&
      palette != key
    }

    ghost predicate Valid()
      reads this, palette, index, key
    {
      Shape() && |slots| == Stored() && Distinct(palette[..Stored()]) &&
      (forall s :: 0 <= s < index.Length ==> SlotOk(s)) && (forall k :: 0 <= k < |slots| ==> ColourOk(k))
    }

    /** As it is allocated: not ready for use. */
    constructor ()
      ensures Shape() && fresh(palette) && fresh(index) && fresh(key)
    {
      palette := new pixel[ZRLE_PALETTE_MAX_SIZE];
      index := new nat[ZRLE_PALETTE_MAX_SIZE + HASH_SIZE];
      key := new pixel[ZRLE_PALETTE_MAX_SIZE + HASH_SIZE];
      size, slots := 0, [];
    }

    /** `zrlePaletteHelperInit`, whatever is in the tables. */
    method Init()
      requires Shape()
      modifies this, palette, index, key
      ensures Valid() && size == 0 && Colours() == []
    {
      forall i | 0 <= i < index.Length {
        index[i] := EMPTY;
      }
      size, slots := 0, [];
    }

    /** The taken slots from `h` to `i` hold different colours, so there are no more than are stored. */
    lemma ProbesAreFew(h: nat, i: nat)
      requires Valid() && h <= i <= index.Length && forall s :: h <= s < i ==> index[s] != EMPTY
      ensures i - h <= Stored()
    {
      var taken := index[h..i];
      forall a, b | 0 <= a < b < |taken|
        ensures taken[a] != taken[b]
      {
        assert SlotOk(h + a) && SlotOk(h + b);
      }
      forall x | x in taken
        ensures x < Stored()
      {
        var a :| 0 <= a < |taken| && taken[a] == x;
        assert SlotOk(h + a);
      }
      Pigeonhole(taken, Stored());
    }

    /** The probing loop shared by both operations: at most as many steps as colours are stored. */
    method Probe(pix: pixel) returns (i: nat)
      requires Valid()
      ensures Hash(pix) <= i <= Hash(pix) + Stored() && i < index.Length
      ensures index[i] == EMPTY || key[i] == pix
      ensures forall s :: Hash(pix) <= s < i ==> index[s] != EMPTY && key[s] != pix
    {
      i := Hash(pix);
      ProbesAreFew(i, i);
      while index[i] != EMPTY && key[i] != pix
        invariant Hash(pix) <= i <= Hash(pix) + Stored() && i < index.Length
        invariant forall s :: Hash(pix) <= s < i ==> index[s] != EMPTY && key[s] != pix
        decreases index.Length - i
      {
        ProbesAreFew(Hash(pix), i + 1);
        i := i + 1;
      }
    }

    /** Probing that ends at an empty slot has missed nothing. */
    lemma AbsentIfEmpty(pix: pixel, i: nat)
      requires Valid() && Hash(pix) <= i < index.Length && index[i] == EMPTY
      requires forall s :: Hash(pix) <= s < i ==> index[s] != EMPTY && key[s] != pix
      ensures pix !in Colours()
    {
      forall k | 0 <= k < Stored()
        ensures Colours()[k] != pix
      {
        assert ColourOk(k);
        assert SlotOk(slots[k]);
      }
    }

    /** `zrlePaletteHelperLookup` */
    method Lookup(pix: pixel) returns (r: int)
      requires Valid() && size <= ZRLE_PALETTE_MAX_SIZE
      ensures r == -1 <==> pix !in Colours()
      ensures r != -1 ==> 0 <= r < |Colours()| && Colours()[r] == pix
    {
      var i := Probe(pix);
      if index[i] != EMPTY {
        assert SlotOk(i);
        return index[i];
      }
      AbsentIfEmpty(pix, i);
      return -1;
    }

    /** `zrlePaletteHelperInsert`: beyond the maximum only the count goes on, even for a colour stored before. */
    method Insert(pix: pixel)
      requires Valid()
      modifies this, palette, index, key
      ensures Valid()
      ensures Colours() == if old(size) < ZRLE_PALETTE_MAX_SIZE then Inserted(old(Colours()), pix) else old(Colours())
      ensures size == if old(size) < ZRLE_PALETTE_MAX_SIZE then |Inserted(old(Colours()), pix)| else old(size) + 1
    {
      if size < ZRLE_PALETTE_MAX_SIZE {
        var i := Probe(pix);
        if index[i] != EMPTY {
          assert SlotOk(i);
          return;
        }
        AbsentIfEmpty(pix, i);
        Store(pix, i);
      } else {
        CountOn();
      }
    }

    /** Beyond the maximum, nothing but the count changes. */
    method CountOn()
      requires Valid() && size >= ZRLE_PALETTE_MAX_SIZE
      modifies this`size
      ensures Valid() && size == old(size) + 1 && Colours() == old(Colours())
    {
      size := size + 1;
      forall s | 0 <= s < index.Length
        ensures SlotOk(s)
      {
        assert old(SlotOk(s));
      }
      forall k | 0 <= k < |slots|
        ensures ColourOk(k)
      {
        assert old(ColourOk(k));
      }
    }

    /** A new colour goes to the empty slot where probing for it ends. */
    method Store(pix: pixel, i: nat)
      requires Valid() && size < ZRLE_PALETTE_MAX_SIZE && pix !in Colours()
      requires Hash(pix) <= i < index.Length && index[i] == EMPTY && forall s :: Hash(pix) <= s < i ==> index[s] != EMPTY
      modifies this, palette, index, key
      ensures Valid() && size == old(size) + 1 && Colours() == old(Colours()) + [pix]
    {
      hide Hash;
      index[i] := size;
      key[i] := pix;
      palette[size] := pix;
      slots := slots + [i];
      size := size + 1;
      forall k | 0 <= k < |slots|
        ensures ColourOk(k)
      {
        assert k < old(size) ==> old(ColourOk(k));
      }
      forall s | 0 <= s < index.Length
        ensures SlotOk(s)
      {
        assert old(SlotOk(s));
      }
    }
  }
}
