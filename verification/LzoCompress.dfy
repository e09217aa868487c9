/** `lzo1x_1_compress`: greedy matching through a hash table that is never initialised. */
module LzoCompress {
  import opened Bytes
  import opened LzoFormat

  const DICT_SIZE := 0x4000

  /** The last bytes are never matched: M2_MAX_LEN + 5 of them. */
  const TAIL := M2_MAX_LEN + 5

  function Hash(b0: byte, b1: byte, b2: byte, b3: byte): bv14 {
    var v := ((b3 as bv32) << 6) ^ (b2 as bv32);
    var x := (((v << 5) ^ (b1 as bv32)) << 5) ^ (b0 as bv32);
    (((0x21 * x) >> 5) & 0x3fff) as bv14
  }

  function Index1(src: Bytestring, ip: nat): bv14
    requires ip + 4 <= |src|
  {
    Hash(src[ip], src[ip + 1], src[ip + 2], src[ip + 3])
  }

  function Index2(d: bv14): bv14 {
    (d & 0x7ff) ^ 0x201f
  }

  /** The `len` bytes at `i` repeat those `off` earlier. */
  ghost predicate Matches(src: Bytestring, i: nat, off: nat, len: nat) {
    0 < off <= i && i + len <= |src| && forall k :: i <= k < i + len ==> src[k] == src[k - off]
  }

  lemma {:induction false} CopyMatchExtends(src: Bytestring, i: nat, off: nat, len: nat)
    requires Matches(src, i, off, len)
    ensures CopyMatch(src[..i], off, len) == src[..i + len]
    decreases len
  {
    if len > 0 {
      assert src[..i] + [src[i - off]] == src[..i + 1];
      CopyMatchExtends(src, i + 1, off, len - 1);
    }
  }

  /** A stale or foreign position, or one too far back. */
  predicate Unusable(pos: int, ip: nat) {
    pos < 0 || ip - pos <= 0 || ip - pos > M4_MAX_OFFSET
  }

  /** Near matches pay from three bytes on, far ones only from four. */
  predicate Worthwhile(src: Bytestring, pos: int, ip: nat)
    requires ip + 9 < |src| && !Unusable(pos, ip)
  {
    ip - pos <= M2_MAX_OFFSET || src[pos + 3] == src[ip + 3]
  }

  /** What the position of a slot is good for. */
  predicate Candidate(src: Bytestring, pos: int, ip: nat)
    requires ip + 9 < |src|
  {
    !Unusable(pos, ip) && Worthwhile(src, pos, ip)
  }

  /** A far position that the fourth byte spoils: the second slot is tried. */
  predicate Spoilt(src: Bytestring, pos: int, ip: nat)
    requires ip + 9 < |src|
  {
    !Unusable(pos, ip) && !Worthwhile(src, pos, ip)
  }

  /** The first slot of the hash, and only behind a spoilt position the second. */
  function Slot(src: Bytestring, dict: seq<int>, ip: nat): nat
    requires |dict| == DICT_SIZE && ip + 9 < |src|
  {
    if Spoilt(src, dict[Index1(src, ip)], ip) then Index2(Index1(src, ip)) as nat else Index1(src, ip) as nat
  }

  /** Finds a match exactly when the slot holds a position that will do and three bytes agree. */
  method FindMatch(src: Bytestring, dict: array<int>, ip: nat) returns (found: bool, off: nat, dindex: nat)
    requires dict.Length == DICT_SIZE && ip + 9 < |src|
    ensures dindex < DICT_SIZE
    ensures found ==> off <= M4_MAX_OFFSET && Matches(src, ip, off, 3)
    ensures found && off > M2_MAX_OFFSET ==> Matches(src, ip, off, 4)
    ensures dindex == Slot(src, dict[..], ip)
    ensures found <==> Candidate(src, dict[dindex], ip) && Matches(src, ip, ip - dict[dindex], 3)
    ensures found ==> off == ip - dict[dindex]
  {
    hide Index1;
    hide Index2;
    found, off := false, 0;
    var d := Index1(src, ip);
    dindex := d as nat;
    var pos := dict[dindex];
    if Unusable(pos, ip) {
      return;
    }
    if !Worthwhile(src, pos, ip) {
      dindex := Index2(d) as nat;
      pos := dict[dindex];
      if Unusable(pos, ip) || !Worthwhile(src, pos, ip) {
        return;
      }
    }
    off := ip - pos;
    found := src[pos] == src[ip] && src[pos + 1] == src[ip + 1] && src[pos + 2] == src[ip + 2];
  }

  /** The longest match from `ii` on, of which three bytes are known to agree. */
  method MatchLength(src: Bytestring, ii: nat, off: nat) returns (len: nat)
    requires ii + 9 < |src| && Matches(src, ii, off, 3)
    ensures len >= 3 && Matches(src, ii, off, len)
    ensures ii + len == |src| || src[ii + len] != src[ii + len - off]
  {
    var ip := ii + 3;
    while ip < ii + M2_MAX_LEN + 1 && src[ip - off] == src[ip]
      invariant ii + 3 <= ip <= ii + 9 && Matches(src, ii, off, ip - ii)
    {
      ip := ip + 1;
    }
    if ip == ii + M2_MAX_LEN + 1 {
      while ip < |src| && src[ip - off] == src[ip]
        invariant ii + 9 <= ip <= |src| && Matches(src, ii, off, ip - ii)
      {
        ip := ip + 1;
      }
    }
    len := ip - ii;
  }

  method EmitByte(out: array<byte>, op: nat, b: byte) returns (op': nat)
    requires op < out.Length
    modifies out
    ensures op' == op + 1 && out[..op'] == old(out[..op]) + [b]
  {
    out[op] := b;
    op' := op + 1;
  }

  method EmitExt(out: array<byte>, start: nat, r: nat) returns (op: nat)
    requires r > 0 && start + |Ext(r)| <= out.Length
    modifies out
    ensures op == start + |Ext(r)| && out[..op] == old(out[..start]) + Ext(r)
  {
    op := start;
    var tt := r;
    ghost var sent: Bytestring := [];
    while tt > 255
      invariant tt > 0 && sent + Ext(tt) == Ext(r)
      invariant op == start + |sent| && op + |Ext(tt)| <= out.Length
      invariant out[..op] == old(out[..start]) + sent
    {
      tt := tt - 255;
      op := EmitByte(out, op, 0);
      sent := sent + [0];
    }
    op := EmitByte(out, op, tt);
  }

  /** Literals, copied byte by byte. */
  method EmitCopy(out: array<byte>, start: nat, src: Bytestring, ii: nat, ip: nat) returns (op: nat)
    requires ii <= ip <= |src| && start + (ip - ii) <= out.Length
    modifies out
    ensures op == start + (ip - ii) && out[..op] == old(out[..start]) + src[ii..ip]
  {
    op := start;
    var k := ii;
    while k < ip
      invariant ii <= k <= ip && op == start + (k - ii)
      invariant out[..op] == old(out[..start]) + src[ii..k]
    {
      op := EmitByte(out, op, src[k]);
      k := k + 1;
    }
  }

  /** Or-ing a count into the two free low bits of the byte before the last. */
  function Patched(written: Bytestring, t: nat): Bytestring
    requires |written| >= 2 && t <= 3 && written[|written| - 2] % 4 == 0
  {
    written[|written| - 2 := written[|written| - 2] + t]
  }

  /** The literals between two matches, or behind the last. */
  method EmitLiterals(out: array<byte>, start: nat, src: Bytestring, ii: nat, ip: nat) returns (op: nat)
    requires ii < ip <= |src|
    requires if ip - ii <= 3 then 2 <= start && start + (ip - ii) <= out.Length && out[start - 2] % 4 == 0
             else start + |LitRun(src[ii..ip])| <= out.Length
    modifies out
    ensures ip - ii <= 3 ==> op == start + (ip - ii) && out[..op] == Patched(old(out[..start]), ip - ii) + src[ii..ip]
    ensures ip - ii > 3 ==> op == start + |LitRun(src[ii..ip])| && out[..op] == old(out[..start]) + LitRun(src[ii..ip])
  {
    op := start;
    var t := ip - ii;
    if t <= 3 {
      out[op - 2] := out[op - 2] + t;
      assert out[..op] == Patched(old(out[..start]), t);
    } else if t <= 18 {
      op := EmitByte(out, op, t - 3);
    } else {
      op := EmitByte(out, op, 0);
      op := EmitExt(out, op, t - 18);
    }
    op := EmitCopy(out, op, src, ii, ip);
  }

  method EmitHead(out: array<byte>, start: nat, marker: byte, len: nat, most: nat) returns (op: nat)
    requires marker < 128 && 3 <= len && 2 < most <= 33 && start + |MatchHead(marker, len, most)| <= out.Length
    modifies out
    ensures op == start + |MatchHead(marker, len, most)|
    ensures out[..op] == old(out[..start]) + MatchHead(marker, len, most)
  {
    hide Ext;
    if len <= most {
      op := EmitByte(out, start, marker + len - 2);
    } else {
      op := EmitByte(out, start, marker);
      op := EmitExt(out, op, len - most);
    }
  }

  /** The head of a match and the two bytes of its distance. */
  method EmitLong(out: array<byte>, start: nat, marker: byte, len: nat, most: nat, b0: byte, b1: byte) returns (op: nat)
    requires marker < 128 && 3 <= len && 2 < most <= 33 && start + |MatchHead(marker, len, most)| + 2 <= out.Length
    modifies out
    ensures op == start + |MatchHead(marker, len, most)| + 2
    ensures out[..op] == old(out[..start]) + (MatchHead(marker, len, most) + [b0, b1])
  {
    hide MatchHead;
    op := EmitHead(out, start, marker, len, most);
    op := EmitByte(out, op, b0);
    op := EmitByte(out, op, b1);
  }

  method EmitMatch(out: array<byte>, start: nat, off: nat, len: nat) returns (op: nat)
    requires Encodable(off, len) && start + |MatchBytes(off, len, 0)| <= out.Length
    modifies out
    ensures op == start + |MatchBytes(off, len, 0)|
    ensures out[..op] == old(out[..start]) + MatchBytes(off, len, 0)
  {
    hide MatchHead;
    if len <= M2_MAX_LEN && off <= M2_MAX_OFFSET {
      op := EmitByte(out, start, (len - 1) * 32 + (off - 1) % 8 * 4);
      op := EmitByte(out, op, (off - 1) / 8);
    } else if off <= M3_MAX_OFFSET {
      op := EmitLong(out, start, M3_MARKER, len, M3_MAX_LEN, (off - 1) % 64 * 4, (off - 1) / 64);
    } else {
      var o := off - 0x4000;
      op := EmitLong(out, start, M4_MARKER + o / 0x4000 * 8, len, M4_MAX_LEN, o % 64 * 4, o / 64 % 256);
    }
  }

  /** What the output holds once `ii` bytes of `src` have been dealt with. */
  ghost predicate Written(out: Bytestring, src: Bytestring, ii: nat, first: Bytestring, items: seq<Item>) {
    ii <= |src| && ValidItems(first, items) && Expand(first, items) == src[..ii] &&
    if items == [] then ii == 0 && out == []
    else items[|items| - 1].lits == [] && out == BodyWithItems(first, items)
  }

  function WithLits(items: seq<Item>, lits: Bytestring): (r: seq<Item>)
    requires items != []
  {
    items[..|items| - 1] + [items[|items| - 1].(lits := lits)]
  }

  lemma MatchPatched(off: nat, len: nat, k: nat)
    requires Encodable(off, len) && k <= 3
    ensures var m := MatchBytes(off, len, 0);
            m[|m| - 2] % 4 == 0 && MatchBytes(off, len, k) == Patched(m, k)
  {
  }

  lemma LitsExpanded(first: Bytestring, items: seq<Item>, lits: Bytestring)
    requires items != [] && ValidItems(first, items) && items[|items| - 1].lits == []
    ensures ValidItems(first, WithLits(items, lits))
    ensures Expand(first, WithLits(items, lits)) == Expand(first, items) + lits
  {
    hide CopyMatch;
    var before, last := items[..|items| - 1], items[|items| - 1];
    var items' := WithLits(items, lits);
    assert items'[..|items| - 1] == before && items'[|items| - 1] == last.(lits := lits);
    var base := CopyMatch(Expand(first, before), last.off, last.len);
    assert Expand(first, items) == base + [] == base;
    assert Expand(first, items') == base + lits;
  }

  /** Or-ing in or appending the literals is what serialising them with the last match gives. */
  lemma LitsAttached(first: Bytestring, items: seq<Item>, lits: Bytestring)
    requires items != [] && ValidItems(first, items) && items[|items| - 1].lits == []
    requires ValidItems(first, WithLits(items, lits))
    ensures var w := BodyWithItems(first, items);
            |w| >= 2 && w[|w| - 2] % 4 == 0 &&
            BodyWithItems(first, WithLits(items, lits))
              == if |lits| <= 3 then Patched(w, |lits|) + lits else w + LitRun(lits)
  {
    hide MatchBytes;
    hide LitRun;
    var before, last := items[..|items| - 1], items[|items| - 1];
    assert WithLits(items, lits)[..|items| - 1] == before;
    MatchPatched(last.off, last.len, if |lits| <= 3 then |lits| else 0);
    var m := MatchBytes(last.off, last.len, 0);
    assert m + [] == m;
    var w := BodyWithItems(first, before) + m;
    if |lits| <= 3 {
      assert Patched(w, |lits|) == BodyWithItems(first, before) + Patched(m, |lits|);
    }
  }

  lemma NothingAttached(items: seq<Item>, lits: Bytestring)
    requires items != [] && items[|items| - 1].lits == []
    ensures |WithLits(items, lits)| == |items| && (lits == [] ==> WithLits(items, lits) == items)
  {
  }

  /** What sending the bytes from `ii` to `ip` as literals turns the written stream into. */
  lemma LiteralsPending(w: Bytestring, src: Bytestring, ii: nat, ip: nat, first: Bytestring, items: seq<Item>)
    returns (first': Bytestring, items': seq<Item>)
    requires Written(w, src, ii, first, items) && ii <= ip <= |src| && (items == [] ==> 4 <= ip)
    ensures |first'| >= 4 && ValidItems(first', items') && Expand(first', items') == src[..ip]
    ensures |items'| == |items| && (items == [] ==> first' == src[..ip])
    ensures 16 * |BodyWithItems(first', items')| <= 17 * ip + 16
    ensures ii == ip ==> BodyWithItems(first', items') == w
    ensures 0 < ip - ii <= 3 ==> |w| >= 2 && w[|w| - 2] % 4 == 0 &&
                                 BodyWithItems(first', items') == Patched(w, ip - ii) + src[ii..ip]
    ensures ip - ii > 3 ==> BodyWithItems(first', items') == w + LitRun(src[ii..ip])
  {
    hide LitRun;
    hide Expand;
    hide BodyWithItems;
    hide ValidItems;
    hide WithLits;
    if items == [] {
      first', items' := FirstPending(w, src, ii, ip, first);
    } else {
      var lits := src[ii..ip];
      assert src[..ii] + lits == src[..ip];
      first', items' := first, WithLits(items, lits);
      LitsExpanded(first, items, lits);
      LitsAttached(first, items, lits);
      assert |first| >= 4 by {
        FirstIsLong(first, items);
      }
      NothingAttached(items, lits);
      BodyBound(first', items');
    }
  }

  lemma FirstIsLong(first: Bytestring, items: seq<Item>)
    requires ValidItems(first, items) && items != []
    ensures |first| >= 4
  {
  }

  /** The same before the first match. */
  lemma FirstPending(w: Bytestring, src: Bytestring, ii: nat, ip: nat, first: Bytestring) returns (first': Bytestring, items': seq<Item>)
    requires Written(w, src, ii, first, []) && 4 <= ip <= |src|
    ensures ii == 0 && w == [] && first' == src[..ip] && items' == [] && ValidItems(first', items') && Expand(first', items') == src[..ip]
    ensures 16 * |BodyWithItems(first', items')| <= 17 * ip + 16 && BodyWithItems(first', items') == LitRun(src[ii..ip])
  {
    hide LitRun;
    first', items' := src[..ip], [];
    assert src[0..ip] == first';
    BodyBound(first', items');
  }

  /** Sends what lies between the last match and `ip`, if anything. */
  method FlushLiterals(out: array<byte>, start: nat, src: Bytestring, ii: nat, ip: nat,
                       ghost first: Bytestring, ghost items: seq<Item>)
    returns (op: nat, ghost first': Bytestring, ghost items': seq<Item>)
    requires start <= out.Length && Written(out[..start], src, ii, first, items)
    requires ii <= ip <= |src| && |src| + |src| / 16 + 4 <= out.Length
    requires items == [] ==> 4 <= ip
    modifies out
    ensures op <= out.Length && |first'| >= 4 && ValidItems(first', items') && Expand(first', items') == src[..ip]
    ensures |items'| == |items| && (items == [] ==> first' == src[..ip])
    ensures out[..op] == BodyWithItems(first', items')
  {
    hide LitRun;
    op := start;
    first', items' := LiteralsPending(out[..start], src, ii, ip, first, items);
    hide Expand;
    hide ValidItems;
    hide BodyWithItems;
    if ip - ii > 0 {
      if ip - ii <= 3 {
        assert out[start - 2] == out[..start][start - 2];
      }
      op := EmitLiterals(out, op, src, ii, ip);
    }
  }

  /** A new match behind everything sent so far. */
  lemma MatchAppended(src: Bytestring, first: Bytestring, items: seq<Item>, ip: nat, off: nat, len: nat)
    requires |first| >= 4 && ValidItems(first, items) && ip <= |src| && Expand(first, items) == src[..ip]
    requires Encodable(off, len) && Matches(src, ip, off, len)
    ensures var items' := items + [Item(off, len, [])];
            ValidItems(first, items') && Expand(first, items') == src[..ip + len] &&
            BodyWithItems(first, items') == BodyWithItems(first, items) + MatchBytes(off, len, 0)
  {
    var items' := items + [Item(off, len, [])];
    assert items'[..|items|] == items;
    CopyMatchExtends(src, ip, off, len);
    assert src[..ip + len] + [] == src[..ip + len];
    assert MatchBytes(off, len, 0) + [] == MatchBytes(off, len, 0);
  }

  lemma MatchWritten(w: Bytestring, src: Bytestring, first: Bytestring, items: seq<Item>, ip: nat, off: nat, len: nat)
    requires |first| >= 4 && ValidItems(first, items) && w == BodyWithItems(first, items) && Encodable(off, len)
    requires ValidItems(first, items + [Item(off, len, [])]) && ip + len <= |src|
    requires Expand(first, items + [Item(off, len, [])]) == src[..ip + len]
    requires BodyWithItems(first, items + [Item(off, len, [])]) == w + MatchBytes(off, len, 0)
    ensures Written(w + MatchBytes(off, len, 0), src, ip + len, first, items + [Item(off, len, [])])
  {
    hide MatchBytes;
    hide BodyWithItems;
    hide ValidItems;
    hide Expand;
  }

  /** The literals before a match, and the match. */
  method TakeMatch(src: Bytestring, out: array<byte>, start: nat, ii: nat, ip: nat, off: nat, ghost first: Bytestring, ghost items: seq<Item>)
    returns (op: nat, next: nat, ghost first': Bytestring, ghost items': seq<Item>)
    requires |src| + |src| / 16 + 4 <= out.Length && ii <= ip && 4 <= ip && ip + 9 < |src|
    requires start <= out.Length && Written(out[..start], src, ii, first, items)
    requires off <= M4_MAX_OFFSET && Matches(src, ip, off, 3) && (off > M2_MAX_OFFSET ==> Matches(src, ip, off, 4))
    modifies out
    ensures ip < next <= |src| && op <= out.Length && Written(out[..op], src, next, first', items')
    ensures next == |src| || src[next] != src[next - off]
    ensures items == [] ==> first' == src[..ip] && items' == [Item(off, next - ip, [])]
  {
    hide MatchBytes;
    hide BodyWithItems;
    hide ValidItems;
    hide Expand;
    hide Written;
    op, first', items' := FlushLiterals(out, start, src, ii, ip, first, items);
    var len := MatchLength(src, ip, off);
    MatchAppended(src, first', items', ip, off, len);
    MatchWritten(out[..op], src, first', items', ip, off, len);
    assert items == [] ==> items' + [Item(off, len, [])] == [Item(off, len, [])];
    items' := items' + [Item(off, len, [])];
    BodyBound(first', items');
    op := EmitMatch(out, op, off, len);
    next := ip + len;
  }

  lemma WrittenNothing(src: Bytestring)
    ensures Written([], src, 0, [], [])
  {
  }

  /** All bytes are the same, and more than are never matched. */
  predicate Uniform(src: Bytestring) {
    |src| > TAIL + 5 && forall k :: 0 <= k < |src| ==> src[k] == src[0]
  }

  lemma UniformMatches(src: Bytestring, ip: nat, off: nat, len: nat)
    requires Uniform(src) && 0 < off <= ip && ip + len <= |src|
    ensures Matches(src, ip, off, len)
  {
  }

  lemma UniformHash(src: Bytestring, ip: nat, ip': nat)
    requires Uniform(src) && ip + 4 <= |src| && ip' + 4 <= |src|
    ensures Index1(src, ip) == Index1(src, ip')
  {
    hide Hash;
  }

  /** Of equal bytes no more than five come before the one match that takes all others. */
  ghost predicate OneMatch(src: Bytestring, ii: nat, first: Bytestring, items: seq<Item>) {
    ii == |src| && 4 <= |first| <= 5 && |items| == 1 &&
    1 <= items[0].off <= 5 && items[0].len == |src| - |first| && items[0].lits == []
  }

  /** Where the search in equal bytes is: the first try fills the slot the second one looks at. */
  ghost predicate Searching(src: Bytestring, dict: seq<int>, ip: nat, items: seq<Item>) {
    items == [] && (ip == 4 || (ip == 5 && ip + 9 < |src| && |dict| == DICT_SIZE && dict[Index1(src, ip)] == 4))
  }

  lemma SearchStarts(src: Bytestring, dict: seq<int>)
    ensures Searching(src, dict, 4, [])
  {
  }

  lemma SearchedNothing(src: Bytestring, dict: seq<int>, ip: nat, items: seq<Item>)
    requires Searching(src, dict, ip, items)
    ensures items == [] && 4 <= ip <= 5
  {
  }

  /** The second try finds what the first one left, if the first found nothing. */
  lemma SecondTryFinds(src: Bytestring, dict: seq<int>, ip: nat, found: bool, off: nat, dindex: nat)
    requires Uniform(src) && Searching(src, dict, ip, []) && |dict| == DICT_SIZE && ip + 9 < |src| && dindex < DICT_SIZE
    requires dindex == Slot(src, dict, ip)
    requires found <==> Candidate(src, dict[dindex], ip) && Matches(src, ip, ip - dict[dindex], 3)
    requires found ==> off == ip - dict[dindex]
    ensures if found then off <= ip else ip == 4 && Searching(src, dict[dindex := ip], ip + 1, [])
  {
    hide Index1;
    hide Index2;
    UniformHash(src, 4, 5);
    if !Unusable(dict[Index1(src, ip)], ip) {
      UniformMatches(src, ip, ip - dict[Index1(src, ip)], 3);
    }
  }

  lemma UniformLong(src: Bytestring)
    requires Uniform(src)
    ensures |src| > TAIL + 5
  {
  }

  lemma OneMatchEnds(src: Bytestring, ii: nat, first: Bytestring, items: seq<Item>)
    requires OneMatch(src, ii, first, items)
    ensures ii == |src|
  {
  }

  lemma TakenToTheEnd(src: Bytestring, ip: nat, off: nat, next: nat, first: Bytestring, items: seq<Item>)
    requires Uniform(src) && 4 <= ip <= 5 && 1 <= off <= ip < next <= |src| && (next == |src| || src[next] != src[next - off])
    requires first == src[..ip] && items == [Item(off, next - ip, [])]
    ensures OneMatch(src, next, first, items)
  {
  }

  method DoCompress(src: Bytestring, out: array<byte>, dict: array<int>)
    returns (op: nat, ii: nat, ghost first: Bytestring, ghost items: seq<Item>)
    requires |src| > TAIL && |src| + |src| / 16 + 4 <= out.Length && dict.Length == DICT_SIZE
    modifies out, dict
    ensures op <= out.Length && Written(out[..op], src, ii, first, items)
    ensures Uniform(src) ==> OneMatch(src, ii, first, items)
  {
    hide Written;
    hide Uniform;
    hide OneMatch;
    hide Searching;
    hide Candidate;
    hide Spoilt;
    hide Index1;
    hide Index2;
    WrittenNothing(src);
    SearchStarts(src, dict[..]);
    op, ii, first, items := 0, 0, [], [];
    var ip := 4;
    while true
      invariant ii <= ip && 4 <= ip && ip + 9 < |src|
      invariant op <= out.Length && Written(out[..op], src, ii, first, items)
      invariant Uniform(src) ==> Searching(src, dict[..], ip, items)
      decreases |src| - ip
    {
      ghost var was := dict[..];
      var found, off, dindex := FindMatch(src, dict, ip);
      if Uniform(src) {
        UniformLong(src);
        SearchedNothing(src, was, ip, items);
        SecondTryFinds(src, was, ip, found, off, dindex);
      }
      dict[dindex] := ip;
      assert dict[..] == was[dindex := ip];
      if !found {
        ip := ip + 1;
      } else {
        op, ii, first, items := TakeMatch(src, out, op, ii, ip, off, first, items);
        if Uniform(src) {
          TakenToTheEnd(src, ip, off, ii, first, items);
        }
        ip := ii;
      }
      if ip >= |src| - TAIL {
        break;
      }
    }
  }

  /** The bytes behind the last match; if there was none, a short text has a form of its own. */
  method EmitRest(out: array<byte>, start: nat, src: Bytestring, ii: nat, ghost first: Bytestring, ghost items: seq<Item>)
    returns (op: nat, ghost first': Bytestring, ghost items': seq<Item>)
    requires start <= out.Length && Written(out[..start], src, ii, first, items)
    requires |src| + |src| / 16 + 4 <= out.Length
    modifies out
    ensures op <= out.Length && ValidItems(first', items') && Expand(first', items') == src
    ensures out[..op] == Body(first', items')
    ensures ii == |src| ==> first' == first && items' == items
  {
    hide LitRun;
    hide ItemBytes;
    op, first', items' := start, first, items;
    assert src[..|src|] == src;
    if ii < |src| {
      assert start == 0 <==> items == [] by {
        if items != [] {
          FirstByteSmall(first, items);
        }
      }
      if op == 0 && |src| - ii <= 238 {
        op := EmitByte(out, op, 17 + (|src| - ii));
        assert src[0..|src|] == src;
        op := EmitCopy(out, op, src, ii, |src|);
        first' := src;
      } else {
        op, first', items' := FlushLiterals(out, op, src, ii, |src|, first, items);
      }
    }
  }

  lemma StreamComplete(body: Bytestring, src: Bytestring, first: Bytestring, items: seq<Item>)
    requires ValidItems(first, items) && Expand(first, items) == src && body == Body(first, items)
    ensures |body| + 3 <= |src| + |src| / 16 + 4
    ensures Decode(body + [17] + [0] + [0]) == Finished(src, |body| + 3)
  {
    hide Decode;
    SerializeBound(first, items);
    SerializedDecodes(first, items, []);
    assert Serialize(first, items) + [] == body + [17] + [0] + [0];
  }

  lemma {:induction false} ExtIsShort(r: nat)
    requires r > 0
    ensures |Ext(r)| <= (r - 1) / 255 + 1
  {
    if r > 255 {
      ExtIsShort(r - 255);
      assert (r - 256) / 255 + 1 == (r - 1) / 255;
    }
  }

  /** Equal bytes shrink to a literal run, a match and the end marker. */
  lemma OneMatchIsShort(src: Bytestring, first: Bytestring, items: seq<Item>, body: Bytestring)
    requires OneMatch(src, |src|, first, items) && ValidItems(first, items) && body == Body(first, items) && |src| > TAIL + 5
    ensures |body| + 3 <= 13 + |src| / 255
  {
    var it := items[0];
    assert items[..|items| - 1] == [];
    assert body == BodyWithItems(first, []) + ItemBytes(it);
    assert |LitRun(first)| <= 6;
    assert MatchBytes(it.off, it.len, 0) + [] == MatchBytes(it.off, it.len, 0);
    if it.len > M3_MAX_LEN {
      ExtIsShort(it.len - M3_MAX_LEN);
      assert (it.len - M3_MAX_LEN - 1) / 255 <= |src| / 255;
    }
  }

  /**
   * `lzo1x_1_compress`. Whatever the work memory holds, decoding the output gives back `src`, and
   * equal bytes take hardly any room.
   */
  method Compress(src: Bytestring, out: array<byte>, dict: array<int>) returns (outLen: nat)
    requires |src| + |src| / 16 + 4 <= out.Length && dict.Length == DICT_SIZE
    modifies out, dict
    ensures outLen <= |src| + |src| / 16 + 4
    ensures Decode(out[..outLen]) == Finished(src, outLen)
    ensures Uniform(src) ==> outLen <= 13 + |src| / 255
  {
    hide Uniform;
    hide OneMatch;
    var op, ii := 0, 0;
    ghost var first: Bytestring, items: seq<Item> := [], [];
    if |src| > TAIL {
      op, ii, first, items := DoCompress(src, out, dict);
    }
    if Uniform(src) {
      UniformLong(src);
      OneMatchEnds(src, ii, first, items);
    }
    op, first, items := EmitRest(out, op, src, ii, first, items);
    if Uniform(src) {
      OneMatchIsShort(src, first, items, out[..op]);
    }
    StreamComplete(out[..op], src, first, items);
    hide Decode;
    hide ValidItems;
    hide Expand;
    hide Body;
    op := EmitByte(out, op, 17);
    op := EmitByte(out, op, 0);
    op := EmitByte(out, op, 0);
    outLen := op;
  }
}
