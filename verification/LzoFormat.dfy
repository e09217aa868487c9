/**
 * The LZO1X byte format: what a stream means to the decoder (`Decode`), and what the
 * compressor writes (`Serialize`), each stated without reference to the other.
 */
module LzoFormat {
  import opened Bytes

  const M2_MAX_OFFSET := 0x800
  const M3_MAX_OFFSET := 0x4000
  const M4_MAX_OFFSET := 0xbfff
  const M2_MAX_LEN := 8
  const M3_MAX_LEN := 33
  const M4_MAX_LEN := 9
  const M3_MARKER: byte := 32
  const M4_MARKER: byte := 16

  // ---------------------------------------------------------------- the decoder's meaning

  /** Which label of the decoder reads the next instruction byte. */
  datatype Mode = Top       // head of the outer loop
                | AfterRun  // `first_literal_run`
                | Inner     // the end of `match_next`, inside the inner loop

  /** Leaving through `eof_found`, or input the unchecked decoder may not be given. */
  datatype Outcome = Finished(data: Bytestring, consumed: nat) | Fault

  datatype Token = Copy(off: nat, len: nat, next: nat) | Eof(next: nat) | Bad

  datatype Counted = Counted(n: nat, next: nat) | Overrun

  /** A 255-chained count: zero bytes worth 255 each, closed by a non-zero byte. */
  function Chain(s: Bytestring, ip: nat, base: nat): (r: Counted)
    ensures r.Counted? ==> ip < r.next <= |s| && r.n >= base
    decreases |s| - ip
  {
    if ip >= |s| then Overrun
    else if s[ip] == 0 then Chain(s, ip + 1, base + 255)
    else Counted(base + s[ip], ip + 1)
  }

  /** The count of a token: its low bits, or a chain when they are zero. */
  function Count(s: Bytestring, ip: nat, low: nat, base: nat): (r: Counted)
    ensures r.Counted? ==> ip <= r.next
  {
    if low == 0 then Chain(s, ip, base) else Counted(low, ip)
  }

  /** The end of a far match, or the end marker where its distance is zero. */
  function FarToken(s: Bytestring, c: Counted, hi: nat): (r: Token) {
    if c.Counted? && c.next + 2 <= |s| then
      var dist := hi * 0x4000 + s[c.next] / 4 + s[c.next + 1] as int * 64;
      if dist == 0 then Eof(c.next + 2) else Copy(dist + 0x4000, c.n + 2, c.next + 2)
    else Bad
  }

  /** The token whose first byte `t` stood just before `ip`. */
  function ParseToken(s: Bytestring, ip: nat, t: byte, mode: Mode): (r: Token)
    ensures r.Copy? || r.Eof? ==> ip < r.next <= |s|
    ensures r.Copy? ==> r.off > 0
  {
    if t >= 64 then
      if ip < |s| then Copy(1 + t / 4 % 8 + s[ip] as int * 8, t / 32 + 1, ip + 1) else Bad
    else if t >= 32 then
      var c := Count(s, ip, t % 32, M3_MAX_LEN - 2);
      if c.Counted? && c.next + 2 <= |s| then
        Copy(1 + s[c.next] / 4 + s[c.next + 1] as int * 64, c.n + 2, c.next + 2)
      else Bad
    else if t >= 16 then
      FarToken(s, Count(s, ip, t % 8, M4_MAX_LEN - 2), t / 8 % 2)
    else if ip >= |s| then Bad
    else if mode == AfterRun then Copy(1 + M2_MAX_OFFSET + t / 4 + s[ip] as int * 4, 3, ip + 1)
    else Copy(1 + t / 4 + s[ip] as int * 4, 2, ip + 1)
  }

  /** Copying byte by byte from `off` back, so that an overlapping match repeats itself. */
  function CopyMatch(out: Bytestring, off: nat, n: nat): (r: Bytestring)
    requires 0 < off <= |out|
    ensures |r| == |out| + n && out <= r
    decreases n
  {
    if n == 0 then out else CopyMatch(out + [out[|out| - off]], off, n - 1)
  }

  /** One instruction: the decoder stops, or is ready to read the next one. */
  datatype Progress = Stop(outcome: Outcome) | Go(ip: nat, mode: Mode, out: Bytestring)

  function RunStep(s: Bytestring, c: Counted, out: Bytestring): Progress {
    if c.Overrun? || c.next + c.n + 3 > |s| then Stop(Fault)
    else Go(c.next + c.n + 3, AfterRun, out + s[c.next..c.next + c.n + 3])
  }

  function TokenStep(s: Bytestring, tok: Token, out: Bytestring): Progress
    requires tok.Copy? ==> 2 <= tok.next <= |s| && tok.off > 0
  {
    match tok
    case Bad => Stop(Fault)
    case Eof(next) => Stop(Finished(out, next))
    case Copy(off, len, next) =>
      var k := s[next - 2] % 4;
      if off > |out| || next + k > |s| then Stop(Fault)
      else Go(next + k, if k == 0 then Top else Inner, CopyMatch(out, off, len) + s[next..next + k])
  }

  function Step(s: Bytestring, ip: nat, mode: Mode, out: Bytestring): (r: Progress)
    requires ip < |s|
    ensures r.Go? ==> ip < r.ip <= |s|
  {
    if s[ip] < 16 && mode == Top then RunStep(s, Count(s, ip + 1, s[ip], 15), out)
    else TokenStep(s, ParseToken(s, ip + 1, s[ip], mode), out)
  }

  /** What the decoder makes of `s` from `ip` on, with `out` written so far. */
  function DecodeFrom(s: Bytestring, ip: nat, mode: Mode, out: Bytestring): Outcome
    decreases |s| - ip
  {
    if ip >= |s| then Fault
    else
      match Step(s, ip, mode, out)
      case Stop(outcome) => outcome
      case Go(ip', mode', out') => DecodeFrom(s, ip', mode', out')
  }

  /** The whole decoder, with the special case of a first byte above 17. */
  function Decode(s: Bytestring): Outcome {
    if s != [] && s[0] > 17 then
      var t := s[0] - 17;
      if 1 + t > |s| then Fault
      else DecodeFrom(s, 1 + t, if t < 4 then Inner else AfterRun, s[1..1 + t])
    else DecodeFrom(s, 0, Top, [])
  }

  // ---------------------------------------------------------------- what the compressor writes

  /** A match, and the literals that follow it up to the next match. */
  datatype Item = Item(off: nat, len: nat, lits: Bytestring)

  function Ext(r: nat): Bytestring
    requires r > 0
  {
    if r > 255 then [0] + Ext(r - 255) else [r]
  }

  function LitRun(lits: Bytestring): Bytestring
    requires |lits| >= 4
  {
    (if |lits| <= 18 then [|lits| - 3] else [0] + Ext(|lits| - 18)) + lits
  }

  predicate Encodable(off: nat, len: nat) {
    1 <= off <= M4_MAX_OFFSET && 3 <= len && (off <= M2_MAX_OFFSET || 4 <= len)
  }

  function MatchHead(marker: byte, len: nat, most: nat): Bytestring
    requires marker < 128 && 3 <= len && 2 < most <= 33
  {
    if len <= most then [marker + len - 2] else [marker] + Ext(len - most)
  }

  /** A match with `k` in the two low bits of its second-to-last byte. */
  function MatchBytes(off: nat, len: nat, k: nat): (r: Bytestring)
    requires Encodable(off, len) && k <= 3
    ensures |r| >= 2
  {
    if len <= M2_MAX_LEN && off <= M2_MAX_OFFSET then
      [(len - 1) * 32 + (off - 1) % 8 * 4 + k, (off - 1) / 8]
    else if off <= M3_MAX_OFFSET then
      MatchHead(M3_MARKER, len, M3_MAX_LEN) + [(off - 1) % 64 * 4 + k, (off - 1) / 64]
    else
      var o := off - 0x4000;
      MatchHead(M4_MARKER + o / 0x4000 * 8, len, M4_MAX_LEN) + [o % 64 * 4 + k, o / 64 % 256]
  }

  function ItemBytes(it: Item): Bytestring
    requires Encodable(it.off, it.len)
  {
    if |it.lits| <= 3 then MatchBytes(it.off, it.len, |it.lits|) + it.lits
    else MatchBytes(it.off, it.len, 0) + LitRun(it.lits)
  }

  /** The text that a first literal run and a list of items stand for. */
  function Expand(first: Bytestring, items: seq<Item>): Bytestring
    requires ValidItems(first, items)
    decreases |items|, 1
  {
    if items == [] then first
    else
      var it := items[|items| - 1];
      CopyMatch(Expand(first, items[..|items| - 1]), it.off, it.len) + it.lits
  }

  /** Every match is encodable and reaches back no further than the text before it. */
  predicate ValidItems(first: Bytestring, items: seq<Item>)
    decreases |items|, 0
  {
    items == [] ||
    (var before, it := items[..|items| - 1], items[|items| - 1];
     |first| >= 4 && ValidItems(first, before) &&
     Encodable(it.off, it.len) && it.off <= |Expand(first, before)|)
  }

  /** The bytes written before the end marker. */
  function Body(first: Bytestring, items: seq<Item>): Bytestring
    requires ValidItems(first, items)
    decreases |items|
  {
    if items == [] then
      if |first| == 0 then [] else if |first| <= 238 then [17 + |first|] + first else LitRun(first)
    else BodyWithItems(first, items)
  }

  /** The body once a match has been written: the first run never uses the short form. */
  function BodyWithItems(first: Bytestring, items: seq<Item>): Bytestring
    requires |first| >= 4 && ValidItems(first, items)
    decreases |items|
  {
    if items == [] then LitRun(first)
    else BodyWithItems(first, items[..|items| - 1]) + ItemBytes(items[|items| - 1])
  }

  const EOF_BYTES: Bytestring := [17, 0, 0]

  function Serialize(first: Bytestring, items: seq<Item>): Bytestring
    requires ValidItems(first, items)
  {
    Body(first, items) + EOF_BYTES
  }

  // ---------------------------------------------------------------- decoding undoes serialising

  lemma {:induction false} ChainReadsExt(s: Bytestring, ip: nat, r: nat, base: nat)
    requires r > 0 && At(s, ip, Ext(r))
    ensures Chain(s, ip, base) == Counted(base + r, ip + |Ext(r)|)
    decreases r
  {
    AtIndex(s, ip, Ext(r), 0);
    if r > 255 {
      AtConcat(s, ip, [0], Ext(r - 255));
      ChainReadsExt(s, ip + 1, r - 255, base + 255);
    }
  }

  lemma HeadRead(s: Bytestring, ip: nat, marker: byte, len: nat, most: nat)
    requires marker < 128 && 3 <= len && 2 < most <= 33
    requires At(s, ip, MatchHead(marker, len, most))
    ensures ip < |s| && s[ip] == marker + if len <= most then len - 2 else 0
    ensures len > most ==>
              Chain(s, ip + 1, most - 2) == Counted(len - 2, ip + |MatchHead(marker, len, most)|)
  {
    AtIndex(s, ip, MatchHead(marker, len, most), 0);
    if len > most {
      AtConcat(s, ip, [marker], Ext(len - most));
      ChainReadsExt(s, ip + 1, len - most, most - 2);
    }
  }

  lemma ShortFields(len: nat, q: nat, k: nat)
    requires 3 <= len <= 8 && q < 8 && k < 4
    ensures var t := (len - 1) * 32 + q * 4 + k;
            64 <= t < 256 && t / 4 % 8 == q && t / 32 == len - 1 && t % 4 == k
  {
  }

  /** The two offset bytes of a longer match, with `k` in the low bits of the first. */
  lemma OffsetFields(o: nat, k: nat)
    requires k < 4
    ensures var b := o % 64 * 4 + k; b < 256 && b / 4 == o % 64 && b % 4 == k
    ensures o % 64 + o / 64 * 64 == o
  {
  }

  lemma ShortTokenRead(s: Bytestring, ip: nat, off: nat, len: nat, k: nat, mode: Mode)
    requires Encodable(off, len) && k <= 3 && len <= M2_MAX_LEN && off <= M2_MAX_OFFSET
    requires At(s, ip, MatchBytes(off, len, k))
    ensures ip < |s| && s[ip] >= 16
    ensures ParseToken(s, ip + 1, s[ip], mode) == Copy(off, len, ip + |MatchBytes(off, len, k)|)
    ensures s[ip + |MatchBytes(off, len, k)| - 2] % 4 == k
  {
    AtIndex(s, ip, MatchBytes(off, len, k), 0);
    AtIndex(s, ip, MatchBytes(off, len, k), 1);
    ShortFields(len, (off - 1) % 8, k);
  }

  lemma MiddleTokenRead(s: Bytestring, ip: nat, off: nat, len: nat, k: nat, mode: Mode)
    requires Encodable(off, len) && k <= 3 && !(len <= M2_MAX_LEN && off <= M2_MAX_OFFSET) && off <= M3_MAX_OFFSET
    requires At(s, ip, MatchBytes(off, len, k))
    ensures ip < |s| && s[ip] >= 16
    ensures ParseToken(s, ip + 1, s[ip], mode) == Copy(off, len, ip + |MatchBytes(off, len, k)|)
    ensures s[ip + |MatchBytes(off, len, k)| - 2] % 4 == k
  {
    var head := MatchHead(M3_MARKER, len, M3_MAX_LEN);
    var tail := [(off - 1) % 64 * 4 + k, (off - 1) / 64];
    AtConcat(s, ip, head, tail);
    AtIndex(s, ip + |head|, tail, 0);
    AtIndex(s, ip + |head|, tail, 1);
    HeadRead(s, ip, M3_MARKER, len, M3_MAX_LEN);
    OffsetFields(off - 1, k);
  }

  /** The first byte of a far match: bit 3 is bit 14 of the offset. */
  lemma FarFields(hi: nat, v: nat)
    requires hi < 2 && v < 8
    ensures var t := M4_MARKER + hi * 8 + v; 16 <= t < 32 && t % 8 == v && t / 8 % 2 == hi
  {
  }

  lemma FarTail(s: Bytestring, c: Counted, o: nat, k: nat)
    requires 0 < o < 0x8000 && k < 4 && c.Counted?
    requires At(s, c.next, [o % 64 * 4 + k, o / 64 % 256])
    ensures FarToken(s, c, o / 0x4000) == Copy(o + 0x4000, c.n + 2, c.next + 2)
    ensures s[c.next] % 4 == k
  {
    AtIndex(s, c.next, [o % 64 * 4 + k, o / 64 % 256], 0);
    AtIndex(s, c.next, [o % 64 * 4 + k, o / 64 % 256], 1);
    OffsetFields(o, k);
    assert o / 0x4000 * 0x4000 + o / 64 % 256 * 64 == o / 64 * 64;
  }

  lemma FarBytes(off: nat, len: nat, k: nat)
    requires Encodable(off, len) && k <= 3 && M3_MAX_OFFSET < off
    ensures var o := off - 0x4000;
            o / 0x4000 < 2 && MatchBytes(off, len, k) == MatchHead(M4_MARKER + o / 0x4000 * 8, len, M4_MAX_LEN) + [o % 64 * 4 + k, o / 64 % 256]
  {
    hide MatchHead;
  }

  lemma FarParsed(s: Bytestring, ip: nat, t: byte, mode: Mode)
    requires 16 <= t < 32
    ensures ParseToken(s, ip, t, mode) == FarToken(s, Count(s, ip, t % 8, M4_MAX_LEN - 2), t / 8 % 2)
  {
    hide FarToken;
    hide Count;
  }

  lemma FarTokenRead(s: Bytestring, ip: nat, off: nat, len: nat, k: nat, mode: Mode)
    requires Encodable(off, len) && k <= 3 && M3_MAX_OFFSET < off
    requires At(s, ip, MatchBytes(off, len, k))
    ensures ip < |s| && s[ip] >= 16
    ensures ParseToken(s, ip + 1, s[ip], mode) == Copy(off, len, ip + |MatchBytes(off, len, k)|)
    ensures s[ip + |MatchBytes(off, len, k)| - 2] % 4 == k
  {
    hide MatchBytes;
    hide MatchHead;
    hide ParseToken;
    hide FarToken;
    hide Chain;
    FarBytes(off, len, k);
    var o := off - 0x4000;
    var hi, v := o / 0x4000, if len <= M4_MAX_LEN then len - 2 else 0;
    var head := MatchHead(M4_MARKER + hi * 8, len, M4_MAX_LEN);
    AtConcat(s, ip, head, [o % 64 * 4 + k, o / 64 % 256]);
    HeadRead(s, ip, M4_MARKER + hi * 8, len, M4_MAX_LEN);
    HeadSize(M4_MARKER + hi * 8, len, M4_MAX_LEN);
    FarFields(hi, v);
    FarParsed(s, ip + 1, s[ip], mode);
    FarTail(s, Counted(len - 2, ip + |head|), o, k);
  }

  lemma HeadSize(marker: byte, len: nat, most: nat)
    requires marker < 128 && 3 <= len && 2 < most <= 33
    ensures len <= most ==> |MatchHead(marker, len, most)| == 1
  {
  }

  lemma TokenReadsMatch(s: Bytestring, ip: nat, off: nat, len: nat, k: nat, mode: Mode)
    requires Encodable(off, len) && k <= 3 && At(s, ip, MatchBytes(off, len, k))
    ensures ip < |s| && s[ip] >= 16
    ensures ParseToken(s, ip + 1, s[ip], mode) == Copy(off, len, ip + |MatchBytes(off, len, k)|)
    ensures s[ip + |MatchBytes(off, len, k)| - 2] % 4 == k
  {
    if len <= M2_MAX_LEN && off <= M2_MAX_OFFSET {
      ShortTokenRead(s, ip, off, len, k, mode);
    } else if off <= M3_MAX_OFFSET {
      MiddleTokenRead(s, ip, off, len, k, mode);
    } else {
      FarTokenRead(s, ip, off, len, k, mode);
    }
  }

  /** The match of three bytes that may follow a literal run; the compressor here never writes it. */
  lemma TokenAfterRun(s: Bytestring, ip: nat, off: nat, k: nat)
    requires M2_MAX_OFFSET < off <= M2_MAX_OFFSET + 0x400 && k <= 3
    requires var o := off - 1 - M2_MAX_OFFSET; At(s, ip, [o % 4 * 4 + k, o / 4])
    ensures ip + 2 <= |s| && s[ip] < 16 && ParseToken(s, ip + 1, s[ip], AfterRun) == Copy(off, 3, ip + 2) && s[ip] % 4 == k
  {
    var o := off - 1 - M2_MAX_OFFSET;
    AtIndex(s, ip, [o % 4 * 4 + k, o / 4], 0);
    AtIndex(s, ip, [o % 4 * 4 + k, o / 4], 1);
  }

  /** The match of two bytes that may follow one to three literals; the compressor here never writes it. */
  lemma TokenAfterFew(s: Bytestring, ip: nat, off: nat, k: nat)
    requires 0 < off <= 0x400 && k <= 3 && At(s, ip, [(off - 1) % 4 * 4 + k, (off - 1) / 4])
    ensures ip + 2 <= |s| && s[ip] < 16 && ParseToken(s, ip + 1, s[ip], Inner) == Copy(off, 2, ip + 2) && s[ip] % 4 == k
  {
    AtIndex(s, ip, [(off - 1) % 4 * 4 + k, (off - 1) / 4], 0);
    AtIndex(s, ip, [(off - 1) % 4 * 4 + k, (off - 1) / 4], 1);
  }

  /** Where the decoder reads on after `n` literals behind a match. */
  function ModeAfter(n: nat): Mode {
    if n == 0 then Top else if n <= 3 then Inner else AfterRun
  }

  lemma RunDecoded(s: Bytestring, p: nat, lits: Bytestring, out: Bytestring)
    requires |lits| >= 4 && At(s, p, LitRun(lits))
    ensures p < |s| && Step(s, p, Top, out) == Go(p + |LitRun(lits)|, AfterRun, out + lits)
  {
    hide Chain;
    hide Ext;
    hide TokenStep;
    hide ParseToken;
    var head := LitRun(lits)[..|LitRun(lits)| - |lits|];
    assert LitRun(lits) == head + lits;
    AtConcat(s, p, head, lits);
    AtIndex(s, p, head, 0);
    if |lits| > 18 {
      assert head == [0] + Ext(|lits| - 18);
      AtConcat(s, p, [0], Ext(|lits| - 18));
      ChainReadsExt(s, p + 1, |lits| - 18, 15);
    }
    assert Count(s, p + 1, s[p], 15) == Counted(|lits| - 3, p + |head|);
  }

  lemma MatchDecoded(s: Bytestring, p: nat, off: nat, len: nat, lits: Bytestring, mode: Mode, out: Bytestring)
    requires Encodable(off, len) && off <= |out| && |lits| <= 3
    requires At(s, p, MatchBytes(off, len, |lits|) + lits)
    ensures p < |s| && Step(s, p, mode, out)
                    == Go(p + |MatchBytes(off, len, |lits|)| + |lits|, ModeAfter(|lits|), CopyMatch(out, off, len) + lits)
  {
    hide MatchBytes;
    hide ParseToken;
    hide CopyMatch;
    hide RunStep;
    AtConcat(s, p, MatchBytes(off, len, |lits|), lits);
    TokenReadsMatch(s, p, off, len, |lits|, mode);
  }

  lemma StepThenDecode(s: Bytestring, p: nat, mode: Mode, out: Bytestring, p': nat, mode': Mode, out': Bytestring)
    requires p < |s| && Step(s, p, mode, out) == Go(p', mode', out')
    ensures DecodeFrom(s, p, mode, out) == DecodeFrom(s, p', mode', out')
  {
  }

  lemma ItemDecoded(s: Bytestring, p: nat, it: Item, mode: Mode, out: Bytestring)
    requires Encodable(it.off, it.len) && it.off <= |out| && At(s, p, ItemBytes(it))
    ensures DecodeFrom(s, p, mode, out)
         == DecodeFrom(s, p + |ItemBytes(it)|, ModeAfter(|it.lits|), CopyMatch(out, it.off, it.len) + it.lits)
  {
    hide DecodeFrom;
    hide Step;
    hide MatchBytes;
    hide LitRun;
    hide CopyMatch;
    var copied := CopyMatch(out, it.off, it.len);
    if |it.lits| <= 3 {
      var n := |it.lits|;
      MatchDecoded(s, p, it.off, it.len, it.lits, mode, out);
      StepThenDecode(s, p, mode, out, p + |MatchBytes(it.off, it.len, n)| + n, ModeAfter(n), copied + it.lits);
    } else {
      var m := MatchBytes(it.off, it.len, 0);
      AtConcat(s, p, m, LitRun(it.lits));
      assert m + [] == m && copied + [] == copied;
      MatchDecoded(s, p, it.off, it.len, [], mode, out);
      StepThenDecode(s, p, mode, out, p + |m|, Top, copied);
      RunDecoded(s, p + |m|, it.lits, copied);
      StepThenDecode(s, p + |m|, Top, copied, p + |m| + |LitRun(it.lits)|, AfterRun, copied + it.lits);
    }
  }

  lemma {:induction false} BodyDecoded(s: Bytestring, first: Bytestring, items: seq<Item>) returns (mode: Mode)
    requires |first| >= 4 && ValidItems(first, items) && At(s, 0, BodyWithItems(first, items))
    ensures DecodeFrom(s, 0, Top, []) == DecodeFrom(s, |BodyWithItems(first, items)|, mode, Expand(first, items))
    decreases |items|
  {
    hide DecodeFrom;
    hide Step;
    hide ItemBytes;
    hide LitRun;
    if items == [] {
      RunDecoded(s, 0, first, []);
      assert [] + first == first;
      StepThenDecode(s, 0, Top, [], |LitRun(first)|, AfterRun, first);
      mode := AfterRun;
    } else {
      var before, it := items[..|items| - 1], items[|items| - 1];
      AtConcat(s, 0, BodyWithItems(first, before), ItemBytes(it));
      mode := BodyDecoded(s, first, before);
      ItemDecoded(s, |BodyWithItems(first, before)|, it, mode, Expand(first, before));
      mode := ModeAfter(|it.lits|);
    }
  }

  lemma EofDecoded(s: Bytestring, p: nat, mode: Mode, out: Bytestring)
    requires At(s, p, EOF_BYTES)
    ensures DecodeFrom(s, p, mode, out) == Finished(out, p + 3)
  {
    AtIndex(s, p, EOF_BYTES, 0);
    AtIndex(s, p, EOF_BYTES, 1);
    AtIndex(s, p, EOF_BYTES, 2);
  }

  lemma StreamParts(s: Bytestring, body: Bytestring, rest: Bytestring)
    requires s == body + EOF_BYTES + rest
    ensures At(s, 0, body) && At(s, |body|, EOF_BYTES) && forall i :: 0 <= i < |body| ==> s[i] == body[i]
  {
  }

  /** Without a match, a text of up to 238 bytes is one short run. */
  lemma ShortDecodes(first: Bytestring, s: Bytestring, rest: Bytestring)
    requires |first| <= 238 && s == Body(first, []) + EOF_BYTES + rest
    ensures Decode(s) == Finished(first, |Body(first, [])| + 3)
  {
    hide DecodeFrom;
    hide LitRun;
    StreamParts(s, Body(first, []), rest);
    if |first| == 0 {
      EofDecoded(s, 0, Top, []);
      assert s[0] == EOF_BYTES[0];
    } else {
      AtConcat(s, 0, [17 + |first|], first);
      EofDecoded(s, 1 + |first|, if |first| < 4 then Inner else AfterRun, first);
    }
  }

  lemma LongDecodes(first: Bytestring, items: seq<Item>, s: Bytestring, rest: Bytestring)
    requires |first| >= 4 && ValidItems(first, items) && s == BodyWithItems(first, items) + EOF_BYTES + rest
    ensures Decode(s) == Finished(Expand(first, items), |BodyWithItems(first, items)| + 3)
  {
    hide DecodeFrom;
    hide BodyWithItems;
    hide Expand;
    hide ValidItems;
    StreamParts(s, BodyWithItems(first, items), rest);
    FirstByteSmall(first, items);
    var mode := BodyDecoded(s, first, items);
    EofDecoded(s, |BodyWithItems(first, items)|, mode, Expand(first, items));
  }

  /**
   * Decoding a serialised stream gives back the text it stands for and stops exactly behind
   * its end marker, whatever follows the stream.
   */
  lemma SerializedDecodes(first: Bytestring, items: seq<Item>, rest: Bytestring)
    requires ValidItems(first, items)
    ensures Decode(Serialize(first, items) + rest)
         == Finished(Expand(first, items), |Serialize(first, items)|)
  {
    hide Decode;
    hide LitRun;
    var s := Serialize(first, items) + rest;
    if items == [] && |first| <= 238 {
      ShortDecodes(first, s, rest);
    } else {
      LongDecodes(first, items, s, rest);
    }
  }

  lemma {:induction false} FirstByteSmall(first: Bytestring, items: seq<Item>)
    requires |first| >= 4 && ValidItems(first, items)
    ensures |BodyWithItems(first, items)| > 0 && BodyWithItems(first, items)[0] <= 15
    decreases |items|
  {
    if items != [] {
      FirstByteSmall(first, items[..|items| - 1]);
    }
  }

  // ---------------------------------------------------------------- how long a stream can get

  lemma {:induction false} ExtLength(r: nat)
    requires r > 0
    ensures |Ext(r)| == 1 + (r - 1) / 255
    decreases r
  {
    if r > 255 {
      ExtLength(r - 255);
    }
  }

  /** Every match is shorter than what it stands for. */
  lemma MatchSaves(off: nat, len: nat, k: nat)
    requires Encodable(off, len) && k <= 3
    ensures |MatchBytes(off, len, k)| < len
  {
    if len > M3_MAX_LEN {
      ExtLength(len - M3_MAX_LEN);
    }
    if len > M4_MAX_LEN {
      ExtLength(len - M4_MAX_LEN);
    }
  }

  /** A literal run costs at most a sixteenth of its length, and one byte. */
  lemma RunOverhead(lits: Bytestring)
    requires |lits| >= 4
    ensures 16 * |LitRun(lits)| <= 17 * |lits| + 16
  {
    if |lits| > 18 {
      ExtLength(|lits| - 18);
    }
  }

  lemma ItemOverhead(it: Item)
    requires Encodable(it.off, it.len)
    ensures 16 * |ItemBytes(it)| <= 17 * (it.len + |it.lits|)
  {
    MatchSaves(it.off, it.len, if |it.lits| <= 3 then |it.lits| else 0);
    if |it.lits| > 3 {
      RunOverhead(it.lits);
    }
  }

  lemma {:induction false} BodyBound(first: Bytestring, items: seq<Item>)
    requires |first| >= 4 && ValidItems(first, items)
    ensures 16 * |BodyWithItems(first, items)| <= 17 * |Expand(first, items)| + 16
    decreases |items|
  {
    if items == [] {
      RunOverhead(first);
    } else {
      BodyBound(first, items[..|items| - 1]);
      ItemOverhead(items[|items| - 1]);
    }
  }

  /** The worst case over all streams for a text of a given length. */
  lemma SerializeBound(first: Bytestring, items: seq<Item>)
    requires ValidItems(first, items)
    ensures |Serialize(first, items)| <= |Expand(first, items)| + |Expand(first, items)| / 16 + 4
  {
    if items != [] || |first| > 238 {
      BodyBound(first, items);
    }
  }
}
