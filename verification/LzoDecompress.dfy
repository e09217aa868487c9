/** `lzo1x_decompress`: the unchecked decoder, with its labels as a mode. */
module LzoDecompress {
  import opened Bytes
  import opened LzoFormat

  datatype Status = Ok | InputNotConsumed

  lemma {:induction false} DecodeExtends(s: Bytestring, ip: nat, mode: Mode, out: Bytestring)
    requires DecodeFrom(s, ip, mode, out).Finished?
    ensures out <= DecodeFrom(s, ip, mode, out).data
    decreases |s| - ip
  {
    match Step(s, ip, mode, out)
    case Stop(_) =>
    case Go(ip', mode', out') =>
      DecodeExtends(s, ip', mode', out');
  }

  /** What one more instruction of a stream that ends properly does. */
  lemma Advances(s: Bytestring, ip: nat, mode: Mode, out: Bytestring)
    requires DecodeFrom(s, ip, mode, out).Finished?
    ensures ip < |s|
    ensures var step, end := Step(s, ip, mode, out), DecodeFrom(s, ip, mode, out);
            (step.Stop? ==> step.outcome == end) &&
            (step.Go? ==> DecodeFrom(s, step.ip, step.mode, step.out) == end && step.out <= end.data)
  {
    var step := Step(s, ip, mode, out);
    if step.Go? {
      DecodeExtends(s, step.ip, step.mode, step.out);
    }
  }

  /** Literals, copied byte by byte from the input. */
  method CopyIn(s: Bytestring, from: nat, n: nat, dst: array<byte>, start: nat) returns (op: nat)
    requires from + n <= |s| && start + n <= dst.Length
    modifies dst
    ensures op == start + n && dst[..op] == old(dst[..start]) + s[from..from + n]
    ensures dst[op..] == old(dst[start + n..])
  {
    op := start;
    for k := 0 to n
      invariant op == start + k && dst[..op] == old(dst[..start]) + s[from..from + k]
      invariant dst[op..] == old(dst[start + k..])
    {
      dst[op] := s[from + k];
      op := op + 1;
    }
  }

  /** `copy_match`: source and target may overlap. */
  method CopyBack(dst: array<byte>, start: nat, off: nat, len: nat) returns (op: nat)
    requires 0 < off <= start && start + len <= dst.Length
    modifies dst
    ensures op == start + len && dst[..op] == CopyMatch(old(dst[..start]), off, len)
    ensures dst[op..] == old(dst[start + len..])
  {
    op := start;
    ghost var whole := CopyMatch(dst[..start], off, len);
    for k := 0 to len
      invariant op == start + k && CopyMatch(dst[..op], off, len - k) == whole
      invariant dst[op..] == old(dst[start + k..])
    {
      op := PutBack(dst, op, off);
    }
  }

  method PutBack(dst: array<byte>, start: nat, off: nat) returns (op: nat)
    requires 0 < off <= start < dst.Length
    modifies dst
    ensures op == start + 1 && dst[..op] == old(dst[..start]) + [old(dst[start - off])]
    ensures dst[op..] == old(dst[start + 1..])
  {
    dst[start] := dst[start - off];
    op := start + 1;
  }

  /** A count that goes on over zero bytes, each worth 255. */
  method ReadChain(s: Bytestring, start: nat, base: nat) returns (t: nat, ip: nat)
    requires Chain(s, start, base).Counted?
    ensures Chain(s, start, base) == Counted(t, ip)
  {
    t, ip := 0, start;
    while s[ip] == 0
      invariant ip < |s| && Chain(s, ip, base + t) == Chain(s, start, base)
      decreases |s| - ip
    {
      t := t + 255;
      ip := ip + 1;
    }
    t := t + base + s[ip];
    ip := ip + 1;
  }

  /** A literal run of at least four bytes. */
  method StoreRun(s: Bytestring, at: nat, dst: array<byte>, start: nat) returns (op: nat, ip: nat)
    requires start <= dst.Length && at < |s| && s[at] < 16
    requires var step := Step(s, at, Top, dst[..start]); step.Go? && |step.out| <= dst.Length
    modifies dst
    ensures op <= dst.Length && dst[op..] == old(dst[op..])
    ensures old(Step(s, at, Top, dst[..start])) == Go(ip, AfterRun, dst[..op])
  {
    var n, next: nat := s[at] as nat, at + 1;
    if n == 0 {
      n, next := ReadChain(s, next, 15);
    }
    op := CopyIn(s, next, n + 3, dst, start);
    ip := next + n + 3;
  }

  /** A match, and the one to three literals its low bits may announce. */
  method StoreMatch(s: Bytestring, tok: Token, dst: array<byte>, start: nat) returns (op: nat, ip: nat, mode: Mode)
    requires start <= dst.Length && tok.Copy? && 2 <= tok.next <= |s| && tok.off > 0
    requires var step := TokenStep(s, tok, dst[..start]); step.Go? && |step.out| <= dst.Length
    modifies dst
    ensures op <= dst.Length && dst[op..] == old(dst[op..])
    ensures old(TokenStep(s, tok, dst[..start])) == Go(ip, mode, dst[..op])
  {
    op := CopyBack(dst, start, tok.off, tok.len);
    var k := s[tok.next - 2] % 4;
    op := CopyIn(s, tok.next, k, dst, op);
    ip, mode := tok.next + k, if k == 0 then Top else Inner;
  }

  method ReadToken(s: Bytestring, start: nat, first: byte, mode: Mode) returns (tok: Token)
    requires !ParseToken(s, start, first, mode).Bad?
    ensures tok == ParseToken(s, start, first, mode)
  {
    var t: nat, ip := first, start;
    if t >= 64 {
      tok := Copy(1 + t / 4 % 8 + s[ip] as int * 8, t / 32 - 1 + 2, ip + 1);
    } else if t >= 32 {
      t := t % 32;
      if t == 0 {
        t, ip := ReadChain(s, ip, 31);
      }
      tok := Copy(1 + s[ip] / 4 + s[ip + 1] as int * 64, t + 2, ip + 2);
    } else if t >= 16 {
      var hi := t / 8 % 2;
      t := t % 8;
      if t == 0 {
        t, ip := ReadChain(s, ip, 7);
      }
      var dist := hi * 0x4000 + s[ip] / 4 + s[ip + 1] as int * 64;
      tok := if dist == 0 then Eof(ip + 2) else Copy(dist + 0x4000, t + 2, ip + 2);
    } else if mode == AfterRun {
      tok := Copy(1 + M2_MAX_OFFSET + t / 4 + s[ip] as int * 4, 3, ip + 1);
    } else {
      tok := Copy(1 + t / 4 + s[ip] as int * 4, 2, ip + 1);
    }
  }

  /** The two nested loops, entered at any of the places that read an instruction byte. */
  method Run(s: Bytestring, dst: array<byte>, start: nat, at: nat, how: Mode) returns (status: Status, outLen: nat)
    requires start <= dst.Length && DecodeFrom(s, at, how, dst[..start]).Finished?
    requires |DecodeFrom(s, at, how, dst[..start]).data| <= dst.Length
    modifies dst
    ensures outLen <= dst.Length && dst[outLen..] == old(dst[outLen..])
    ensures var end := old(DecodeFrom(s, at, how, dst[..start]));
            dst[..outLen] == end.data && status == if end.consumed == |s| then Ok else InputNotConsumed
  {
    hide DecodeFrom;
    hide ParseToken;
    hide CopyMatch;
    ghost var end := DecodeFrom(s, at, how, dst[..start]);
    var op: nat, ip: nat, mode := start, at, how;
    while true
      invariant op <= dst.Length && DecodeFrom(s, ip, mode, dst[..op]) == end
      invariant dst[op..] == old(dst[op..])
      decreases |s| - ip
    {
      Advances(s, ip, mode, dst[..op]);
      var t := s[ip];
      if t < 16 && mode == Top {
        op, ip := StoreRun(s, ip, dst, op);
        mode := AfterRun;
      } else {
        var tok := ReadToken(s, ip + 1, t, mode);
        if tok.Eof? {
          status := if tok.next == |s| then Ok else InputNotConsumed;
          outLen := op;
          return;
        }
        op, ip, mode := StoreMatch(s, tok, dst, op);
      }
    }
  }

  /**
   * The stream must be one the decoder can follow to an end marker, and the target must hold
   * the text: the C code checks neither.
   */
  method Decompress(s: Bytestring, dst: array<byte>) returns (status: Status, outLen: nat)
    requires Decode(s).Finished? && |Decode(s).data| <= dst.Length
    modifies dst
    ensures outLen <= dst.Length && dst[..outLen] == Decode(s).data
    ensures dst[outLen..] == old(dst[outLen..])
    ensures status == if Decode(s).consumed == |s| then Ok else InputNotConsumed
  {
    hide DecodeFrom;
    if s != [] && s[0] > 17 {
      var t := s[0] - 17;
      DecodeExtends(s, 1 + t, if t < 4 then Inner else AfterRun, s[1..1 + t]);
      var op := CopyIn(s, 1, t, dst, 0);
      assert dst[..op] == s[1..1 + t];
      status, outLen := Run(s, dst, op, 1 + t, if t < 4 then Inner else AfterRun);
    } else {
      assert dst[..0] == [];
      status, outLen := Run(s, dst, 0, 0, Top);
    }
  }
}
