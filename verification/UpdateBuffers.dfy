/**
 * The server's side of a connection: bytes gather in a buffer of fixed size that is written out
 * when it is full.
 */
module UpdateBuffers {
  import opened Bytes

  const UPDATE_BUF_SIZE: nat := 30000

  // ---------------------------------------------------------------- numbers on the wire

  function Be16(v: nat): (b: Bytestring)
    requires v < 0x1_0000
    ensures |b| == 2
  {
    [v / 256, v % 256]
  }

  function Be32(v: nat): (b: Bytestring)
    requires v < 0x1_0000_0000
    ensures |b| == 4
  {
    [v / 16777216, v / 65536 % 256, v / 256 % 256, v % 256]
  }

  function ReadBe16(s: Bytestring, i: nat): nat
    requires i + 2 <= |s|
  {
    s[i] as int * 256 + s[i + 1]
  }

  function ReadBe32(s: Bytestring, i: nat): nat
    requires i + 4 <= |s|
  {
    s[i] as int * 16777216 + s[i + 1] as int * 65536 + s[i + 2] as int * 256 + s[i + 3]
  }

  lemma ReadBe16Written(s: Bytestring, i: nat, v: nat)
    requires v < 0x1_0000 && At(s, i, Be16(v))
    ensures ReadBe16(s, i) == v
  {
    AtIndex(s, i, Be16(v), 0);
    AtIndex(s, i, Be16(v), 1);
  }

  lemma ReadBe32Written(s: Bytestring, i: nat, v: nat)
    requires v < 0x1_0000_0000 && At(s, i, Be32(v))
    ensures ReadBe32(s, i) == v
  {
    AtIndex(s, i, Be32(v), 0);
    AtIndex(s, i, Be32(v), 1);
    AtIndex(s, i, Be32(v), 2);
    AtIndex(s, i, Be32(v), 3);
    Digits(v);
  }

  lemma Digits(v: nat)
    ensures v / 16777216 * 16777216 + v / 65536 % 256 * 65536 + v / 256 % 256 * 256 + v % 256 == v
  {
  }

  /** `rfbFramebufferUpdateRectHeader` */
  function RectHeader(x: nat, y: nat, w: nat, h: nat, encoding: nat): (b: Bytestring)
    requires x < 0x1_0000 && y < 0x1_0000 && w < 0x1_0000 && h < 0x1_0000 && encoding < 0x1_0000_0000
    ensures |b| == 12
  {
    Be16(x) + Be16(y) + Be16(w) + Be16(h) + Be32(encoding)
  }

  lemma HeaderReadsBack(s: Bytestring, i: nat, x: nat, y: nat, w: nat, h: nat, encoding: nat)
    requires x < 0x1_0000 && y < 0x1_0000 && w < 0x1_0000 && h < 0x1_0000 && encoding < 0x1_0000_0000
    requires At(s, i, RectHeader(x, y, w, h, encoding))
    ensures i + 12 <= |s| && ReadBe16(s, i) == x && ReadBe16(s, i + 2) == y
    ensures ReadBe16(s, i + 4) == w && ReadBe16(s, i + 6) == h && ReadBe32(s, i + 8) == encoding
  {
    AtConcat(s, i, Be16(x) + Be16(y) + Be16(w) + Be16(h), Be32(encoding));
    AtConcat(s, i, Be16(x) + Be16(y) + Be16(w), Be16(h));
    AtConcat(s, i, Be16(x) + Be16(y), Be16(w));
    AtConcat(s, i, Be16(x), Be16(y));
    hide Be16;
    hide Be32;
    hide ReadBe16;
    hide ReadBe32;
    ReadBe16Written(s, i, x);
    ReadBe16Written(s, i + 2, y);
    ReadBe16Written(s, i + 4, w);
    ReadBe16Written(s, i + 6, h);
    ReadBe32Written(s, i + 8, encoding);
  }

  // ---------------------------------------------------------------- the buffer

  class UpdateBuffer {
    const updateBuf: array<byte>
    var ublen: nat
    /** What has left for the client. */
    var sent: Bytestring

    ghost predicate Valid()
      reads this, updateBuf
    {
      updateBuf.Length == UPDATE_BUF_SIZE && ublen <= UPDATE_BUF_SIZE
    }

    /** What the client gets once everything is flushed. */
    ghost function Stream(): Bytestring
      reads this, updateBuf
      requires Valid()
    {
      sent + updateBuf[..ublen]
    }

    constructor ()
      ensures Valid() && Stream() == [] && fresh(updateBuf)
    {
      updateBuf := new byte[UPDATE_BUF_SIZE];
      ublen, sent := 0, [];
    }

    /** `rfbSendUpdateBuf`, the socket taking everything. */
    method SendUpdateBuf()
      requires Valid()
      modifies this
      ensures Valid() && Stream() == old(Stream()) && ublen == 0
    {
      sent := sent + updateBuf[..ublen];
      ublen := 0;
    }

    /** A `memcpy` of bytes that fit. */
    method Put(b: Bytestring)
      requires Valid() && ublen + |b| <= UPDATE_BUF_SIZE
      modifies this, updateBuf
      ensures Valid() && Stream() == old(Stream()) + b && ublen == old(ublen) + |b| && sent == old(sent)
      ensures updateBuf[..old(ublen)] == old(updateBuf[..ublen])
    {
      var start := ublen;
      for k := 0 to |b|
        invariant Valid() && ublen == start && sent == old(sent)
        invariant updateBuf[..start] == old(updateBuf[..ublen]) && updateBuf[start..start + k] == b[..k]
      {
        updateBuf[start + k] := b[k];
        assert updateBuf[start..start + k + 1] == updateBuf[start..start + k] + [b[k]];
      }
      ublen := start + |b|;
      assert updateBuf[..ublen] == updateBuf[..start] + updateBuf[start..ublen];
    }

    /** What has been put since position `start`. */
    ghost function Since(start: nat): Bytestring
      reads this, updateBuf
      requires Valid() && start <= ublen
    {
      updateBuf[start..ublen]
    }

    /** What is settled before position `start`. */
    ghost function Until(start: nat): Bytestring
      reads this, updateBuf
      requires Valid() && start <= ublen
    {
      sent + updateBuf[..start]
    }

    /** Sets a flag that is not set yet in the byte at `start`. */
    method AddFlag(start: nat, flag: byte, ghost flags: byte, ghost rest: Bytestring)
      requires Valid() && start <= ublen && Since(start) == [flags] + rest && flags as int + flag < 256
      modifies updateBuf
      ensures Valid() && ublen == old(ublen) && Until(start) == old(Until(start)) && Since(start) == [flags + flag] + rest
    {
      assert Since(start)[0] == flags;
      updateBuf[start] := updateBuf[start] + flag;
      assert updateBuf[start + 1..ublen] == old(Since(start))[1..];
    }

    /** A `memcpy`, seen from `start`. */
    method PutBehind(start: nat, b: Bytestring, ghost before: Bytestring)
      requires Valid() && start <= ublen && ublen + |b| <= UPDATE_BUF_SIZE && Since(start) == before
      modifies this, updateBuf
      ensures Valid() && ublen == old(ublen) + |b| && Until(start) == old(Until(start)) && Since(start) == before + b
    {
      ghost var was := ublen;
      Put(b);
      assert updateBuf[start..was] == updateBuf[..was][start..];
      assert updateBuf[was..ublen] == (sent + updateBuf[..ublen])[|sent| + was..] == b;
      assert updateBuf[start..ublen] == updateBuf[start..was] + updateBuf[was..ublen];
    }

    /** Takes back everything put since `start`. */
    method Rewind(start: nat)
      requires Valid() && start <= ublen
      modifies this
      ensures Valid() && ublen == start && Stream() == old(Until(start))
    {
      ublen := start;
    }

    lemma StreamSplits(start: nat)
      requires Valid() && start <= ublen
      ensures Stream() == Until(start) + Since(start) && |Since(start)| == ublen - start
    {
      assert updateBuf[..ublen] == updateBuf[..start] + updateBuf[start..ublen];
    }

    /** Makes room for `n` bytes. */
    method Reserve(n: nat)
      requires Valid() && n <= UPDATE_BUF_SIZE
      modifies this
      ensures Valid() && Stream() == old(Stream()) && ublen + n <= UPDATE_BUF_SIZE
    {
      if ublen + n > UPDATE_BUF_SIZE {
        SendUpdateBuf();
      }
    }

    /** The loop at the end of the RRE encoders: any number of bytes, a bufferful at a time. */
    method PutAll(b: Bytestring)
      requires Valid()
      modifies this, updateBuf
      ensures Valid() && Stream() == old(Stream()) + b
    {
      var i := 0;
      while i < |b|
        invariant Valid() && i <= |b| && Stream() == old(Stream()) + b[..i]
        decreases |b| - i, ublen
      {
        var bytesToCopy := UPDATE_BUF_SIZE - ublen;
        if i + bytesToCopy > |b| {
          bytesToCopy := |b| - i;
        }
        Put(b[i..i + bytesToCopy]);
        assert b[..i] + b[i..i + bytesToCopy] == b[..i + bytesToCopy];
        i := i + bytesToCopy;
        if ublen == UPDATE_BUF_SIZE {
          SendUpdateBuf();
        }
      }
    }
  }
}
