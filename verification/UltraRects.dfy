/** A whole rectangle in Ultra: strips of lines, each compressed on its own. */
module UltraRects {
  import opened Arithmetic
  import opened Bytes
  import opened Rectangles
  import opened CopyRects
  import LzoCompress
  import LzoDecompress
  import opened LzoFormat
  import opened Pixels
  import opened RawRects
  import opened Ultra
  import opened UpdateBuffers

  const ENCODING_ULTRA: nat := 9
  const ULTRA_MAX_RECT_SIZE: nat := 128 * 256

  /** `ULTRA_MAX_SIZE`, in pixels: at least two lines. */
  function UltraMaxSize(min: nat): nat {
    if min * 2 > ULTRA_MAX_RECT_SIZE then min * 2 else ULTRA_MAX_RECT_SIZE
  }

  /** The lines of a strip. */
  function MaxLines(w: nat): nat
    requires w > 0
  {
    UltraMaxSize(w) / w
  }

  /** A strip has the most lines that stay within the size, but two in any case; it is far from the limits of an `int`. */
  lemma StripFits(w: nat, lines: nat, d: Depth)
    requires 0 < w < 0x1_0000 && lines <= MaxLines(w)
    ensures MaxLines(w) >= 2 && lines * (w * d) <= 0x8_0000
    ensures MaxLines(w) == 2 || MaxLines(w) * w <= ULTRA_MAX_RECT_SIZE < MaxLines(w) * w + w
  {
    var most := MaxLines(w);
    assert most * w <= UltraMaxSize(w) < 0x2_0000;
    assert lines * w <= most * w by {
      ProductAtMost(lines, most, w);
    }
    assert lines * (w * d) == lines * w * d;
  }

  /** The packet decompresses to the rectangle's pixels and ends with them. */
  ghost predicate Packs(packet: Bytestring, pic: Picture, r: Rect, d: Depth) {
    r.x1 <= r.x2 && r.y1 <= r.y2 && InDepth(pic, r, d) && |packet| < 0x8000_0000 &&
    Decode(packet) == Finished(RectBytes(pic, r.x1, r.y1, r.x2 - r.x1, r.y2 - r.y1, d), |packet|)
  }

  ghost function UltraBytes(packet: Bytestring): Bytestring
    requires |packet| < 0x8000_0000
  {
    Be32(|packet|) + packet
  }

  /** `rfbSendOneRectEncodingUltra` */
  method SendOneRectEncodingUltra(ub: UpdateBuffer, fb: Frame, x: nat, y: nat, w: nat, h: nat, d: Depth, lzoWrkMem: array<int>)
    returns (ghost packet: Bytestring)
    requires ub.Valid() && RectOnScreen(fb, Rect(x, y, x + w, y + h)) && OnWire(Rect(x, y, x + w, y + h))
    requires InDepth(Shown(fb), Rect(x, y, x + w, y + h), d) && 0 < w && h <= MaxLines(w) && lzoWrkMem.Length == LzoCompress.DICT_SIZE
    modifies ub, ub.updateBuf, lzoWrkMem
    ensures ub.Valid() && Packs(packet, Shown(fb), Rect(x, y, x + w, y + h), d)
    ensures ub.Stream() == old(ub.Stream()) + (HeaderOf(Rect(x, y, x + w, y + h), ENCODING_ULTRA) + UltraBytes(packet))
  {
    hide RectBytes;
    hide RectHeader;
    hide InDepth;
    hide Decode;
    hide Be32;
    hide MaxLines;
    hide Shown;
    StripFits(w, h, d);
    var lzoBeforeBuf := RawPixels(fb, x, y, w, h, d);
    var lzoAfterBuf := SendRect(lzoBeforeBuf, lzoWrkMem);
    packet := lzoAfterBuf;
    ub.Reserve(16);
    ub.Put(HeaderOf(Rect(x, y, x + w, y + h), ENCODING_ULTRA));
    ub.Put(Be32(|lzoAfterBuf|));
    ub.PutAll(lzoAfterBuf);
  }

  lemma PacketIsThere(packet: Bytestring)
    requires Decode(packet).Finished?
    ensures packet != []
  {
  }

  lemma WholeAt<T>(s: seq<T>)
    ensures At(s, 0, s)
  {
  }

  /** `HandleUltra`: fails only when the stream has ended. */
  method HandleUltra(fb: Frame, s: Bytestring, i: nat, r: Rect, d: Depth, ghost packet: Bytestring, ghost pic: Picture)
    returns (ok: bool, next: nat)
    requires RectOnScreen(fb, r) && r.x1 < r.x2 && r.y1 < r.y2 && Packs(packet, pic, r, d) && At(s, i, UltraBytes(packet))
    modifies fb
    ensures ok && next == i + |UltraBytes(packet)| && ShowsPart(Shown(fb), old(Shown(fb)), r, pic)
  {
    hide RectBytes;
    hide Decode;
    hide ShowsRead;
    hide ShowsPart;
    hide Be32;
    hide ReadBe32;
    hide InDepth;
    PacketIsThere(packet);
    AtConcat(s, i, Be32(|packet|), packet);
    ReadBe32Written(s, i, |packet|);
    var toRead := ReadBe32(s, i);
    next := i + 4 + toRead;
    ok := next <= |s|;
    if ok && toRead != 0 {
      var w: nat, h: nat := r.x2 - r.x1, r.y2 - r.y1;
      var status, raw := ReceiveRect(s[i + 4..next], h * (w * d));
      ok := status == LzoDecompress.Ok;
      if ok {
        NothingRead(Shown(fb), r, raw, 0, d);
        WholeAt(raw);
        CopyLines(fb, raw, 0, 0, r, 0, h, d, old(Shown(fb)));
        RawReadsBack(raw, 0, pic, Shown(fb), old(Shown(fb)), r, d);
      }
    }
  }
}
