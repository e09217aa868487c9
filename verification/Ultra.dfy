/** The Ultra encoding of one rectangle: the sender's buffer bound and the viewer's decoding. */
module Ultra {
  import opened Bytes
  import opened LzoFormat
  import opened LzoCompress
  import opened LzoDecompress

  /** `maxCompSize`: what the sender allocates for the compressed rectangle. */
  function MaxCompSize(maxRawSize: nat): nat {
    maxRawSize + maxRawSize / 16 + 64 + 3
  }

  /** `rfbSendOneRectEncodingUltra`, up to the headers; the work memory is allocated once and never cleared. */
  method SendRect(raw: Bytestring, lzoWrkMem: array<int>) returns (packet: Bytestring)
    requires lzoWrkMem.Length == DICT_SIZE
    modifies lzoWrkMem
    ensures |packet| <= MaxCompSize(|raw|) && Decode(packet) == Finished(raw, |packet|)
    ensures Uniform(raw) ==> |packet| <= 13 + |raw| / 255
  {
    var lzoAfterBuf := new byte[MaxCompSize(|raw|)](_ => 0);
    var n := Compress(raw, lzoAfterBuf, lzoWrkMem);
    packet := lzoAfterBuf[..n];
  }

  /** `HandleUltraBPP`: the viewer's buffer holds the rectangle, rounded up to whole words. */
  method ReceiveRect(packet: Bytestring, uncompressedBytes: nat) returns (status: Status, raw: Bytestring)
    requires Decode(packet).Finished? && |Decode(packet).data| <= uncompressedBytes
    ensures raw == Decode(packet).data
    ensures status == if Decode(packet).consumed == |packet| then Ok else InputNotConsumed
  {
    var size := if uncompressedBytes % 4 != 0 then uncompressedBytes + (4 - uncompressedBytes % 4) else uncompressedBytes;
    var rawBuffer := new byte[size](_ => 0);
    var n;
    status, n := Decompress(packet, rawBuffer);
    raw := rawBuffer[..n];
  }
}
