/**
 * One rectangle of an update in RRE or CoRRE, from the server's framebuffer to the client's: the
 * encoding is given up for raw pixels when it would be no smaller.
 */
module RectMessages {
  import opened Background
  import opened Bytes
  import opened CoverSearch
  import opened Greedy
  import opened Rectangles
  import opened CopyRects
  import opened Pixels
  import opened RawRects
  import opened Rre
  import opened Subrects
  import opened UpdateBuffers

  const ENCODING_RRE: nat := 2
  const ENCODING_CORRE: nat := 4

  function EncodingOf(kind: Kind): nat {
    if kind == RRE then ENCODING_RRE else ENCODING_CORRE
  }

  datatype RectMessage = RawMessage(r: Rect) | SubsMessage(r: Rect, kind: Kind, bg: nat, subs: seq<Sub>)

  /** Everything fits its field. */
  ghost predicate Sendable(m: RectMessage, pic: Picture, d: Depth) {
    OnWire(m.r) && InDepth(pic, m.r, d) &&
    (m.SubsMessage? ==> IsPixel(m.bg, d) && |m.subs| < 0x1_0000_0000 && forall s :: s in m.subs ==> Writable(s, d, m.kind))
  }

  /** The message shows what is in the picture. */
  ghost predicate Describes(m: RectMessage, pic: Picture) {
    OnWire(m.r) &&
    (m.SubsMessage? ==> IsCover(PartOf(pic, m.r.x1, m.r.y1), m.bg, m.subs, m.r.x2 - m.r.x1, m.r.y2 - m.r.y1))
  }

  ghost function MessageBytes(m: RectMessage, pic: Picture, d: Depth): Bytestring
    requires Sendable(m, pic, d)
  {
    match m
    case RawMessage(r) => HeaderOf(r, ENCODING_RAW) + RectBytes(pic, r.x1, r.y1, r.x2 - r.x1, r.y2 - r.y1, d)
    case SubsMessage(r, kind, bg, subs) => HeaderOf(r, EncodingOf(kind)) + Message(bg, subs, d, kind)
  }

  /** What the client's fixed buffer holds at most. */
  predicate Manageable(m: RectMessage, d: Depth) {
    match m
    case RawMessage(r) => 0 < (r.x2 - r.x1) * d <= RFB_BUFFER_SIZE
    case SubsMessage(_, kind, _, subs) => kind == CoRRE ==> |subs| * SubSize(d, kind) <= RFB_BUFFER_SIZE
  }

  /** What is on its way can be read. */
  ghost predicate Good(m: RectMessage, pic: Picture, d: Depth) {
    Sendable(m, pic, d) && Describes(m, pic) && Manageable(m, d)
  }

  // ---------------------------------------------------------------- sending

  /** No more than raw pixels would take, and no more than there is room for. */
  function Limit(w: nat, h: nat, d: Depth, bufSize: nat): nat {
    if w * h * d > bufSize then bufSize else w * h * d
  }

  /** Background and rectangles are those of the search, which stays within the limit. */
  ghost predicate IsFound(pic: Picture, bg: int, subs: seq<Sub>, w: nat, h: nat, d: Depth, kind: Kind, bufSize: nat) {
    IsBackground(pic, bg, w, h, d) && GreedyCover(pic, bg, subs, w, h) && Fits(|subs|, d, SubSize(d, kind), Limit(w, h, d, bufSize))
  }

  /** The search, on the background there is, does not stay within the limit. */
  ghost predicate IsGivenUp(pic: Picture, w: nat, h: nat, d: Depth, kind: Kind, bufSize: nat) {
    exists bg :: IsBackground(pic, bg, w, h, d) && !Pays(pic, bg, w, h, d, SubSize(d, kind), Limit(w, h, d, bufSize))
  }

  /** The message is what the search makes of the rectangle, raw only if it is given up. */
  ghost predicate AsSearched(m: RectMessage, pic: Picture, d: Depth, kind: Kind, bufSize: nat) {
    m.r.x1 <= m.r.x2 && m.r.y1 <= m.r.y2 &&
    var part, w, h := PartOf(pic, m.r.x1, m.r.y1), m.r.x2 - m.r.x1, m.r.y2 - m.r.y1;
    match m
    case RawMessage(_) => IsGivenUp(part, w, h, d, kind, bufSize)
    case SubsMessage(_, k, bg, subs) => k == kind && IsFound(part, bg, subs, w, h, d, kind, bufSize)
  }

  /** A rectangle of one colour is sent as its background alone. */
  lemma OneColourIsBackground(m: RectMessage, pic: Picture, d: Depth, kind: Kind, bufSize: nat, c: int)
    requires AsSearched(m, pic, d, kind, bufSize) && forall p :: InRect(p, m.r) ==> pic(p) == c
    ensures m.SubsMessage? && m.kind == kind && m.bg == c && m.subs == []
  {
    hide Count;
    var part, w: nat, h: nat := PartOf(pic, m.r.x1, m.r.y1), m.r.x2 - m.r.x1, m.r.y2 - m.r.y1;
    forall p | InTile(p, w, h)
      ensures part(p) == c
    {
      assert InRect(Moved(p, m.r.x1, m.r.y1), m.r);
    }
    OneColour(part, c, w, h);
    PaysIff(part, c, [], w, h, d, SubSize(d, kind), Limit(w, h, d, bufSize));
    if m.SubsMessage? {
      SearchIsPrefix(part, c, [], m.subs, w, h);
    }
  }

  lemma FoundInSame(pic: Picture, pic': Picture, done: bool, bg: int, subs: seq<Sub>, w: nat, h: nat, d: Depth, kind: Kind, bufSize: nat)
    requires if done then IsFound(pic, bg, subs, w, h, d, kind, bufSize) else IsGivenUp(pic, w, h, d, kind, bufSize)
    requires w > 0 && h > 0 && forall p :: InTile(p, w, h) ==> pic'(p) == pic(p)
    ensures if done then IsFound(pic', bg, subs, w, h, d, kind, bufSize) else IsGivenUp(pic', w, h, d, kind, bufSize)
  {
    hide IsBackground;
    hide GreedyCover;
    hide Pays;
    hide Limit;
    if done {
      BackgroundOfSame(pic, pic', bg, w, h, d);
      GreedyOfSame(pic, pic', bg, subs, w, h);
    } else {
      var b :| IsBackground(pic, b, w, h, d) && !Pays(pic, b, w, h, d, SubSize(d, kind), Limit(w, h, d, bufSize));
      BackgroundOfSame(pic, pic', b, w, h, d);
      PaysForSame(pic, pic', b, w, h, d, SubSize(d, kind), Limit(w, h, d, bufSize));
    }
  }

  /** The rectangles of a cover fit their fields, and there are fewer of them than pixels. */
  lemma CoverIsWritable(pic: Picture, bg: int, subs: seq<Sub>, w: nat, h: nat, d: Depth, kind: Kind)
    requires IsCover(pic, bg, subs, w, h) && InDepth(pic, Rect(0, 0, w, h), d)
    requires if kind == RRE then w < 0x1_0000 && h < 0x1_0000 else w < 0x100 && h < 0x100
    ensures forall s :: s in subs ==> Writable(s, d, kind)
  {
    forall s | s in subs
      ensures Writable(s, d, kind)
    {
      var p := Pt(s.x, s.y);
      CoverIsMonochrome(pic, bg, subs, w, h, s, p);
      assert InRect(p, Rect(0, 0, w, h));
    }
  }

  /** The limit on the encoding keeps the count in its field, and CoRRE within the client's buffer. */
  lemma LimitIsEnough(n: nat, w: nat, h: nat, d: Depth, kind: Kind)
    requires w < 0x1_0000 && h < 0x1_0000 && (n == 0 || d + SubSize(d, kind) * n <= w * h * d)
    ensures n < 0x1_0000_0000
    ensures w < 0x100 && h < 0x100 ==> n * SubSize(d, kind) <= RFB_BUFFER_SIZE
  {
    assert w * h <= 0xFFFF * 0xFFFF;
    if n > 0 {
      assert n * d <= SubSize(d, kind) * n <= (w * h) * d;
      assert n <= w * h;
      if w < 0x100 && h < 0x100 {
        assert w * h <= 0xFF * 0xFF && w * h * d <= 0xFF * 0xFF * 4;
      }
    }
  }

  ghost predicate Encoded(pic: Picture, bg: int, subs: seq<Sub>, w: nat, h: nat, d: Depth, kind: Kind) {
    IsCover(pic, bg, subs, w, h) && IsPixel(bg, d) && |subs| < 0x1_0000_0000 &&
    (forall s :: s in subs ==> Writable(s, d, kind)) &&
    (kind == CoRRE ==> |subs| * SubSize(d, kind) <= RFB_BUFFER_SIZE)
  }

  /** `subrectEncode`: background and cover, or nothing when it takes more room than raw pixels. */
  method SubrectEncode(data: Frame, d: Depth, kind: Kind, bufSize: nat) returns (done: bool, bg: nat, subs: seq<Sub>)
    requires InDepth(Shown(data), Rect(0, 0, data.Length1, data.Length0), d)
    requires 0 < data.Length1 < 0x1_0000 && 0 < data.Length0 < 0x1_0000
    requires kind == CoRRE ==> data.Length1 < 0x100 && data.Length0 < 0x100
    modifies data
    ensures done ==> Encoded(old(Shown(data)), bg, subs, data.Length1, data.Length0, d, kind)
    ensures if done then IsFound(old(Shown(data)), bg, subs, data.Length1, data.Length0, d, kind, bufSize)
            else IsGivenUp(old(Shown(data)), data.Length1, data.Length0, d, kind, bufSize)
  {
    hide IsCover;
    hide GreedyCover;
    hide Pays;
    hide Count;
    hide Occurs;
    hide InDepth;
    hide Writable;
    bg := GetBgColour(data, d);
    var limit := data.Length1 * data.Length0 * d;
    if limit > bufSize {
      limit := bufSize;
    }
    done, subs := Cover(data, bg, d, SubSize(d, kind), limit);
    if done {
      CoverIsWritable(old(Shown(data)), bg, subs, data.Length1, data.Length0, d, kind);
      LimitIsEnough(|subs|, data.Length1, data.Length0, d, kind);
    }
  }

  /** Translation into the working buffer, and the attempt. */
  method EncodePart(fb: Frame, x: nat, y: nat, w: nat, h: nat, d: Depth, kind: Kind, bufSize: nat) returns (done: bool, bg: nat, subs: seq<Sub>)
    requires RectOnScreen(fb, Rect(x, y, x + w, y + h)) && InDepth(Shown(fb), Rect(x, y, x + w, y + h), d)
    requires 0 < w < 0x1_0000 && 0 < h < 0x1_0000 && (kind == CoRRE ==> w < 0x100 && h < 0x100)
    ensures done ==> Encoded(PartOf(Shown(fb), x, y), bg, subs, w, h, d, kind)
    ensures if done then IsFound(PartOf(Shown(fb), x, y), bg, subs, w, h, d, kind, bufSize)
            else IsGivenUp(PartOf(Shown(fb), x, y), w, h, d, kind, bufSize)
  {
    hide IsCover;
    hide InDepth;
    hide Writable;
    hide IsFound;
    hide IsGivenUp;
    var data := CopyPart(fb, x, y, w, h);
    ghost var pic := Shown(data);
    PartInDepth(Shown(fb), pic, x, y, w, h, d);
    done, bg, subs := SubrectEncode(data, d, kind, bufSize);
    FoundInSame(pic, PartOf(Shown(fb), x, y), done, bg, subs, w, h, d, kind, bufSize);
    if done {
      CoverOfSame(pic, PartOf(Shown(fb), x, y), bg, subs, w, h);
    }
  }

  lemma EncodedIsSendable(pic: Picture, m: RectMessage, d: Depth)
    requires m.SubsMessage? && OnWire(m.r) && InDepth(pic, m.r, d)
    requires Encoded(PartOf(pic, m.r.x1, m.r.y1), m.bg, m.subs, m.r.x2 - m.r.x1, m.r.y2 - m.r.y1, d, m.kind)
    ensures Sendable(m, pic, d) && Describes(m, pic) && Manageable(m, d)
  {
    hide IsCover;
    hide Writable;
  }

  /** `rfbSendRectEncodingRRE` and `rfbSendSmallRectEncodingCoRRE` */
  method SendRect(ub: UpdateBuffer, fb: Frame, x: nat, y: nat, w: nat, h: nat, d: Depth, kind: Kind, bufSize: nat)
    returns (ok: bool, ghost m: RectMessage)
    requires ub.Valid() && RectOnScreen(fb, Rect(x, y, x + w, y + h)) && InDepth(Shown(fb), Rect(x, y, x + w, y + h), d)
    requires OnWire(Rect(x, y, x + w, y + h)) && 0 < w && 0 < h && (kind == CoRRE ==> w < 0x100 && h < 0x100)
    modifies ub, ub.updateBuf
    ensures ub.Valid() && m.r == Rect(x, y, x + w, y + h) && Describes(m, Shown(fb)) && Sendable(m, Shown(fb), d)
    ensures AsSearched(m, Shown(fb), d, kind, bufSize)
    ensures ok ==> Manageable(m, d) && ub.Stream() == old(ub.Stream()) + MessageBytes(m, Shown(fb), d)
    ensures !ok ==> w * d > UPDATE_BUF_SIZE
  {
    hide Encoded;
    hide IsFound;
    hide IsGivenUp;
    hide InDepth;
    hide RectBytes;
    hide HeaderOf;
    hide Message;
    var done, bg, subs := EncodePart(fb, x, y, w, h, d, kind, bufSize);
    var r := Rect(x, y, x + w, y + h);
    if !done {
      m := RawMessage(r);
      ok := SendRectEncodingRaw(ub, fb, x, y, w, h, d);
    } else {
      ok, m := true, SubsMessage(r, kind, bg, subs);
      EncodedIsSendable(Shown(fb), m, d);
      PutSubs(ub, r, kind, bg, subs, d);
    }
  }

  /** Header and count must fit the buffer together, what follows is cut as needed. */
  method PutSubs(ub: UpdateBuffer, r: Rect, kind: Kind, bg: nat, subs: seq<Sub>, d: Depth)
    requires ub.Valid() && OnWire(r) && IsPixel(bg, d)
    requires |subs| < 0x1_0000_0000 && forall s :: s in subs ==> Writable(s, d, kind)
    modifies ub, ub.updateBuf
    ensures ub.Valid() && ub.Stream() == old(ub.Stream()) + (HeaderOf(r, EncodingOf(kind)) + Message(bg, subs, d, kind))
  {
    hide RectHeader;
    hide SubsBytes;
    hide PixelBytes;
    ub.Reserve(16);
    ub.Put(HeaderOf(r, EncodingOf(kind)));
    ub.Put(Be32(|subs|));
    ub.PutAll(PixelBytes(bg, d) + SubsBytes(subs, d, kind));
    calc {
      ub.Stream();
      old(ub.Stream()) + HeaderOf(r, EncodingOf(kind)) + Be32(|subs|) + (PixelBytes(bg, d) + SubsBytes(subs, d, kind));
      old(ub.Stream()) + (HeaderOf(r, EncodingOf(kind)) + (Be32(|subs|) + PixelBytes(bg, d) + SubsBytes(subs, d, kind)));
    }
  }

  // ---------------------------------------------------------------- receiving

  lemma {:induction false} SubsAtIndex(s: Bytestring, i: nat, n: nat, d: Depth, kind: Kind, k: nat)
    requires k < n && i + n * SubSize(d, kind) <= |s|
    ensures i + k * SubSize(d, kind) + SubSize(d, kind) <= |s|
    ensures SubsAt(s, i, n, d, kind)[k] == SubAt(s, i + k * SubSize(d, kind), d, kind)
  {
    hide SubAt;
    assert n * SubSize(d, kind) == (n - 1) * SubSize(d, kind) + SubSize(d, kind);
    if k < n - 1 {
      SubsAtIndex(s, i, n - 1, d, kind, k);
    }
  }

  lemma ReadSubsInside(s: Bytestring, at: nat, subs: seq<Sub>, pic: Picture, bg: int, r: Rect, d: Depth, kind: Kind)
    requires r.x1 <= r.x2 && r.y1 <= r.y2 && IsCover(pic, bg, subs, r.x2 - r.x1, r.y2 - r.y1)
    requires at + |subs| * SubSize(d, kind) <= |s| && SubsAt(s, at, |subs|, d, kind) == subs
    ensures SubsInside(s, at, |subs|, r, d, kind)
  {
    hide SubAt;
    hide SubsAt;
    forall k | 0 <= k < |subs|
      ensures SubInside(s, at, k, r, d, kind)
    {
      SubsAtIndex(s, at, |subs|, d, kind, k);
      assert subs[k] in subs;
    }
  }

  /** What the server sends is what the client takes for granted. */
  lemma MessageIsTrusted(s: Bytestring, i: nat, m: RectMessage, pic: Picture, d: Depth)
    requires m.SubsMessage? && Sendable(m, pic, d) && Describes(m, pic) && Manageable(m, d)
    requires At(s, i, Message(m.bg, m.subs, d, m.kind))
    ensures Trusted(s, i, m.r, d, m.kind)
  {
    MessageReadsBack(s, i, m.bg, m.subs, d, m.kind);
    hide IsCover;
    hide Writable;
    hide Message;
    hide ReadPixel;
    hide SubsAt;
    hide SubsInside;
    hide ReadBe32;
    if i + 4 + d <= |s| {
      assert |SubsAt(s, i + 4 + d, ReadBe32(s, i), d, m.kind)| == |m.subs|;
      ReadSubsInside(s, i + 4 + d, m.subs, PartOf(pic, m.r.x1, m.r.y1), m.bg, m.r, d, m.kind);
    }
  }

  /** The pixels of the client after a message of the server. */
  method HandlePayload(fb: Frame, s: Bytestring, i: nat, r: Rect, encoding: nat, d: Depth, ghost m: RectMessage, ghost pic: Picture)
    returns (ok: bool, next: nat)
    requires RectOnScreen(fb, r) && Sendable(m, pic, d) && Describes(m, pic) && Manageable(m, d) && m.r == r
    requires match m
             case RawMessage(_) => encoding == ENCODING_RAW && At(s, i, RectBytes(pic, r.x1, r.y1, r.x2 - r.x1, r.y2 - r.y1, d))
             case SubsMessage(_, kind, bg, subs) => encoding == EncodingOf(kind) && At(s, i, Message(bg, subs, d, kind))
    modifies fb
    ensures ok && next + 12 == i + |MessageBytes(m, pic, d)| && ShowsPart(Shown(fb), old(Shown(fb)), r, pic)
  {
    hide IsCover;
    hide Trusted;
    hide Message;
    hide Parse;
    hide InDepth;
    hide RectBytes;
    hide ShowsPart;
    hide ShowsRead;
    hide ShowsSubs;
    hide Writable;
    if encoding == ENCODING_RAW {
      ok, next := HandleRaw(fb, s, i, r, d);
      RawReadsBack(s, i, pic, Shown(fb), old(Shown(fb)), r, d);
    } else {
      var kind := if encoding == ENCODING_RRE then RRE else CoRRE;
      MessageIsTrusted(s, i, m, pic, d);
      MessageReadsBack(s, i, m.bg, m.subs, d, m.kind);
      ok, next := HandleSubrects(fb, s, i, r, d, kind);
      CoverShows(Shown(fb), old(Shown(fb)), pic, r, m.bg, m.subs);
    }
  }

  /** One rectangle of `HandleRFBServerMessage`, at a client to whom `m` is on its way. */
  method HandleRect(fb: Frame, s: Bytestring, i: nat, d: Depth, ghost m: RectMessage, ghost pic: Picture) returns (ok: bool, next: nat)
    requires RectOnScreen(fb, m.r) && Sendable(m, pic, d) && Describes(m, pic) && Manageable(m, d)
    requires At(s, i, MessageBytes(m, pic, d))
    modifies fb
    ensures ok && next == i + |MessageBytes(m, pic, d)| && ShowsPart(Shown(fb), old(Shown(fb)), m.r, pic)
  {
    hide RectBytes;
    hide RectHeader;
    hide Message;
    hide Describes;
    hide ShowsPart;
    hide ReadBe16;
    hide ReadBe32;
    ghost var encoding := if m.RawMessage? then ENCODING_RAW else EncodingOf(m.kind);
    ghost var payload := if m.RawMessage? then RectBytes(pic, m.r.x1, m.r.y1, m.r.x2 - m.r.x1, m.r.y2 - m.r.y1, d)
                         else Message(m.bg, m.subs, d, m.kind);
    AtConcat(s, i, HeaderOf(m.r, encoding), payload);
    HeaderReadsBack(s, i, m.r.x1, m.r.y1, m.r.x2 - m.r.x1, m.r.y2 - m.r.y1, encoding);
    var x, y, w, h := ReadBe16(s, i), ReadBe16(s, i + 2), ReadBe16(s, i + 4), ReadBe16(s, i + 6);
    ok, next := HandlePayload(fb, s, i + 12, Rect(x, y, x + w, y + h), ReadBe32(s, i + 8), d, m, pic);
  }

  /** Any rectangle of any picture, encoded or not, arrives unchanged and alone. */
  method SendAndReceive(ub: UpdateBuffer, fb: Frame, client: Frame, x: nat, y: nat, w: nat, h: nat, d: Depth, kind: Kind, bufSize: nat)
    returns (ok: bool)
    requires ub.Valid() && fb != client && RectOnScreen(fb, Rect(x, y, x + w, y + h)) && RectOnScreen(client, Rect(x, y, x + w, y + h))
    requires InDepth(Shown(fb), Rect(x, y, x + w, y + h), d)
    requires OnWire(Rect(x, y, x + w, y + h)) && 0 < w && 0 < h && (kind == CoRRE ==> w < 0x100 && h < 0x100)
    modifies ub, ub.updateBuf, client
    ensures ok ==> ShowsPart(Shown(client), old(Shown(client)), Rect(x, y, x + w, y + h), Shown(fb))
    ensures !ok ==> w * d > UPDATE_BUF_SIZE
  {
    ghost var m;
    hide Sendable;
    hide Describes;
    hide Manageable;
    hide MessageBytes;
    hide ShowsPart;
    hide InDepth;
    var start := |ub.sent| + ub.ublen;
    ok, m := SendRect(ub, fb, x, y, w, h, d, kind, bufSize);
    if ok {
      ub.SendUpdateBuf();
      assert ub.sent == ub.Stream();
      var next;
      ok, next := HandleRect(client, ub.sent, start, d, m, Shown(fb));
    }
  }
}
