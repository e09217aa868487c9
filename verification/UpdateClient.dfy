/** `rfbClientRec` as far as updates go: the regions it carries, and the routines that edit them. */
module UpdateClient {
  import opened SpanLists
  import opened Rectangles
  import opened Regions
  import opened CopyRects
  import opened Encoders
  import opened UpdateMessages
  import opened UpdateProtocol

  // ---------------------------------------------------------------- an update as a message

  lemma NothingReceived(was: Picture, server: Picture, painted: Area)
    ensures forall p :: Received(was, server, UpdateProtocol.Nothing, painted)(p) == was(p)
  {
  }

  lemma UpdateIsReceived(now: Picture, was: Picture, server: Picture, u: UpdateProtocol.Update, painted: Area, copied: Area)
    requires u.Update? && u.copied == copied && ShowsUpdate(now, was, server, painted, copied, u.dx, u.dy)
    ensures forall p :: now(p) == Received(was, server, u, painted)(p)
  {
  }

  /** What is sent lies in what is requested, and so do the sources of the copies. */
  lemma SentIsSendable(server: Frame, c: Pending, part: Area, extras: bool, updateRegion: Region, updateCopyRegion: Region, dx: int, dy: int)
    requires updateRegion.Valid() && updateCopyRegion.Valid() && c.requested <= ScreenOf(server)
    requires Sent(c, part, extras) == UpdateProtocol.Update(updateRegion.Area(), updateCopyRegion.Area(), dx, dy)
    ensures updateRegion.Area() <= ScreenOf(server) && Copyable(server, updateCopyRegion, dx, dy)
  {
    hide Region.Valid;
    SentIsRequested(c, part, extras);
  }

  /** The message of an update, from the server to the screen. */
  method Transmit(encoder: Encoder, server: Frame, frame: Frame, updateRegion: Region, updateCopyRegion: Region, dx: int, dy: int,
                  maxRects: int, bufferSize: nat, bg: int, fg: int, ghost c: Pending, ghost part: Area, ghost extras: bool)
    returns (delivered: bool, ghost painted: SpanList, ghost copied: SpanList, ghost outcome: Outcome)
    requires encoder.Valid() && Encodable(server, encoder.preferred, encoder.d) && server != frame
    requires server.Length0 == frame.Length0 && server.Length1 == frame.Length1 && c.requested <= ScreenOf(frame)
    requires updateRegion.Valid() && updateCopyRegion.Valid()
    requires Sent(c, part, extras) == UpdateProtocol.Update(updateRegion.Area(), updateCopyRegion.Area(), dx, dy)
    modifies encoder.Repr(), frame
    ensures encoder.Valid()
    ensures var u := Sent(c, part, extras);
            u.pixels <= AreaOf(painted) && u.copied == AreaOf(copied) &&
            Accounted(painted, copied, dx, dy, encoder.preferred, encoder.d, outcome, delivered)
    ensures delivered ==>
              forall p :: Shown(frame)(p) == Received(old(Shown(frame)), Shown(server), Sent(c, part, extras), AreaOf(painted))(p)
  {
    hide Region.Valid;
    hide Received;
    hide Sent;
    hide Accounted;
    hide Encodable;
    hide Copyable;
    hide Shown;
    hide ShowsUpdate;
    hide Encoder.Valid;
    ghost var was := Shown(frame);
    copied := updateCopyRegion.list;
    SentIsSendable(server, c, part, extras, updateRegion, updateCopyRegion, dx, dy);
    delivered, painted, outcome := Deliver(encoder, server, frame, updateRegion, updateCopyRegion, dx, dy, maxRects, bufferSize, bg, fg);
    if delivered {
      UpdateIsReceived(Shown(frame), was, Shown(server), Sent(c, part, extras), AreaOf(painted), AreaOf(copied));
    }
  }

  // ---------------------------------------------------------------- the client record

  class RfbClient {
    var modifiedRegion: Region
    var copyRegion: Region
    var requestedRegion: Region
    var copyDX: int
    var copyDY: int
    var useCopyRect: bool
    const encoder: Encoder
    const frame: Frame // what the viewer at the other end shows

    ghost predicate Valid()
      reads this, modifiedRegion, copyRegion, requestedRegion
    {
      modifiedRegion != copyRegion && copyRegion != requestedRegion && modifiedRegion != requestedRegion &&
      modifiedRegion.Valid() && copyRegion.Valid() && requestedRegion.Valid()
    }

    ghost function View(): Pending
      reads this, modifiedRegion, copyRegion, requestedRegion
    {
      Pending(modifiedRegion.Area(), copyRegion.Area(), copyDX, copyDY, requestedRegion.Area(), useCopyRect)
    }

    /** The regions of `rfbNewTCPOrUDPClient`. */
    constructor (frame: Frame, encoder: Encoder)
      requires frame.Length0 > 0 && frame.Length1 > 0
      ensures Valid() && View() == Fresh(ScreenOf(frame)) && this.frame == frame && this.encoder == encoder
    {
      this.frame, this.encoder := frame, encoder;
      copyRegion := new Region();
      copyDX, copyDY := 0, 0;
      modifiedRegion := new Region.FromRect(0, 0, frame.Length1, frame.Length0);
      requestedRegion := new Region();
      useCopyRect := false;
    }

    /** A region that is none of the client's own. */
    ghost predicate Foreign(r: Region)
      reads this, r
    {
      r.Valid() && r != modifiedRegion && r != copyRegion && r != requestedRegion
    }

    method MarkRegionAsModified(modRegion: Region)
      requires Valid() && Foreign(modRegion)
      modifies modifiedRegion
      ensures Valid() && View() == Mark(old(View()), modRegion.Area())
    {
      modifiedRegion.Or(modRegion);
    }

    /** The pending copies, before a new one is added. */
    method RetireCopies(area: Region, dx: int, dy: int)
      requires Valid() && Foreign(area)
      modifies modifiedRegion, copyRegion
      ensures Valid() && Foreign(area)
      ensures var was := old(View());
              var same := was.dx == dx && was.dy == dy;
              View() == was.(modified := if was.copy == iset{} then was.modified
                                         else was.modified + Overtaken(was, area.Area(), dx, dy),
                             copy := if was.copy == iset{} || same then was.copy else iset{})
    {
      hide Region.Area;
      hide Shifted;
      hide Covers;
      var none := copyRegion.IsEmpty();
      if !none {
        if copyDX != dx || copyDY != dy {
          modifiedRegion.Or(copyRegion);
          copyRegion.MakeEmpty();
        } else {
          var backup := new Region.Copy(area);
          backup.Offset(-dx, -dy);
          var _ := backup.And(copyRegion);
          modifiedRegion.Or(backup);
        }
      }
    }

    /** `rfbScheduleCopyRegion`, for one client with cursor shape updates. */
    method ScheduleCopyRegion(area: Region, dx: int, dy: int)
      requires Valid() && Foreign(area)
      modifies this`copyDX, this`copyDY, modifiedRegion, copyRegion
      ensures Valid() && View() == Schedule(old(View()), area.Area(), dx, dy)
    {
      hide Region.Area;
      hide Shifted;
      if useCopyRect {
        RetireCopies(area, dx, dy);
        copyRegion.Or(area);
        copyDX, copyDY := dx, dy;
        var backup := new Region.Copy(modifiedRegion);
        backup.Offset(dx, dy);
        var _ := backup.And(copyRegion);
        modifiedRegion.Or(backup);
      } else {
        modifiedRegion.Or(area);
      }
    }

    /** The FramebufferUpdateRequest case, for a rectangle already clipped to the screen. */
    method FramebufferUpdateRequest(x: int, y: int, w: int, h: int, incremental: bool)
      requires Valid() && 0 < w && 0 < h
      modifies modifiedRegion, copyRegion, requestedRegion
      ensures Valid() && View() == Request(old(View()), RectArea(Rect(x, y, x + w, y + h)), incremental)
    {
      hide Region.Area;
      hide WF;
      var tmpRegion := new Region.FromRect(x, y, x + w, y + h);
      requestedRegion.Or(tmpRegion);
      if !incremental {
        modifiedRegion.Or(tmpRegion);
        var _ := copyRegion.Subtract(tmpRegion);
      }
    }

    /** The pixels to consider: what was given, and the copies that are still of use. */
    method ChooseUpdate(given: Region, slice: Region?) returns (updateRegion: Region, some: bool)
      requires Valid() && given.Valid() && given != copyRegion && given != requestedRegion
      requires slice != null ==> Foreign(slice)
      modifies copyRegion
      ensures Valid() && View() == old(View()).(copy := LiveCopy(old(View())))
      ensures fresh(updateRegion) && updateRegion.Valid()
      ensures var part := if slice == null then old(given.Area()) else old(given.Area()) * old(slice.Area());
              updateRegion.Area() == Wanted(old(View()), part)
      ensures some <==> updateRegion.Area() != iset{}
    {
      hide Region.Valid;
      hide Region.Area;
      updateRegion := new Region.Copy(given);
      var _ := copyRegion.Subtract(modifiedRegion);
      if slice != null {
        var _ := updateRegion.And(slice);
      }
      updateRegion.Or(copyRegion);
      some := updateRegion.And(requestedRegion);
    }

    /** The copies whose source and target the client has asked for. */
    method ChooseCopies() returns (updateCopyRegion: Region)
      requires Valid()
      ensures fresh(updateCopyRegion) && updateCopyRegion.Valid()
      ensures var c := View(); updateCopyRegion.Area() == c.copy * c.requested * Shifted(c.requested, c.dx, c.dy)
    {
      hide Region.Valid;
      hide Region.Area;
      updateCopyRegion := new Region.Copy(copyRegion);
      var _ := updateCopyRegion.And(requestedRegion);
      var tmpRegion := new Region.Copy(requestedRegion);
      tmpRegion.Offset(copyDX, copyDY);
      var _ := updateCopyRegion.And(tmpRegion);
    }

    /** What is not sent now stays modified; copies are never carried over. */
    method Settle(updateRegion: Region, updateCopyRegion: Region)
      requires Valid() && Foreign(updateRegion) && Foreign(updateCopyRegion)
      modifies this`copyDX, this`copyDY, modifiedRegion, copyRegion, requestedRegion
      ensures Valid() && Foreign(updateRegion) && Foreign(updateCopyRegion)
      ensures var c := old(View());
              View() == c.(modified := c.modified + c.copy - updateRegion.Area() - updateCopyRegion.Area(),
                           copy := iset{}, dx := 0, dy := 0, requested := iset{})
    {
      hide Region.Valid;
      hide Region.Area;
      modifiedRegion.Or(copyRegion);
      var _ := modifiedRegion.Subtract(updateRegion);
      var _ := modifiedRegion.Subtract(updateCopyRegion);
      requestedRegion.MakeEmpty();
      copyRegion.MakeEmpty();
      copyDX, copyDY := 0, 0;
    }

    /** The part of `rfbSendFramebufferUpdate` under the update mutex. */
    method PrepareUpdate(given: Region, slice: Region?, extras: bool)
      returns (send: bool, updateRegion: Region, updateCopyRegion: Region, dx: int, dy: int)
      requires Valid() && given.Valid() && given != copyRegion && given != requestedRegion
      requires slice != null ==> Foreign(slice)
      modifies this`copyDX, this`copyDY, modifiedRegion, copyRegion, requestedRegion
      ensures Valid() && fresh(updateRegion) && fresh(updateCopyRegion)
      ensures var part := if slice == null then old(given.Area()) else old(given.Area()) * old(slice.Area());
              var u := Sent(old(View()), part, extras);
              View() == AfterSending(old(View()), part, extras) && send == u.Update? &&
              (send ==> updateRegion.Valid() && updateCopyRegion.Valid() &&
                        u == UpdateProtocol.Update(updateRegion.Area(), updateCopyRegion.Area(), dx, dy))
    {
      hide Region.Valid;
      hide Region.Area;
      dx, dy := copyDX, copyDY;
      var some;
      updateRegion, some := ChooseUpdate(given, slice);
      send := some || extras;
      if !send {
        updateCopyRegion := new Region();
        return;
      }
      updateCopyRegion := ChooseCopies();
      var _ := updateRegion.Subtract(updateCopyRegion);
      Settle(updateRegion, updateCopyRegion);
    }

    /**
     * `rfbSendFramebufferUpdate` and the viewer that receives the message: what becomes pending, and
     * what the viewer shows if the message gets to it. The pixels come from the server's framebuffer
     * as it is now.
     */
    method SendFramebufferUpdate(server: Frame, given: Region, slice: Region?, extras: bool, maxRects: int, bufferSize: nat, bg: int, fg: int)
      returns (delivered: bool, ghost painted: SpanList, ghost copied: SpanList, ghost outcome: Outcome)
      requires Valid() && given.Valid() && given != copyRegion && given != requestedRegion
      requires slice != null ==> Foreign(slice)
      requires server != frame && server.Length0 == frame.Length0 && server.Length1 == frame.Length1
      requires encoder.Valid() && Encodable(server, encoder.preferred, encoder.d) && requestedRegion.Area() <= ScreenOf(frame)
      modifies this`copyDX, this`copyDY, modifiedRegion, copyRegion, requestedRegion, frame, encoder.Repr()
      ensures Valid() && encoder.Valid()
      ensures var part := if slice == null then old(given.Area()) else old(given.Area()) * old(slice.Area());
              var u := Sent(old(View()), part, extras);
              View() == AfterSending(old(View()), part, extras) &&
              (u.Update? ==> u.pixels <= AreaOf(painted) && u.copied == AreaOf(copied) &&
                             Accounted(painted, copied, u.dx, u.dy, encoder.preferred, encoder.d, outcome, delivered)) &&
              (delivered || u.Nothing? ==> forall p :: Shown(frame)(p) == Received(old(Shown(frame)), Shown(server), u, AreaOf(painted))(p))
    {
      hide Region.Valid;
      hide Region.Area;
      hide Received;
      hide Sent;
      hide AfterSending;
      hide Accounted;
      hide Encodable;
      hide Shown;
      hide ScreenOf;
      hide Encoder.Valid;
      hide Encoder.Repr;
      painted, copied, outcome, delivered := List([]), List([]), Complete, false;
      ghost var c, part, was := View(), if slice == null then given.Area() else given.Area() * slice.Area(), Shown(frame);
      NothingReceived(was, Shown(server), AreaOf(painted));
      NotInRepr(encoder, modifiedRegion, copyRegion, requestedRegion, this, frame, server);
      var send, updateRegion, updateCopyRegion, dx, dy := PrepareUpdate(given, slice, extras);
      if send {
        delivered, painted, copied, outcome := Transmit(encoder, server, frame, updateRegion, updateCopyRegion, dx, dy, maxRects,
                                                        bufferSize, bg, fg, c, part, extras);
      }
    }
  }

  lemma NotInRepr(encoder: Encoder, a: Region, b: Region, c: Region, cl: RfbClient, frame: Frame, server: Frame)
    ensures a !in encoder.Repr() && b !in encoder.Repr() && c !in encoder.Repr()
    ensures cl !in encoder.Repr() && frame !in encoder.Repr() && server !in encoder.Repr()
  {
  }
}
