/**
 * The update protocol on sets of pixels: what each step does to a client's pending regions and
 * to the two pictures, and what every run of such steps keeps.
 */
module UpdateProtocol {
  import opened SpanLists
  import opened Rectangles
  import opened Regions
  import opened CopyRects

  type Area = iset<Pt>

  /** The fields of `rfbClientRec` that say what a client is still owed. */
  datatype Pending = Pending(modified: Area, copy: Area, dx: int, dy: int, requested: Area, useCopyRect: bool)

  // ---------------------------------------------------------------- bookkeeping of the steps

  /** `rfbMarkRegionAsModified` */
  ghost function Mark(c: Pending, area: Area): Pending {
    c.(modified := c.modified + area)
  }

  /** What an earlier copy makes unfit as the source of a new one. */
  ghost function Overtaken(c: Pending, area: Area, dx: int, dy: int): Area {
    if c.dx != dx || c.dy != dy then c.copy else Shifted(area, -dx, -dy) * c.copy
  }

  /** `rfbScheduleCopyRegion` */
  ghost function Schedule(c: Pending, area: Area, dx: int, dy: int): Pending {
    if !c.useCopyRect then Mark(c, area)
    else
      var same := c.dx == dx && c.dy == dy;
      var modified := if c.copy == iset{} then c.modified else c.modified + Overtaken(c, area, dx, dy);
      var copy := (if c.copy == iset{} || same then c.copy else iset{}) + area;
      c.(modified := modified + Shifted(modified, dx, dy) * copy, copy := copy, dx := dx, dy := dy)
  }

  /** A FramebufferUpdateRequest message. */
  ghost function Request(c: Pending, area: Area, incremental: bool): Pending {
    var c' := c.(requested := c.requested + area);
    if incremental then c' else c'.(modified := c'.modified + area, copy := c'.copy - area)
  }

  /** What an update consists of: pixels to send, and pixels to copy by `(dx, dy)`. */
  datatype Update = Nothing | Update(pixels: Area, copied: Area, dx: int, dy: int)

  /** The part of the pending copies that an update will not overwrite anyway. */
  ghost function LiveCopy(c: Pending): Area {
    c.copy - c.modified
  }

  ghost function Wanted(c: Pending, given: Area): Area {
    (given + LiveCopy(c)) * c.requested
  }

  /** `rfbSendFramebufferUpdate`: what it sends. `extras` says that there is more than pixels to send. */
  ghost function Sent(c: Pending, given: Area, extras: bool): Update {
    if Wanted(c, given) == iset{} && !extras then Nothing
    else
      var copied := LiveCopy(c) * c.requested * Shifted(c.requested, c.dx, c.dy);
      Update(Wanted(c, given) - copied, copied, c.dx, c.dy)
  }

  /** `rfbSendFramebufferUpdate`: what it leaves pending. */
  ghost function AfterSending(c: Pending, given: Area, extras: bool): Pending {
    match Sent(c, given, extras)
    case Nothing => c.(copy := LiveCopy(c))
    case Update(pixels, copied, _, _) =>
      c.(modified := c.modified + LiveCopy(c) - pixels - copied,
         copy := iset{}, dx := 0, dy := 0, requested := iset{})
  }

  // ---------------------------------------------------------------- pictures

  /** The client's picture after an update: copies first, then pixels, perhaps of a larger area. */
  ghost function Received(pic: Picture, server: Picture, u: Update, painted: Area): Picture {
    match u
    case Nothing => pic
    case Update(_, copied, dx, dy) =>
      p => if p in painted then server(p) else if p in copied then pic(Moved(p, -dx, -dy)) else pic(p)
  }

  ghost predicate OnlyChanges(now: Picture, was: Picture, area: Area) {
    forall p :: p !in area ==> now(p) == was(p)
  }

  /**
   * Every pixel the client has wrong is scheduled, and every pending copy would still produce
   * the right pixel.
   */
  ghost predicate Safe(server: Picture, pic: Picture, c: Pending, screen: Area) {
    forall p :: SafeAt(server, pic, c, screen, p)
  }

  ghost predicate SafeAt(server: Picture, pic: Picture, c: Pending, screen: Area, p: Pt) {
    p in screen && p !in c.modified ==>
      if p in c.copy then Moved(p, -c.dx, -c.dy) in screen && pic(Moved(p, -c.dx, -c.dy)) == server(p)
      else pic(p) == server(p)
  }

  lemma DrawKeepsSafe(server: Picture, server': Picture, pic: Picture, c: Pending, area: Area, screen: Area)
    requires Safe(server, pic, c, screen) && OnlyChanges(server', server, area)
    ensures Safe(server', pic, Mark(c, area), screen)
  {
    forall p
      ensures SafeAt(server', pic, Mark(c, area), screen, p)
    {
      assert SafeAt(server, pic, c, screen, p);
    }
  }

  lemma ScheduleKeepsSafe(server: Picture, server': Picture, pic: Picture, c: Pending,
                          area: Area, dx: int, dy: int, screen: Area)
    requires Safe(server, pic, c, screen) && ShowsCopy(server', server, area, dx, dy)
    requires forall p :: p in area ==> Moved(p, -dx, -dy) in screen
    ensures Safe(server', pic, Schedule(c, area, dx, dy), screen)
  {
    forall p
      ensures SafeAt(server', pic, Schedule(c, area, dx, dy), screen, p)
    {
      assert SafeAt(server, pic, c, screen, p);
      assert SafeAt(server, pic, c, screen, Moved(p, -dx, -dy));
    }
  }

  lemma RequestKeepsSafe(server: Picture, pic: Picture, c: Pending, area: Area, incremental: bool, screen: Area)
    requires Safe(server, pic, c, screen)
    ensures Safe(server, pic, Request(c, area, incremental), screen)
  {
    forall p
      ensures SafeAt(server, pic, Request(c, area, incremental), screen, p)
    {
      assert SafeAt(server, pic, c, screen, p);
    }
  }

  lemma SendKeepsSafe(server: Picture, pic: Picture, c: Pending, given: Area, extras: bool, painted: Area, screen: Area)
    requires Safe(server, pic, c, screen)
    requires Sent(c, given, extras).Update? ==> Sent(c, given, extras).pixels <= painted
    ensures Safe(server, Received(pic, server, Sent(c, given, extras), painted), AfterSending(c, given, extras), screen)
  {
    forall p
      ensures SafeAt(server, Received(pic, server, Sent(c, given, extras), painted), AfterSending(c, given, extras), screen, p)
    {
      assert SafeAt(server, pic, c, screen, p);
    }
  }

  // ---------------------------------------------------------------- the server's own copy

  /** The server's picture after copying the rectangles in their order. */
  ghost function CopiedOnServer(server: Picture, rs: seq<Rect>, dx: int, dy: int): Picture {
    p => server(Origin(rs, dx, dy, p))
  }

  /** `rfbDoCopyRegion` leaves a client safe that showed the server's picture and had nothing pending. */
  ghost predicate CopyKeepsSafe(server: Picture, l: SpanList, dx: int, dy: int, c: Pending, screen: Area)
    requires TwoLevels(l)
  {
    Safe(CopiedOnServer(server, Rects(l, dx < 0, dy < 0), dx, dy), server, Schedule(c, AreaOf(l), dx, dy), screen)
  }

  lemma SafeOrderKeepsSafe(server: Picture, l: SpanList, dx: int, dy: int, c: Pending, screen: Area)
    requires WF(l, 2) && TwoLevels(l) && SafeOrder(Rects(l, dx < 0, dy < 0), dx, dy) && c.modified == iset{} && c.copy == iset{}
    requires forall p :: p in AreaOf(l) ==> Moved(p, -dx, -dy) in screen
    ensures CopyKeepsSafe(server, l, dx, dy, c, screen)
  {
    hide WF;
    hide Rects;
    hide Origin;
    hide Covers;
    hide SafeOrder;
    hide Schedule;
    ServerOrderMovesIffSafe(l, dx, dy);
    var server' := CopiedOnServer(server, Rects(l, dx < 0, dy < 0), dx, dy);
    assert Safe(server, server, c, screen);
    ScheduleKeepsSafe(server, server', server, c, AreaOf(l), dx, dy, screen);
  }

  lemma MisplacedPixel(l: SpanList, dx: int, dy: int) returns (p: Pt)
    requires WF(l, 2) && TwoLevels(l) && !SafeOrder(Rects(l, dx < 0, dy < 0), dx, dy)
    ensures p in AreaOf(l) && Origin(Rects(l, dx < 0, dy < 0), dx, dy, p) != Moved(p, -dx, -dy)
  {
    hide WF;
    hide Rects;
    hide Origin;
    hide AreaOf;
    hide SafeOrder;
    hide InSomeRect;
    ServerOrderMovesIffSafe(l, dx, dy);
    p :| Origin(Rects(l, dx < 0, dy < 0), dx, dy, p) != if p in AreaOf(l) then Moved(p, -dx, -dy) else p;
    RectsCover(l, dx < 0, dy < 0, p);
    if p !in AreaOf(l) {
      UntouchedOrigin(Rects(l, dx < 0, dy < 0), dx, dy, p);
    }
  }

  lemma ScheduledAlone(c: Pending, area: Area, dx: int, dy: int)
    requires c.useCopyRect && c.modified == iset{} && c.copy == iset{}
    ensures var c' := Schedule(c, area, dx, dy); c'.modified == iset{} && c'.copy == area && c'.dx == dx && c'.dy == dy
  {
  }

  /** A picture on which the pixel that came from somewhere else gives the order away. */
  lemma UnsafeOrderLoses(l: SpanList, dx: int, dy: int, c: Pending, screen: Area) returns (server: Picture)
    requires WF(l, 2) && TwoLevels(l) && !SafeOrder(Rects(l, dx < 0, dy < 0), dx, dy)
    requires c.useCopyRect && c.modified == iset{} && c.copy == iset{} && AreaOf(l) <= screen
    ensures !CopyKeepsSafe(server, l, dx, dy, c, screen)
  {
    hide WF;
    hide Rects;
    hide Origin;
    hide AreaOf;
    hide SafeOrder;
    hide Schedule;
    var p := MisplacedPixel(l, dx, dy);
    var from := Origin(Rects(l, dx < 0, dy < 0), dx, dy, p);
    server := q => if q == from then 1 else 0;
    ScheduledAlone(c, AreaOf(l), dx, dy);
    assert p in screen;
    var server' := CopiedOnServer(server, Rects(l, dx < 0, dy < 0), dx, dy);
    assert server'(p) == 1 && server(Moved(p, -dx, -dy)) == 0;
    assert !SafeAt(server', server, Schedule(c, AreaOf(l), dx, dy), screen, p);
  }

  /**
   * What the order of the server's own copy means for its clients: one that is up to date, with
   * nothing pending, stays safe on every picture if and only if no rectangle written before is the
   * source of one still to come.
   */
  lemma CopyKeepsSafeIff(l: SpanList, dx: int, dy: int, c: Pending, screen: Area)
    requires WF(l, 2) && TwoLevels(l) && c.useCopyRect && c.modified == iset{} && c.copy == iset{}
    requires AreaOf(l) <= screen && forall p :: p in AreaOf(l) ==> Moved(p, -dx, -dy) in screen
    ensures (forall server :: CopyKeepsSafe(server, l, dx, dy, c, screen)) <==> SafeOrder(Rects(l, dx < 0, dy < 0), dx, dy)
  {
    hide CopyKeepsSafe;
    hide WF;
    hide Rects;
    hide AreaOf;
    hide SafeOrder;
    if SafeOrder(Rects(l, dx < 0, dy < 0), dx, dy) {
      forall server
        ensures CopyKeepsSafe(server, l, dx, dy, c, screen)
      {
        SafeOrderKeepsSafe(server, l, dx, dy, c, screen);
      }
    } else {
      var server := UnsafeOrderLoses(l, dx, dy, c, screen);
    }
  }

  // ---------------------------------------------------------------- runs

  datatype Client = Client(pending: Pending, pic: Picture)

  /** A server and its clients. */
  datatype World = World(server: Picture, clients: seq<Client>)

  datatype Action =
    | Draw(area: Area, picture: Picture)              // the application draws, then marks
    | CopyArea(area: Area, dx: int, dy: int, picture: Picture)
    | SetCopyRect(i: nat, use: bool)                  // a SetEncodings message
    | Ask(i: nat, area: Area, incremental: bool)
    | Answer(i: nat, given: Area, extras: bool, painted: Area)
    | Connect(pic: Picture)

  /** What the callers of the library and the code that picks the update region guarantee. */
  ghost predicate Enabled(w: World, a: Action, screen: Area) {
    match a
    case Draw(area, picture) => OnlyChanges(picture, w.server, area)
    case CopyArea(area, dx, dy, picture) =>
      ShowsCopy(picture, w.server, area, dx, dy) && forall p :: p in area ==> Moved(p, -dx, -dy) in screen
    case SetCopyRect(i, _) => i < |w.clients|
    case Ask(i, _, _) => i < |w.clients|
    case Answer(i, given, extras, painted) =>
      i < |w.clients| &&
      var c := w.clients[i].pending;
      given <= c.modified && (Sent(c, given, extras).Update? ==> Sent(c, given, extras).pixels <= painted)
    case Connect(_) => true
  }

  ghost function AtEach(cs: seq<Client>, f: Pending -> Pending): seq<Client> {
    seq(|cs|, i requires 0 <= i < |cs| => cs[i].(pending := f(cs[i].pending)))
  }

  ghost function Next(w: World, a: Action, screen: Area): World
    requires Enabled(w, a, screen)
  {
    match a
    case Draw(area, picture) => World(picture, AtEach(w.clients, c => Mark(c, area)))
    case CopyArea(area, dx, dy, picture) => World(picture, AtEach(w.clients, c => Schedule(c, area, dx, dy)))
    case SetCopyRect(i, use) => w.(clients := w.clients[i := w.clients[i].(pending := w.clients[i].pending.(useCopyRect := use))])
    case Ask(i, area, incremental) =>
      w.(clients := w.clients[i := w.clients[i].(pending := Request(w.clients[i].pending, area, incremental))])
    case Answer(i, given, extras, painted) =>
      var c := w.clients[i];
      w.(clients := w.clients[i := Client(AfterSending(c.pending, given, extras),
                                          Received(c.pic, w.server, Sent(c.pending, given, extras), painted))])
    case Connect(pic) => w.(clients := w.clients + [Client(Fresh(screen), pic)])
  }

  /** `rfbNewTCPOrUDPClient`: everything is to be sent. */
  ghost function Fresh(screen: Area): Pending {
    Pending(screen, iset{}, 0, 0, iset{}, false)
  }

  ghost predicate IsRun(start: World, run: seq<Action>, end: World, screen: Area)
    decreases |run|
  {
    if run == [] then start == end
    else Enabled(start, run[0], screen) && IsRun(Next(start, run[0], screen), run[1..], end, screen)
  }

  ghost predicate AllSafe(w: World, screen: Area) {
    forall i :: 0 <= i < |w.clients| ==> Safe(w.server, w.clients[i].pic, w.clients[i].pending, screen)
  }

  lemma NextKeepsSafe(w: World, a: Action, screen: Area)
    requires AllSafe(w, screen) && Enabled(w, a, screen)
    ensures AllSafe(Next(w, a, screen), screen)
  {
    var w' := Next(w, a, screen);
    forall i | 0 <= i < |w'.clients|
      ensures Safe(w'.server, w'.clients[i].pic, w'.clients[i].pending, screen)
    {
      if i < |w.clients| {
        var c := w.clients[i];
        match a
        case Draw(area, picture) =>
          DrawKeepsSafe(w.server, picture, c.pic, c.pending, area, screen);
        case CopyArea(area, dx, dy, picture) =>
          ScheduleKeepsSafe(w.server, picture, c.pic, c.pending, area, dx, dy, screen);
        case Ask(_, area, incremental) =>
          RequestKeepsSafe(w.server, c.pic, c.pending, area, incremental, screen);
        case Answer(k, given, extras, painted) =>
          if k == i {
            SendKeepsSafe(w.server, c.pic, c.pending, given, extras, painted, screen);
          }
        case SetCopyRect(k, use) =>
          forall p
            ensures SafeAt(w'.server, w'.clients[i].pic, w'.clients[i].pending, screen, p)
          {
            assert SafeAt(w.server, c.pic, c.pending, screen, p);
          }
        case Connect(_) =>
      }
    }
  }

  /** Safety over every run, for every client, from any safe state; a server starts without clients. */
  lemma {:induction false} RunsAreSafe(start: World, run: seq<Action>, end: World, screen: Area)
    requires AllSafe(start, screen) && IsRun(start, run, end, screen)
    ensures AllSafe(end, screen)
    decreases |run|
  {
    if run != [] {
      NextKeepsSafe(start, run[0], screen);
      RunsAreSafe(Next(start, run[0], screen), run[1..], end, screen);
    }
  }

  // ---------------------------------------------------------------- what an update may touch

  /** Copies read and write only what the client asked for, and so do the pixels sent. */
  lemma SentIsRequested(c: Pending, given: Area, extras: bool)
    requires Sent(c, given, extras).Update?
    ensures var u := Sent(c, given, extras);
            u.pixels <= c.requested && u.copied <= c.requested && u.pixels !! u.copied &&
            forall p :: p in u.copied ==> Moved(p, -u.dx, -u.dy) in c.requested
  {
  }

  /** Nothing is lost: what was pending and requested is sent, the rest stays modified. */
  lemma PendingIsKept(c: Pending, extras: bool)
    requires Sent(c, c.modified, extras).Update?
    ensures var u, c' := Sent(c, c.modified, extras), AfterSending(c, c.modified, extras);
            u.pixels + u.copied == (c.modified + c.copy) * c.requested &&
            c'.modified == (c.modified + c.copy) - c.requested
  {
  }

  /**
   * Convergence: in any safe state, a request for the whole screen and one answer make the
   * client's picture right, and leave nothing of the screen pending.
   */
  lemma Converges(server: Picture, pic: Picture, c0: Pending, incremental: bool, extras: bool, painted: Area, screen: Area)
    requires Safe(server, pic, c0, screen)
    requires var c := Request(c0, screen, incremental);
             Sent(c, c.modified, extras).Update? ==> Sent(c, c.modified, extras).pixels <= painted
    ensures var c := Request(c0, screen, incremental);
            var c' := AfterSending(c, c.modified, extras);
            c'.modified * screen == iset{} && c'.copy * screen == iset{} &&
            forall p :: p in screen ==> Received(pic, server, Sent(c, c.modified, extras), painted)(p) == server(p)
  {
    var c := Request(c0, screen, incremental);
    RequestKeepsSafe(server, pic, c0, screen, incremental, screen);
    SendKeepsSafe(server, pic, c, c.modified, extras, painted, screen);
    var c' := AfterSending(c, c.modified, extras);
    forall p | p in screen
      ensures p !in c'.modified && p !in c'.copy
      ensures Received(pic, server, Sent(c, c.modified, extras), painted)(p) == server(p)
    {
      assert p in Wanted(c, c.modified) <==> p in c.modified || p in LiveCopy(c);
      assert SafeAt(server, Received(pic, server, Sent(c, c.modified, extras), painted), c', screen, p);
    }
  }
}
