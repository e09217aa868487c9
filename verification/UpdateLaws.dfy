/**
 * What the steps of an update owe to the client, and what they spare it: pixels that were asked
 * for come, a scroll is sent as a scroll, and nothing is sent that did not change.
 */
module UpdateLaws {
  import opened Rectangles
  import opened Regions
  import opened CopyRects
  import opened UpdateProtocol

  /** Nothing is pending. */
  ghost predicate Idle(c: Pending) {
    c.modified == iset{} && c.copy == iset{}
  }

  /** The update that answers a request when all that is modified is given. */
  ghost function Answered(c: Pending): Update {
    Sent(c, c.modified, false)
  }

  // ---------------------------------------------------------------- requests

  /** Whatever a client shows and is owed, an area it asks for outright is right after one update. */
  lemma RequestRecovers(server: Picture, pic: Picture, c0: Pending, area: Area, extras: bool, painted: Area)
    requires var c := Request(c0, area, false);
             Sent(c, c.modified, extras).Update? ==> Sent(c, c.modified, extras).pixels <= painted
    ensures var c := Request(c0, area, false);
            forall p :: p in area ==> Received(pic, server, Sent(c, c.modified, extras), painted)(p) == server(p)
  {
    var c := Request(c0, area, false);
    forall p | p in area
      ensures Received(pic, server, Sent(c, c.modified, extras), painted)(p) == server(p)
    {
      assert p in Wanted(c, c.modified);
    }
  }

  /** A request is answered if and only if something pending has been asked for. */
  lemma AnsweredIff(c: Pending)
    ensures Answered(c) == Nothing <==> (c.modified + c.copy) * c.requested == iset{}
  {
    assert Wanted(c, c.modified) == (c.modified + c.copy) * c.requested;
  }

  /** A client that has everything is sent nothing for an incremental request. */
  lemma IdleIsSentNothing(c0: Pending, area: Area)
    requires Idle(c0)
    ensures Answered(Request(c0, area, true)) == Nothing
  {
    AnsweredIff(Request(c0, area, true));
  }

  /** An update uses the request up: whatever changes afterwards is sent when it is asked for, and not before. */
  lemma AnsweredOnce(c: Pending, given: Area, extras: bool, area: Area, dx: int, dy: int)
    requires Sent(c, given, extras).Update?
    ensures var after := AfterSending(c, given, extras);
            Answered(Mark(after, area)) == Nothing && Answered(Schedule(after, area, dx, dy)) == Nothing
  {
    hide Schedule;
    var after := AfterSending(c, given, extras);
    AnsweredIff(Mark(after, area));
    ScheduleKeepsRequest(after, area, dx, dy);
    AnsweredIff(Schedule(after, area, dx, dy));
  }

  lemma ScheduleKeepsRequest(c: Pending, area: Area, dx: int, dy: int)
    ensures Schedule(c, area, dx, dy).requested == c.requested
  {
  }

  /** A request that there is nothing to answer with waits: what of it is drawn later is sent. */
  lemma RequestWaits(c: Pending, area: Area)
    requires Answered(c) == Nothing && area * c.requested != iset{}
    ensures var u := Answered(Mark(AfterSending(c, c.modified, false), area)); u.Update? && u.pixels == area * c.requested
  {
    AnsweredIff(c);
    var m := Mark(AfterSending(c, c.modified, false), area);
    forall p
      ensures p in Wanted(m, m.modified) <==> p in area * c.requested
    {
      assert p !in (c.modified + c.copy) * c.requested;
    }
  }

  // ---------------------------------------------------------------- what is drawn

  /** What was drawn is sent as pixels, and nothing else. */
  lemma DrawingIsSentAlone(c0: Pending, area: Area, screen: Area)
    requires Idle(c0) && c0.requested == iset{} && area * screen != iset{}
    ensures var u := Answered(Request(Mark(c0, area), screen, true));
            u.Update? && u.pixels == area * screen && u.copied == iset{}
  {
  }

  // ---------------------------------------------------------------- what is scrolled

  /** Copies are pending and nothing else, and the client has what they read. */
  lemma CopiesAlone(c: Pending)
    requires c.modified == iset{} && c.copy != iset{} && c.copy <= c.requested && c.copy <= Shifted(c.requested, c.dx, c.dy)
    ensures Answered(c) == Update(iset{}, c.copy, c.dx, c.dy)
  {
    hide Shifted;
    assert LiveCopy(c) == c.copy;
    assert Wanted(c, c.modified) == c.copy;
    assert LiveCopy(c) * c.requested * Shifted(c.requested, c.dx, c.dy) == c.copy;
  }

  lemma SourcesThere(area: Area, screen: Area, dx: int, dy: int)
    requires forall p :: p in area ==> Moved(p, -dx, -dy) in screen
    ensures area <= Shifted(screen, dx, dy)
  {
  }

  lemma ShiftedMore(less: Area, more: Area, dx: int, dy: int)
    requires less <= more
    ensures Shifted(less, dx, dy) <= Shifted(more, dx, dy)
  {
  }

  /** A scroll within the screen is sent as copies alone, by the displacement of the scroll. */
  lemma ScrollIsCopied(c0: Pending, area: Area, dx: int, dy: int, screen: Area)
    requires Idle(c0) && c0.useCopyRect && area != iset{} && area <= screen
    requires forall p :: p in area ==> Moved(p, -dx, -dy) in screen
    ensures Answered(Request(Schedule(c0, area, dx, dy), screen, true)) == Update(iset{}, area, dx, dy)
  {
    hide Schedule;
    hide Shifted;
    hide Sent;
    ScheduledAlone(c0, area, dx, dy);
    SourcesThere(area, screen, dx, dy);
    var c := Request(Schedule(c0, area, dx, dy), screen, true);
    ShiftedMore(screen, c.requested, dx, dy);
    CopiesAlone(c);
  }

  /** What a second scroll reads of a first by the same displacement is sent as pixels: where it was read and where it went. */
  lemma ScrollOverScroll(c0: Pending, first: Area, second: Area, dx: int, dy: int)
    requires Idle(c0) && c0.useCopyRect
    ensures var c := Schedule(Schedule(c0, first, dx, dy), second, dx, dy);
            var read := Shifted(second, -dx, -dy) * first;
            c.modified == read + Shifted(read, dx, dy) * (first + second) &&
            c.copy == first + second && c.dx == dx && c.dy == dy
  {
    hide Shifted;
    ScheduledAlone(c0, first, dx, dy);
    var read := Shifted(second, -dx, -dy) * first;
    assert iset{} + read == read;
    if first == iset{} {
      ShiftedNothing(dx, dy);
      assert read == iset{};
    }
  }

  lemma ShiftedNothing(dx: int, dy: int)
    ensures Shifted(iset{}, dx, dy) == iset{}
  {
  }

  /** Apart from each other, both scrolls are sent as copies. */
  lemma ScrollsAreBothCopied(c0: Pending, first: Area, second: Area, dx: int, dy: int)
    requires Idle(c0) && c0.useCopyRect && Shifted(second, -dx, -dy) * first == iset{}
    ensures var c := Schedule(Schedule(c0, first, dx, dy), second, dx, dy);
            c.modified == iset{} && c.copy == first + second && c.dx == dx && c.dy == dy
  {
    hide Schedule;
    hide Shifted;
    ScrollOverScroll(c0, first, second, dx, dy);
    ShiftedNothing(dx, dy);
  }

  /** Scrolled by another displacement, all of the first scroll is sent as pixels, and what the second reads of it. */
  lemma OtherScroll(c0: Pending, first: Area, second: Area, dx: int, dy: int, dx': int, dy': int)
    requires Idle(c0) && c0.useCopyRect && first != iset{} && (dx != dx' || dy != dy')
    ensures var c := Schedule(Schedule(c0, first, dx, dy), second, dx', dy');
            c.copy == second && c.dx == dx' && c.dy == dy' &&
            forall p :: p in c.modified <==> p in first || (p in second && Moved(p, -dx', -dy') in first)
  {
    ScheduledAlone(c0, first, dx, dy);
  }

  /** Of what was drawn before a scroll, pixels are sent where it is and where it went. */
  lemma DrawnBeforeScroll(c0: Pending, drawn: Area, area: Area, dx: int, dy: int)
    requires Idle(c0) && c0.useCopyRect
    ensures var c := Schedule(Mark(c0, drawn), area, dx, dy);
            c.copy == area && c.dx == dx && c.dy == dy &&
            forall p :: p in c.modified <==> p in drawn || (p in area && Moved(p, -dx, -dy) in drawn)
  {
  }

  // ---------------------------------------------------------------- clients that cannot copy

  ghost predicate WithoutCopies(c: Pending) {
    !c.useCopyRect && c.copy == iset{}
  }

  /** No action of a run lets client `i` use CopyRect. */
  ghost predicate NeverEnabled(run: seq<Action>, i: nat) {
    forall a :: a in run && a.SetCopyRect? && a.i == i ==> !a.use
  }

  lemma StepWithoutCopies(w: World, a: Action, screen: Area, i: nat)
    requires Enabled(w, a, screen) && i < |w.clients| && WithoutCopies(w.clients[i].pending)
    requires a.SetCopyRect? && a.i == i ==> !a.use
    ensures i < |UpdateProtocol.Next(w, a, screen).clients| && WithoutCopies(UpdateProtocol.Next(w, a, screen).clients[i].pending)
  {
  }

  /** A client that never announces CopyRect has no copies pending in any run, so that none are sent. */
  lemma {:induction false} RunsWithoutCopies(start: World, run: seq<Action>, end: World, screen: Area, i: nat)
    requires IsRun(start, run, end, screen) && NeverEnabled(run, i)
    requires i < |start.clients| && WithoutCopies(start.clients[i].pending)
    ensures i < |end.clients| && WithoutCopies(end.clients[i].pending)
    ensures forall given, extras :: var u := Sent(end.clients[i].pending, given, extras); u.Update? ==> u.copied == iset{}
    decreases |run|
  {
    if run != [] {
      assert run[0] in run;
      StepWithoutCopies(start, run[0], screen, i);
      RunsWithoutCopies(UpdateProtocol.Next(start, run[0], screen), run[1..], end, screen, i);
    }
  }
}
