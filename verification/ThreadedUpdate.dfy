/**
 * Updates with threads: drawers write pixels and then mark them, while the output thread of a
 * client takes a snapshot, settles the regions under the lock, and only then reads the pixels
 * it sends, one by one. No pending copies here.
 */
module ThreadedUpdate {
  import opened Rectangles
  import opened UpdateProtocol
  import opened CopyRects

  /** A pixel on its way to the client. */
  datatype Parcel = Parcel(at: Pt, value: int)

  /**
   * `unmarked`: written, but not yet marked by its drawer. `given`: the output thread's
   * snapshot. `unread`: taken out of `modified` and not yet read from the framebuffer.
   * `wire`: read, and on its way in order.
   */
  datatype State = State(server: Picture, unmarked: Area, modified: Area, requested: Area,
                         given: Area, unread: Area, wire: seq<Parcel>, pic: Picture)

  datatype Action =
    | Write(at: Pt, value: int)           // a drawer changes a pixel
    | MarkWritten(area: Area)             // rfbMarkRegionAsModified, after the writes
    | Ask(area: Area, incremental: bool)  // the input thread: a FramebufferUpdateRequest
    | Snapshot                            // clientOutput copies modifiedRegion
    | TakeOver(part: Area, painted: Area, extras: bool) // the locked part of rfbSendFramebufferUpdate
    | ReadPixel(at: Pt)                   // the encoder reads the framebuffer
    | Arrive                              // the client paints the next parcel

  function Put(pic: Picture, at: Pt, value: int): Picture {
    p => if p == at then value else pic(p)
  }

  ghost predicate Enabled(s: State, a: Action) {
    match a
    case Snapshot => s.unread == iset{}
    case TakeOver(part, painted, _) => s.unread == iset{} && part <= s.given && part * s.requested <= painted
    case ReadPixel(at) => at in s.unread
    case Arrive => s.wire != []
    case _ => true
  }

  ghost function Next(s: State, a: Action): State
    requires Enabled(s, a)
  {
    match a
    case Write(at, value) => s.(server := Put(s.server, at, value), unmarked := s.unmarked + iset{at})
    case MarkWritten(area) => s.(modified := s.modified + area, unmarked := s.unmarked - area)
    case Ask(area, incremental) => s.(requested := s.requested + area, modified := if incremental then s.modified else s.modified + area)
    case Snapshot => s.(given := s.modified)
    case TakeOver(part, painted, extras) =>
      var taken := part * s.requested;
      if taken == iset{} && !extras then s
      else s.(modified := s.modified - taken, requested := iset{}, unread := painted)
    case ReadPixel(at) => s.(unread := s.unread - iset{at}, wire := s.wire + [Parcel(at, s.server(at))])
    case Arrive => s.(wire := s.wire[1..], pic := Put(s.pic, s.wire[0].at, s.wire[0].value))
  }

  /** What the client will show at `p` once the wire has drained. */
  function Due(pic: Picture, wire: seq<Parcel>, p: Pt): int {
    if wire == [] then pic(p)
    else if wire[|wire| - 1].at == p then wire[|wire| - 1].value
    else Due(pic, wire[..|wire| - 1], p)
  }

  lemma {:induction false} ArrivingChangesNothingDue(pic: Picture, wire: seq<Parcel>, p: Pt)
    requires wire != []
    ensures Due(Put(pic, wire[0].at, wire[0].value), wire[1..], p) == Due(pic, wire, p)
    decreases |wire|
  {
    if |wire| > 1 {
      var n := |wire| - 1;
      assert wire[1..][n - 1] == wire[n] && wire[1..][..n - 1] == wire[..n][1..];
      ArrivingChangesNothingDue(pic, wire[..n], p);
    }
  }

  /** Where client and server will differ, the pixel is unmarked, modified or still to be read. */
  ghost predicate NoLostUpdate(s: State) {
    forall p :: NotLost(s, p)
  }

  ghost predicate NotLost(s: State, p: Pt) {
    p in s.unmarked || p in s.modified || p in s.unread || Due(s.pic, s.wire, p) == s.server(p)
  }

  lemma NextLosesNothing(s: State, a: Action)
    requires NoLostUpdate(s) && Enabled(s, a)
    ensures NoLostUpdate(Next(s, a))
  {
    var s' := Next(s, a);
    forall p
      ensures NotLost(s', p)
    {
      assert NotLost(s, p);
      if a.Arrive? {
        ArrivingChangesNothingDue(s.pic, s.wire, p);
      } else if a.ReadPixel? {
        assert s'.wire[..|s.wire|] == s.wire;
      }
    }
  }

  ghost predicate IsRun(start: State, run: seq<Action>, end: State)
    decreases |run|
  {
    if run == [] then start == end
    else Enabled(start, run[0]) && IsRun(Next(start, run[0]), run[1..], end)
  }

  /** Whatever the threads do and in whatever order, no update is lost. */
  lemma {:induction false} RunsLoseNothing(start: State, run: seq<Action>, end: State)
    requires NoLostUpdate(start) && IsRun(start, run, end)
    ensures NoLostUpdate(end)
    decreases |run|
  {
    if run != [] {
      NextLosesNothing(start, run[0]);
      RunsLoseNothing(Next(start, run[0]), run[1..], end);
    }
  }

  /** Once nothing is unmarked, modified, unread or on the wire, the client shows the server's picture. */
  lemma QuietMeansEqual(start: State, run: seq<Action>, end: State, screen: Area)
    requires NoLostUpdate(start) && IsRun(start, run, end)
    requires end.unmarked == iset{} && end.modified * screen == iset{} && end.unread == iset{} && end.wire == []
    ensures forall p :: p in screen ==> end.pic(p) == end.server(p)
  {
    RunsLoseNothing(start, run, end);
    forall p | p in screen
      ensures end.pic(p) == end.server(p)
    {
      assert NotLost(end, p);
      assert p in end.modified ==> p in end.modified * screen;
    }
  }

  /** Whatever was lost, the pixels asked for outright are all read in the next update. */
  lemma AskedIsRead(s: State, area: Area, painted: Area, extras: bool)
    requires s.unread == iset{}
    ensures var asked := Next(Next(s, Action.Ask(area, false)), Snapshot);
            var take := TakeOver(asked.given, painted, extras);
            Enabled(asked, take) ==> area <= Next(asked, take).unread
  {
    var asked := Next(Next(s, Action.Ask(area, false)), Snapshot);
    assert area <= asked.given * asked.requested;
  }

  /** An update uses the request up: without another there is none. */
  lemma UnaskedIsNotSent(s: State, part: Area, painted: Area, extras: bool, part': Area, painted': Area)
    requires Enabled(s, TakeOver(part, painted, extras)) && (part * s.requested != iset{} || extras)
    ensures var after := Next(s, TakeOver(part, painted, extras));
            Enabled(after, TakeOver(part', painted', false)) ==> Next(after, TakeOver(part', painted', false)) == after
  {
  }

  // ---------------------------------------------------------------- what a drawer must do

  predicate Draws(a: Action) {
    a.Write? || a.MarkWritten?
  }

  /** What the drawers do in a run, in the order in which their actions take effect. */
  ghost function Script(run: seq<Action>): seq<Action> {
    if run == [] then [] else (if Draws(run[0]) then [run[0]] else []) + Script(run[1..])
  }

  ghost predicate AllDraw(script: seq<Action>) {
    forall a :: a in script ==> Draws(a)
  }

  lemma FirstDraws(script: seq<Action>)
    requires AllDraw(script) && script != []
    ensures Draws(script[0]) && AllDraw(script[1..]) && script == [script[0]] + script[1..]
  {
    assert script[0] in script;
  }

  /** The script goes on to mark the pixel. */
  ghost predicate WillMark(script: seq<Action>, p: Pt) {
    script != [] && ((script[0].MarkWritten? && p in script[0].area) || WillMark(script[1..], p))
  }

  /** Every write that changes the pixel, whose colour is `v`, comes before a mark of it. */
  ghost predicate MarksChanges(script: seq<Action>, p: Pt, v: int) {
    script == [] ||
    if script[0].Write? && script[0].at == p
    then (script[0].value != v ==> WillMark(script[1..], p)) && MarksChanges(script[1..], p, script[0].value)
    else MarksChanges(script[1..], p, v)
  }

  /** The pixel will get to the client, unless it already looks right. */
  ghost predicate Kept(s: State, p: Pt) {
    p in s.modified || p in s.unread || Due(s.pic, s.wire, p) == s.server(p)
  }

  /** Nothing of the pixel is on its way any more. */
  ghost predicate QuietAt(s: State, p: Pt) {
    p !in s.modified && p !in s.unread && s.wire == []
  }

  /** A step of the threads keeps the pixel, unless it is a write that changes it. */
  lemma NextKeeps(s: State, a: Action, p: Pt)
    requires Enabled(s, a) && (Kept(s, p) || (a.MarkWritten? && p in a.area))
    ensures Kept(Next(s, a), p) || (a.Write? && a.at == p && a.value != s.server(p))
  {
    if a.Arrive? {
      ArrivingChangesNothingDue(s.pic, s.wire, p);
    } else if a.ReadPixel? {
      assert Next(s, a).wire[..|s.wire|] == s.wire;
    }
  }

  /** With every change marked afterwards, the pixel is kept or still to be marked throughout. */
  lemma {:induction false} MarkedChangesAreKept(start: State, run: seq<Action>, end: State, p: Pt)
    requires IsRun(start, run, end) && MarksChanges(Script(run), p, start.server(p))
    requires Kept(start, p) || WillMark(Script(run), p)
    ensures Kept(end, p)
    decreases |run|
  {
    if run != [] {
      var a, next, later := run[0], Next(start, run[0]), Script(run[1..]);
      assert Script(run) == if Draws(a) then [a] + later else later;
      assert Draws(a) ==> Script(run)[0] == a && Script(run)[1..] == later;
      if Kept(start, p) || (a.MarkWritten? && p in a.area) {
        NextKeeps(start, a, p);
      }
      MarkedChangesAreKept(next, run[1..], end, p);
    }
  }

  lemma {:induction false} DrawingAlone(start: State, script: seq<Action>, p: Pt) returns (end: State)
    requires AllDraw(script) && !WillMark(script, p) && MarksChanges(script, p, start.server(p))
    ensures IsRun(start, script, end) && Script(script) == script
    ensures end.pic == start.pic && end.unread == start.unread && end.wire == start.wire && end.server(p) == start.server(p)
    ensures p !in start.modified ==> p !in end.modified
    decreases |script|
  {
    end := start;
    if script != [] {
      FirstDraws(script);
      end := DrawingAlone(Next(start, script[0]), script[1..], p);
    }
  }

  /** Between the drawer's actions the client can get the pixel as it is. */
  lemma Delivering(s: State, p: Pt) returns (run: seq<Action>, end: State)
    requires s.unread == iset{} && s.wire == []
    ensures IsRun(s, run, end) && forall a :: a in run ==> !Draws(a)
    ensures end.server == s.server && end.pic(p) == s.server(p) && p !in end.modified && end.unread == iset{} && end.wire == []
  {
    hide IsRun;
    var ask, take := Action.Ask(iset{p}, true), TakeOver(s.modified * iset{p}, iset{p}, true);
    var s1 := Next(s, ask);
    var s2 := Next(s1, Snapshot);
    var s3 := Next(s2, take);
    var s4 := Next(s3, ReadPixel(p));
    end := Next(s4, Arrive);
    assert s4.unread == iset{} && s4.wire == [Parcel(p, s.server(p))];
    var r4, r3 := [Arrive], [ReadPixel(p), Arrive];
    var r2 := [take] + r3;
    NoRun(end);
    RunFrom(s4, Arrive, [], end);
    assert [Arrive] + [] == r4;
    RunFrom(s3, ReadPixel(p), r4, end);
    assert [ReadPixel(p)] + r4 == r3;
    RunFrom(s2, take, r3, end);
    RunFrom(s1, Snapshot, r2, end);
    RunFrom(s, ask, [Snapshot] + r2, end);
    run := [ask] + ([Snapshot] + r2);
  }

  lemma NoRun(s: State)
    ensures IsRun(s, [], s)
  {
  }

  lemma RunFrom(s: State, a: Action, run: seq<Action>, end: State)
    requires Enabled(s, a) && IsRun(Next(s, a), run, end)
    ensures IsRun(s, [a] + run, end)
  {
    hide Next;
    hide Enabled;
    assert ([a] + run)[1..] == run;
  }

  lemma {:induction false} RunsJoin(start: State, a: seq<Action>, mid: State, b: seq<Action>, end: State)
    requires IsRun(start, a, mid) && IsRun(mid, b, end)
    ensures IsRun(start, a + b, end)
    decreases |a|
  {
    hide Next;
    hide Enabled;
    if a == [] {
      assert a + b == b;
    } else {
      RunsJoin(Next(start, a[0]), a[1..], mid, b, end);
      assert (a + b)[1..] == a[1..] + b;
    }
  }

  lemma ScriptUnfolds(run: seq<Action>)
    ensures Script([]) == [] && (run != [] ==> Script(run) == Script([run[0]]) + Script(run[1..]))
  {
    if run != [] {
      assert [run[0]][1..] == [];
    }
  }

  lemma {:induction false} ScriptsJoin(a: seq<Action>, b: seq<Action>)
    ensures Script(a + b) == Script(a) + Script(b)
  {
    hide Script;
    var c := a + b;
    ScriptUnfolds(a);
    ScriptUnfolds(c);
    if a == [] {
      assert c == b;
    } else {
      ScriptsJoin(a[1..], b);
      assert c[0] == a[0] && c[1..] == a[1..] + b;
    }
  }

  lemma {:induction false} NothingDrawn(run: seq<Action>)
    requires forall a :: a in run ==> !Draws(a)
    ensures Script(run) == []
  {
    if run != [] {
      NothingDrawn(run[1..]);
    }
  }

  /** After a change that no mark follows, there is a run at whose end the pixel is wrong and nothing is pending. */
  lemma {:induction false} UnmarkedChangeIsLost(start: State, script: seq<Action>, p: Pt) returns (run: seq<Action>, end: State)
    requires AllDraw(script) && !MarksChanges(script, p, start.server(p))
    requires start.unread == iset{} && start.wire == []
    ensures IsRun(start, run, end) && Script(run) == script && QuietAt(end, p) && end.pic(p) != end.server(p)
    decreases |script|
  {
    var a, rest := script[0], script[1..];
    FirstDraws(script);
    var next := Next(start, a);
    if MarksChanges(rest, p, next.server(p)) {
      var before, mid := Delivering(start, p);
      var after := Next(mid, a);
      end := DrawingAlone(after, rest, p);
      assert IsRun(mid, script, end);
      NothingDrawn(before);
      RunsJoin(start, before, mid, script, end);
      ScriptsJoin(before, script);
      run := before + script;
    } else {
      var later;
      later, end := UnmarkedChangeIsLost(next, rest, p);
      run := [a] + later;
      assert run[1..] == later;
    }
  }

  /** Some run of the threads in which the drawers do just this ends quietly and wrong. */
  ghost predicate CanLose(start: State, script: seq<Action>, p: Pt) {
    exists run, end :: IsRun(start, run, end) && Script(run) == script && QuietAt(end, p) && end.pic(p) != end.server(p)
  }

  /**
   * What drawers have to observe, exactly: whatever the other threads do in between, the pixel
   * ends up right if and only if every write that changes it comes before a mark of it.
   */
  lemma DrawersLoseNothingIff(start: State, script: seq<Action>, p: Pt)
    requires AllDraw(script)
    requires start.unread == iset{} && start.wire == [] && Kept(start, p)
    ensures !CanLose(start, script, p) <==> MarksChanges(script, p, start.server(p))
  {
    if MarksChanges(script, p, start.server(p)) {
      forall run, end | IsRun(start, run, end) && Script(run) == script && QuietAt(end, p)
        ensures end.pic(p) == end.server(p)
      {
        MarkedChangesAreKept(start, run, end, p);
      }
    } else {
      var run, end := UnmarkedChangeIsLost(start, script, p);
    }
  }

  /**
   * The order within a drawer matters: an area marked before it is drawn can be sent and
   * settled in between, after which nothing says that the pixel written is still to be sent.
   */
  lemma MarkingFirstLoses(p: Pt)
    ensures exists start: State, run: seq<Action>, end: State ::
              NoLostUpdate(start) && IsRun(start, run, end) && run == MarkedFirst(p) &&
              end.modified == iset{} && end.unread == iset{} && end.wire == [] && end.pic(p) != end.server(p)
  {
    hide IsRun;
    var zero: Picture := _ => 0;
    var take := TakeOver(iset{p}, iset{p}, false);
    var s0 := State(zero, iset{}, iset{}, iset{p}, iset{}, iset{}, [], zero);
    var s1 := Next(s0, MarkWritten(iset{p}));
    var s2 := Next(s1, Snapshot);
    var s3 := Next(s2, take);
    var s4 := Next(s3, ReadPixel(p));
    var s5 := Next(s4, Arrive);
    var s6 := Next(s5, Write(p, 1));
    assert s3.unread == iset{p} && s4.unread == iset{} && s6.modified == iset{};
    var r5, r3 := [Write(p, 1)], [ReadPixel(p), Arrive, Write(p, 1)];
    NoRun(s6);
    RunFrom(s5, Write(p, 1), [], s6);
    assert [Write(p, 1)] + [] == r5;
    RunFrom(s4, Arrive, r5, s6);
    RunFrom(s3, ReadPixel(p), [Arrive] + r5, s6);
    assert [ReadPixel(p)] + ([Arrive] + r5) == r3;
    RunFrom(s2, take, r3, s6);
    RunFrom(s1, Snapshot, [take] + r3, s6);
    RunFrom(s0, MarkWritten(iset{p}), [Snapshot] + ([take] + r3), s6);
    assert MarkedFirst(p) == [MarkWritten(iset{p})] + ([Snapshot] + ([take] + r3));
    assert NoLostUpdate(s0);
  }

  ghost function MarkedFirst(p: Pt): seq<Action> {
    [MarkWritten(iset{p}), Snapshot, TakeOver(iset{p}, iset{p}, false), ReadPixel(p), Arrive, Write(p, 1)]
  }
}
