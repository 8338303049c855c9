/** What Mumble asks of the overlay, as commands, and the screen they describe: the receive loop carries
    out the commands it is sent, in whatever pieces their bytes come in. */
module Commands {
  import opened Bytes
  import opened Framing
  import opened Options
  import opened OverlayPipe
  import opened PipeSafety
  import Liveness
  import Rects

  datatype Area = Area(x: uint32, y: uint32, w: uint32, h: uint32)

  /** Overlay messages that Mumble sends; other ones are ignored. */
  datatype Command = Map(name: seq<byte>) | Damage(area: Area) | Show(area: Area) | Other(kind: uint32, body: seq<byte>)

  /** Damage lies where signed coordinates reach. */
  predicate Proper(c: Command) {
    match c
    case Map(name) => |name| <= BODY_SIZE
    case Damage(a) => a.x + a.w < TWO31 && a.y + a.h < TWO31
    case Show(_) => true
    case Other(kind, body) => kind != SHMEM && kind != BLIT && kind != ACTIVE && |body| <= BODY_SIZE
  }

  predicate AllProper(cs: seq<Command>) { forall c :: c in cs ==> Proper(c) }

  /** The fields of a rectangle, in the order of the protocol. */
  function AreaBody(a: Area): (s: seq<byte>)
    ensures |s| == 16
  {
    LE32(a.x) + LE32(a.y) + LE32(a.w) + LE32(a.h)
  }

  function MsgOf(c: Command): Msg {
    match c
    case Map(name) => Msg(1, name)
    case Damage(a) => Msg(2, AreaBody(a))
    case Show(a) => Msg(3, AreaBody(a))
    case Other(kind, body) => Msg(kind, body)
  }

  function MsgsOf(cs: seq<Command>): (ms: seq<Msg>)
    ensures |ms| == |cs| && forall i :: 0 <= i < |cs| ==> ms[i] == MsgOf(cs[i])
  {
    seq(|cs|, i requires 0 <= i < |cs| => MsgOf(cs[i]))
  }

  lemma ProperIsLegal(cs: seq<Command>)
    requires AllProper(cs)
    ensures AllLegal(MsgsOf(cs))
  {
    forall m | m in MsgsOf(cs) ensures Legal(m) {
      var i :| 0 <= i < |cs| && MsgsOf(cs)[i] == m;
      assert Proper(cs[i]);
    }
  }

  lemma AreaFields(buffer: seq<byte>, a: Area)
    requires AreaBody(a) <= buffer
    ensures Field(buffer, 0) == a.x && Field(buffer, 4) == a.y && Field(buffer, 8) == a.w && Field(buffer, 12) == a.h
  {
    hide U32, LE32;
    var s := AreaBody(a);
    assert buffer[0..4] == s[0..4] == LE32(a.x) && buffer[4..8] == s[4..8] == LE32(a.y);
    assert buffer[8..12] == s[8..12] == LE32(a.w) && buffer[12..16] == s[12..16] == LE32(a.h);
    LE32U32(a.x);
    LE32U32(a.y);
    LE32U32(a.w);
    LE32U32(a.h);
  }

  /** The rectangle of a BLIT body is the one that was written into it, exactly where signed
      coordinates reach. */
  lemma RequestIsWhatWasSentIff(buffer: seq<byte>, a: Area)
    requires AreaBody(a) <= buffer
    ensures RequestOf(buffer) == Rects.Rect(a.x, a.y, a.x + a.w, a.y + a.h) <==> a.x + a.w < TWO31 && a.y + a.h < TWO31
  {
    hide Field;
    AreaFields(buffer, a);
  }

  /** What the overlay has and shows: the view, if there is one, the active rectangle, what is damaged,
      and what it has done. */
  datatype Screen = Screen(view: Option<nat>, left: uint32, top: uint32, right: uint32, bottom: uint32,
                           damage: seq<Rects.Rect>, events: seq<Event>)

  predicate MapsWell(m: MapAnswer, width: uint32, height: uint32) {
    m.handle && m.existed && m.view && m.queried && m.region >= PictureBytes(width, height)
  }

  function Obey(s: Screen, c: Command, m: MapAnswer, width: uint32, height: uint32): Screen {
    match c
    case Map(_) =>
      var blank := if s.view.Some? then s.(view := None, left := 0, top := 0, right := 0, bottom := 0) else s;
      if !MapsWell(m, width, height) then blank
      else blank.(view := Some(m.region), events := s.events + [Sent(1, []), NewTexture(width, height)])
    case Damage(a) => s.(damage := s.damage + [Rects.Rect(a.x, a.y, a.x + a.w, a.y + a.h)])
    case Show(a) =>
      var shown := s.(left := a.x, top := a.y, right := Wrap(a.x + a.w), bottom := Wrap(a.y + a.h));
      if s.view.None? then shown
      else shown.(events := s.events + [SetRect, Blit(0, 0, width, height, shown.left != shown.right)])
    case Other(_, _) => s
  }

  function ObeyAll(s: Screen, cs: seq<Command>, maps: seq<MapAnswer>, width: uint32, height: uint32): Screen
    requires |cs| == |maps|
    decreases |cs|
  {
    if cs == [] then s else ObeyAll(Obey(s, cs[0], maps[0], width, height), cs[1..], maps[1..], width, height)
  }

  function ScreenOf(r: Run): Screen {
    Screen(r.state.texture, r.state.left, r.state.top, r.state.right, r.state.bottom, r.requests, r.events)
  }

  /** The state is that of the screen, but for link, size and connection. */
  function Showing(s: State, screen: Screen): State {
    s.(memory := screen.view.Some?, texture := screen.view,
       left := screen.left, top := screen.top, right := screen.right, bottom := screen.bottom)
  }

  /** There is a view exactly while the mapping is held. */
  predicate OneView(s: State) { s.memory <==> s.texture.Some? }

  lemma HandleObeys(r: Run, s: State, c: Command, a: Answer)
    requires Sized(s.link) && OneView(s) && Proper(c) && MsgOf(c).body <= s.link.body && a.ackSent
    requires r.Valid() && r.state == s && r.boxes == Rects.MergeAll(r.requests)
    ensures var (e, screen) := (Handle(s, MsgOf(c).kind, r.boxes, a), Obey(ScreenOf(r), c, a.mapping, s.width, s.height));
            !e.stop && e.state == Showing(s, screen) && r.events + e.events == screen.events &&
            r.requests + e.requests == screen.damage && e.boxes == Rects.MergeAll(screen.damage)
  {
    hide Field, Rects.MergeOne, Rects.MergeAll, RequestOf, PictureBytes, AreaBody;
    match c
    case Map(_) =>
      assert r.requests + [] == r.requests && r.events + [] == r.events;
    case Damage(area) =>
      RequestIsWhatWasSentIff(s.link.body, area);
      MergeAllSnoc(r.requests, RequestOf(s.link.body));
      assert r.events + [] == r.events;
    case Show(area) =>
      AreaFields(s.link.body, area);
      assert r.requests + [] == r.requests && r.events + [] == r.events;
    case Other(_, _) =>
      assert r.requests + [] == r.requests && r.events + [] == r.events;
  }

  /** The connection ends over a message exactly when memory was mapped for it and this cannot be
      acknowledged; nothing is mapped then, and no texture is made. */
  lemma UnacknowledgedEndsIff(s: State, kind: uint32, boxes: seq<Rects.Rect>, a: Answer)
    requires Sized(s.link) && OneView(s) && s.connected
    ensures var e := Handle(s, kind, boxes, a);
            (e.stop <==> kind == 1 && MapsWell(a.mapping, s.width, s.height) && !a.ackSent) &&
            if e.stop then Ended(e.state) && e.events == [Sent(1, [])] else e.state.connected
  {
    hide Rects.MergeOne, PictureBytes, RequestOf, Disconnected;
    DisconnectEnds(Released(s).(memory := true, texture := Some(a.mapping.region)));
  }

  /** How a pass leaves the loop: for want of bytes, and otherwise only if the pass fails or a mapping
      cannot be acknowledged. */
  lemma LoopEndsIff(r: Run, a: Answer)
    requires r.Valid() && InSync(r.state.link, r.wire, r.msgs) && GoodLengths(r.wire.stream)
    requires OneView(r.state) && r.state.connected && r.ending == Going
    ensures var (q, p) := (OnePass(r, a), Step(r.state.link, r.wire, a.tick));
            (q.ending == Done <==> Liveness.Wants(r.state.link, r.wire, a.tick)) && q.ending != Lost &&
            (q.ending == Stopped <==>
              Liveness.Fails(r.state.link, r.wire, a.tick) ||
              (p.outcome.Dispatch? && p.outcome.msg.kind == 1 &&
               MapsWell(a.mapping, r.state.width, r.state.height) && !a.ackSent)) &&
            (q.ending == Stopped ==> Ended(q.state))
  {
    hide Step, Handle, Disconnected, GoodLengths, InSync, MapsWell, Liveness.Fails, Liveness.Wants;
    Liveness.OutcomeIff(r.state.link, r.wire, a.tick, r.msgs);
    var p := Step(r.state.link, r.wire, a.tick);
    var s := r.state.(link := p.link);
    DisconnectEnds(s);
    if p.outcome.Dispatch? { UnacknowledgedEndsIff(s, p.outcome.msg.kind, r.boxes, a); }
  }

  lemma MergeAllSnoc(requests: seq<Rects.Rect>, request: Rects.Rect)
    ensures Rects.MergeAll(requests + [request]) == Rects.MergeOne(Rects.MergeAll(requests), request)
  {
    assert (requests + [request])[..|requests|] == requests;
  }

  /** The answers to the passes that dispatch something. */
  function Used(r: Run, answers: seq<Answer>): (maps: seq<MapAnswer>)
    requires r.Valid()
    decreases |answers|
  {
    if answers == [] || r.ending != Going then []
    else
      var q := OnePass(r, answers[0]);
      (if |q.msgs| > |r.msgs| then [answers[0].mapping] else []) + Used(q, answers[1..])
  }

  /** In each of these passes every call succeeds, no header is seen split behind its fourth byte, and
      fewer than 2^31 bytes are waiting. */
  predicate Smooth(r: Run, answers: seq<Answer>)
    requires r.Valid()
    decreases |answers|
  {
    answers != [] && r.ending == Going ==>
      var t := answers[0].tick;
      Liveness.Succeeds(t) && answers[0].ackSent && SplitsEarly(r.state.link, r.wire, t) &&
      r.wire.Arrive(t.beforePeek).Available() < TWO31 && Smooth(OnePass(r, answers[0]), answers[1..])
  }

  function ProgressOf(r: Run): Liveness.Progress {
    Liveness.Progress(r.state.link, r.wire, r.msgs, true)
  }

  /** The receiver has come so far in the stream of these commands. */
  ghost predicate Serves(r: Run, cs: seq<Command>) {
    r.Valid() && r.state.connected && r.ending != Stopped && r.ending != Lost && AllProper(cs) && AllLegal(MsgsOf(cs)) &&
    Liveness.OnTrack(ProgressOf(r), MsgsOf(cs)) && r.wire.stream == EncodeAll(MsgsOf(cs)) &&
    OneView(r.state) && r.boxes == Rects.MergeAll(r.requests)
  }

  /** The screen after a pass that dispatched the next message, or none. */
  function ScreenAfter(r: Run, q: Run, cs: seq<Command>, m: MapAnswer): Screen
    requires |q.msgs| > |r.msgs| ==> |r.msgs| < |cs|
  {
    if |q.msgs| <= |r.msgs| then ScreenOf(r)
    else Obey(ScreenOf(r), cs[|r.msgs|], m, r.state.width, r.state.height)
  }

  /** One pass carries out the next command, or none. */
  lemma PassObeys(r: Run, a: Answer, cs: seq<Command>)
    requires Serves(r, cs) && r.ending == Going
    requires Liveness.Succeeds(a.tick) && a.ackSent && SplitsEarly(r.state.link, r.wire, a.tick)
    ensures var (q, p) := (OnePass(r, a), Liveness.OnePass(ProgressOf(r), a.tick));
            Serves(q, cs) && ProgressOf(q) == p && |r.msgs| <= |q.msgs| <= |r.msgs| + 1 <= |cs| + 1 &&
            (|q.msgs| > |r.msgs| ==> q.ending == Going) &&
            ScreenOf(q) == ScreenAfter(r, q, cs, a.mapping) && q.state == Showing(r.state.(link := q.state.link), ScreenOf(q))
  {
    hide Step, EncodeAll, Legal, Proper, InSync, GoodLengths, SplitsEarly, Rects.MergeAll, Handle, Obey, MsgOf, Encode;
    Liveness.PassStaysOnTrack(ProgressOf(r), a.tick, MsgsOf(cs));
    var p := Step(r.state.link, r.wire, a.tick);
    if p.outcome.Dispatch? {
      var c := cs[|r.msgs|];
      assert p.outcome.msg == MsgOf(c);
      HandleObeys(r.(state := r.state.(link := p.link)), r.state.(link := p.link), c, a);
    }
  }

  lemma ObeyNext(s: Screen, c: Command, cs: seq<Command>, m: MapAnswer, maps: seq<MapAnswer>, width: uint32, height: uint32)
    requires |cs| == |maps|
    ensures ObeyAll(s, [c] + cs, [m] + maps, width, height) == ObeyAll(Obey(s, c, m, width, height), cs, maps, width, height)
  {
    hide Obey;
    assert ([c] + cs)[1..] == cs && ([m] + maps)[1..] == maps;
  }

  /** What passes have made of a run: the commands up to there are carried out, each once. */
  ghost predicate CarriedOut(r: Run, q: Run, cs: seq<Command>, maps: seq<MapAnswer>) {
    |r.msgs| <= |q.msgs| <= |cs| && |maps| == |q.msgs| - |r.msgs| &&
    ScreenOf(q) == ObeyAll(ScreenOf(r), cs[|r.msgs|..|q.msgs|], maps, r.state.width, r.state.height) &&
    q.state == Showing(r.state.(link := q.state.link), ScreenOf(q))
  }

  lemma CarriesOn(r: Run, q: Run, end: Run, cs: seq<Command>, m: MapAnswer, maps: seq<MapAnswer>)
    requires CarriedOut(q, end, cs, maps) && |r.msgs| <= |q.msgs| <= |r.msgs| + 1
    requires ScreenOf(q) == ScreenAfter(r, q, cs, m) && q.state == Showing(r.state.(link := q.state.link), ScreenOf(q))
    ensures CarriedOut(r, end, cs, (if |q.msgs| > |r.msgs| then [m] else []) + maps)
  {
    hide Obey, ObeyAll;
    var rest := cs[|q.msgs|..|end.msgs|];
    if |q.msgs| > |r.msgs| {
      assert cs[|r.msgs|..|end.msgs|] == [cs[|r.msgs|]] + rest;
      ObeyNext(ScreenOf(r), cs[|r.msgs|], rest, m, maps, r.state.width, r.state.height);
    } else {
      assert [] + maps == maps;
    }
  }

  /** The loop carries out the commands whose messages it dispatches. */
  lemma {:induction false} ReceiveObeys(r: Run, answers: seq<Answer>, cs: seq<Command>)
    requires Serves(r, cs) && Smooth(r, answers)
    ensures Serves(Receive(r, answers), cs) && CarriedOut(r, Receive(r, answers), cs, Used(r, answers))
    decreases |answers|
  {
    hide OnePass, Serves, Obey, SplitsEarly, MsgsOf, CarriedOut;
    ServesIsValid(r, cs);
    if answers == [] || r.ending != Going {
      NothingCarriedOut(r, cs);
    } else {
      PassObeys(r, answers[0], cs);
      var q := OnePass(r, answers[0]);
      ReceiveObeys(q, answers[1..], cs);
      CarriesOn(r, q, Receive(q, answers[1..]), cs, answers[0].mapping, Used(q, answers[1..]));
    }
  }

  lemma NothingCarriedOut(r: Run, cs: seq<Command>)
    requires |r.msgs| <= |cs| && r.state == Showing(r.state, ScreenOf(r))
    ensures CarriedOut(r, r, cs, [])
  {
    NothingObeyed(ScreenOf(r), r.state.width, r.state.height);
    assert cs[|r.msgs|..|r.msgs|] == [];
  }

  lemma NothingObeyed(s: Screen, width: uint32, height: uint32)
    ensures ObeyAll(s, [], [], width, height) == s
  {
  }

  lemma ServesIsValid(r: Run, cs: seq<Command>)
    requires Serves(r, cs)
    ensures r.Valid() && |r.msgs| <= |cs| && r.state == Showing(r.state, ScreenOf(r))
  {
    hide Legal, EncodeAll, InSync;
  }

  /** And it dispatches all whose frames are well arrived, if it runs long enough. */
  lemma {:induction false} ReceiveDispatches(r: Run, answers: seq<Answer>, cs: seq<Command>, k: nat)
    requires Serves(r, cs) && Smooth(r, answers) && k <= |cs|
    requires Liveness.WellArrived(r.wire, MsgsOf(cs), k) && |answers| >= k - |r.msgs| && (r.ending == Going || |r.msgs| >= k)
    ensures |Receive(r, answers).msgs| >= k
    decreases |answers|
  {
    hide Liveness.OnePass, SplitsEarly, MsgsOf, EncodeAll, Legal, Proper, Liveness.OnTrack, Liveness.WellArrived, OnePass;
    ServesIsValid(r, cs);
    if answers != [] && r.ending == Going {
      PassObeys(r, answers[0], cs);
      Liveness.PassAdvances(ProgressOf(r), answers[0].tick, MsgsOf(cs), k);
      ReceiveDispatches(OnePass(r, answers[0]), answers[1..], cs, k);
    }
  }

  /** Between calls: connected to somebody who sends these commands. */
  ghost predicate Serving(s: Session, cs: seq<Command>) {
    s.Valid() && Serves(Start(s), cs)
  }

  /** Not connected, and ready to be. */
  predicate Vacant(s: Session) {
    s.Valid() && !s.state.connected && !s.state.memory && s.state.texture.None? && Blank(s.state.link)
  }

  /** This call finds Mumble at the other end: already connected, or to be connected now, in which case
      these commands are all that the new connection sends. */
  ghost predicate Finds(s: Session, c: Call, cs: seq<Command>) {
    c.width != 0 && c.height != 0 && c.initSent && c.dialed.Valid() && AllProper(cs) &&
    if s.state.connected then Serving(s, cs)
    else Vacant(s) && c.connects && c.pidSent && c.dialed.pos == 0 &&
         AllLegal(MsgsOf(cs)) && c.dialed.stream == EncodeAll(MsgsOf(cs))
  }

  /** What is on the screen as the receive loop begins: a picture of another size is started over. */
  function Opened(s: Session, c: Call): Screen {
    var announced := if s.state.connected then [] else [Sent(4, [c.pid])];
    if s.state.connected && s.state.width == c.width && s.state.height == c.height then
      Screen(s.state.texture, s.state.left, s.state.top, s.state.right, s.state.bottom, [], announced)
    else
      var events := announced + [Sent(0, [c.width, c.height])];
      if s.state.memory then Screen(None, 0, 0, 0, 0, [], events)
      else Screen(s.state.texture, s.state.left, s.state.top, s.state.right, s.state.bottom, [], events)
  }

  lemma OpensScreen(s: Session, c: Call, cs: seq<Command>)
    requires s.Valid() && Finds(s, c, cs)
    ensures var r := Resize(Connect(Start(s), c), c);
            Serves(r, cs) && r.ending == Going && ScreenOf(r) == Opened(s, c) &&
            r.state.width == c.width && r.state.height == c.height &&
            r.wire == (if s.state.connected then s.wire else c.dialed) &&
            r.msgs == (if s.state.connected then s.msgs else [])
  {
    hide Legal, EncodeAll, GoodLengths, Proper, InSync, MsgsOf, Blank;
    var r := Resize(Connect(Start(s), c), c);
    assert Rects.MergeAll([]) == [] by { NoBoxes(); }
    if !s.state.connected {
      BlankIsSized(s.state.link);
      Liveness.BlankOnTrack(ProgressOf(r), MsgsOf(cs));
    }
  }

  /** A whole call, on a connection that serves these commands and answers everything: it stays
      connected, carries out the next commands, those at least that are well arrived, and ends by
      blitting the merged boxes of the damage, if there is a view. */
  lemma CallObeys(s: Session, c: Call, cs: seq<Command>, k: nat)
    requires s.Valid() && Finds(s, c, cs) && Smooth(Resize(Connect(Start(s), c), c), c.answers)
    requires var (w, n) := if s.state.connected then (s.wire, |s.msgs|) else (c.dialed, 0);
             k <= |cs| && Liveness.WellArrived(w, MsgsOf(cs), k) && |c.answers| >= k - n
    ensures var q := Checked(s, c);
            var n := if s.state.connected then |s.msgs| else 0;
            var maps := Used(Resize(Connect(Start(s), c), c), c.answers);
            Serving(SessionOf(q), cs) && n <= |q.msgs| <= |cs| && k <= |q.msgs| && |maps| == |q.msgs| - n &&
            var screen := ObeyAll(Opened(s, c), cs[n..|q.msgs|], maps, c.width, c.height);
            var boxes := Rects.MergeAll(screen.damage);
            q.state == Showing(q.state, screen) && q.requests == screen.damage && q.state.width == c.width && q.state.height == c.height &&
            q.events == screen.events + if screen.view.None? then [] else BlitsOf(boxes, screen.left != screen.right)
  {
    hide Serves, Receive, ObeyAll, Obey, MsgsOf, Liveness.WellArrived, Used, Connect, Resize, Rects.MergeAll, BlitsOf, Finds;
    OpensScreen(s, c, cs);
    FindsPicture(s, c, cs);
    var r := Resize(Connect(Start(s), c), c);
    ReceiveObeys(r, c.answers, cs);
    ReceiveDispatches(r, c.answers, cs, k);
    var end := Receive(r, c.answers);
    ServesMerged(end, cs);
    ServesLater(end, Checked(s, c), cs);
    NothingMore(ObeyAll(Opened(s, c), cs[|r.msgs|..|end.msgs|], Used(r, c.answers), c.width, c.height).events);
  }

  lemma NothingMore(es: seq<Event>)
    ensures es + [] == es
  {
  }

  lemma FindsPicture(s: Session, c: Call, cs: seq<Command>)
    requires Finds(s, c, cs)
    ensures c.width != 0 && c.height != 0 && c.dialed.Valid()
  {
    hide Serves, Vacant;
  }

  lemma ServesMerged(r: Run, cs: seq<Command>)
    requires Serves(r, cs)
    ensures r.boxes == Rects.MergeAll(r.requests) && r.ending != Stopped && r.ending != Lost
  {
    hide Liveness.OnTrack, EncodeAll, Legal, Rects.MergeAll;
  }

  lemma ServesLater(r: Run, q: Run, cs: seq<Command>)
    requires Serves(r, cs) && q.state == r.state && q.wire == r.wire && q.msgs == r.msgs
    ensures Serving(SessionOf(q), cs)
  {
    hide Liveness.OnTrack, EncodeAll, Legal, Proper;
    NoBoxes();
  }

  function AfterCall(s: Session, c: Call): (r: Session)
    requires s.Valid() && c.dialed.Valid()
    ensures r.Valid()
  {
    SessionOf(Checked(s, c))
  }

  /** Every call of the run finds Mumble at the other end, and is answered. */
  ghost predicate Answered(s: Session, calls: seq<Call>, cs: seq<Command>)
    requires s.Valid()
    decreases |calls|
  {
    calls != [] ==>
      Finds(s, calls[0], cs) && Smooth(Resize(Connect(Start(s), calls[0]), calls[0]), calls[0].answers) &&
      Answered(AfterCall(s, calls[0]), calls[1..], cs)
  }

  ghost function AfterCalls(s: Session, calls: seq<Call>, cs: seq<Command>): Session
    requires s.Valid() && Answered(s, calls, cs)
    decreases |calls|
  {
    if calls == [] then s else AfterCalls(AfterCall(s, calls[0]), calls[1..], cs)
  }

  /** Over any run of such calls the connection lasts, and the commands are carried out one after the
      other, none twice and none passed over. */
  lemma {:induction false} CallsObey(s: Session, calls: seq<Call>, cs: seq<Command>)
    requires s.Valid() && Answered(s, calls, cs) && (calls == [] ==> Serving(s, cs))
    ensures var end := AfterCalls(s, calls, cs);
            Serving(end, cs) && end.state.connected && end.msgs <= MsgsOf(cs) && (s.state.connected ==> |s.msgs| <= |end.msgs|)
    decreases |calls|
  {
    hide Serving, Smooth, MsgsOf, Checked, Finds, Liveness.WellArrived;
    if calls == [] {
      ServingIsPrefix(s, cs);
    } else {
      var c := calls[0];
      FindsPicture(s, c, cs);
      FindsLegal(s, c, cs);
      Liveness.NoneWellArrived(if s.state.connected then s.wire else c.dialed, MsgsOf(cs));
      CallObeys(s, c, cs, 0);
      ServingIsPrefix(AfterCall(s, c), cs);
      CallsObey(AfterCall(s, c), calls[1..], cs);
    }
  }

  lemma FindsLegal(s: Session, c: Call, cs: seq<Command>)
    requires Finds(s, c, cs)
    ensures AllLegal(MsgsOf(cs))
  {
    ProperIsLegal(cs);
  }

  lemma ServingIsPrefix(s: Session, cs: seq<Command>)
    requires Serving(s, cs)
    ensures s.state.connected && s.msgs <= MsgsOf(cs)
  {
    hide EncodeAll, Legal, InSync;
  }
}
