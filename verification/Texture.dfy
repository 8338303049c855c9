/** The texture as a cache of the shared picture, over all the frames that are drawn. */
module TextureCache {
  import opened Bytes
  import opened Options
  import opened OverlayPipe
  import opened Blitting
  import Framing
  import PipeSafety
  import Rects

  /** The Direct3D texture, if there is one. */
  datatype Picture = NoPicture | Picture(bits: seq<byte>, pitch: nat)

  predicate Holds(p: Picture, w: nat, h: nat) {
    p.Picture? ==> Layout(w, h, p.pitch).Fits(|p.bits|)
  }

  /** The texture, if there is one, shows the shared picture at (x, y). */
  predicate AgreesAt(p: Picture, view: seq<byte>, w: nat, h: nat, x: nat, y: nat) {
    p.Picture? ==>
      Layout(w, h, p.pitch).Fits(|p.bits|) && Tight(w, h).Fits(|view|) && x < w && y < h &&
      Texel(p.bits, Layout(w, h, p.pitch), x, y) == Texel(view, Tight(w, h), x, y)
  }

  ghost predicate Agrees(p: Picture, view: seq<byte>, w: nat, h: nat, rects: seq<Rects.Rect>) {
    forall x: nat, y: nat :: x < w && y < h && Covered(rects, x, y) ==> AgreesAt(p, view, w, h, x, y)
  }

  /** What an event does to the texture: making it anew may fail, and leaves unknown bytes; a blit needs
      a texture and an active area, and a lock, which is granted for parts that lie on the texture. */
  ghost predicate Shows(was: Picture, e: Event, now: Picture, view: seq<byte>, w: nat, h: nat) {
    match e
    case NewTexture(_, _) => Holds(now, w, h)
    case Blit(x, y, bw, bh, active) =>
      if was.NoPicture? || !active || x + bw > w || y + bh > h then now == was
      else
        now.Picture? && now.pitch == was.pitch &&
        Blitted(was.bits, now.bits, Layout(w, h, was.pitch), view, [Part(x, y, bw, bh)])
    case _ => now == was
  }

  ghost function PictureOf(d: DevState): Picture
    reads d, d.bits
  {
    if d.bits == null then NoPicture else Picture(d.bits[..], d.pitch)
  }

  /** The blit of the device does that, where locks are granted just for parts on the texture. */
  method PlayBlit(d: DevState, x: uint32, y: uint32, w: uint32, h: uint32, locked: bool)
    requires d.Ready() && d.view != null && (locked <==> d.MayLock(x, y, w, h))
    modifies d.bits
    ensures Shows(old(PictureOf(d)), Blit(x, y, w, h, d.uiLeft != d.uiRight), PictureOf(d), d.view[..], d.uiWidth, d.uiHeight)
  {
    hide Layout.Fits;
    d.Blit(x, y, w, h, locked);
  }

  lemma ShowsKeeps(was: Picture, e: Event, now: Picture, view: seq<byte>, w: nat, h: nat, x: nat, y: nat)
    requires Shows(was, e, now, view, w, h) && !e.NewTexture? && x < w && y < h && AgreesAt(was, view, w, h, x, y)
    ensures AgreesAt(now, view, w, h, x, y)
  {
    hide Layout.Fits, Texel;
  }

  lemma ShowsCovered(was: Picture, e: Event, now: Picture, view: seq<byte>, w: nat, h: nat, x: nat, y: nat)
    requires Shows(was, e, now, view, w, h) && e.Blit? && e.active && e.x + e.w <= w && e.y + e.h <= h
    requires x < w && y < h && Part(e.x, e.y, e.w, e.h).Has(x, y)
    ensures AgreesAt(now, view, w, h, x, y)
  {
    hide Layout.Fits, Texel;
    if was.Picture? {
      var box := Part(e.x, e.y, e.w, e.h);
      assert box in [box] && Covered([box], x, y);
    }
  }

  /** The texture before and after each of a call's events, and what shared memory held at each. */
  datatype Trace = Trace(pictures: seq<Picture>, views: seq<seq<byte>>)

  ghost predicate Replay(t: Trace, es: seq<Event>, w: nat, h: nat) {
    |t.pictures| == |es| + 1 && |t.views| == |es| &&
    forall i :: 0 <= i < |es| ==> Shows(t.pictures[i], es[i], t.pictures[i + 1], t.views[i], w, h)
  }

  predicate Remade(es: seq<Event>) { exists i :: 0 <= i < |es| && es[i].NewTexture? }

  /** From the last mapping of the call on, memory is what it is at the end. */
  predicate Settled(t: Trace, es: seq<Event>, view: seq<byte>)
    requires |t.views| == |es|
  {
    forall i :: 0 <= i < |es| && !Remade(es[i..]) ==> t.views[i] == view
  }

  lemma RemadeLater(es: seq<Event>, i: nat, j: nat)
    requires i <= j < |es| && !Remade(es[i..])
    ensures !es[j].NewTexture? && !Remade(es[j..])
  {
    assert es[i..][j - i] == es[j];
    assert forall k :: 0 <= k < |es[j..]| ==> es[j..][k] == es[i..][j - i + k];
  }

  /** What agrees once goes on agreeing. */
  lemma {:induction false} StaysAgreed(t: Trace, es: seq<Event>, view: seq<byte>, w: nat, h: nat, i: nat, j: nat, x: nat, y: nat)
    requires Replay(t, es, w, h) && Settled(t, es, view) && i <= j <= |es| && !Remade(es[i..]) && x < w && y < h
    requires AgreesAt(t.pictures[i], view, w, h, x, y)
    ensures AgreesAt(t.pictures[j], view, w, h, x, y)
    decreases j
  {
    hide Shows, Remade, AgreesAt;
    if i < j {
      StaysAgreed(t, es, view, w, h, i, j - 1, x, y);
      RemadeLater(es, i, j - 1);
      ShowsKeeps(t.pictures[j - 1], es[j - 1], t.pictures[j], view, w, h, x, y);
    }
  }

  /** A blit that covers (x, y), with nothing made anew since. */
  lemma BlitAgrees(t: Trace, es: seq<Event>, view: seq<byte>, w: nat, h: nat, i: nat, x: nat, y: nat)
    requires Replay(t, es, w, h) && Settled(t, es, view) && i < |es| && !Remade(es[i..]) && x < w && y < h
    requires es[i].Blit? && es[i].active && es[i].x + es[i].w <= w && es[i].y + es[i].h <= h
    requires Part(es[i].x, es[i].y, es[i].w, es[i].h).Has(x, y)
    ensures AgreesAt(t.pictures[|es|], view, w, h, x, y)
  {
    hide Shows, Remade, AgreesAt;
    RemadeLater(es, i, i);
    ShowsCovered(t.pictures[i], es[i], t.pictures[i + 1], view, w, h, x, y);
    if i + 1 < |es| { RemadeLater(es, i, i + 1); } else { NothingRemade(es); }
    StaysAgreed(t, es, view, w, h, i + 1, |es|, x, y);
  }

  lemma NothingRemade(es: seq<Event>)
    ensures !Remade(es[|es|..])
  {
  }

  /** Every request that is not empty lies on the picture. */
  predicate OnPicture(requests: seq<Rects.Rect>, w: nat, h: nat) {
    forall r :: r in requests && !r.Empty() ==> Rects.Inside(r, Rects.Rect(0, 0, w, h))
  }

  /** The blits at the end of a call show every request. */
  lemma FlushAgrees(t: Trace, es: seq<Event>, view: seq<byte>, w: uint32, h: uint32, requests: seq<Rects.Rect>)
    requires Replay(t, es, w, h) && Settled(t, es, view) && OnPicture(requests, w, h)
    requires var blits := BlitsOf(Rects.MergeAll(requests), true); |blits| <= |es| && es[|es| - |blits|..] == blits
    ensures Agrees(t.pictures[|es|], view, w, h, requests)
  {
    hide Rects.MergeAll, AgreesAt, Remade, Shows, Settled, Rects.Inside;
    var boxes := Rects.MergeAll(requests);
    var first := |es| - |boxes|;
    Rects.BoxesCoverAndStayOnScreen(requests, Rects.Rect(0, 0, w, h));
    assert !Remade(es[first..]) by { BlitsRemakeNothing(boxes, true); }
    forall x: nat, y: nat | x < w && y < h && Covered(requests, x, y)
      ensures AgreesAt(t.pictures[|es|], view, w, h, x, y)
    {
      var b :| b in boxes && b.Has(x, y);
      var k :| 0 <= k < |boxes| && boxes[k] == b;
      assert es[first + k] == es[first..][k] == BlitOf(b, true);
      PositionAndSize(b, w, h);
      RemadeLater(es, first, first + k);
      BlitAgrees(t, es, view, w, h, first + k, x, y);
    }
  }

  lemma BlitsRemakeNothing(boxes: seq<Rects.Rect>, active: bool)
    ensures !Remade(BlitsOf(boxes, active))
  {
  }

  // When the area becomes active.

  /** Where the texture of the beginning is still in use, the area has been active since the beginning,
      or the whole picture has been blitted. */
  predicate Awake(r: Run, s: State, w: uint32, h: uint32) {
    r.state.texture.Some? && !Remade(r.events) ==>
      r.state.width == w == s.width && r.state.height == h == s.height && s.texture.Some? &&
      (r.state.HasArea() ==> s.HasArea() || Blit(0, 0, w, h, true) in r.events)
  }

  lemma RemadeMore(es: seq<Event>, more: seq<Event>)
    ensures Remade(es + more) <==> Remade(es) || Remade(more)
  {
    if i :| 0 <= i < |es| && es[i].NewTexture? { assert (es + more)[i].NewTexture?; }
    if i :| 0 <= i < |more| && more[i].NewTexture? { assert (es + more)[|es| + i].NewTexture?; }
  }

  lemma HandleAwake(r: Run, p: Framing.Link, kind: uint32, a: Answer, s: State, w: uint32, h: uint32)
    requires r.Valid() && Framing.Sized(p) && Awake(r, s, w, h) && PipeSafety.MemoryHeld(r.state)
    ensures var e := Handle(r.state.(link := p), kind, r.boxes, a);
            Awake(r.(state := e.state, events := r.events + e.events), s, w, h)
  {
    hide Rects.MergeOne, RequestOf, PictureBytes, Remade, Framing.Sentinel;
    var e := Handle(r.state.(link := p), kind, r.boxes, a);
    RemadeMore(r.events, e.events);
    if kind == ACTIVE && r.state.texture.Some? && e.state.HasArea() {
      assert e.events[1] == Blit(0, 0, r.state.width, r.state.height, true);
      assert e.events[1] in r.events + e.events;
    } else if kind == SHMEM && e.state.texture.Some? {
      assert Remade(e.events) by { MappingRemakes(r.state.(link := p), r.boxes, a); }
    }
  }

  lemma MappingRemakes(s: State, boxes: seq<Rects.Rect>, a: Answer)
    requires Framing.Sized(s.link) && PipeSafety.MemoryHeld(s) && MapMemory(s, boxes, a).state.texture.Some?
    ensures Remade(MapMemory(s, boxes, a).events)
  {
    hide Framing.Sentinel, PictureBytes;
    assert MapMemory(s, boxes, a).events[1].NewTexture?;
  }

  lemma OnePassAwake(r: Run, a: Answer, s: State, w: uint32, h: uint32)
    requires r.Valid() && Awake(r, s, w, h) && PipeSafety.MemoryHeld(r.state) && r.ending == Going && r.state.connected
    ensures var q := OnePass(r, a);
            Awake(q, s, w, h) && PipeSafety.MemoryHeld(q.state) && (q.ending == Going ==> q.state.connected)
  {
    PipeSafety.ReceiveKeepsMemory(r, [a]);
    OneReceived(r, a);
    hide Framing.Step, Handle, Remade, Framing.Sentinel, PictureBytes;
    var p := Framing.Step(r.state.link, r.wire, a.tick);
    if p.outcome.Dispatch? {
      HandleAwake(r, p.link, p.outcome.msg.kind, a, s, w, h);
      HandleStays(r.state.(link := p.link), p.outcome.msg.kind, r.boxes, a);
    }
  }

  lemma OneReceived(r: Run, a: Answer)
    requires r.Valid() && r.ending == Going
    ensures Receive(r, [a]) == OnePass(r, a)
  {
    hide OnePass;
    assert [a][1..] == [];
    assert Receive(OnePass(r, a), []) == OnePass(r, a);
  }

  lemma HandleStays(s: State, kind: uint32, boxes: seq<Rects.Rect>, a: Answer)
    requires Framing.Sized(s.link) && s.connected
    ensures var e := Handle(s, kind, boxes, a); !e.stop ==> e.state.connected
  {
    hide Rects.MergeOne, RequestOf, PictureBytes, Framing.Sentinel;
  }

  lemma {:induction false} ReceiveAwake(r: Run, answers: seq<Answer>, s: State, w: uint32, h: uint32)
    requires r.Valid() && Awake(r, s, w, h) && PipeSafety.MemoryHeld(r.state) && (r.ending == Going ==> r.state.connected)
    ensures Awake(Receive(r, answers), s, w, h)
    decreases |answers|
  {
    hide OnePass, Awake, PipeSafety.MemoryHeld;
    if answers != [] && r.ending == Going {
      OnePassAwake(r, answers[0], s, w, h);
      ReceiveAwake(OnePass(r, answers[0]), answers[1..], s, w, h);
    }
  }

  lemma OpeningAwake(s: Session, c: Call)
    requires s.Valid() && c.dialed.Valid() && c.width != 0 && c.height != 0 && PipeSafety.MemoryHeld(s.state)
    requires Resize(Connect(Start(s), c), c).ending == Going
    ensures var r := Resize(Connect(Start(s), c), c);
            Awake(r, s.state, c.width, c.height) && PipeSafety.MemoryHeld(r.state) && r.state.connected
  {
    hide Framing.Sentinel, PictureBytes;
    PipeSafety.OpensIff(s, c);
  }

  // Frames.

  /** Between two frames memory has changed only where requests say so. */
  ghost predicate Announced(before: seq<byte>, view: seq<byte>, w: nat, h: nat, requests: seq<Rects.Rect>) {
    Tight(w, h).Fits(|before|) && Tight(w, h).Fits(|view|) &&
    forall x: nat, y: nat :: x < w && y < h && !Covered(requests, x, y) ==>
      Texel(before, Tight(w, h), x, y) == Texel(view, Tight(w, h), x, y)
  }

  lemma AnnouncedAgrees(p: Picture, before: seq<byte>, view: seq<byte>, w: nat, h: nat, requests: seq<Rects.Rect>, x: nat, y: nat)
    requires Announced(before, view, w, h, requests) && x < w && y < h && !Covered(requests, x, y)
    requires AgreesAt(p, before, w, h, x, y)
    ensures AgreesAt(p, view, w, h, x, y)
  {
    hide Layout.Fits, Texel, Covered;
  }

  /** What has been asked for since the mapping in use. */
  function Asked(asked: seq<Rects.Rect>, q: Run): seq<Rects.Rect> {
    if q.state.texture.None? then [] else (if Remade(q.events) then [] else asked) + q.requests
  }

  lemma CoveredByEither(a: seq<Rects.Rect>, b: seq<Rects.Rect>, x: nat, y: nat)
    ensures Covered(a + b, x, y) <==> Covered(a, x, y) || Covered(b, x, y)
  {
    assert forall r :: r in a + b <==> r in a || r in b;
  }

  /** The events of a call end with the blits of its boxes, which make nothing anew. */
  lemma FlushRemakesNothing(rq: Run)
    requires rq.Valid() && rq.ending in {Going, Done} && rq.state.texture.Some?
    ensures Flush(rq).events == rq.events + BlitsOf(rq.boxes, rq.state.HasArea()) && Flush(rq).state == rq.state
    ensures Remade(Flush(rq).events) <==> Remade(rq.events)
  {
    hide BlitsOf, Remade;
    BlitsRemakeNothing(rq.boxes, rq.state.HasArea());
    RemadeMore(rq.events, BlitsOf(rq.boxes, rq.state.HasArea()));
  }

  /** After a call that leaves memory mapped and an active area, what was agreed and not asked for again
      agrees still. */
  lemma OldAgrees(s: Session, c: Call, t: Trace, before: seq<byte>, view: seq<byte>, x: nat, y: nat)
    requires s.Valid() && c.dialed.Valid() && c.width != 0 && c.height != 0 && PipeSafety.MemoryHeld(s.state)
    requires var q := Checked(s, c);
             q.ending in {Going, Done} && q.state.texture.Some? && q.state.HasArea() && !Remade(q.events) &&
             Replay(t, q.events, c.width, c.height) && Settled(t, q.events, view) &&
             Announced(before, view, c.width, c.height, q.requests) &&
             x < c.width && y < c.height && !Covered(q.requests, x, y)
    requires s.state.HasArea() ==> AgreesAt(t.pictures[0], before, c.width, c.height, x, y)
    ensures AgreesAt(t.pictures[|Checked(s, c).events|], view, c.width, c.height, x, y)
  {
    hide Receive, Connect, Resize, Shows, Settled, AgreesAt, Announced, Remade, BlitsOf, Covered;
    var q, w, h := Checked(s, c), c.width, c.height;
    var r := Resize(Connect(Start(s), c), c);
    var rq := Receive(r, c.answers);
    assert q == Flush(rq);
    WentOn(s, c);
    OpeningAwake(s, c);
    ReceiveAwake(r, c.answers, s.state, w, h);
    FlushRemakesNothing(rq);
    if s.state.HasArea() {
      AnnouncedAgrees(t.pictures[0], before, view, w, h, q.requests, x, y);
      assert q.events[0..] == q.events;
      StaysAgreed(t, q.events, view, w, h, 0, |q.events|, x, y);
    } else {
      var i :| 0 <= i < |rq.events| && rq.events[i] == Blit(0, 0, w, h, true);
      assert q.events[i] == rq.events[i] && q.events[0..] == q.events;
      RemadeLater(q.events, 0, i);
      BlitAgrees(t, q.events, view, w, h, i, x, y);
    }
  }

  lemma WentOn(s: Session, c: Call)
    requires s.Valid() && c.dialed.Valid() && Receive(Resize(Connect(Start(s), c), c), c.answers).ending in {Going, Done}
    ensures Resize(Connect(Start(s), c), c).ending == Going
  {
  }

  /** So does everything asked for since the mapping in use. */
  lemma CallAgrees(s: Session, c: Call, t: Trace, before: seq<byte>, view: seq<byte>, asked: seq<Rects.Rect>)
    requires s.Valid() && c.dialed.Valid() && c.width != 0 && c.height != 0 && PipeSafety.MemoryHeld(s.state)
    requires var q := Checked(s, c);
             q.ending in {Going, Done} && q.state.texture.Some? && q.state.HasArea() && OnPicture(q.requests, c.width, c.height) &&
             Replay(t, q.events, c.width, c.height) && Settled(t, q.events, view) &&
             (!Remade(q.events) ==>
               (Announced(before, view, c.width, c.height, q.requests) &&
                (s.state.HasArea() ==> Agrees(t.pictures[0], before, c.width, c.height, asked))))
    ensures var q := Checked(s, c); Agrees(t.pictures[|q.events|], view, c.width, c.height, Asked(asked, q))
  {
    hide Checked, Shows, Settled, AgreesAt, Announced, Remade, BlitsOf, Covered, OnPicture, Rects.MergeAll, PipeSafety.WholeBlits, PipeSafety.BlitRequests;
    var q, w, h := Checked(s, c), c.width, c.height;
    PipeSafety.FlushesMergedBoxes(s, c);
    FlushAgrees(t, q.events, view, w, h, q.requests);
    forall x: nat, y: nat | x < w && y < h && Covered(Asked(asked, q), x, y)
      ensures AgreesAt(t.pictures[|q.events|], view, w, h, x, y)
    {
      CoveredByEither(if Remade(q.events) then [] else asked, q.requests, x, y);
      if !Covered(q.requests, x, y) {
        if Remade(q.events) { NothingCovered(x, y); }
        OldAgrees(s, c, t, before, view, x, y);
      }
    }
  }

  lemma NothingCovered(x: nat, y: nat)
    ensures !Covered([], x, y)
  {
  }

  // Runs of frames.

  /** The pipe with its texture, what shared memory held when it was last looked at, and what has been
      asked for since the mapping in use. */
  datatype Screen = Screen(session: Session, picture: Picture, view: seq<byte>, asked: seq<Rects.Rect>)

  /** A frame: one call of checkMessage with its events played on the texture, until memory holds view;
      a texture that is missing then is made and filled. Between frames, the application may have the
      textures released, or the pipe disconnected, and messages are sent. */
  datatype Turn =
    | Draw(call: Call, trace: Trace, view: seq<byte>, made: Picture, filled: Picture)
    | ReleaseData
    | Other(op: PipeSafety.Op)

  predicate Playable(sc: Screen, turn: Turn) {
    sc.session.Valid() && (turn.Other? ==> !turn.op.Check?) &&
    (turn.Draw? ==> turn.call.dialed.Valid() && turn.trace.pictures != [])
  }

  function Next(sc: Screen, turn: Turn): Screen
    requires Playable(sc, turn)
  {
    match turn
    case ReleaseData => sc.(picture := NoPicture)
    case Other(op) => sc.(session := PipeSafety.Perform(sc.session, op))
    case Draw(c, t, view, made, filled) =>
      var q := Checked(sc.session, c);
      var last := t.pictures[|t.pictures| - 1];
      Screen(Session(q.state, q.wire, q.msgs), if q.state.texture.Some? && q.state.HasArea() && last.NoPicture? then filled else last,
             view, Asked(sc.asked, q))
  }

  /** While memory is mapped, the frame's events are played on the texture; all requests lie on the
      picture; memory changes where they say so; and a missing texture is made and filled as blits do. */
  ghost predicate Played(sc: Screen, c: Call, t: Trace, view: seq<byte>, made: Picture, filled: Picture)
    requires sc.session.Valid() && c.dialed.Valid()
  {
    var q := Checked(sc.session, c);
    t.pictures != [] && t.pictures[0] == sc.picture && q.ending != Lost &&
    (q.state.texture.Some? ==>
      var (w, h) := (q.state.width, q.state.height);
      var last := t.pictures[|t.pictures| - 1];
      Replay(t, q.events, w, h) && Settled(t, q.events, view) && Tight(w, h).Fits(|view|) && OnPicture(q.requests, w, h) &&
      (!Remade(q.events) ==> Announced(sc.view, view, w, h, q.requests)) &&
      Shows(last, NewTexture(w, h), made, view, w, h) && Shows(made, Blit(0, 0, w, h, true), filled, view, w, h))
  }

  ghost predicate Legal(sc: Screen, turn: Turn) {
    Playable(sc, turn) &&
    match turn
    case Draw(c, t, view, made, filled) => Played(sc, c, t, view, made, filled)
    case _ => true
  }

  /** Whenever the overlay is drawn, with memory mapped and an active area, the texture, if there is one,
      agrees with memory on everything asked for since the mapping. */
  ghost predicate Fresh(sc: Screen) {
    sc.session.Valid() && PipeSafety.MemoryHeld(sc.session.state) &&
    var s := sc.session.state;
    (s.texture.Some? && s.HasArea() ==> Agrees(sc.picture, sc.view, s.width, s.height, sc.asked))
  }

  lemma CheckKeepsMemory(s: Session, c: Call)
    requires s.Valid() && c.dialed.Valid() && PipeSafety.MemoryHeld(s.state)
    ensures PipeSafety.MemoryHeld(Checked(s, c).state)
  {
    hide Checked, PipeSafety.MemoryHeld;
    var op := PipeSafety.Check(c);
    PipeSafety.MemoryAlwaysHeld(s, [op]);
    assert [op][1..] == [];
    assert PipeSafety.PerformAll(PipeSafety.Perform(s, op), []) == PipeSafety.Perform(s, op);
  }

  /** Filling a new texture shows the whole picture. */
  lemma FilledAgrees(made: Picture, filled: Picture, view: seq<byte>, w: uint32, h: uint32, rects: seq<Rects.Rect>)
    requires Shows(made, Blit(0, 0, w, h, true), filled, view, w, h)
    ensures Agrees(filled, view, w, h, rects)
  {
    hide AgreesAt, Shows;
    forall x: nat, y: nat | x < w && y < h ensures AgreesAt(filled, view, w, h, x, y) {
      ShowsCovered(made, Blit(0, 0, w, h, true), filled, view, w, h, x, y);
    }
  }

  /** A call for an empty picture does nothing. */
  lemma EmptyFrame(sc: Screen, c: Call, t: Trace, view: seq<byte>, made: Picture, filled: Picture)
    requires Fresh(sc) && c.dialed.Valid() && (c.width == 0 || c.height == 0) && Played(sc, c, t, view, made, filled)
    ensures var s := sc.session.state;
            s.texture.Some? && s.HasArea() ==> Agrees(t.pictures[|t.pictures| - 1], view, s.width, s.height, sc.asked)
  {
    hide AgreesAt, Shows, Settled, Announced, Covered;
    var s, q := sc.session.state, Checked(sc.session, c);
    assert q.state == s && q.events == [] && q.requests == [];
    if s.texture.Some? && s.HasArea() {
      forall x: nat, y: nat | x < s.width && y < s.height && Covered(sc.asked, x, y)
        ensures AgreesAt(t.pictures[|t.pictures| - 1], view, s.width, s.height, x, y)
      {
        NothingCovered(x, y);
        AnnouncedAgrees(sc.picture, sc.view, view, s.width, s.height, [], x, y);
      }
    }
  }

  lemma FullFrame(sc: Screen, c: Call, t: Trace, view: seq<byte>, made: Picture, filled: Picture)
    requires Fresh(sc) && c.dialed.Valid() && c.width != 0 && c.height != 0 && Played(sc, c, t, view, made, filled)
    ensures var q := Checked(sc.session, c);
            q.state.texture.Some? && q.state.HasArea() ==>
              Agrees(t.pictures[|t.pictures| - 1], view, q.state.width, q.state.height, Asked(sc.asked, q))
  {
    hide Checked, Agrees, Shows, Settled, Announced, OnPicture, Asked, Remade, Replay;
    var q := Checked(sc.session, c);
    if q.state.texture.Some? && q.state.HasArea() {
      SizesKept(sc.session, c);
      PicturesOf(t, q.events, c.width, c.height);
      CallAgrees(sc.session, c, t, sc.view, view, sc.asked);
    }
  }

  lemma PicturesOf(t: Trace, es: seq<Event>, w: nat, h: nat)
    requires Replay(t, es, w, h)
    ensures |t.pictures| == |es| + 1
  {
  }

  /** A call that leaves memory mapped ended normally, with the size it was called for; and where nothing
      was made anew, that was the size before. */
  lemma SizesKept(s: Session, c: Call)
    requires s.Valid() && c.dialed.Valid() && c.width != 0 && c.height != 0 && PipeSafety.MemoryHeld(s.state)
    requires var q := Checked(s, c); q.ending != Lost && q.state.texture.Some?
    ensures var q := Checked(s, c);
            q.ending in {Going, Done} && q.state.width == c.width && q.state.height == c.height &&
            (!Remade(q.events) ==> s.state.texture.Some? && s.state.width == c.width && s.state.height == c.height)
  {
    hide Receive, Connect, Resize, PictureBytes, Remade, BlitsOf;
    var r := Resize(Connect(Start(s), c), c);
    var rq := Receive(r, c.answers);
    assert Checked(s, c) == Flush(rq) && rq.ending == Checked(s, c).ending && rq.state == Checked(s, c).state;
    OpeningSized(s, c);
    ReceiveSized(r, c.answers, c.width, c.height);
    WentOn(s, c);
    OpeningAwake(s, c);
    ReceiveAwake(r, c.answers, s.state, c.width, c.height);
    FlushRemakesNothing(rq);
  }

  /** While connected the size is that of the call; where the call was left early, nothing is mapped. */
  predicate SizedRun(r: Run, w: uint32, h: uint32) {
    PipeSafety.MemoryHeld(r.state) && (r.state.connected ==> r.state.width == w && r.state.height == h) &&
    (r.ending == Going ==> r.state.connected) && (r.ending == Stopped ==> r.state.texture.None?)
  }

  lemma OpeningSized(s: Session, c: Call)
    requires s.Valid() && c.dialed.Valid() && c.width != 0 && c.height != 0 && PipeSafety.MemoryHeld(s.state)
    ensures var r := Resize(Connect(Start(s), c), c);
            PipeSafety.MemoryHeld(r.state) && (r.ending == Going ==> SizedRun(r, c.width, c.height)) &&
            (r.ending == Stopped ==> r.state.texture.None?) && r.ending in {Going, Stopped}
  {
    hide Framing.Sentinel, PictureBytes;
  }

  lemma OnePassSized(r: Run, a: Answer, w: uint32, h: uint32)
    requires r.Valid() && SizedRun(r, w, h) && r.ending == Going
    ensures SizedRun(OnePass(r, a), w, h)
  {
    hide Framing.Step, Framing.Sentinel, PictureBytes, Handle;
    var p := Framing.Step(r.state.link, r.wire, a.tick);
    if p.outcome.Dispatch? { HandleSized(r.state.(link := p.link), p.outcome.msg.kind, r.boxes, a); }
  }

  lemma HandleSized(s: State, kind: uint32, boxes: seq<Rects.Rect>, a: Answer)
    requires Framing.Sized(s.link) && s.connected && PipeSafety.MemoryHeld(s)
    ensures var e := Handle(s, kind, boxes, a);
            PipeSafety.MemoryHeld(e.state) && (e.stop <==> !e.state.connected) && (e.stop ==> e.state.texture.None?) &&
            (e.state.connected ==> e.state.width == s.width && e.state.height == s.height)
  {
    hide Rects.MergeOne, RequestOf, PictureBytes, Framing.Sentinel;
  }

  lemma {:induction false} ReceiveSized(r: Run, answers: seq<Answer>, w: uint32, h: uint32)
    requires r.Valid() && (r.ending == Going ==> SizedRun(r, w, h)) && (r.ending == Stopped ==> r.state.texture.None?)
    ensures var q := Receive(r, answers);
            (r.ending == Going ==> SizedRun(q, w, h)) && (q.ending == Stopped ==> q.state.texture.None?)
    decreases |answers|
  {
    hide OnePass, SizedRun;
    if answers != [] && r.ending == Going {
      OnePassSized(r, answers[0], w, h);
      var q := OnePass(r, answers[0]);
      StoppedUnmapped(q, w, h);
      ReceiveSized(q, answers[1..], w, h);
      if q.ending != Going { assert Receive(q, answers[1..]) == q; }
    } else if r.ending == Going {
      StoppedUnmapped(r, w, h);
    }
  }

  lemma StoppedUnmapped(r: Run, w: uint32, h: uint32)
    requires SizedRun(r, w, h)
    ensures r.ending == Stopped ==> r.state.texture.None?
  {
  }

  /** Cache agreement over any run of frames: whenever the overlay is drawn, the texture agrees with
      shared memory on everything asked for since the mapping. */
  lemma {:induction false} AlwaysFresh(sc: Screen, turns: seq<Turn>)
    requires Fresh(sc) && AllLegal(sc, turns)
    ensures Fresh(After(sc, turns))
    decreases |turns|
  {
    hide Fresh, Next, Played;
    if turns != [] {
      NextFresh(sc, turns[0]);
      AlwaysFresh(Next(sc, turns[0]), turns[1..]);
    }
  }

  ghost predicate AllLegal(sc: Screen, turns: seq<Turn>)
    decreases |turns|
  {
    turns != [] ==> Legal(sc, turns[0]) && AllLegal(Next(sc, turns[0]), turns[1..])
  }

  ghost function After(sc: Screen, turns: seq<Turn>): Screen
    requires AllLegal(sc, turns)
    decreases |turns|
  {
    if turns == [] then sc else After(Next(sc, turns[0]), turns[1..])
  }

  lemma NextFresh(sc: Screen, turn: Turn)
    requires Fresh(sc) && Legal(sc, turn)
    ensures Fresh(Next(sc, turn))
  {
    match turn
    case ReleaseData => NoPictureAgrees(sc);
    case Other(op) => OtherFresh(sc, op);
    case Draw(c, t, view, made, filled) => DrawFresh(sc, c, t, view, made, filled);
  }

  lemma NoPictureAgrees(sc: Screen)
    requires Fresh(sc)
    ensures Fresh(sc.(picture := NoPicture))
  {
  }

  lemma OtherFresh(sc: Screen, op: PipeSafety.Op)
    requires Fresh(sc) && !op.Check?
    ensures Fresh(sc.(session := PipeSafety.Perform(sc.session, op)))
  {
    hide Agrees, PictureBytes, Framing.Sentinel;
  }

  lemma DrawFresh(sc: Screen, c: Call, t: Trace, view: seq<byte>, made: Picture, filled: Picture)
    requires Fresh(sc) && c.dialed.Valid() && Played(sc, c, t, view, made, filled)
    ensures Fresh(Next(sc, Draw(c, t, view, made, filled)))
  {
    hide Checked, Agrees, Shows, Replay, Settled, Announced, OnPicture, PipeSafety.MemoryHeld;
    CheckKeepsMemory(sc.session, c);
    if c.width == 0 || c.height == 0 {
      EmptyFrame(sc, c, t, view, made, filled);
      EmptyAsked(sc, c);
    } else {
      FullFrame(sc, c, t, view, made, filled);
    }
    var q := Checked(sc.session, c);
    if q.state.texture.Some? {
      FilledAgrees(made, filled, view, q.state.width, q.state.height, Asked(sc.asked, q));
    }
  }

  lemma EmptyAsked(sc: Screen, c: Call)
    requires sc.session.Valid() && c.dialed.Valid() && (c.width == 0 || c.height == 0)
    ensures var q := Checked(sc.session, c);
            q.state == sc.session.state && (q.state.texture.Some? ==> Asked(sc.asked, q) == sc.asked)
  {
    assert sc.asked + [] == sc.asked;
  }

  /** A new pipe without a texture is where such runs begin. */
  lemma NewIsFresh(sc: Screen)
    requires OverlayPipe.Fresh(sc.session)
    ensures Fresh(sc)
  {
  }
}
