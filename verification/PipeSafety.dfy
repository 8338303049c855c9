/** What holds of the pipe over any run: memory, framing across calls, and the boxes finally blitted. */
module PipeSafety {
  import opened Bytes
  import opened Framing
  import opened Options
  import opened OverlayPipe
  import Blitting
  import Rects

  /** The overlay only keeps a view while it holds the mapping and the connection, and the view has
      the size computed for the current picture. */
  predicate MemoryHeld(s: State) {
    s.texture.Some? ==> s.memory && s.connected && s.texture.value >= PictureBytes(s.width, s.height)
  }

  datatype Op = Check(call: Call) | Drop | Send(sent: bool)

  /** What one public operation leaves behind. */
  function Perform(s: Session, op: Op): (r: Session)
    requires s.Valid() && (op.Check? ==> op.call.dialed.Valid())
    ensures r.Valid()
  {
    match op
    case Check(c) => var q := Checked(s, c); Session(q.state, q.wire, q.msgs)
    case Drop => s.(state := Disconnected(s.state))
    case Send(sent) => s.(state := AfterSend(s.state, sent))
  }

  predicate Dialable(ops: seq<Op>) { forall op :: op in ops && op.Check? ==> op.call.dialed.Valid() }

  function PerformAll(s: Session, ops: seq<Op>): (r: Session)
    requires s.Valid() && Dialable(ops)
    ensures r.Valid()
    decreases |ops|
  {
    if ops == [] then s else PerformAll(Perform(s, ops[0]), ops[1..])
  }

  lemma {:induction false} ReceiveKeepsMemory(r: Run, answers: seq<Answer>)
    requires r.Valid() && MemoryHeld(r.state) && (r.ending == Going ==> r.state.connected)
    ensures MemoryHeld(Receive(r, answers).state)
    decreases |answers|
  {
    hide Step, Sentinel, PictureBytes, Rects.MergeOne;
    if answers != [] && r.ending == Going {
      ReceiveKeepsMemory(OnePass(r, answers[0]), answers[1..]);
    }
  }

  /** Through connects, failed connects, resizes, mappings that fail at any step, failed writes and
      disconnects, every reachable state holds the memory its texture pointer needs. */
  lemma {:induction false} MemoryAlwaysHeld(s: Session, ops: seq<Op>)
    requires s.Valid() && Dialable(ops) && MemoryHeld(s.state)
    ensures MemoryHeld(PerformAll(s, ops).state)
    decreases |ops|
  {
    hide Sentinel, PictureBytes, Receive;
    if ops != [] {
      if ops[0].Check? {
        assert ops[0] in ops;
        var c := ops[0].call;
        var r := Resize(Connect(Start(s), c), c);
        ReceiveKeepsMemory(r, c.answers);
      }
      MemoryAlwaysHeld(Perform(s, ops[0]), ops[1..]);
    }
  }

  /** The receive loop is reached exactly when there is a connection, and all that had to be announced
      could be sent: the process on a new connection, the size if it is not the one announced before. */
  lemma OpensIff(s: Session, c: Call)
    requires s.Valid() && c.dialed.Valid() && c.width != 0 && c.height != 0
    ensures var r := Resize(Connect(Start(s), c), c);
            var same := s.state.connected && s.state.width == c.width && s.state.height == c.height;
            (r.ending == Going <==> (s.state.connected || (c.connects && c.pidSent)) && (same || c.initSent)) &&
            (r.ending == Going ==>
              r.state.connected && r.state.width == c.width && r.state.height == c.height &&
              r.events == (if s.state.connected then [] else [Sent(PID, [c.pid])]) +
                          (if same then [] else [Sent(INIT, [c.width, c.height])]) &&
              (same ==> r.state == s.state) && (!same ==> !r.state.memory))
  {
  }

  predicate PassesSizeCheck(region: nat, width: uint32, height: uint32) {
    region >= PictureBytes(width, height)
  }

  /** The size check compares with a 32-bit product, so passing it means that the whole picture is
      mapped exactly for pictures below 4 GiB. */
  lemma SizeCheckSuffices(width: uint32, height: uint32)
    ensures (forall region: nat :: PassesSizeCheck(region, width, height) ==> region >= 4 * (width * height))
            <==> 4 * (width * height) < TWO32
  {
    var n := width * height;
    PictureBytesWrap(width, height);
    hide PictureBytes;
    if 4 * n >= TWO32 {
      var region: nat := PictureBytes(width, height);
      assert PassesSizeCheck(region, width, height) && region < 4 * n;
    }
  }

  lemma PictureBytesWrap(width: uint32, height: uint32)
    ensures PictureBytes(width, height) == Wrap(4 * (width * height))
  {
    assert height * width == width * height;
    ProductWraps(width * height);
  }

  lemma ProductWraps(n: nat)
    ensures Wrap(Wrap(n) * 4) == Wrap(4 * n)
  {
    var q := n / TWO32;
    assert n == q * TWO32 + Wrap(n);
    assert 4 * n == (4 * q) * TWO32 + 4 * Wrap(n);
    ModuloShift(4 * Wrap(n), 4 * q);
  }

  lemma ModuloShift(x: nat, q: nat)
    ensures Wrap(q * TWO32 + x) == Wrap(x)
  {
  }

  /** So what the drawing code reads lies inside the view, for every picture below 4 GiB. */
  lemma ViewHoldsPicture(s: State)
    requires MemoryHeld(s) && s.texture.Some? && 4 * (s.width * s.height) < TWO32
    ensures Blitting.Tight(s.width, s.height).Fits(s.texture.value)
  {
    SizeCheckSuffices(s.width, s.height);
    assert PassesSizeCheck(s.texture.value, s.width, s.height);
    assert s.height * (4 * s.width) == 4 * (s.width * s.height);
  }

  /** What is left of a connection that has ended: nothing, but for the count of bytes read, and the
      active rectangle if no memory was mapped. */
  predicate Ended(s: State) {
    Sized(s.link) && !s.connected && !s.memory && s.texture.None? && s.width == s.height == 0 && BodyLength(s.link.header) == -1
  }

  lemma DisconnectEnds(s: State)
    requires Sized(s.link) && (s.texture.Some? ==> s.memory)
    ensures Ended(Disconnected(s)) && Disconnected(s).link.already == s.link.already
  {
    SentinelReadsMinusOne(s.link.header);
    hide Sentinel, BodyLength;
  }

  /** A pipe that ends its connection is as good as new exactly when it held nothing. */
  lemma DisconnectIsFreshIff(s: Session)
    requires s.Valid() && (s.state.texture.Some? ==> s.state.memory)
    ensures Fresh(Session(Disconnected(s.state), s.wire, [])) <==> s.state.link.already == 0
  {
    DisconnectEnds(s.state);
    hide Disconnected;
  }

  /** The run goes on connected, or has stopped and let go of everything. */
  predicate UpOrEnded(r: Run) {
    (r.state.texture.Some? ==> r.state.memory) && if r.ending == Stopped then Ended(r.state) else r.state.connected
  }

  lemma OnePassUpOrEnded(r: Run, a: Answer)
    requires r.Valid() && UpOrEnded(r) && r.ending == Going
    ensures UpOrEnded(OnePass(r, a))
  {
    hide Step, Sentinel, Disconnected, PictureBytes, Rects.MergeOne, RequestOf, BodyLength;
    var s := r.state.(link := Step(r.state.link, r.wire, a.tick).link);
    DisconnectEnds(s);
    var mapped := Released(s).(memory := true, texture := Some(a.mapping.region));
    DisconnectEnds(mapped);
  }

  lemma {:induction false} ReceiveUpOrEnded(r: Run, answers: seq<Answer>)
    requires r.Valid() && UpOrEnded(r)
    ensures UpOrEnded(Receive(r, answers))
    decreases |answers|
  {
    hide OnePass, UpOrEnded;
    if answers != [] && r.ending == Going {
      OnePassUpOrEnded(r, answers[0]);
      ReceiveUpOrEnded(OnePass(r, answers[0]), answers[1..]);
    }
  }

  /** A call of checkMessage that is not cut short stays connected; one that is, because nobody is there,
      something could not be written, or a pass failed, has let go of the connection and of memory. */
  lemma CallUpOrEnded(s: Session, c: Call)
    requires s.Valid() && c.dialed.Valid() && c.width != 0 && c.height != 0 && (s.state.texture.Some? ==> s.state.memory)
    requires !s.state.connected ==> Ended(s.state)
    ensures UpOrEnded(Checked(s, c))
  {
    hide Receive, Sentinel, Disconnected, BodyLength;
    var r1 := Connect(Start(s), c);
    DisconnectEnds(s.state.(connected := true, width := 0, height := 0));
    var started := Released(r1.state).(width := c.width, height := c.height);
    DisconnectEnds(started);
    var r := Resize(r1, c);
    ReceiveUpOrEnded(r, c.answers);
  }

  /** Writing from outside ends the connection exactly when it fails, and disconnecting always does. */
  lemma SendEndsIff(s: Session, sent: bool)
    requires s.Valid() && s.state.connected && (s.state.texture.Some? ==> s.state.memory)
    ensures var r := Perform(s, Send(sent)); if sent then r == s else Ended(r.state)
    ensures Ended(Perform(s, Drop).state)
  {
    DisconnectEnds(s.state);
    hide Disconnected;
  }

  /** A call for a picture without pixels does nothing at all. */
  lemma EmptyPictureIsIgnored(s: Session, c: Call)
    requires s.Valid() && c.dialed.Valid() && (c.width == 0 || c.height == 0)
    ensures var q := Checked(s, c);
            q.state == s.state && q.wire == s.wire && q.msgs == s.msgs && q.events == [] && q.requests == [] && q.ending == Done
  {
  }

  /** Everything dispatched on the connection is a prefix of its stream; and while connected, the
      receiver knows where in the stream it stands. Between connections, no header is pending. */
  ghost predicate Tracked(s: Session) {
    && s.Valid()
    && (forall m :: m in s.msgs ==> Legal(m))
    && EncodeAll(s.msgs) <= s.wire.stream
    && (if s.state.connected then GoodLengths(s.wire.stream) && InSync(s.state.link, s.wire, s.msgs)
        else BodyLength(s.state.link.header) == -1)
  }

  /** No header is seen split behind its fourth byte during these passes. */
  predicate EarlySplits(r: Run, answers: seq<Answer>)
    requires r.Valid()
    decreases |answers|
  {
    answers != [] && r.ending == Going ==>
      SplitsEarly(r.state.link, r.wire, answers[0].tick) && EarlySplits(OnePass(r, answers[0]), answers[1..])
  }

  function SessionOf(r: Run): Session { Session(r.state, r.wire, r.msgs) }

  lemma OnePassTracked(r: Run, a: Answer)
    requires r.Valid() && Tracked(SessionOf(r)) && r.ending == Going && r.state.connected
    requires SplitsEarly(r.state.link, r.wire, a.tick)
    ensures var q := OnePass(r, a);
            Tracked(SessionOf(q)) && q.ending != Lost && r.msgs <= q.msgs && (q.ending == Going ==> q.state.connected)
  {
    hide Step, GoodLengths, EncodeAll, Held, Sentinel, Rects.MergeOne, PictureBytes, Field, BodyLength;
    StepSafe(r.state.link, r.wire, a.tick, r.msgs);
    var q := OnePass(r, a);
    var p := Step(r.state.link, r.wire, a.tick);
    SentinelReadsMinusOne(p.link.header);
    if p.outcome.Dispatch? {
      InSyncPrefix(p.link, p.wire, q.msgs);
    }
  }

  lemma InSyncPrefix(l: Link, w: Wire, ms: seq<Msg>)
    requires InSync(l, w, ms)
    ensures EncodeAll(ms) <= w.stream
  {
    hide EncodeAll, Held;
    assert EncodeAll(ms) <= w.stream[..w.pos];
  }

  lemma {:induction false} ReceiveTracked(r: Run, answers: seq<Answer>)
    requires r.Valid() && Tracked(SessionOf(r)) && r.ending != Lost && (r.ending == Going ==> r.state.connected)
    requires EarlySplits(r, answers)
    ensures var q := Receive(r, answers); Tracked(SessionOf(q)) && q.ending != Lost && r.msgs <= q.msgs
    decreases |answers|
  {
    hide OnePass, Tracked, SplitsEarly;
    if answers != [] && r.ending == Going {
      OnePassTracked(r, answers[0]);
      ReceiveTracked(OnePass(r, answers[0]), answers[1..]);
    }
  }

  /** What the receiver relies on during one call: a new connection is dialed when no header or body
      was left half read, and sends frames with lengths in range; headers are split early only. */
  predicate Orderly(s: Session, c: Call)
    requires s.Valid() && c.dialed.Valid()
  {
    (!s.state.connected ==> s.state.link.already == 0) &&
    c.dialed.pos == 0 && GoodLengths(c.dialed.stream) &&
    EarlySplits(Resize(Connect(Start(s), c), c), c.answers)
  }

  lemma OpeningTracked(s: Session, c: Call)
    requires Tracked(s) && c.dialed.Valid() && Orderly(s, c)
    ensures var r := Resize(Connect(Start(s), c), c);
            Tracked(SessionOf(r)) && r.ending != Lost && (r.ending == Going ==> r.state.connected)
  {
    hide GoodLengths, EarlySplits, Field, Sentinel, BodyLength;
    SentinelReadsMinusOne(s.state.link.header);
    if !s.state.connected && c.connects {
      assert Held(s.state.link) == [];
      assert c.dialed.stream[..0] == EncodeAll([]) + [];
      assert InSync(s.state.link, c.dialed, []);
    }
  }

  /** One call of checkMessage keeps track: it never goes astray, and the messages dispatched on the
      connection so far are the first ones of the frame-by-frame parse of its stream. */
  lemma CheckTracked(s: Session, c: Call)
    requires Tracked(s) && c.dialed.Valid() && Orderly(s, c)
    ensures var q := Checked(s, c);
            Tracked(SessionOf(q)) && q.ending != Lost && q.msgs <= Parse(q.wire.stream)
  {
    assert s.Valid();
    hide Orderly, Parse, Connect, Resize, Tracked, Receive;
    var q := Checked(s, c);
    if c.width == 0 || c.height == 0 {
      assert SessionOf(q) == s;
    } else {
      OpeningTracked(s, c);
      var r := Resize(Connect(Start(s), c), c);
      assert EarlySplits(r, c.answers) by { EarlySplitsOfOrderly(s, c); }
      ReceiveTracked(r, c.answers);
      assert SessionOf(q) == SessionOf(Receive(r, c.answers));
    }
    TrackedParses(SessionOf(q));
  }

  lemma EarlySplitsOfOrderly(s: Session, c: Call)
    requires s.Valid() && c.dialed.Valid() && Orderly(s, c)
    ensures EarlySplits(Resize(Connect(Start(s), c), c), c.answers)
  {
  }

  lemma TrackedParses(s: Session)
    requires Tracked(s)
    ensures s.msgs <= Parse(s.wire.stream)
  {
    hide Parse, InSync, GoodLengths;
    var rest := s.wire.stream[|EncodeAll(s.msgs)|..];
    assert s.wire.stream == EncodeAll(s.msgs) + rest;
    ParseEncodeAll(s.msgs, rest);
  }

  predicate AllOrderly(s: Session, ops: seq<Op>)
    requires s.Valid() && Dialable(ops)
    decreases |ops|
  {
    ops != [] ==> (ops[0].Check? ==> Orderly(s, ops[0].call)) && AllOrderly(Perform(s, ops[0]), ops[1..])
  }

  /** Framing safety over any run of operations and reconnects, however the bytes are chunked. */
  lemma {:induction false} FramingSafe(s: Session, ops: seq<Op>)
    requires Tracked(s) && Dialable(ops) && AllOrderly(s, ops)
    ensures var r := PerformAll(s, ops); Tracked(r) && r.msgs <= Parse(r.wire.stream)
    decreases |ops|
  {
    hide Parse, Orderly, Checked, InSync, GoodLengths, EncodeAll, Sentinel;
    TrackedParses(s);
    if ops != [] {
      if ops[0].Check? {
        assert ops[0] in ops;
        CheckTracked(s, ops[0].call);
      } else {
        SentinelReadsMinusOne(s.state.link.header);
      }
      FramingSafe(Perform(s, ops[0]), ops[1..]);
    }
  }

  /** From a new pipe on: whatever the operations, the memory is held, and as long as they are orderly
      the messages dispatched are the first ones of the stream. */
  lemma PipeSafe(s: Session, ops: seq<Op>)
    requires Fresh(s) && Dialable(ops)
    ensures MemoryHeld(PerformAll(s, ops).state)
    ensures AllOrderly(s, ops) ==> var r := PerformAll(s, ops); r.msgs <= Parse(r.wire.stream)
  {
    hide Parse, Checked, Orderly, AllOrderly, PerformAll;
    assert EncodeAll(s.msgs) == [] && MemoryHeld(s.state);
    MemoryAlwaysHeld(s, ops);
    if AllOrderly(s, ops) { FramingSafe(s, ops); }
  }

  /** Every pass finds nothing new, and every answer can be sent. */
  predicate Quiet(answers: seq<Answer>) {
    forall i :: 0 <= i < |answers| ==> answers[i].tick == QUIET && answers[i].ackSent
  }

  lemma HandleGoesOn(s: State, kind: uint32, boxes: seq<Rects.Rect>, a: Answer)
    requires Sized(s.link) && a.ackSent
    ensures var e := Handle(s, kind, boxes, a); e.state.link == s.link && !e.stop
  {
    hide Rects.MergeOne, PictureBytes, RequestOf;
  }

  /** The pass that leads from r to q handled the message m. */
  ghost predicate Handled(r: Run, q: Run, m: Msg, a: Answer)
    requires r.Valid() && q.Valid()
  {
    var e := Handle(r.state.(link := q.state.link), m.kind, r.boxes, a);
    q.state == e.state && q.boxes == e.boxes && q.requests == r.requests + e.requests && q.events == r.events + e.events
  }

  lemma OnePassQuiet(r: Run, a: Answer, m: Msg, rest: seq<byte>)
    requires r.Valid() && Blank(r.state.link) && r.wire.Available() < TWO31 && r.ending == Going && Legal(m)
    requires r.wire.stream[r.wire.pos..r.wire.arrived] == Encode(m) + rest && a.tick == QUIET && a.ackSent
    ensures SplitsEarly(r.state.link, r.wire, a.tick)
    ensures var q := OnePass(r, a);
            q.msgs == r.msgs + [m] && q.ending == Going && Blank(q.state.link) && q.wire.Available() < TWO31 &&
            q.state.link.body == Splice(r.state.link.body, 0, m.body) &&
            Handled(r, q, m, a) &&
            q.wire.stream[q.wire.pos..q.wire.arrived] == rest
  {
    hide Step, Handle, Encode, Blank, SplitsEarly;
    NextFrameDispatched(r.state.link, r.wire, m, rest);
    WholeFrameIsNotSplit(r.state.link, r.wire, m, rest);
    var p := Step(r.state.link, r.wire, a.tick);
    HandleGoesOn(r.state.(link := p.link), m.kind, r.boxes, a);
  }

  /** When whole frames have arrived, the loop dispatches and handles all of them. */
  lemma {:induction false} ReceivesArrived(r: Run, answers: seq<Answer>, ms: seq<Msg>)
    requires r.Valid() && Blank(r.state.link) && r.wire.Available() < TWO31 && r.ending == Going
    requires forall m :: m in ms ==> Legal(m)
    requires r.wire.stream[r.wire.pos..r.wire.arrived] == EncodeAll(ms)
    requires Quiet(answers) && |answers| == |ms|
    ensures EarlySplits(r, answers) && Receive(r, answers).msgs == r.msgs + ms
    decreases |ms|
  {
    hide OnePass, Encode, EncodeAll, Blank, Legal, SplitsEarly, Handled, Splice;
    if ms == [] {
      assert r.msgs + ms == r.msgs;
    } else {
      var rest := ms[1..];
      EncodeAllCons(ms);
      assert ms[0] in ms && forall m :: m in rest ==> m in ms;
      OnePassQuiet(r, answers[0], ms[0], EncodeAll(rest));
      var q := OnePass(r, answers[0]);
      ReceivesArrived(q, answers[1..], rest);
      assert q.msgs + rest == r.msgs + ms by { assert ms == [ms[0]] + rest; }
    }
  }

  /** The first call of a new pipe, when Mumble is there, everything can be sent, and whole frames have
      arrived: the call is orderly, and dispatches exactly their messages. */
  lemma FirstCallDispatchesAll(s: Session, c: Call, ms: seq<Msg>)
    requires Fresh(s) && c.width != 0 && c.height != 0 && c.connects && c.pidSent && c.initSent
    requires (forall m :: m in ms ==> Legal(m)) && |EncodeAll(ms)| < TWO31
    requires c.dialed == Wire(EncodeAll(ms), 0, |EncodeAll(ms)|) && Quiet(c.answers) && |c.answers| == |ms|
    ensures Orderly(s, c) && Checked(s, c).msgs == ms
  {
    hide EncodeAll, GoodLengths, EarlySplits, Receive, BodyLength, Quiet, Legal;
    EncodedIsGood(ms);
    OpensIff(s, c);
    var r := Resize(Connect(Start(s), c), c);
    assert r.wire.stream[0..|EncodeAll(ms)|] == EncodeAll(ms);
    ReceivesArrived(r, c.answers, ms);
    assert [] + ms == ms;
  }

  /** The rectangles asked for by the BLIT messages among ms. */
  function BlitRequests(ms: seq<Msg>): seq<Rects.Rect> {
    if ms == [] then []
    else
      var last := ms[|ms| - 1];
      BlitRequests(ms[..|ms| - 1]) + if last.kind == BLIT && |last.body| >= 16 then [RequestOf(last.body)] else []
  }

  predicate WholeBlits(ms: seq<Msg>) {
    forall m :: m in ms && m.kind == BLIT ==> |m.body| >= 16
  }

  /** How many BLIT messages are among ms. */
  function BlitCount(ms: seq<Msg>): nat {
    if ms == [] then 0 else BlitCount(ms[..|ms| - 1]) + if ms[|ms| - 1].kind == BLIT then 1 else 0
  }

  /** There is one request for each BLIT message; and where their bodies are whole, it is the one asked for. */
  predicate Collected(requests: seq<Rects.Rect>, ms: seq<Msg>) {
    |requests| == BlitCount(ms) && (WholeBlits(ms) ==> requests == BlitRequests(ms))
  }

  lemma NothingCollected()
    ensures Collected([], [])
  {
  }

  lemma {:induction false} WholeBlitsCount(ms: seq<Msg>)
    ensures |BlitRequests(ms)| <= BlitCount(ms)
    ensures |BlitRequests(ms)| == BlitCount(ms) <==> WholeBlits(ms)
  {
    hide RequestOf;
    if ms != [] {
      var front, last := ms[..|ms| - 1], ms[|ms| - 1];
      WholeBlitsCount(front);
      assert front + [last] == ms;
      OneMoreRequest(front, last);
    }
  }

  lemma CollectedIff(requests: seq<Rects.Rect>, ms: seq<Msg>)
    requires Collected(requests, ms)
    ensures requests == BlitRequests(ms) <==> WholeBlits(ms)
  {
    hide WholeBlits, BlitRequests, BlitCount;
    WholeBlitsCount(ms);
  }

  lemma SameRequest(body: seq<byte>, buffer: seq<byte>)
    requires 16 <= |body| && body <= buffer
    ensures RequestOf(body) == RequestOf(buffer)
  {
    hide U32;
    assert body[0..4] == buffer[0..4] && body[4..8] == buffer[4..8];
    assert body[8..12] == buffer[8..12] && body[12..16] == buffer[12..16];
  }

  /** The pass handles one more message, or none. */
  lemma OnePassCollects(r: Run, a: Answer, n: nat)
    requires r.Valid() && n <= |r.msgs| && r.boxes == Rects.MergeAll(r.requests)
    requires Collected(r.requests, r.msgs[n..])
    ensures var q := OnePass(r, a);
            r.msgs <= q.msgs && q.boxes == Rects.MergeAll(q.requests) && Collected(q.requests, q.msgs[n..])
  {
    hide Step, Sentinel, Handle, BlitRequests, BlitCount, WholeBlits, Rects.MergeAll;
    var p := Step(r.state.link, r.wire, a.tick);
    if p.outcome.Dispatch? {
      var m := p.outcome.msg;
      HandleCollects(r.state.(link := p.link), m, r.boxes, r.requests, a);
      assert (r.msgs + [m])[n..] == r.msgs[n..] + [m];
      OneMoreRequest(r.msgs[n..], m);
    }
  }

  lemma HandleCollects(s: State, m: Msg, boxes: seq<Rects.Rect>, requests: seq<Rects.Rect>, a: Answer)
    requires Sized(s.link) && boxes == Rects.MergeAll(requests) && m.body <= s.link.body
    ensures var e := Handle(s, m.kind, boxes, a);
            e.boxes == Rects.MergeAll(requests + e.requests) &&
            |e.requests| == (if m.kind == BLIT then 1 else 0) &&
            (m.kind == BLIT && |m.body| >= 16 ==> e.requests == [RequestOf(m.body)])
  {
    hide RequestOf, Rects.MergeOne;
    assert requests + [] == requests;
    if m.kind == BLIT {
      var asked := RequestOf(s.link.body);
      assert (requests + [asked])[..|requests|] == requests;
      if |m.body| >= 16 {
        SameRequest(m.body, s.link.body);
      }
    }
  }

  lemma OneMoreRequest(ms: seq<Msg>, m: Msg)
    ensures WholeBlits(ms + [m]) <==> WholeBlits(ms) && (m.kind == BLIT ==> |m.body| >= 16)
    ensures BlitRequests(ms + [m]) ==
            BlitRequests(ms) + if m.kind == BLIT && |m.body| >= 16 then [RequestOf(m.body)] else []
    ensures BlitCount(ms + [m]) == BlitCount(ms) + if m.kind == BLIT then 1 else 0
  {
    hide RequestOf;
    assert (ms + [m])[..|ms|] == ms;
    if WholeBlits(ms + [m]) {
      assert forall x :: x in ms ==> x in ms + [m];
      assert m in ms + [m];
    }
  }

  lemma {:induction false} ReceiveCollects(r: Run, answers: seq<Answer>, n: nat)
    requires r.Valid() && n <= |r.msgs| && r.boxes == Rects.MergeAll(r.requests)
    requires Collected(r.requests, r.msgs[n..])
    ensures var q := Receive(r, answers);
            n <= |q.msgs| && q.boxes == Rects.MergeAll(q.requests) && Collected(q.requests, q.msgs[n..])
    decreases |answers|
  {
    hide OnePass, Collected;
    if answers != [] && r.ending == Going {
      OnePassCollects(r, answers[0], n);
      ReceiveCollects(OnePass(r, answers[0]), answers[1..], n);
    }
  }

  /** A call that leaves its loop normally, with memory mapped, ends by blitting exactly the merged
      boxes of the rectangles that its BLIT messages asked for. */
  lemma FlushesMergedBoxes(s: Session, c: Call)
    requires s.Valid() && c.dialed.Valid() && c.width != 0 && c.height != 0
    requires var q := Checked(s, c); q.ending in {Going, Done} && q.state.texture.Some?
    ensures var q := Checked(s, c);
            var n := if s.state.connected then |s.msgs| else 0;
            var blits := BlitsOf(Rects.MergeAll(q.requests), q.state.HasArea());
            |blits| <= |q.events| && q.events[|q.events| - |blits|..] == blits &&
            n <= |q.msgs| && (q.requests == BlitRequests(q.msgs[n..]) <==> WholeBlits(q.msgs[n..]))
  {
    hide WholeBlits, BlitRequests, BlitCount, Rects.MergeAll, BlitsOf, AfterSend, Released;
    var r := Resize(Connect(Start(s), c), c);
    var n := if s.state.connected then |s.msgs| else 0;
    assert r.boxes == [] && r.requests == [] && Rects.MergeAll([]) == [] by { NoBoxes(); }
    if n == |r.msgs| {
      assert r.msgs[n..] == [];
      NothingCollected();
      ReceiveCollects(r, c.answers, n);
      CollectedIff(Checked(s, c).requests, Checked(s, c).msgs[n..]);
    }
  }

  /** The rectangle of a BLIT message whose body is short: what is missing is left over from the
      message before. */
  function StaleRequest(earlier: seq<byte>, short: seq<byte>): Rects.Rect
    requires |earlier| >= 16 && |short| < 16
  {
    RequestOf(short + earlier[|short|..])
  }

  lemma StaleBuffer(buffer: seq<byte>, earlier: seq<byte>, short: seq<byte>)
    requires |buffer| == BODY_SIZE && 16 <= |earlier| <= BODY_SIZE && |short| < 16
    ensures RequestOf(Splice(Splice(buffer, 0, earlier), 0, short)) == StaleRequest(earlier, short)
  {
    hide RequestOf;
    var body := short + earlier[|short|..];
    var now := Splice(Splice(buffer, 0, earlier), 0, short);
    assert body <= now by { assert forall i :: 0 <= i < |body| ==> body[i] == now[i]; }
    SameRequest(body, now);
  }

  /** Every step of the mapping succeeds, for a picture of this size. */
  predicate Maps(a: Answer, width: uint32, height: uint32) {
    var m := a.mapping;
    m.handle && m.existed && m.view && m.queried && m.region >= PictureBytes(width, height) && a.ackSent
  }

  /** A legal stream on which that happens: the name of the shared memory, and then a BLIT message
      with less than a rectangle. The rectangle blitted is made of the bytes of the name. */
  lemma ShortBlitIsCompleted(s: Session, c: Call, name: seq<byte>, short: seq<byte>)
    requires Fresh(s) && c.width != 0 && c.height != 0 && c.connects && c.pidSent && c.initSent
    requires 16 <= |name| <= BODY_SIZE && |short| < 16
    requires var ms := [Msg(SHMEM, name), Msg(BLIT, short)]; c.dialed == Wire(EncodeAll(ms), 0, |EncodeAll(ms)|)
    requires Quiet(c.answers) && |c.answers| == 2 && Maps(c.answers[0], c.width, c.height)
    ensures Orderly(s, c)
    ensures var q := Checked(s, c);
            q.msgs == [Msg(SHMEM, name), Msg(BLIT, short)] && q.state.texture.Some? &&
            q.requests == [StaleRequest(name, short)] && BlitRequests(q.msgs) == [] &&
            q.events != [] && q.events[|q.events| - 1] == BlitOf(StaleRequest(name, short), q.state.HasArea())
  {
    var ms := [Msg(SHMEM, name), Msg(BLIT, short)];
    TwoFramesFit(ms[0], ms[1]);
    NoWholeBlits(name, short);
    var r := Resize(Connect(Start(s), c), c);
    FirstCallOpens(s, c);
    hide Fresh, EncodeAll, Encode, Orderly, RequestOf, StaleRequest, Receive, Connect, Resize, PictureBytes, Blank, Quiet, Maps, BlitRequests, Flush, BlitsOf, BlitOf;
    FirstCallDispatchesAll(s, c, ms);
    assert r.wire.stream[0..|EncodeAll(ms)|] == EncodeAll(ms);
    TwoMessages(r, c.answers, name, short);
    FlushOne(Receive(r, c.answers), StaleRequest(name, short));
    assert Flush(Receive(r, c.answers)) == Checked(s, c);
  }

  lemma FlushOne(rq: Run, b: Rects.Rect)
    requires rq.Valid() && rq.ending == Going && rq.state.texture.Some? && rq.boxes == [b]
    ensures var q := Flush(rq);
            q == rq.(events := q.events) && q.events != [] && q.events[|q.events| - 1] == BlitOf(b, rq.state.HasArea())
  {
  }

  lemma FirstCallOpens(s: Session, c: Call)
    requires Fresh(s) && c.width != 0 && c.height != 0 && c.connects && c.pidSent && c.initSent && c.dialed.Valid()
    ensures var r := Resize(Connect(Start(s), c), c);
            r.ending == Going && r.wire == c.dialed && Blank(r.state.link) && r.msgs == [] && r.boxes == [] && r.requests == [] &&
            r.state.width == c.width && r.state.height == c.height
  {
    hide BodyLength, Sentinel;
  }

  /** The loop over a SHMEM message and a short BLIT. */
  lemma TwoMessages(r: Run, answers: seq<Answer>, name: seq<byte>, short: seq<byte>)
    requires r.Valid() && Blank(r.state.link) && r.wire.Available() < TWO31 && r.ending == Going
    requires r.boxes == [] && r.requests == [] && 16 <= |name| <= BODY_SIZE && |short| < 16
    requires r.wire.stream[r.wire.pos..r.wire.arrived] == Encode(Msg(SHMEM, name)) + Encode(Msg(BLIT, short))
    requires Quiet(answers) && |answers| == 2 && Maps(answers[0], r.state.width, r.state.height)
    ensures var q := Receive(r, answers);
            q.ending == Going && q.state.texture.Some? && q.requests == q.boxes == [StaleRequest(name, short)]
  {
    var m1, m2 := Msg(SHMEM, name), Msg(BLIT, short);
    var a1, a2 := answers[0], answers[1];
    assert Encode(m2) + [] == Encode(m2);
    assert a1.tick == QUIET && a1.ackSent && a2.tick == QUIET && a2.ackSent;
    hide Encode, OnePass, PictureBytes, Blank, RequestOf, StaleRequest, Splice, Receive, Quiet, Rects.MergeOne;
    OnePassQuiet(r, a1, m1, Encode(m2));
    var r1 := OnePass(r, a1);
    OnePassQuiet(r1, a2, m2, []);
    TwoPasses(r, answers);
    StaleBuffer(r.state.link.body, name, short);
    AloneMerged(StaleRequest(name, short));
  }

  lemma AloneMerged(b: Rects.Rect)
    ensures Rects.MergeOne([], b) == [b]
  {
    assert [] + [b] == [b];
  }

  lemma TwoFramesFit(m1: Msg, m2: Msg)
    requires Legal(m1) && Legal(m2)
    ensures EncodeAll([m1, m2]) == Encode(m1) + Encode(m2) && |EncodeAll([m1, m2])| < TWO31
  {
    EncodeAllSnoc([], m1);
    EncodeAllSnoc([m1], m2);
    NothingEncoded();
    assert [] + [m1] == [m1] && [m1] + [m2] == [m1, m2] && [] + Encode(m1) == Encode(m1);
  }

  lemma TwoPasses(r: Run, answers: seq<Answer>)
    requires r.Valid() && |answers| == 2 && r.ending == Going && OnePass(r, answers[0]).ending == Going
    ensures Receive(r, answers) == OnePass(OnePass(r, answers[0]), answers[1])
  {
    hide OnePass;
    var r2 := OnePass(OnePass(r, answers[0]), answers[1]);
    assert answers[1..][0] == answers[1] && answers[1..][1..] == [];
    assert Receive(r2, []) == r2;
    assert Receive(OnePass(r, answers[0]), answers[1..]) == Receive(r2, []);
  }

  lemma NoWholeBlits(name: seq<byte>, short: seq<byte>)
    requires |short| < 16
    ensures BlitRequests([Msg(SHMEM, name), Msg(BLIT, short)]) == []
  {
    hide RequestOf;
    var m1, m2 := Msg(SHMEM, name), Msg(BLIT, short);
    OneMoreRequest([], m1);
    OneMoreRequest([m1], m2);
    assert [] + [m1] == [m1] && [m1] + [m2] == [m1, m2];
  }

  lemma NoBoxes()
    ensures Rects.MergeAll([]) == []
  {
  }
}
