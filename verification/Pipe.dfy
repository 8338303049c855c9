/** The overlay side of the pipe to Mumble: connection, shared memory, and the receive loop. */
module OverlayPipe {
  import opened Bytes
  import opened Framing
  import opened Options
  import Rects

  /** The answers to one SHMEM message: CreateFileMapping returned a handle, its last error was
      ERROR_ALREADY_EXISTS, MapViewOfFile and VirtualQuery succeeded, and the size of the view. */
  datatype MapAnswer = MapAnswer(handle: bool, existed: bool, view: bool, queried: bool, region: nat)

  /** The answers to one pass of the receive loop. */
  datatype Answer = Answer(tick: Tick, mapping: MapAnswer, ackSent: bool)

  /** One call of checkMessage: its arguments and the answers of the operating system. */
  datatype Call = Call(width: uint32, height: uint32, connects: bool, dialed: Wire, pid: uint32,
                       pidSent: bool, initSent: bool, answers: seq<Answer>)

  /** What the class does to the outside: messages written, and the calls of its virtual methods. To
      blit, a derived class also looks whether there is an active area. */
  datatype Event =
    | Sent(kind: uint32, words: seq<uint32>)
    | NewTexture(width: uint32, height: uint32)
    | SetRect
    | Blit(x: uint32, y: uint32, w: uint32, h: uint32, active: bool)

  const INIT: uint32 := 0
  const SHMEM: uint32 := 1
  const BLIT: uint32 := 2
  const ACTIVE: uint32 := 3
  const PID: uint32 := 4

  /** The fields of the class. The texture is the mapped view, known by its size in bytes. */
  datatype State = State(connected: bool, memory: bool, texture: Option<nat>, link: Link,
                         width: uint32, height: uint32,
                         left: uint32, top: uint32, right: uint32, bottom: uint32)
  {
    predicate HasArea() { left != right }
  }

  function Released(s: State): State {
    if s.memory then s.(memory := false, texture := None, left := 0, top := 0, right := 0, bottom := 0) else s
  }

  function Disconnected(s: State): (r: State)
    requires Sized(s.link)
    ensures Sized(r.link)
  {
    Released(s).(connected := false, width := 0, height := 0, link := s.link.(header := Sentinel(s.link.header)))
  }

  function AfterSend(s: State, sent: bool): (r: State)
    requires Sized(s.link)
    ensures Sized(r.link)
  {
    if sent then s else Disconnected(s)
  }

  /** The size of the picture as the code computes it, in 32-bit arithmetic. */
  function PictureBytes(width: uint32, height: uint32): uint32 {
    Mul32(Mul32(height, width), 4)
  }

  datatype Effect = Effect(state: State, boxes: seq<Rects.Rect>, requests: seq<Rects.Rect>, events: seq<Event>, stop: bool)

  function MapMemory(s: State, boxes: seq<Rects.Rect>, a: Answer): (e: Effect)
    requires Sized(s.link)
    ensures Sized(e.state.link) && e.boxes == boxes && e.requests == []
  {
    var r := Released(s);
    if !a.mapping.existed || !a.mapping.handle then Effect(r.(memory := false), boxes, [], [], false)
    else if !a.mapping.view then Effect(r.(memory := false, texture := None), boxes, [], [], false)
    else if !a.mapping.queried || a.mapping.region < PictureBytes(s.width, s.height) then
      Effect(r.(memory := false, texture := None), boxes, [], [], false)
    else
      var mapped := r.(memory := true, texture := Some(a.mapping.region));
      if !a.ackSent then Effect(Disconnected(mapped), boxes, [], [Sent(SHMEM, [])], true)
      else Effect(mapped, boxes, [], [Sent(SHMEM, []), NewTexture(s.width, s.height)], false)
  }

  /** The rectangle of a BLIT message, read from the body buffer with C's conversions. */
  function RequestOf(body: seq<byte>): Rects.Rect
    requires |body| >= 16
  {
    var (x, y, w, h) := (Field(body, 0), Field(body, 4), Field(body, 8), Field(body, 12));
    Rects.Rect(Signed(x), Signed(y), Signed(Add32(x, w)), Signed(Add32(y, h)))
  }

  function Activate(s: State, boxes: seq<Rects.Rect>): Effect
    requires Sized(s.link)
  {
    var (x, y, w, h) := (Field(s.link.body, 0), Field(s.link.body, 4), Field(s.link.body, 8), Field(s.link.body, 12));
    var active := s.(left := x, top := y, right := Add32(x, w), bottom := Add32(y, h));
    Effect(active, boxes, [], if s.texture.Some? then [SetRect, Blit(0, 0, s.width, s.height, active.HasArea())] else [], false)
  }

  /** The switch over the message type. */
  function Handle(s: State, kind: uint32, boxes: seq<Rects.Rect>, a: Answer): (e: Effect)
    requires Sized(s.link)
    ensures Sized(e.state.link)
  {
    if kind == SHMEM then MapMemory(s, boxes, a)
    else if kind == BLIT then
      var r := RequestOf(s.link.body);
      Effect(s, Rects.MergeOne(boxes, r), [r], [], false)
    else if kind == ACTIVE then Activate(s, boxes)
    else Effect(s, boxes, [], [], false)
  }

  /** Going: the loop runs. Done: it was left for want of bytes. Stopped: checkMessage returned from
      inside the loop. Lost: a pass went astray. */
  datatype Ending = Going | Done | Stopped | Lost

  /** One call in progress. On the current connection, msgs have been dispatched so far; requests
      are the rectangles this call has received. */
  datatype Run = Run(state: State, wire: Wire, msgs: seq<Msg>, boxes: seq<Rects.Rect>,
                     requests: seq<Rects.Rect>, events: seq<Event>, ending: Ending)
  {
    predicate Valid() { Sized(state.link) && wire.Valid() }
  }

  function OnePass(r: Run, a: Answer): (q: Run)
    requires r.Valid()
    ensures q.Valid() && q.wire.stream == r.wire.stream
  {
    var p := Step(r.state.link, r.wire, a.tick);
    var s := r.state.(link := p.link);
    match p.outcome
    case Failed => r.(state := Disconnected(s), wire := p.wire, ending := Stopped)
    case Idle => r.(state := s, wire := p.wire, ending := Done)
    case Again => r.(state := s, wire := p.wire)
    case Astray => r.(state := s, wire := p.wire, ending := Lost)
    case Dispatch(m) =>
      var e := Handle(s, m.kind, r.boxes, a);
      Run(e.state, p.wire, r.msgs + [m], e.boxes, r.requests + e.requests, r.events + e.events,
          if e.stop then Stopped else Going)
  }

  /** The loop. When the answers run out, the next peek finds nothing. */
  function Receive(r: Run, answers: seq<Answer>): (q: Run)
    requires r.Valid()
    ensures q.Valid() && q.wire.stream == r.wire.stream
    decreases |answers|
  {
    if answers == [] || r.ending != Going then r else Receive(OnePass(r, answers[0]), answers[1..])
  }

  function BlitOf(b: Rects.Rect, active: bool): Event {
    Blit(Wrap(b.left), Wrap(b.top), Sub32(b.right, b.left), Sub32(b.bottom, b.top), active)
  }

  function BlitsOf(boxes: seq<Rects.Rect>, active: bool): (es: seq<Event>)
    ensures |es| == |boxes|
  {
    seq(|boxes|, i requires 0 <= i < |boxes| => BlitOf(boxes[i], active))
  }

  /** The last lines of checkMessage: blit every box, if the loop was left normally and memory is mapped. */
  function Flush(r: Run): (q: Run)
    requires r.Valid()
    ensures q.Valid()
  {
    if r.ending in {Stopped, Lost} || r.state.texture.None? then r
    else r.(events := r.events + BlitsOf(r.boxes, r.state.HasArea()))
  }

  /** Connecting, and announcing the process. */
  function Connect(r: Run, c: Call): (q: Run)
    requires r.Valid() && c.dialed.Valid()
    ensures q.Valid()
  {
    if r.state.connected then r
    else if !c.connects then r.(ending := Stopped)
    else
      var s := r.state.(connected := true, width := 0, height := 0);
      Run(AfterSend(s, c.pidSent), c.dialed, [], [], [], [Sent(PID, [c.pid])], if c.pidSent then Going else Stopped)
  }

  /** Starting over when the picture has another size. */
  function Resize(r: Run, c: Call): (q: Run)
    requires r.Valid()
    ensures q.Valid()
  {
    if r.ending != Going || (r.state.width == c.width && r.state.height == c.height) then r
    else
      var s := Released(r.state).(width := c.width, height := c.height);
      r.(state := AfterSend(s, c.initSent), events := r.events + [Sent(INIT, [c.width, c.height])],
         ending := if c.initSent then Going else Stopped)
  }

  /** Between calls: the fields, the connection, and what was dispatched on it. */
  datatype Session = Session(state: State, wire: Wire, msgs: seq<Msg>) {
    predicate Valid() { Sized(state.link) && wire.Valid() }
  }

  /** A pipe that has never been used. */
  predicate Fresh(s: Session) {
    s.Valid() && !s.state.connected && !s.state.memory && s.state.texture.None? && s.state.width == s.state.height == 0 &&
    BodyLength(s.state.link.header) == -1 && s.state.link.already == 0 && s.msgs == []
  }

  function Start(s: Session): Run { Run(s.state, s.wire, s.msgs, [], [], [], Going) }

  function Checked(s: Session, c: Call): (q: Run)
    requires s.Valid() && c.dialed.Valid()
    ensures q.Valid()
  {
    if c.width == 0 || c.height == 0 then Start(s).(ending := Done)
    else Flush(Receive(Resize(Connect(Start(s), c), c), c.answers))
  }

  class Pipe {
    var connected: bool
    var wire: Wire
    var memory: bool
    var texture: Option<nat>
    const header: array<byte>
    const body: array<byte>
    var already: nat
    var width: uint32
    var height: uint32
    var left: uint32
    var top: uint32
    var right: uint32
    var bottom: uint32
    ghost var dispatched: seq<Msg>

    ghost predicate Valid()
      reads this
    {
      header.Length == HEADER_SIZE && body.Length == BODY_SIZE && header != body && wire.Valid()
    }

    ghost function LinkNow(): (l: Link)
      requires Valid()
      reads this, header, body
      ensures Sized(l)
    {
      Link(header[..], body[..], already)
    }

    ghost function Now(): State
      requires Valid()
      reads this, header, body
    {
      State(connected, memory, texture, LinkNow(), width, height, left, top, right, bottom)
    }

    ghost function SessionNow(): (s: Session)
      requires Valid()
      reads this, header, body
      ensures s.Valid()
    {
      Session(Now(), wire, dispatched)
    }

    constructor ()
      ensures Valid() && fresh(header) && fresh(body) && Fresh(SessionNow())
      ensures left == 0 && top == 0 && right == 0 && bottom == 0
    {
      connected, memory, texture := false, false, None;
      wire := Wire([], 0, 0);
      header, body := new byte[HEADER_SIZE], new byte[BODY_SIZE];
      already, width, height := 0, 0, 0;
      left, top, right, bottom := 0, 0, 0, 0;
      dispatched := [];
      new;
      header[4], header[5], header[6], header[7] := 255, 255, 255, 255;
      assert header[..][4..8] == [255, 255, 255, 255];
    }

    static method Fill(buffer: array<byte>, at: nat, data: seq<byte>)
      requires at + |data| <= buffer.Length
      modifies buffer
      ensures buffer[..] == Splice(old(buffer[..]), at, data)
    {
      for i := 0 to |data|
        invariant forall j :: 0 <= j < buffer.Length ==>
          buffer[j] == if at <= j < at + i then data[j - at] else old(buffer[..])[j]
      {
        buffer[at + i] := data[i];
      }
    }

    method ClearLength()
      requires Valid()
      modifies header
      ensures header[..] == Sentinel(old(header[..]))
    {
      Fill(header, 4, [255, 255, 255, 255]);
    }

    method Release()
      requires Valid()
      modifies `memory, `texture, `left, `top, `right, `bottom
      ensures Valid() && Now() == Released(old(Now()))
    {
      if memory {
        memory := false;
        if texture.Some? {
          texture := None;
        }
        left, top, right, bottom := 0, 0, 0, 0;
      }
    }

    method Disconnect()
      requires Valid()
      modifies `connected, `memory, `texture, `width, `height, `left, `top, `right, `bottom, header
      ensures Valid() && Now() == Disconnected(old(Now()))
    {
      Release();
      if connected {
        connected := false;
      }
      width, height := 0, 0;
      ClearLength();
    }

    /** Writing either succeeds or ends the connection. */
    method SendMessage(written: bool) returns (ok: bool)
      requires Valid()
      modifies `connected, `memory, `texture, `width, `height, `left, `top, `right, `bottom, header
      ensures Valid() && ok == written && Now() == AfterSend(old(Now()), written)
    {
      if written {
        return true;
      }
      Disconnect();
      ok := false;
    }

    method ReadFile(buffer: array<byte>, want: nat) returns (n: nat)
      requires Valid() && (buffer == header || buffer == body)
      requires already + Min(want, wire.Available()) <= buffer.Length
      modifies `wire, `already, buffer
      ensures Valid() && n == Min(want, old(wire).Available())
      ensures buffer[..] == Splice(old(buffer[..]), old(already), old(wire).stream[old(wire).pos..old(wire).pos + n])
      ensures already == old(already) + n && wire == old(wire).(pos := old(wire).pos + n)
    {
      n := Min(want, wire.Available());
      Fill(buffer, already, wire.stream[wire.pos..wire.pos + n]);
      wire := wire.(pos := wire.pos + n);
      already := already + n;
    }

    method ReceiveBody(available: uint32, t: Tick) returns (outcome: Outcome)
      requires Valid()
      modifies `wire, `already, header, body
      ensures Valid() && Framing.Pass(LinkNow(), wire, outcome) == ReadBody(old(LinkNow()), old(wire), available, t)
    {
      hide U32, Signed, Splice;
      var length := Signed(U32(header[4..8]));
      assert header[4..8] == header[..][4..8];
      if !t.bodyOk {
        return Failed;
      }
      wire := wire.Arrive(t.beforeBody);
      var want := Sub32(length, already);
      if already + Min(want, wire.Available()) > BODY_SIZE {
        return Astray;
      }
      var n := ReadFile(body, want);
      if Signed(available) < length {
        return Again;
      }
      if !(0 <= length <= BODY_SIZE) {
        return Astray;
      }
      already := 0;
      assert header[8..12] == header[..][8..12] && body[..length] == body[..][..length];
      outcome := Dispatch(Msg(U32(header[8..12]), body[..length]));
      ClearLength();
    }

    /** The header half of a pass: either it ends the pass, or a body read is to follow. */
    method ReceiveHeader(available: uint32, t: Tick) returns (ended: Option<Outcome>, bytesLeft: uint32)
      requires Valid()
      modifies `wire, `already, header
      ensures Valid()
      ensures ReadHeader(old(LinkNow()), old(wire), available, t) ==
              match ended
              case Some(outcome) => Framing.Pass(LinkNow(), wire, outcome)
              case None => ReadBody(LinkNow(), wire, bytesLeft, t)
    {
      hide ReadBody, U32, Signed, Splice;
      bytesLeft := available;
      if !t.headerOk {
        return Some(Failed), available;
      }
      if already > HEADER_SIZE {
        return Some(Astray), available;
      }
      wire := wire.Arrive(t.beforeHeader);
      var n := ReadFile(header, HEADER_SIZE - already);
      bytesLeft := Sub32(bytesLeft, n);
      if already != HEADER_SIZE {
        return Some(Idle), bytesLeft;
      }
      already := 0;
      assert header[0..4] == header[..][0..4] && header[4..8] == header[..][4..8];
      if U32(header[0..4]) != MAGIC {
        return Some(Failed), bytesLeft;
      }
      if Signed(bytesLeft) < Signed(U32(header[4..8])) {
        return Some(Again), bytesLeft;
      }
      ended := None;
    }

    /** One pass over the wire, exactly as the specification says. */
    method ReceiveOnce(t: Tick) returns (outcome: Outcome)
      requires Valid()
      modifies `wire, `already, header, body
      ensures Valid() && Framing.Pass(LinkNow(), wire, outcome) == Step(old(LinkNow()), old(wire), t)
    {
      hide ReadBody, U32, Signed;
      if !t.peekOk {
        return Failed;
      }
      wire := wire.Arrive(t.beforePeek);
      var bytesLeft := Wrap(wire.Available());
      if bytesLeft == 0 {
        return Idle;
      }
      assert header[4..8] == header[..][4..8];
      if Signed(U32(header[4..8])) == -1 {
        var ended, rest := ReceiveHeader(bytesLeft, t);
        if ended.Some? {
          return ended.value;
        }
        bytesLeft := rest;
      }
      outcome := ReceiveBody(bytesLeft, t);
    }

    method OpenMemory(boxes: seq<Rects.Rect>, a: Answer) returns (events: seq<Event>, stop: bool)
      requires Valid()
      modifies `connected, `memory, `texture, `width, `height, `left, `top, `right, `bottom, header
      ensures Valid() && Effect(Now(), boxes, [], events, stop) == MapMemory(old(Now()), boxes, a)
    {
      events, stop := [], false;
      Release();
      memory := a.mapping.handle;
      if !a.mapping.existed {
        if memory {
          memory := false;
          return;
        }
      }
      if !memory {
        return;
      }
      texture := if a.mapping.view then Some(a.mapping.region) else None;
      if texture.None? {
        memory := false;
        return;
      }
      if !a.mapping.queried || a.mapping.region < Mul32(Mul32(height, width), 4) {
        texture := None;
        memory := false;
        return;
      }
      events := [Sent(SHMEM, [])];
      var sent := SendMessage(a.ackSent);
      if !sent {
        return events, true;
      }
      events := events + [NewTexture(width, height)];
    }

    /** The switch over the message type, with the merge loop in place for BLIT. */
    method HandleMessage(kind: uint32, boxes: seq<Rects.Rect>, a: Answer)
      returns (boxes': seq<Rects.Rect>, ghost requests: seq<Rects.Rect>, events: seq<Event>, stop: bool)
      requires Valid()
      modifies `connected, `memory, `texture, `width, `height, `left, `top, `right, `bottom, header
      ensures Valid() && Effect(Now(), boxes', requests, events, stop) == Handle(old(Now()), kind, boxes, a)
    {
      hide MapMemory, U32, Signed, Rects.MergeOne;
      boxes', requests, events, stop := boxes, [], [], false;
      assert body[0..4] == body[..][0..4] && body[4..8] == body[..][4..8];
      assert body[8..12] == body[..][8..12] && body[12..16] == body[..][12..16];
      var x, y, w, h := U32(body[0..4]), U32(body[4..8]), U32(body[8..12]), U32(body[12..16]);
      if kind == SHMEM {
        events, stop := OpenMemory(boxes, a);
      } else if kind == BLIT {
        var r := Rects.Rect(Signed(x), Signed(y), Signed(Add32(x, w)), Signed(Add32(y, h)));
        requests := [r];
        boxes' := Rects.MergeBlit(boxes, r);
      } else if kind == ACTIVE {
        left, top, right, bottom := x, y, Add32(x, w), Add32(y, h);
        if texture.Some? {
          events := [SetRect, Blit(0, 0, width, height, left != right)];
        }
      }
    }

    /** Connecting if necessary, and announcing the process. */
    method Dial(c: Call) returns (events: seq<Event>, ready: bool)
      requires Valid() && c.dialed.Valid()
      modifies this, header
      ensures Valid()
      ensures Connect(Start(old(SessionNow())), c) ==
              Run(Now(), wire, dispatched, [], [], events, if ready then Going else Stopped)
    {
      hide Sentinel, Released;
      if connected {
        return [], true;
      }
      if !c.connects {
        return [], false;
      }
      connected, wire, dispatched, width, height := true, c.dialed, [], 0, 0;
      events := [Sent(PID, [c.pid])];
      ready := SendMessage(c.pidSent);
    }

    /** Starting over for another picture size. */
    method Announce(c: Call, sofar: seq<Event>) returns (events: seq<Event>, ready: bool)
      requires Valid()
      modifies this, header
      ensures Valid()
      ensures Resize(Run(old(Now()), old(wire), old(dispatched), [], [], sofar, Going), c) ==
              Run(Now(), wire, dispatched, [], [], events, if ready then Going else Stopped)
    {
      hide Sentinel;
      if width == c.width && height == c.height {
        return sofar, true;
      }
      Release();
      width, height := c.width, c.height;
      events := sofar + [Sent(INIT, [width, height])];
      ready := SendMessage(c.initSent);
    }

    /** The first half of checkMessage. */
    method Prepare(c: Call) returns (events: seq<Event>, ready: bool)
      requires Valid() && c.dialed.Valid()
      modifies this, header
      ensures Valid()
      ensures Resize(Connect(Start(old(SessionNow())), c), c) ==
              Run(Now(), wire, dispatched, [], [], events, if ready then Going else Stopped)
    {
      hide Connect;
      events, ready := Dial(c);
      if ready {
        events, ready := Announce(c, events);
      }
    }

    /** The receive loop. */
    method ReceiveAll(answers: seq<Answer>, events0: seq<Event>)
      returns (boxes: seq<Rects.Rect>, ghost requests: seq<Rects.Rect>, events: seq<Event>, ending: Ending)
      requires Valid()
      modifies this, header, body
      ensures Valid()
      ensures Run(Now(), wire, dispatched, boxes, requests, events, ending) ==
              Receive(Run(old(Now()), old(wire), old(dispatched), [], [], events0, Going), answers)
    {
      hide Step, Handle, Sentinel;
      boxes, requests, events, ending := [], [], events0, Going;
      ghost var begin := Run(Now(), wire, dispatched, boxes, requests, events, ending);
      var k := 0;
      while k < |answers| && ending == Going
        invariant Valid() && 0 <= k <= |answers|
        invariant Receive(begin, answers) ==
                  Receive(Run(Now(), wire, dispatched, boxes, requests, events, ending), answers[k..])
      {
        assert answers[k..][1..] == answers[k + 1..];
        var a := answers[k];
        var outcome := ReceiveOnce(a.tick);
        match outcome {
          case Failed =>
            Disconnect();
            ending := Stopped;
          case Idle =>
            ending := Done;
          case Astray =>
            ending := Lost;
          case Again =>
          case Dispatch(m) =>
            dispatched := dispatched + [m];
            ghost var asked: seq<Rects.Rect>;
            var more, stop;
            boxes, asked, more, stop := HandleMessage(m.kind, boxes, a);
            events, requests := events + more, requests + asked;
            if stop {
              ending := Stopped;
            }
        }
        k := k + 1;
      }
    }

    /** The whole call, as far as the receive loop does not go astray. */
    method CheckMessage(c: Call) returns (events: seq<Event>, ghost requests: seq<Rects.Rect>)
      requires Valid() && c.dialed.Valid()
      modifies this, header, body
      ensures Valid()
      ensures var q := Checked(old(SessionNow()), c);
              SessionNow() == Session(q.state, q.wire, q.msgs) && events == q.events && requests == q.requests
    {
      hide OnePass, Connect, Resize;
      events, requests := [], [];
      if c.width == 0 || c.height == 0 {
        return;
      }
      var ready;
      events, ready := Prepare(c);
      if !ready {
        return;
      }
      var boxes, ending;
      boxes, requests, events, ending := ReceiveAll(c.answers, events);
      if ending == Stopped || ending == Lost || texture.None? {
        return;
      }
      ghost var sofar := events;
      for i := 0 to |boxes|
        invariant events == sofar + BlitsOf(boxes, left != right)[..i]
      {
        var b := boxes[i];
        events := events + [Blit(Wrap(b.left), Wrap(b.top), Sub32(b.right, b.left), Sub32(b.bottom, b.top), left != right)];
      }
    }
  }
}
