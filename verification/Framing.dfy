/** Message framing of the overlay pipe: the wire format, a reference parser, and one pass of the
    receive loop of Pipe::checkMessage over bytes that arrive in arbitrary pieces. */
module Framing {
  import opened Bytes

  const HEADER_SIZE := 12
  const BODY_SIZE := 2048
  const MAGIC: uint32 := 5

  datatype Msg = Msg(kind: uint32, body: seq<byte>)

  predicate Legal(m: Msg) { |m.body| <= BODY_SIZE }

  function Encode(m: Msg): seq<byte>
    requires Legal(m)
  {
    LE32(MAGIC) + LE32(|m.body|) + LE32(m.kind) + m.body
  }

  function EncodeAll(ms: seq<Msg>): seq<byte>
    requires forall m :: m in ms ==> Legal(m)
  {
    if ms == [] then [] else EncodeAll(ms[..|ms| - 1]) + Encode(ms[|ms| - 1])
  }

  function Field(h: seq<byte>, at: nat): uint32
    requires at + 4 <= |h|
  {
    U32(h[at..at + 4])
  }

  /** The signed length field of a header; -1 marks that no header has been read yet. */
  function BodyLength(h: seq<byte>): int
    requires |h| >= HEADER_SIZE
  {
    Signed(Field(h, 4))
  }

  predicate GoodHeader(h: seq<byte>)
    requires |h| >= HEADER_SIZE
  {
    Field(h, 0) == MAGIC && 0 <= BodyLength(h) <= BODY_SIZE
  }

  /** The reference: cut complete frames off the front while the headers are good. */
  function Parse(s: seq<byte>): seq<Msg> {
    if |s| < HEADER_SIZE || !GoodHeader(s) || |s| < HEADER_SIZE + BodyLength(s) then []
    else
      var end := HEADER_SIZE + BodyLength(s);
      [Msg(Field(s, 8), s[HEADER_SIZE..end])] + Parse(s[end..])
  }

  /** What the receiver relies on: a frame that starts with the magic number has a length in range. */
  predicate GoodLengths(s: seq<byte>) {
    |s| < HEADER_SIZE || Field(s, 0) != MAGIC ||
    (GoodHeader(s) && (|s| >= HEADER_SIZE + BodyLength(s) ==> GoodLengths(s[HEADER_SIZE + BodyLength(s)..])))
  }

  /** What the receiver keeps between passes: the header and body buffers and the count of bytes
      already in the one being filled. */
  datatype Link = Link(header: seq<byte>, body: seq<byte>, already: nat)

  predicate Sized(l: Link) { |l.header| == HEADER_SIZE && |l.body| == BODY_SIZE }

  /** One connection: all bytes the peer will ever send, how many have arrived, how many were read. */
  datatype Wire = Wire(stream: seq<byte>, pos: nat, arrived: nat) {
    predicate Valid() { pos <= arrived <= |stream| }

    function Arrive(more: nat): (w: Wire)
      requires Valid()
      ensures w.Valid() && w.pos == pos && w.stream == stream && w.arrived >= arrived
    {
      this.(arrived := Min(arrived + more, |stream|))
    }

    function Available(): (n: nat)
      requires Valid()
    {
      arrived - pos
    }
  }

  /** What the operating system answers during one pass: whether each call succeeds, and how many
      more bytes arrive before it. */
  datatype Tick = Tick(peekOk: bool, beforePeek: nat, headerOk: bool, beforeHeader: nat, bodyOk: bool, beforeBody: nat)

  /** Idle leaves the loop, Again repeats it. Astray is a write outside the buffer, or a body of
      impossible length: the model does not follow the program further. */
  datatype Outcome = Failed | Idle | Again | Astray | Dispatch(msg: Msg)

  datatype Pass = Pass(link: Link, wire: Wire, outcome: Outcome)

  function Sentinel(h: seq<byte>): (r: seq<byte>)
    requires |h| == HEADER_SIZE
    ensures |r| == HEADER_SIZE
  {
    Splice(h, 4, [255, 255, 255, 255])
  }

  function ReadBody(l: Link, w: Wire, left: uint32, t: Tick): (p: Pass)
    requires Sized(l) && w.Valid()
    ensures Sized(p.link) && p.wire.Valid() && p.wire.stream == w.stream && p.wire.pos >= w.pos
    ensures p.outcome.Dispatch? ==> p.outcome.msg.body <= p.link.body
    ensures p.outcome != Idle
  {
    var length := BodyLength(l.header);
    if !t.bodyOk then Pass(l, w, Failed) else
    var w1 := w.Arrive(t.beforeBody);
    var n := Min(Sub32(length, l.already), w1.Available());
    if l.already + n > BODY_SIZE then Pass(l, w1, Astray) else
    var body := Splice(l.body, l.already, w1.stream[w1.pos..w1.pos + n]);
    var w2 := w1.(pos := w1.pos + n);
    if Signed(left) < length then Pass(Link(l.header, body, l.already + n), w2, Again)
    else if !(0 <= length <= BODY_SIZE) then Pass(Link(l.header, body, l.already + n), w2, Astray)
    else Pass(Link(Sentinel(l.header), body, 0), w2, Dispatch(Msg(Field(l.header, 8), body[..length])))
  }

  function ReadHeader(l: Link, w: Wire, left: uint32, t: Tick): (p: Pass)
    requires Sized(l) && w.Valid()
    ensures Sized(p.link) && p.wire.Valid() && p.wire.stream == w.stream && p.wire.pos >= w.pos
    ensures p.outcome.Dispatch? ==> p.outcome.msg.body <= p.link.body
  {
    if !t.headerOk then Pass(l, w, Failed)
    else if l.already > HEADER_SIZE then Pass(l, w, Astray)
    else
      var w1 := w.Arrive(t.beforeHeader);
      var n := Min(HEADER_SIZE - l.already, w1.Available());
      var header := Splice(l.header, l.already, w1.stream[w1.pos..w1.pos + n]);
      var w2 := w1.(pos := w1.pos + n);
      if l.already + n != HEADER_SIZE then Pass(Link(header, l.body, l.already + n), w2, Idle)
      else if Field(header, 0) != MAGIC then Pass(Link(header, l.body, 0), w2, Failed)
      else if Signed(Sub32(left, n)) < BodyLength(header) then Pass(Link(header, l.body, 0), w2, Again)
      else ReadBody(Link(header, l.body, 0), w2, Sub32(left, n), t)
  }

  /** One pass of the loop: peek, and read a header or a body or both. */
  function Step(l: Link, w: Wire, t: Tick): (p: Pass)
    requires Sized(l) && w.Valid()
    ensures Sized(p.link) && p.wire.Valid() && p.wire.stream == w.stream && p.wire.pos >= w.pos
    ensures p.outcome.Dispatch? ==> p.outcome.msg.body <= p.link.body
  {
    if !t.peekOk then Pass(l, w, Failed) else
    var w0 := w.Arrive(t.beforePeek);
    var left := Wrap(w0.Available());
    if left == 0 then Pass(l, w0, Idle)
    else if BodyLength(l.header) == -1 then ReadHeader(l, w0, left, t)
    else ReadBody(l, w0, left, t)
  }

  /** The bytes the receiver has taken off the wire but not dispatched. */
  function Held(l: Link): seq<byte>
    requires Sized(l) && l.already <= BODY_SIZE
  {
    if BodyLength(l.header) == -1 then l.header[..Min(l.already, HEADER_SIZE)]
    else l.header + l.body[..l.already]
  }

  /** The receiver stands at a known place of the stream: everything read so far is the frames of
      the messages dispatched, followed by the bytes it holds of the next frame. */
  ghost predicate InSync(l: Link, w: Wire, ms: seq<Msg>) {
    && Sized(l) && w.Valid() && l.already <= BODY_SIZE
    && (if BodyLength(l.header) == -1 then l.already < HEADER_SIZE
        else GoodHeader(l.header) && l.already <= BodyLength(l.header))
    && (forall m :: m in ms ==> Legal(m))
    && w.stream[..w.pos] == EncodeAll(ms) + Held(l)
  }

  /** This pass reads from the wire into the header. */
  predicate ReadsHeader(l: Link, w: Wire, t: Tick)
    requires Sized(l) && w.Valid()
  {
    BodyLength(l.header) == -1 && t.peekOk && t.headerOk && Wrap(w.Arrive(t.beforePeek).Available()) != 0
  }

  /** How many bytes of the header there are then. */
  function HeaderHeld(l: Link, w: Wire, t: Tick): (k: nat)
    requires w.Valid() && l.already <= HEADER_SIZE
    ensures k <= HEADER_SIZE
  {
    l.already + Min(HEADER_SIZE - l.already, w.Arrive(t.beforePeek).Arrive(t.beforeHeader).Available())
  }

  /** The header read of this pass does not end behind byte 4 and before byte 12. */
  predicate SplitsEarly(l: Link, w: Wire, t: Tick)
    requires Sized(l) && w.Valid()
  {
    ReadsHeader(l, w, t) && l.already <= HEADER_SIZE ==> HeaderHeld(l, w, t) <= 4 || HeaderHeld(l, w, t) == HEADER_SIZE
  }

  lemma FieldsOfFrame(m: Msg, rest: seq<byte>)
    requires Legal(m)
    ensures var s := Encode(m) + rest;
            |s| >= HEADER_SIZE && GoodHeader(s) && BodyLength(s) == |m.body| && Field(s, 8) == m.kind
    ensures var s := Encode(m) + rest; var end := HEADER_SIZE + |m.body|;
            |s| >= end && s[HEADER_SIZE..end] == m.body && s[end..] == rest
  {
    var s := Encode(m) + rest;
    assert s[0..4] == LE32(MAGIC) && s[4..8] == LE32(|m.body|) && s[8..12] == LE32(m.kind);
    LE32U32(MAGIC);
    LE32U32(|m.body|);
    LE32U32(m.kind);
  }

  lemma FrameOfFields(h: seq<byte>, body: seq<byte>)
    requires |h| == HEADER_SIZE && GoodHeader(h) && |body| == BodyLength(h)
    ensures Encode(Msg(Field(h, 8), body)) == h + body
  {
    U32LE32(h[0..4]);
    U32LE32(h[4..8]);
    U32LE32(h[8..12]);
    assert h == h[0..4] + h[4..8] + h[8..12];
  }

  lemma ParseFrame(m: Msg, rest: seq<byte>)
    requires Legal(m)
    ensures Parse(Encode(m) + rest) == [m] + Parse(rest)
  {
    FieldsOfFrame(m, rest);
  }

  /** The reference parser undoes the encoding, whatever follows. */
  lemma {:induction false} ParseEncodeAll(ms: seq<Msg>, rest: seq<byte>)
    requires forall m :: m in ms ==> Legal(m)
    ensures Parse(EncodeAll(ms) + rest) == ms + Parse(rest)
  {
    hide Parse, Encode;
    if ms == [] {
      assert EncodeAll(ms) + rest == rest;
    } else {
      var front, last := ms[..|ms| - 1], ms[|ms| - 1];
      ParseFrame(last, rest);
      ParseEncodeAll(front, Encode(last) + rest);
      assert EncodeAll(ms) + rest == EncodeAll(front) + (Encode(last) + rest);
      assert ms == front + [last];
    }
  }

  /** Good lengths are a property of what lies behind any number of whole frames. */
  lemma {:induction false} GoodLengthsBehind(ms: seq<Msg>, rest: seq<byte>)
    requires forall m :: m in ms ==> Legal(m)
    requires GoodLengths(EncodeAll(ms) + rest)
    ensures GoodLengths(rest)
  {
    if ms == [] {
      assert EncodeAll(ms) + rest == rest;
    } else {
      var front, last := ms[..|ms| - 1], ms[|ms| - 1];
      FieldsOfFrame(last, rest);
      assert EncodeAll(ms) + rest == EncodeAll(front) + (Encode(last) + rest);
      GoodLengthsBehind(front, Encode(last) + rest);
    }
  }

  /** In sync, the bytes held and the bytes still to come start the next frame. */
  lemma HeldIsNext(l: Link, w: Wire, ms: seq<Msg>)
    requires InSync(l, w, ms) && GoodLengths(w.stream)
    ensures GoodLengths(Held(l) + w.stream[w.pos..])
  {
    hide EncodeAll, GoodLengths;
    assert w.stream == w.stream[..w.pos] + w.stream[w.pos..];
    assert w.stream == EncodeAll(ms) + (Held(l) + w.stream[w.pos..]);
    GoodLengthsBehind(ms, Held(l) + w.stream[w.pos..]);
  }

  lemma EncodeAllSnoc(ms: seq<Msg>, m: Msg)
    requires Legal(m) && forall x :: x in ms ==> Legal(x)
    ensures EncodeAll(ms + [m]) == EncodeAll(ms) + Encode(m)
  {
    assert (ms + [m])[..|ms|] == ms;
  }

  lemma SentinelReadsMinusOne(h: seq<byte>)
    requires |h| == HEADER_SIZE
    ensures BodyLength(Sentinel(h)) == -1
  {
    assert Sentinel(h)[4..8] == [255, 255, 255, 255];
  }

  /** Reading n more bytes into what is held keeps the accounting. */
  lemma ReadKeepsAccount(w: Wire, n: nat, sent: seq<byte>, held: seq<byte>, held': seq<byte>)
    requires w.Valid() && w.pos + n <= |w.stream|
    requires w.stream[..w.pos] == sent + held
    requires held' == held + w.stream[w.pos..w.pos + n]
    ensures w.stream[..w.pos + n] == sent + held'
  {
    assert w.stream[..w.pos + n] == w.stream[..w.pos] + w.stream[w.pos..w.pos + n];
  }

  ghost predicate PassSafe(p: Pass, ms: seq<Msg>) {
    match p.outcome
    case Dispatch(m) => InSync(p.link, p.wire, ms + [m])
    case Astray => false
    case Failed => true
    case _ => InSync(p.link, p.wire, ms)
  }

  lemma FillBody(l: Link, w: Wire, n: nat, ms: seq<Msg>)
    requires InSync(l, w, ms) && BodyLength(l.header) != -1
    requires l.already + n <= BodyLength(l.header) && w.pos + n <= w.arrived
    ensures InSync(Link(l.header, Splice(l.body, l.already, w.stream[w.pos..w.pos + n]), l.already + n),
                   w.(pos := w.pos + n), ms)
  {
    hide Field, Encode, EncodeAll, Signed;
    var body := Splice(l.body, l.already, w.stream[w.pos..w.pos + n]);
    var held := l.header + body[..l.already + n];
    assert held == Held(l) + w.stream[w.pos..w.pos + n];
    ReadKeepsAccount(w, n, EncodeAll(ms), Held(l), held);
  }

  lemma FinishBody(l: Link, w: Wire, ms: seq<Msg>)
    requires InSync(l, w, ms) && BodyLength(l.header) == l.already
    ensures InSync(Link(Sentinel(l.header), l.body, 0), w, ms + [Msg(Field(l.header, 8), l.body[..l.already])])
  {
    hide Field, Encode, EncodeAll, Signed;
    var m := Msg(Field(l.header, 8), l.body[..l.already]);
    FrameOfFields(l.header, m.body);
    EncodeAllSnoc(ms, m);
    SentinelReadsMinusOne(l.header);
    assert EncodeAll(ms) + Held(l) == EncodeAll(ms + [m]) + [];
  }

  lemma ReadBodySafe(l: Link, w: Wire, left: uint32, t: Tick, ms: seq<Msg>)
    requires InSync(l, w, ms) && BodyLength(l.header) != -1
    requires Signed(left) <= w.Available()
    ensures PassSafe(ReadBody(l, w, left, t), ms)
  {
    hide Field, EncodeAll, Signed, Held;
    if t.bodyOk {
      var length := BodyLength(l.header);
      var w1 := w.Arrive(t.beforeBody);
      var n := Min(length - l.already, w1.Available());
      assert Sub32(length, l.already) == length - l.already;
      FillBody(l, w1, n, ms);
      if Signed(left) >= length {
        var body := Splice(l.body, l.already, w1.stream[w1.pos..w1.pos + n]);
        FinishBody(Link(l.header, body, length), w1.(pos := w1.pos + n), ms);
      }
    }
  }

  /** The byte count left after a header read never looks larger than what can be read. */
  lemma LeftIsAvailable(left: uint32, n: int, available: nat)
    requires left - n <= available && 0 <= n <= HEADER_SIZE
    ensures Signed(Sub32(left, n)) <= available
  {
  }

  lemma HeaderOfStream(l: Link, w: Wire, ms: seq<Msg>, header: seq<byte>)
    requires InSync(l, w, ms) && BodyLength(l.header) == -1 && GoodLengths(w.stream)
    requires |header| == HEADER_SIZE && header <= Held(l) + w.stream[w.pos..] && Field(header, 0) == MAGIC
    ensures GoodHeader(header)
  {
    hide U32, Encode, EncodeAll, Signed;
    HeldIsNext(l, w, ms);
    var next := Held(l) + w.stream[w.pos..];
    assert header == next[..HEADER_SIZE];
    assert header[0..4] == next[0..4] && header[4..8] == next[4..8];
  }

  lemma ReadHeaderSafe(l: Link, w: Wire, left: uint32, t: Tick, ms: seq<Msg>)
    requires InSync(l, w, ms) && BodyLength(l.header) == -1 && GoodLengths(w.stream)
    requires left <= w.Available()
    requires var k := l.already + Min(HEADER_SIZE - l.already, w.Arrive(t.beforeHeader).Available());
             t.headerOk ==> k <= 4 || k == HEADER_SIZE
    ensures PassSafe(ReadHeader(l, w, left, t), ms)
  {
    hide U32, Encode, EncodeAll, Signed, GoodLengths, Wrap, Sub32, ReadBody;
    if t.headerOk {
      var w1 := w.Arrive(t.beforeHeader);
      var n := Min(HEADER_SIZE - l.already, w1.Available());
      var header := Splice(l.header, l.already, w1.stream[w1.pos..w1.pos + n]);
      var k := l.already + n;
      var w2 := w1.(pos := w1.pos + n);
      assert header[..k] == Held(l) + w1.stream[w1.pos..w1.pos + n];
      ReadKeepsAccount(w1, n, EncodeAll(ms), Held(l), header[..k]);
      if k != HEADER_SIZE {
        assert header[4..8] == l.header[4..8];
      } else if Field(header, 0) == MAGIC {
        assert header == header[..k];
        assert header <= Held(l) + w1.stream[w1.pos..];
        HeaderOfStream(l, w1, ms, header);
        var l' := Link(header, l.body, 0);
        assert Held(l') == header;
        LeftIsAvailable(left, n, w2.Available());
        if Signed(Sub32(left, n)) >= BodyLength(header) {
          ReadBodySafe(l', w2, Sub32(left, n), t, ms);
        }
      }
    }
  }

  /** One pass keeps the receiver in sync: it never writes astray, and what it dispatches is exactly
      the next frame of the stream. */
  lemma StepSafe(l: Link, w: Wire, t: Tick, ms: seq<Msg>)
    requires InSync(l, w, ms) && GoodLengths(w.stream) && SplitsEarly(l, w, t)
    ensures PassSafe(Step(l, w, t), ms)
  {
    hide ReadHeader, ReadBody, EncodeAll, GoodLengths, U32;
    if t.peekOk {
      var w0 := w.Arrive(t.beforePeek);
      var left := Wrap(w0.Available());
      if left != 0 {
        if BodyLength(l.header) == -1 {
          ReadHeaderSafe(l, w0, left, t, ms);
        } else {
          ReadBodySafe(l, w0, left, t, ms);
        }
      }
    }
  }

  lemma WordBytes(s: seq<byte>)
    requires |s| == 4
    ensures Signed(U32(s)) == -1 <==> s[0] == 255 && s[1] == 255 && s[2] == 255 && s[3] == 255
    ensures 0 <= Signed(U32(s)) <= BODY_SIZE ==> s[1] <= 8 && s[2] == 0 && s[3] == 0
  {
  }

  lemma MarkerSurvivesIff(marked: seq<byte>, header: seq<byte>, frame: seq<byte>, k: nat)
    requires |marked| == |header| == HEADER_SIZE <= |frame| && k < HEADER_SIZE
    requires BodyLength(marked) == -1 && GoodHeader(frame)
    requires header == frame[..k] + marked[k..]
    ensures BodyLength(header) == -1 <==> k <= 4 || (k == 5 && frame[4] == 255)
  {
    hide U32, Signed;
    WordBytes(marked[4..8]);
    WordBytes(header[4..8]);
    WordBytes(frame[4..8]);
    assert forall i :: 4 <= i < 8 ==> marked[4..8][i - 4] == marked[i];
    assert forall i :: 4 <= i < 8 ==> header[4..8][i - 4] == header[i];
    assert forall i :: 4 <= i < 8 ==> frame[4..8][i - 4] == frame[i];
    assert header[4] == if k <= 4 then marked[4] else frame[4];
    assert header[5] == if k <= 5 then marked[5] else frame[5];
  }

  /** Exactly which partial header reads keep the receiver in sync, for a frame whose length is in
      range: those that end before the length field, and those that end behind its first byte when
      that byte happens to be 255, because the other three bytes of the marker are then intact. */
  lemma SplitKeepsSyncIff(l: Link, w: Wire, t: Tick, ms: seq<Msg>)
    requires InSync(l, w, ms) && BodyLength(l.header) == -1
    requires var frame := Held(l) + w.stream[w.pos..]; |frame| >= HEADER_SIZE && GoodHeader(frame)
    requires ReadsHeader(l, w, t) && HeaderHeld(l, w, t) < HEADER_SIZE
    ensures var p, k := Step(l, w, t), HeaderHeld(l, w, t);
            InSync(p.link, p.wire, ms) <==> (k <= 4 || (k == 5 && (Held(l) + w.stream[w.pos..])[4] == 255))
  {
    hide Field, BodyLength, GoodHeader, Encode, EncodeAll, Signed, Wrap, ReadBody;
    var frame := Held(l) + w.stream[w.pos..];
    var p := Step(l, w, t);
    var k := HeaderHeld(l, w, t);
    var n := k - l.already;
    PartialHeader(l, w, t);
    hide Step, HeaderHeld;
    MarkerSurvivesIff(l.header, p.link.header, frame, k);
    assert |w.stream[..w.pos + n]| == |EncodeAll(ms)| + k;
    ReadKeepsAccount(w, n, EncodeAll(ms), Held(l), frame[..k]);
    assert BodyLength(p.link.header) == -1 ==> Held(p.link) == frame[..k];
  }

  /** A pass that leaves the header unfinished has only added bytes of the stream to it. */
  lemma PartialHeader(l: Link, w: Wire, t: Tick)
    requires Sized(l) && w.Valid() && l.already < HEADER_SIZE
    requires ReadsHeader(l, w, t) && HeaderHeld(l, w, t) < HEADER_SIZE
    ensures var p := Step(l, w, t);
            var frame := Held(l) + w.stream[w.pos..];
            p.outcome == Idle && l.already <= p.link.already == HeaderHeld(l, w, t) && p.link.already <= |frame| &&
            p.wire == Wire(w.stream, w.pos + (p.link.already - l.already), p.wire.arrived) && p.link.body == l.body &&
            p.link.header == frame[..p.link.already] + l.header[p.link.already..]
  {
    hide Field, BodyLength, Wrap, Sub32, ReadBody;
  }

  /** A connection that replaces a broken one starts in sync exactly when the broken one stopped
      between two reads: the count of bytes already read survives the disconnect. */
  lemma ReconnectInSyncIff(l: Link, stream: seq<byte>, arrived: nat)
    requires Sized(l) && arrived <= |stream|
    ensures InSync(l.(header := Sentinel(l.header)), Wire(stream, 0, arrived), []) <==> l.already == 0
  {
    hide Field, Encode, Signed;
    SentinelReadsMinusOne(l.header);
    if 0 < l.already <= BODY_SIZE {
      assert |Held(l.(header := Sentinel(l.header)))| > 0;
    }
  }

  const QUIET := Tick(true, 0, true, 0, true, 0)

  /** While nothing arrives, the loop repeats a pass that changes nothing exactly when it holds a
      complete body and bytes of the next frame wait, fewer than that body has: the body is
      dispatched only after more bytes arrive, and until then the loop spins. */
  lemma SpinsIff(l: Link, w: Wire, ms: seq<Msg>)
    requires InSync(l, w, ms) && w.Available() < TWO31
    ensures Step(l, w, QUIET) == Pass(l, w, Again) <==>
            (BodyLength(l.header) != -1 && l.already == BodyLength(l.header) && 0 < w.Available() < l.already)
  {
    hide Field, Encode, EncodeAll, Held, ReadHeader;
    var left := w.Available();
    assert w.Arrive(0) == w && Wrap(left) == left == Signed(left);
    if BodyLength(l.header) == -1 && left > 0 {
      HeaderReadMoves(l, w, left);
    } else if left > 0 {
      var length := BodyLength(l.header);
      assert Sub32(length, l.already) == length - l.already;
      if l.already == length {
        assert Splice(l.body, l.already, w.stream[w.pos..w.pos]) == l.body;
      }
    }
  }

  lemma HeaderReadMoves(l: Link, w: Wire, left: uint32)
    requires Sized(l) && w.Valid() && l.already < HEADER_SIZE && 0 < left == w.Available()
    ensures ReadHeader(l, w, left, QUIET) != Pass(l, w, Again)
  {
    hide Field, ReadBody;
    assert w.Arrive(0) == w;
  }

  /** The receiver holds nothing: the next byte it reads starts a frame. */
  predicate Blank(l: Link) { Sized(l) && BodyLength(l.header) == -1 && l.already == 0 }

  lemma HeaderOfFrame(m: Msg, header: seq<byte>)
    requires Legal(m) && header == Encode(m)[..HEADER_SIZE]
    ensures |header| == HEADER_SIZE && Field(header, 0) == MAGIC && BodyLength(header) == |m.body| && Field(header, 8) == m.kind
  {
    hide U32, LE32, Signed;
    FieldsOfFrame(m, []);
    var s := Encode(m) + [];
    assert s == Encode(m);
    assert header[0..4] == s[0..4] && header[4..8] == s[4..8] && header[8..12] == s[8..12];
  }

  lemma SliceParts(s: seq<byte>, at: nat, a: seq<byte>, b: seq<byte>)
    requires at + |a| + |b| <= |s| && s[at..at + |a| + |b|] == a + b
    ensures s[at..at + |a|] == a && s[at + |a|..at + |a| + |b|] == b
  {
    var t := s[at..at + |a| + |b|];
    assert t[..|a|] == a && t[|a|..] == b;
  }

  lemma SpliceFront(buf: seq<byte>, data: seq<byte>)
    requires |data| <= |buf|
    ensures Splice(buf, 0, data)[..|data|] == data
  {
  }

  /** A body that is there is read and dispatched. */
  lemma WholeBodyDispatched(l: Link, w: Wire, m: Msg)
    requires Sized(l) && l.already == 0 && w.Valid() && Legal(m)
    requires BodyLength(l.header) == |m.body| && Field(l.header, 8) == m.kind
    requires |m.body| <= w.Available() < TWO31 && w.stream[w.pos..w.pos + |m.body|] == m.body
    ensures var p := ReadBody(l, w, w.Available(), QUIET);
            p.outcome == Dispatch(m) && Blank(p.link) && p.wire == w.(pos := w.pos + |m.body|) &&
            p.link.body == Splice(l.body, 0, m.body)
  {
    hide Field, BodyLength, Splice, Sentinel;
    SentinelReadsMinusOne(l.header);
    SpliceFront(l.body, m.body);
    assert w.Arrive(0) == w && Sub32(|m.body|, 0) == |m.body|;
  }

  /** A header that is there, with its whole body behind it, is read, and the body is next. */
  lemma WholeHeaderRead(l: Link, w: Wire, header: seq<byte>)
    requires Blank(l) && w.Valid() && |header| == HEADER_SIZE && Field(header, 0) == MAGIC
    requires HEADER_SIZE + BodyLength(header) <= w.Available() < TWO31 && 0 <= BodyLength(header)
    requires w.stream[w.pos..w.pos + HEADER_SIZE] == header
    ensures var w' := w.(pos := w.pos + HEADER_SIZE);
            Step(l, w, QUIET) == ReadBody(Link(header, l.body, 0), w', w'.Available(), QUIET)
  {
    hide Field, BodyLength, ReadBody, Splice, ReadHeader;
    assert w.Arrive(0) == w;
    HeaderRead(l, w, header);
  }

  lemma HeaderRead(l: Link, w: Wire, header: seq<byte>)
    requires Blank(l) && w.Valid() && |header| == HEADER_SIZE && Field(header, 0) == MAGIC
    requires HEADER_SIZE + BodyLength(header) <= w.Available() < TWO31 && 0 <= BodyLength(header)
    requires w.stream[w.pos..w.pos + HEADER_SIZE] == header
    ensures var w' := w.(pos := w.pos + HEADER_SIZE);
            ReadHeader(l, w, w.Available(), QUIET) == ReadBody(Link(header, l.body, 0), w', w'.Available(), QUIET)
  {
    hide Field, BodyLength, ReadBody, Splice;
    SpliceFront(l.header, header);
    assert Splice(l.header, 0, header) == header && w.Arrive(0) == w;
  }

  /** A whole frame that has arrived is dispatched in one pass. */
  lemma WholeFrameDispatched(l: Link, w: Wire, m: Msg)
    requires Blank(l) && w.Valid() && w.Available() < TWO31 && Legal(m)
    requires |Encode(m)| <= w.Available() && w.stream[w.pos..w.pos + |Encode(m)|] == Encode(m)
    ensures var p := Step(l, w, QUIET);
            p.outcome == Dispatch(m) && Blank(p.link) && p.wire == w.(pos := w.pos + |Encode(m)|) &&
            p.link.body == Splice(l.body, 0, m.body)
  {
    hide Field, BodyLength, ReadBody, Step, Encode;
    FrameParts(m);
    var header := Encode(m)[..HEADER_SIZE];
    HeaderOfFrame(m, header);
    SliceParts(w.stream, w.pos, header, m.body);
    WholeHeaderRead(l, w, header);
    WholeBodyDispatched(Link(header, l.body, 0), w.(pos := w.pos + HEADER_SIZE), m);
  }

  lemma NextFrameDispatched(l: Link, w: Wire, m: Msg, rest: seq<byte>)
    requires Blank(l) && w.Valid() && w.Available() < TWO31 && Legal(m)
    requires w.stream[w.pos..w.arrived] == Encode(m) + rest
    ensures var p := Step(l, w, QUIET);
            p.outcome == Dispatch(m) && Blank(p.link) && p.link.body == Splice(l.body, 0, m.body) &&
            p.wire.Available() < TWO31 &&
            p.wire.stream[p.wire.pos..p.wire.arrived] == rest
  {
    hide Encode, Step, Blank;
    assert |w.stream[w.pos..w.arrived]| == |Encode(m)| + |rest|;
    SliceParts(w.stream, w.pos, Encode(m), rest);
    WholeFrameDispatched(l, w, m);
  }

  lemma WholeFrameIsNotSplit(l: Link, w: Wire, m: Msg, rest: seq<byte>)
    requires Blank(l) && w.Valid() && Legal(m) && w.stream[w.pos..w.arrived] == Encode(m) + rest
    ensures SplitsEarly(l, w, QUIET)
  {
    hide Encode;
    FrameParts(m);
    assert |w.stream[w.pos..w.arrived]| == |Encode(m)| + |rest|;
    assert w.Arrive(0) == w;
  }

  lemma FrameParts(m: Msg)
    requires Legal(m)
    ensures |Encode(m)| == HEADER_SIZE + |m.body| && Encode(m) == Encode(m)[..HEADER_SIZE] + m.body
  {
  }

  /** The messages that quiet passes dispatch, one after the other. */
  function Drain(l: Link, w: Wire, passes: nat): seq<Msg>
    requires Sized(l) && w.Valid()
    decreases passes
  {
    if passes == 0 then []
    else
      var p := Step(l, w, QUIET);
      if p.outcome.Dispatch? then [p.outcome.msg] + Drain(p.link, p.wire, passes - 1) else []
  }

  lemma {:induction false} EncodeAllCons(ms: seq<Msg>)
    requires ms != [] && forall m :: m in ms ==> Legal(m)
    ensures EncodeAll(ms) == Encode(ms[0]) + EncodeAll(ms[1..])
  {
    hide Encode;
    var front, last := ms[..|ms| - 1], ms[|ms| - 1];
    if |ms| == 1 {
      assert front == [] && ms[1..] == [];
    } else {
      EncodeAllCons(front);
      assert ms[1..][..|ms| - 2] == front[1..];
      assert Encode(ms[0]) + EncodeAll(front[1..]) + Encode(last) == Encode(ms[0]) + (EncodeAll(front[1..]) + Encode(last));
    }
  }

  lemma {:induction false} EncodedIsGood(ms: seq<Msg>)
    requires forall m :: m in ms ==> Legal(m)
    ensures GoodLengths(EncodeAll(ms))
    decreases |ms|
  {
    hide Encode, EncodeAll;
    if ms == [] {
      assert EncodeAll(ms) == [] by { NothingEncoded(); }
    } else {
      EncodeAllCons(ms);
      assert ms[0] in ms && forall m :: m in ms[1..] ==> m in ms;
      FieldsOfFrame(ms[0], EncodeAll(ms[1..]));
      EncodedIsGood(ms[1..]);
    }
  }

  lemma NothingEncoded()
    ensures EncodeAll([]) == []
  {
  }

  predicate AllLegal(ms: seq<Msg>) { forall m :: m in ms ==> Legal(m) }

  /** Whole frames of these messages, and nothing else, have arrived and not been read. */
  predicate Arrived(w: Wire, ms: seq<Msg>) {
    AllLegal(ms) && w.Valid() && w.Available() < TWO31 && w.stream[w.pos..w.arrived] == EncodeAll(ms)
  }

  /** The next of them is dispatched, and then the others have arrived. */
  lemma NextArrivedDispatched(l: Link, w: Wire, ms: seq<Msg>)
    requires Blank(l) && Arrived(w, ms) && ms != []
    ensures var p := Step(l, w, QUIET); p.outcome == Dispatch(ms[0]) && Blank(p.link) && Arrived(p.wire, ms[1..])
  {
    hide Step, Encode, EncodeAll, Blank, Legal, Splice;
    TailLegal(ms);
    EncodeAllCons(ms);
    NextFrameDispatched(l, w, ms[0], EncodeAll(ms[1..]));
  }

  /** Promptness: when whole frames have arrived, as many quiet passes dispatch all of them. */
  lemma {:induction false} ArrivedFramesDispatched(l: Link, w: Wire, ms: seq<Msg>)
    requires Blank(l) && Arrived(w, ms)
    ensures Drain(l, w, |ms|) == ms
    decreases |ms|
  {
    hide Step, Blank, Arrived, Drain;
    BlankIsSized(l);
    ArrivedIsValid(w, ms);
    if ms == [] {
      NothingDrained(l, w);
    } else {
      NextArrivedDispatched(l, w, ms);
      var p := Step(l, w, QUIET);
      ArrivedFramesDispatched(p.link, p.wire, ms[1..]);
      DrainNext(l, w, ms[0], |ms[1..]|);
      assert ms == [ms[0]] + ms[1..];
    }
  }

  lemma ArrivedIsValid(w: Wire, ms: seq<Msg>)
    requires Arrived(w, ms)
    ensures w.Valid()
  {
  }

  lemma TailLegal(ms: seq<Msg>)
    requires ms != [] && forall m :: m in ms ==> Legal(m)
    ensures Legal(ms[0]) && forall m :: m in ms[1..] ==> Legal(m)
  {
    hide Legal;
    assert ms[0] in ms && forall m :: m in ms[1..] ==> m in ms;
  }

  lemma NothingDrained(l: Link, w: Wire)
    requires Sized(l) && w.Valid()
    ensures Drain(l, w, 0) == []
  {
  }

  lemma DrainNext(l: Link, w: Wire, m: Msg, more: nat)
    requires Sized(l) && w.Valid() && Step(l, w, QUIET).outcome == Dispatch(m)
    ensures var p := Step(l, w, QUIET); Drain(l, w, 1 + more) == [m] + Drain(p.link, p.wire, more)
  {
    hide Step;
  }

  lemma BlankIsSized(l: Link)
    requires Blank(l)
    ensures Sized(l)
  {
  }

  /** What goes wrong otherwise: a 16-byte BLIT frame whose header is seen after 8 bytes is dispatched
      under the stale type of the previous header. */
  lemma LateSplitDispatchesWrongMessage(l: Link, body: seq<byte>)
    requires Sized(l) && BodyLength(l.header) == -1 && l.already == 0 && Field(l.header, 8) != 2
    requires |body| == 16
    ensures var m := Msg(2, body);
            var w := Wire(Encode(m), 0, 8);
            InSync(l, w, []) && GoodLengths(w.stream) && Parse(w.stream) == [m] &&
            var p := Step(l, w, QUIET);
            var q := Step(p.link, p.wire, QUIET.(beforePeek := 20));
            p.outcome == Idle && q.outcome.Dispatch? && q.outcome.msg.kind != 2
  {
    hide U32, LE32;
    var m := Msg(2, body);
    assert Encode(m) + [] == Encode(m);
    FieldsOfFrame(m, []);
    ParseFrame(m, []);
    var w := Wire(Encode(m), 0, 8);
    assert EncodeAll([]) + Held(l) == w.stream[..0];
    var p := Step(l, w, QUIET);
    assert w.Arrive(0).Available() == 8 && p.wire == Wire(w.stream, 8, 8) && p.link.already == 8;
    assert p.link.header[4..8] == w.stream[4..8] && p.link.header[8..12] == l.header[8..12];
    assert BodyLength(p.link.header) == 16;
    assert p.wire.Arrive(20).Available() == 20;
  }
}
