/** What the receive loop does get done: how each pass ends, and that frames arriving in any pieces are
    dispatched. */
module Liveness {
  import opened Bytes
  import opened Framing

  /** How many bytes this pass is told are waiting. */
  function Peeked(w: Wire, t: Tick): uint32
    requires w.Valid()
  {
    Wrap(w.Arrive(t.beforePeek).Available())
  }

  /** The next frame of the stream: the bytes held, and those still to be read. */
  function NextFrame(l: Link, w: Wire): seq<byte>
    requires Sized(l) && l.already <= BODY_SIZE && w.Valid()
  {
    Held(l) + w.stream[w.pos..]
  }

  /** These bytes start with the magic number. */
  predicate StartsFrame(s: seq<byte>) { LE32(MAGIC) <= s }

  lemma StartsFrameIff(s: seq<byte>)
    requires |s| >= 4
    ensures StartsFrame(s) <==> Field(s, 0) == MAGIC
  {
    hide U32, LE32;
    LE32U32(MAGIC);
    U32LE32(s[0..4]);
    assert StartsFrame(s) <==> s[0..4] == LE32(MAGIC);
  }

  /** This pass reads the header to its end. */
  predicate CompletesHeader(l: Link, w: Wire, t: Tick)
    requires Sized(l) && w.Valid()
  {
    ReadsHeader(l, w, t) && l.already <= HEADER_SIZE && HeaderHeld(l, w, t) == HEADER_SIZE
  }

  /** The header held, or read now, is a good one, and of the bytes that were waiting at the start at
      least as many are left as the body has. */
  predicate CompletesBody(l: Link, w: Wire, t: Tick)
    requires Sized(l) && l.already <= BODY_SIZE && w.Valid()
  {
    var frame := NextFrame(l, w);
    if BodyLength(l.header) == -1 then
      CompletesHeader(l, w, t) && |frame| >= HEADER_SIZE && StartsFrame(frame) &&
      BodyLength(frame) <= Peeked(w, t) - (HEADER_SIZE - l.already) < TWO31
    else
      t.peekOk && Peeked(w, t) != 0 && BodyLength(l.header) <= Peeked(w, t) < TWO31
  }

  /** This pass reads into the body. */
  predicate ReadsBody(l: Link, w: Wire, t: Tick)
    requires Sized(l) && l.already <= BODY_SIZE && w.Valid()
  {
    if BodyLength(l.header) == -1 then CompletesBody(l, w, t) else t.peekOk && Peeked(w, t) != 0
  }

  /** A call that this pass makes fails, or the header that it completes is not one. */
  predicate Fails(l: Link, w: Wire, t: Tick)
    requires Sized(l) && l.already <= BODY_SIZE && w.Valid()
  {
    || !t.peekOk
    || (Peeked(w, t) != 0 && BodyLength(l.header) == -1 && !t.headerOk)
    || (BodyLength(l.header) == -1 && CompletesHeader(l, w, t) && !StartsFrame(NextFrame(l, w)))
    || (ReadsBody(l, w, t) && !t.bodyOk)
  }

  /** Nothing is there to be read, or too little for the header. */
  predicate Wants(l: Link, w: Wire, t: Tick)
    requires Sized(l) && l.already <= BODY_SIZE && w.Valid()
  {
    t.peekOk &&
    (Peeked(w, t) == 0 || (ReadsHeader(l, w, t) && l.already <= HEADER_SIZE && HeaderHeld(l, w, t) < HEADER_SIZE))
  }

  lemma HeaderBytes(l: Link, w: Wire, t: Tick)
    requires Sized(l) && w.Valid() && BodyLength(l.header) == -1 && CompletesHeader(l, w, t)
    ensures var w1 := w.Arrive(t.beforePeek).Arrive(t.beforeHeader);
            var n := Min(HEADER_SIZE - l.already, w1.Available());
            var header := Splice(l.header, l.already, w1.stream[w1.pos..w1.pos + n]);
            var frame := NextFrame(l, w);
            n == HEADER_SIZE - l.already && |frame| >= HEADER_SIZE && header == frame[..HEADER_SIZE] &&
            Field(header, 0) == Field(frame, 0) && BodyLength(header) == BodyLength(frame) && Field(header, 8) == Field(frame, 8)
  {
    hide Field, BodyLength;
    var w1 := w.Arrive(t.beforePeek).Arrive(t.beforeHeader);
    var header := Splice(l.header, l.already, w1.stream[w1.pos..w1.pos + HEADER_SIZE - l.already]);
    var frame := NextFrame(l, w);
    assert header == frame[..HEADER_SIZE];
    FieldsOfFront(frame, header);
  }

  lemma FieldsOfFront(frame: seq<byte>, header: seq<byte>)
    requires |header| == HEADER_SIZE && header <= frame
    ensures Field(header, 0) == Field(frame, 0) && BodyLength(header) == BodyLength(frame) && Field(header, 8) == Field(frame, 8)
  {
    hide U32, Signed;
    assert header[0..4] == frame[0..4] && header[4..8] == frame[4..8] && header[8..12] == frame[8..12];
  }

  lemma SignedDifference(left: uint32, n: nat, length: int)
    requires n <= HEADER_SIZE && 0 <= length <= BODY_SIZE
    ensures Signed(Sub32(left, n)) >= length <==> length <= (left as int) - n < TWO31
  {
  }

  lemma BodyOutcome(l: Link, w: Wire, left: uint32, t: Tick)
    requires Sized(l) && w.Valid() && 0 <= l.already <= BodyLength(l.header) <= BODY_SIZE
    ensures var p := ReadBody(l, w, left, t);
            if !t.bodyOk then p.outcome == Failed && p.link == l
            else if Signed(left) < BodyLength(l.header) then p.outcome == Again
            else p.outcome.Dispatch?
  {
    hide Field, BodyLength, Signed, Splice, Sentinel;
    assert Sub32(BodyLength(l.header), l.already) == BodyLength(l.header) - l.already;
  }

  lemma HeaderOutcome(l: Link, w: Wire, t: Tick, ms: seq<Msg>)
    requires InSync(l, w, ms) && GoodLengths(w.stream) && BodyLength(l.header) == -1 && t.peekOk && Peeked(w, t) != 0
    ensures var p := ReadHeader(l, w.Arrive(t.beforePeek), Peeked(w, t), t);
            if !t.headerOk then p.outcome == Failed
            else if HeaderHeld(l, w, t) < HEADER_SIZE then p.outcome == Idle
            else if !StartsFrame(NextFrame(l, w)) then p.outcome == Failed && p.link.already == 0
            else if !CompletesBody(l, w, t) then p.outcome == Again
            else if !t.bodyOk then p.outcome == Failed && p.link.already == 0
            else p.outcome.Dispatch?
    ensures !t.headerOk ==> ReadHeader(l, w.Arrive(t.beforePeek), Peeked(w, t), t).link == l
  {
    hide Field, BodyLength, EncodeAll, GoodLengths, Splice, Sub32, Wrap, ReadBody, StartsFrame;
    if t.headerOk && HeaderHeld(l, w, t) == HEADER_SIZE {
      HeaderBytes(l, w, t);
      StartsFrameIff(NextFrame(l, w));
      var w1 := w.Arrive(t.beforePeek).Arrive(t.beforeHeader);
      var n := HEADER_SIZE - l.already;
      var header := Splice(l.header, l.already, w1.stream[w1.pos..w1.pos + n]);
      if Field(header, 0) == MAGIC {
        HeaderOfStream(l, w, ms, header);
        LengthInRange(header);
        SignedDifference(Peeked(w, t), n, BodyLength(header));
        BodyOutcome(Link(header, l.body, 0), w1.(pos := w1.pos + n), Sub32(Peeked(w, t), n), t);
      }
    }
  }

  lemma LengthInRange(header: seq<byte>)
    requires |header| == HEADER_SIZE && GoodHeader(header)
    ensures 0 <= BodyLength(header) <= BODY_SIZE
  {
  }

  /** Exactly how a pass ends, by what it finds and by the answers it gets: it fails only over a failing
      call or a header that is not one, leaves the loop only for want of bytes, and dispatches whenever
      the header is there and enough bytes were waiting. */
  lemma OutcomeIff(l: Link, w: Wire, t: Tick, ms: seq<Msg>)
    requires InSync(l, w, ms) && GoodLengths(w.stream)
    ensures var outcome := Step(l, w, t).outcome;
            && (outcome == Failed <==> Fails(l, w, t))
            && (outcome == Idle <==> Wants(l, w, t))
            && (outcome.Dispatch? <==> CompletesBody(l, w, t) && t.bodyOk)
            && outcome != Astray
  {
    hide Field, BodyLength, EncodeAll, GoodLengths, Wrap, ReadBody, ReadHeader, StartsFrame;
    if t.peekOk && Peeked(w, t) != 0 {
      if BodyLength(l.header) == -1 {
        HeaderOutcome(l, w, t, ms);
      } else {
        BodyOutcome(l, w.Arrive(t.beforePeek), Peeked(w, t), t);
      }
    }
  }

  /** What a failing pass leaves: nothing is held any more of a header that it completed, and otherwise
      all that was held before. So the connection that replaces this one starts in step exactly when
      it failed between two reads or on a header. */
  lemma FailureLeaves(l: Link, w: Wire, t: Tick, ms: seq<Msg>)
    requires InSync(l, w, ms) && GoodLengths(w.stream) && Step(l, w, t).outcome == Failed
    ensures Step(l, w, t).link.already == if BodyLength(l.header) == -1 && CompletesHeader(l, w, t) then 0 else l.already
    ensures forall stream: seq<byte>, arrived: nat :: arrived <= |stream| ==>
      (InSync(Step(l, w, t).link.(header := Sentinel(Step(l, w, t).link.header)), Wire(stream, 0, arrived), []) <==>
        l.already == 0 || (BodyLength(l.header) == -1 && CompletesHeader(l, w, t)))
  {
    hide Field, BodyLength, EncodeAll, GoodLengths, Wrap, ReadBody, ReadHeader, StartsFrame, Sentinel;
    if t.peekOk && Peeked(w, t) != 0 {
      if BodyLength(l.header) == -1 {
        HeaderOutcome(l, w, t, ms);
      } else {
        BodyOutcome(l, w.Arrive(t.beforePeek), Peeked(w, t), t);
      }
    }
    forall stream: seq<byte>, arrived: nat | arrived <= |stream|
      ensures InSync(Step(l, w, t).link.(header := Sentinel(Step(l, w, t).link.header)), Wire(stream, 0, arrived), []) <==>
        Step(l, w, t).link.already == 0
    {
      ReconnectInSyncIff(Step(l, w, t).link, stream, arrived);
    }
  }

  /** Every call of this pass succeeds. */
  predicate Succeeds(t: Tick) { t.peekOk && t.headerOk && t.bodyOk }

  /** Where a number of passes have come to, and the messages they have dispatched. */
  datatype Progress = Progress(link: Link, wire: Wire, msgs: seq<Msg>, connected: bool)

  function Passes(p: Progress, ticks: seq<Tick>): (q: Progress)
    requires Sized(p.link) && p.wire.Valid()
    ensures Sized(q.link) && q.wire.Valid() && q.wire.stream == p.wire.stream && p.msgs <= q.msgs
    decreases |ticks|
  {
    if ticks == [] || !p.connected then p else Passes(OnePass(p, ticks[0]), ticks[1..])
  }

  function OnePass(p: Progress, t: Tick): (q: Progress)
    requires Sized(p.link) && p.wire.Valid()
    ensures Sized(q.link) && q.wire.Valid() && q.wire.stream == p.wire.stream && p.msgs <= q.msgs
  {
    var s := Step(p.link, p.wire, t);
    match s.outcome
    case Dispatch(m) => Progress(s.link, s.wire, p.msgs + [m], true)
    case Failed => Progress(s.link, s.wire, p.msgs, false)
    case Astray => Progress(s.link, s.wire, p.msgs, false)
    case _ => Progress(s.link, s.wire, p.msgs, true)
  }

  /** In each of these passes every call succeeds, no header is seen split behind its fourth byte, and
      fewer than 2^31 bytes are waiting. */
  predicate Smooth(p: Progress, ticks: seq<Tick>)
    requires Sized(p.link) && p.wire.Valid()
    decreases |ticks|
  {
    ticks != [] && p.connected ==>
      Succeeds(ticks[0]) && SplitsEarly(p.link, p.wire, ticks[0]) &&
      p.wire.Arrive(ticks[0].beforePeek).Available() < TWO31 && Smooth(OnePass(p, ticks[0]), ticks[1..])
  }

  /** The receiver is in step, and so far everything is as the stream of these messages demands. */
  ghost predicate OnTrack(p: Progress, all: seq<Msg>) {
    InSync(p.link, p.wire, p.msgs) && p.msgs <= all && (forall m :: m in all ==> Legal(m)) &&
    EncodeAll(all) <= p.wire.stream && GoodLengths(p.wire.stream)
  }

  lemma {:induction false} EncodeAllParts(a: seq<Msg>, b: seq<Msg>)
    requires AllLegal(a) && AllLegal(b)
    ensures AllLegal(a + b) && EncodeAll(a + b) == EncodeAll(a) + EncodeAll(b)
    decreases |b|
  {
    hide Encode, Legal;
    if b == [] {
      assert a + b == a;
    } else {
      var front, last := b[..|b| - 1], b[|b| - 1];
      assert forall m :: m in front ==> m in b;
      EncodeAllParts(a, front);
      assert (a + b)[..|a + b| - 1] == a + front && last in b;
    }
  }

  lemma PrefixLegal(ms: seq<Msg>, k: nat)
    requires AllLegal(ms) && k <= |ms|
    ensures AllLegal(ms[..k]) && AllLegal(ms[k..])
  {
    hide Legal;
    assert forall m :: m in ms[..k] || m in ms[k..] ==> m in ms;
  }

  /** What is dispatched in step is what the stream says. */
  lemma SyncedIsPrefix(l: Link, w: Wire, done: seq<Msg>, all: seq<Msg>)
    requires InSync(l, w, done) && AllLegal(all) && EncodeAll(all) <= w.stream && |done| <= |all|
    ensures done <= all
  {
    hide Parse, EncodeAll, Encode, Held, Legal;
    var (next, rest) := (Held(l) + w.stream[w.pos..], w.stream[|EncodeAll(all)|..]);
    assert w.stream == EncodeAll(done) + next by { assert w.stream == w.stream[..w.pos] + w.stream[w.pos..]; }
    assert w.stream == EncodeAll(all) + rest;
    hide InSync;
    ParseEncodeAll(done, next);
    ParseEncodeAll(all, rest);
    ShorterIsPrefix(done, Parse(next), all, Parse(rest));
  }

  lemma ShorterIsPrefix<T>(a: seq<T>, x: seq<T>, b: seq<T>, y: seq<T>)
    requires a + x == b + y && |a| <= |b|
    ensures a <= b
  {
    assert forall i :: 0 <= i < |a| ==> a[i] == (a + x)[i] == (b + y)[i] == b[i];
  }

  /** The next frame begins behind the frames dispatched. */
  lemma NextFrameAt(l: Link, w: Wire, done: seq<Msg>)
    requires InSync(l, w, done)
    ensures var at := |EncodeAll(done)|; at + |Held(l)| == w.pos && NextFrame(l, w) == w.stream[at..]
  {
    hide EncodeAll, Held, Legal;
    assert |w.stream[..w.pos]| == |EncodeAll(done)| + |Held(l)|;
    assert w.stream == EncodeAll(done) + NextFrame(l, w) by { assert w.stream == w.stream[..w.pos] + w.stream[w.pos..]; }
  }

  lemma EncodedUpTo(all: seq<Msg>, j: nat)
    requires AllLegal(all) && j < |all|
    ensures AllLegal(all[..j]) && AllLegal(all[..j + 1]) && Legal(all[j])
    ensures EncodeAll(all[..j + 1]) == EncodeAll(all[..j]) + Encode(all[j]) && EncodeAll(all[..j + 1]) <= EncodeAll(all)
  {
    hide Legal, Encode;
    PrefixLegal(all, j);
    PrefixLegal(all, j + 1);
    assert all[j] in all;
    assert all[..j + 1][..j] == all[..j] && all[..j + 1][j] == all[j];
    hide EncodeAll;
    EncodedFront(all, j + 1);
  }

  lemma EncodedFront(all: seq<Msg>, k: nat)
    requires AllLegal(all) && k <= |all|
    ensures AllLegal(all[..k]) && EncodeAll(all[..k]) <= EncodeAll(all)
  {
    hide Legal, Encode, EncodeAll;
    PrefixLegal(all, k);
    EncodeAllParts(all[..k], all[k..]);
    assert all[..k] + all[k..] == all;
  }

  /** It is the frame of the next message. */
  lemma NextFrameIs(p: Progress, all: seq<Msg>)
    requires OnTrack(p, all) && |p.msgs| < |all|
    ensures var (j, m, frame) := (|p.msgs|, all[|p.msgs|], NextFrame(p.link, p.wire));
            AllLegal(all[..j + 1]) && Legal(m) && Encode(m) <= frame && StartsFrame(frame) && |frame| >= HEADER_SIZE &&
            BodyLength(frame) == |m.body| && |EncodeAll(all[..j + 1])| == |EncodeAll(p.msgs)| + |Encode(m)|
  {
    hide EncodeAll, Encode, Held, Legal, GoodLengths, Field, BodyLength, GoodHeader, StartsFrame, NextFrame;
    var (j, m, frame) := (|p.msgs|, all[|p.msgs|], NextFrame(p.link, p.wire));
    assert p.msgs == all[..j];
    EncodedUpTo(all, j);
    NextFrameAt(p.link, p.wire, p.msgs);
    assert Encode(m) <= frame;
    FieldsOfFrame(m, frame[|Encode(m)|..]);
    assert frame == Encode(m) + frame[|Encode(m)|..];
    MagicIsMagic(frame);
  }

  lemma MagicIsMagic(frame: seq<byte>)
    requires |frame| >= HEADER_SIZE && GoodHeader(frame)
    ensures StartsFrame(frame)
  {
    StartsFrameIff(frame);
  }

  lemma NothingLeft(p: Progress, all: seq<Msg>)
    requires OnTrack(p, all) && p.msgs == all && p.wire.stream == EncodeAll(all)
    ensures NextFrame(p.link, p.wire) == []
  {
    hide EncodeAll;
    NextFrameAt(p.link, p.wire, p.msgs);
  }

  /** While frames are coming in and every call succeeds, a pass never ends the connection, and what it
      dispatches is the next message. */
  lemma PassStaysOnTrack(p: Progress, t: Tick, all: seq<Msg>)
    requires OnTrack(p, all) && p.connected && Succeeds(t) && SplitsEarly(p.link, p.wire, t)
    requires |p.msgs| < |all| || p.wire.stream == EncodeAll(all)
    ensures OnTrack(OnePass(p, t), all) && OnePass(p, t).connected
  {
    hide Step, EncodeAll, Held, Legal, GoodLengths, Field, BodyLength, Wrap, StartsFrame;
    var (l, w) := (p.link, p.wire);
    OutcomeIff(l, w, t, p.msgs);
    StepSafe(l, w, t, p.msgs);
    if BodyLength(l.header) == -1 && CompletesHeader(l, w, t) { HeaderBytes(l, w, t); }
    if |p.msgs| < |all| {
      NextFrameIs(p, all);
    } else {
      NothingLeft(p, all);
      HeldNotEmpty(l);
    }
    var q := OnePass(p, t);
    SyncedIsPrefix(q.link, q.wire, q.msgs, all);
  }

  lemma HeldNotEmpty(l: Link)
    requires Sized(l) && l.already <= BODY_SIZE
    ensures BodyLength(l.header) != -1 ==> |Held(l)| > 0
  {
  }

  /** How many bytes behind the first k frames have arrived. */
  function Behind(w: Wire, all: seq<Msg>, k: nat): int
    requires AllLegal(all) && k <= |all|
  {
    PrefixLegal(all, k);
    w.arrived - |EncodeAll(all[..k])|
  }

  /** Exactly when a frame that has arrived is dispatched by a pass whose calls succeed: at once, unless
      its header was read by an earlier pass; then only if behind it as many bytes are waiting as were
      read of its body already (and at least one, if it has no body). */
  lemma PassDispatchesIff(p: Progress, t: Tick, all: seq<Msg>)
    requires OnTrack(p, all) && |p.msgs| < |all| && Succeeds(t)
    requires var w := p.wire.Arrive(t.beforePeek); w.Available() < TWO31 && Behind(w, all, |p.msgs| + 1) >= 0
    ensures var behind := Behind(p.wire.Arrive(t.beforePeek), all, |p.msgs| + 1);
            Step(p.link, p.wire, t).outcome.Dispatch? <==>
            BodyLength(p.link.header) == -1 || (p.link.already <= behind && 0 < |all[|p.msgs|].body| + behind)
  {
    hide Step, EncodeAll, Encode, Legal, GoodLengths, Field, BodyLength, StartsFrame, NextFrame, GoodHeader;
    var (l, w, m) := (p.link, p.wire, all[|p.msgs|]);
    OutcomeIff(l, w, t, p.msgs);
    NextFrameIs(p, all);
    NextFrameAt(l, w, p.msgs);
    FrameParts(m);
    if BodyLength(l.header) == -1 {
      assert CompletesHeader(l, w, t);
    } else {
      HeldHeader(l, w);
    }
  }

  lemma HeldHeader(l: Link, w: Wire)
    requires Sized(l) && l.already <= BODY_SIZE && w.Valid() && BodyLength(l.header) != -1
    ensures |Held(l)| == HEADER_SIZE + l.already && |NextFrame(l, w)| >= HEADER_SIZE && BodyLength(NextFrame(l, w)) == BodyLength(l.header)
  {
    hide Field, BodyLength;
    assert l.header <= NextFrame(l, w);
    FieldsOfFront(NextFrame(l, w), l.header);
  }

  /** Of each of the first k frames, as many bytes more have arrived as it has in its body, or one. */
  predicate WellArrived(w: Wire, all: seq<Msg>, k: nat)
    requires AllLegal(all) && k <= |all|
  {
    forall i :: 0 <= i < k ==> Behind(w, all, i + 1) >= Max(1, |all[i].body|)
  }

  lemma ArrivedGrows(p: Progress, t: Tick)
    requires Sized(p.link) && p.wire.Valid()
    ensures OnePass(p, t).wire.arrived >= p.wire.arrived
  {
    hide Field, BodyLength, Splice, Sentinel, Wrap, Sub32;
  }

  lemma StaysWellArrived(w: Wire, w': Wire, all: seq<Msg>, k: nat)
    requires AllLegal(all) && k <= |all| && WellArrived(w, all, k) && w'.arrived >= w.arrived
    ensures WellArrived(w', all, k)
  {
    hide EncodeAll, Legal;
    forall i | 0 <= i < k ensures Behind(w', all, i + 1) >= Max(1, |all[i].body|) {
      assert Behind(w, all, i + 1) >= Max(1, |all[i].body|);
    }
  }

  /** A well arrived frame is dispatched by the next pass. */
  lemma WellArrivedIsDispatched(p: Progress, t: Tick, all: seq<Msg>, k: nat)
    requires OnTrack(p, all) && Succeeds(t) && |p.msgs| < k <= |all|
    requires p.wire.Arrive(t.beforePeek).Available() < TWO31 && WellArrived(p.wire, all, k)
    ensures |OnePass(p, t).msgs| == |p.msgs| + 1
  {
    hide Step, EncodeAll, Encode, Legal, GoodLengths, Field, BodyLength, GoodHeader, Held, NextFrame, StartsFrame;
    var (w, m) := (p.wire.Arrive(t.beforePeek), all[|p.msgs|]);
    StaysWellArrived(p.wire, w, all, k);
    assert Behind(w, all, |p.msgs| + 1) >= Max(1, |m.body|);
    BodyHeldFits(p, all);
    hide OnTrack, WellArrived, Behind;
    PassDispatchesIff(p, t, all);
  }

  /** Of the body being read there is no more than the next message has. */
  lemma BodyHeldFits(p: Progress, all: seq<Msg>)
    requires OnTrack(p, all) && |p.msgs| < |all|
    ensures BodyLength(p.link.header) != -1 ==> p.link.already <= |all[|p.msgs|].body|
  {
    hide EncodeAll, Encode, Legal, GoodLengths, Field, BodyLength, Held, StartsFrame;
    NextFrameIs(p, all);
    if BodyLength(p.link.header) != -1 { HeldHeader(p.link, p.wire); }
  }

  /** One more pass, and one more of the first k messages if there are any left. */
  lemma PassAdvances(p: Progress, t: Tick, all: seq<Msg>, k: nat)
    requires OnTrack(p, all) && p.connected && Succeeds(t) && SplitsEarly(p.link, p.wire, t)
    requires p.wire.Arrive(t.beforePeek).Available() < TWO31 && p.wire.stream == EncodeAll(all)
    requires k <= |all| && WellArrived(p.wire, all, k)
    ensures var q := OnePass(p, t);
            OnTrack(q, all) && q.connected && q.wire.stream == p.wire.stream && WellArrived(q.wire, all, k) &&
            (|p.msgs| < k ==> |q.msgs| == |p.msgs| + 1)
  {
    TrackIsValid(p, all);
    PassStaysOnTrack(p, t, all);
    ArrivedGrows(p, t);
    hide OnePass, OnTrack, EncodeAll, Legal, SplitsEarly, WellArrived;
    StaysWellArrived(p.wire, OnePass(p, t).wire, all, k);
    if |p.msgs| < k { WellArrivedIsDispatched(p, t, all, k); }
  }

  /** While frames come in, in whatever pieces, the connection survives, and nothing but the next
      messages is dispatched; and once k frames are well arrived, k passes are enough for them. */
  lemma {:induction false} PassesDispatch(p: Progress, ticks: seq<Tick>, all: seq<Msg>, k: nat)
    requires OnTrack(p, all) && p.connected && Smooth(p, ticks) && p.wire.stream == EncodeAll(all)
    requires k <= |all| && WellArrived(p.wire, all, k)
    ensures var q := Passes(p, ticks);
            OnTrack(q, all) && q.connected && (|ticks| >= k - |p.msgs| ==> |q.msgs| >= k)
    decreases |ticks|
  {
    hide OnTrack, OnePass, WellArrived, SplitsEarly, EncodeAll, Legal, Wire.Arrive;
    TrackIsValid(p, all);
    if ticks != [] {
      PassAdvances(p, ticks[0], all, k);
      TrackIsValid(OnePass(p, ticks[0]), all);
      PassesDispatch(OnePass(p, ticks[0]), ticks[1..], all, k);
    }
  }

  lemma {:induction false} PassesOneAfterTheOther(p: Progress, early: seq<Tick>, late: seq<Tick>)
    requires Sized(p.link) && p.wire.Valid() && Smooth(p, early + late)
    ensures Smooth(p, early) && Passes(p, early + late) == Passes(Passes(p, early), late)
    ensures Passes(p, early).connected ==> Smooth(Passes(p, early), late)
    decreases |early|
  {
    hide OnePass, SplitsEarly;
    if early == [] {
      assert early + late == late;
    } else if p.connected {
      assert (early + late)[1..] == early[1..] + late;
      PassesOneAfterTheOther(OnePass(p, early[0]), early[1..], late);
    } else if late != [] {
      assert Passes(p, late) == p;
    }
  }

  /** A receiver that has read nothing yet of the stream of these messages. */
  predicate Begins(p: Progress, all: seq<Msg>) {
    Blank(p.link) && p.connected && p.msgs == [] && AllLegal(all) &&
    p.wire.Valid() && p.wire.pos == 0 && p.wire.stream == EncodeAll(all)
  }

  lemma LatePassesDispatch(begin: Progress, all: seq<Msg>, k: nat, early: seq<Tick>, late: seq<Tick>)
    requires OnTrack(begin, all) && begin.connected && Sized(begin.link) && begin.wire.Valid() && AllLegal(all)
    requires begin.wire.stream == EncodeAll(all) && Smooth(begin, early + late)
    requires k <= |all| && WellArrived(Passes(begin, early).wire, all, k) && |late| >= k
    ensures var end := Passes(begin, early + late); OnTrack(end, all) && end.connected && |end.msgs| >= k
  {
    hide OnTrack, EncodeAll, Smooth, WellArrived, Passes, Sized, Legal;
    PassesOneAfterTheOther(begin, early, late);
    NoneWellArrived(begin.wire, all);
    PassesDispatch(begin, early, all, 0);
    var middle := Passes(begin, early);
    PassesDispatch(middle, late, all, k);
  }

  /** Promptness, however the bytes of these messages come in: the connection survives all passes, and
      as soon as behind each of the first frames as many bytes have come in as its body has, as many
      passes as there are such frames dispatch them, in order, if they are not dispatched already. */
  lemma PiecesAreDispatched(begin: Progress, ms: seq<Msg>, more: seq<Msg>, early: seq<Tick>, late: seq<Tick>)
    requires Begins(begin, ms + more) && Smooth(begin, early + late)
    requires WellArrived(Passes(begin, early).wire, ms + more, |ms|) && |late| >= |ms|
    ensures var end := Passes(begin, early + late);
            end.connected && ms <= end.msgs <= ms + more
  {
    hide OnTrack, EncodeAll, Smooth, WellArrived, Passes, AllLegal, Begins, Sized;
    var all := ms + more;
    BlankOnTrack(begin, all);
    LatePassesDispatch(begin, all, |ms|, early, late);
    var end := Passes(begin, early + late);
    TrackIsValid(end, all);
    ShorterIsPrefix(ms, more, end.msgs, all[|end.msgs|..]);
  }

  lemma NoneWellArrived(w: Wire, all: seq<Msg>)
    requires AllLegal(all)
    ensures WellArrived(w, all, 0)
  {
  }

  lemma TrackIsValid(p: Progress, all: seq<Msg>)
    requires OnTrack(p, all)
    ensures Sized(p.link) && p.wire.Valid() && AllLegal(all) && p.msgs <= all
  {
    hide Legal, EncodeAll, Held;
  }

  lemma BlankOnTrack(p: Progress, all: seq<Msg>)
    requires Begins(p, all)
    ensures OnTrack(p, all) && p.connected && Sized(p.link) && p.wire.Valid() && AllLegal(all)
    ensures p.wire.stream == EncodeAll(all)
  {
    EncodedIsGood(all);
    hide Legal, Encode, GoodLengths, Field, BodyLength;
    assert Held(p.link) == [] && EncodeAll([]) == [];
    assert p.wire.stream[..0] == [] + [];
  }

  /** The wait behind a held header: the next frame has come in whole, but behind it there is less than
      was read of its body by earlier passes, or nothing at all behind a frame without a body. */
  predicate Waits(p: Progress, all: seq<Msg>)
    requires Sized(p.link) && AllLegal(all) && |p.msgs| < |all|
  {
    var behind := Behind(p.wire, all, |p.msgs| + 1);
    BodyLength(p.link.header) != -1 && (behind < p.link.already || 0 == |all[|p.msgs|].body| + behind)
  }

  /** A pass on a held header that does not finish the body only moves bytes into it. */
  lemma HeldPass(p: Progress, t: Tick)
    requires Sized(p.link) && p.wire.Valid() && BodyLength(p.link.header) != -1 && Succeeds(t)
    requires 0 <= p.link.already <= BodyLength(p.link.header) <= BODY_SIZE
    requires Peeked(p.wire, t) != 0 && Signed(Peeked(p.wire, t)) < BodyLength(p.link.header)
    ensures var w := p.wire.Arrive(t.beforePeek).Arrive(t.beforeBody);
            var n := Min(BodyLength(p.link.header) - p.link.already, w.Available());
            var q := OnePass(p, t);
            q.link.header == p.link.header && q.link.already == p.link.already + n && q.msgs == p.msgs && q.connected &&
            q.wire == w.(pos := w.pos + n)
  {
    hide Field, BodyLength, Splice, Sentinel, Signed;
    assert Sub32(BodyLength(p.link.header), p.link.already) == BodyLength(p.link.header) - p.link.already;
  }

  lemma IdlePass(p: Progress, t: Tick)
    requires Sized(p.link) && p.wire.Valid() && Succeeds(t) && Peeked(p.wire, t) == 0
    ensures OnePass(p, t) == p.(wire := p.wire.Arrive(t.beforePeek), connected := true)
  {
    hide Field;
  }

  /** Without anything new, the wait goes on. */
  lemma WaitGoesOn(p: Progress, all: seq<Msg>)
    requires OnTrack(p, all) && Sized(p.link) && AllLegal(all) && |p.msgs| < |all| && p.connected
    requires p.wire.Valid() && p.wire.Available() < TWO31 && Behind(p.wire, all, |p.msgs| + 1) >= 0 && Waits(p, all)
    ensures var q := OnePass(p, QUIET);
            q.msgs == p.msgs && q.connected && Sized(q.link) && Waits(q, all) &&
            q.wire.arrived == p.wire.arrived && q.wire.pos >= p.wire.pos
  {
    hide Step, OnePass, EncodeAll, Encode, GoodLengths, Field, BodyLength, GoodHeader, StartsFrame, NextFrame;
    var (l, w) := (p.link, p.wire);
    NextFrameIs(p, all);
    NextFrameAt(l, w, p.msgs);
    FrameParts(all[|p.msgs|]);
    HeldHeader(l, w);
    assert w.Arrive(0) == w;
    if w.Available() == 0 { IdlePass(p, QUIET); } else { HeldPass(p, QUIET); }
  }

  /** Nothing new comes in. */
  predicate Quiet(ticks: seq<Tick>) { forall i :: 0 <= i < |ticks| ==> ticks[i] == QUIET }

  lemma {:induction false} WaitIsForEver(p: Progress, all: seq<Msg>, ticks: seq<Tick>)
    requires OnTrack(p, all) && Sized(p.link) && AllLegal(all) && |p.msgs| < |all| && p.connected
    requires p.wire.stream == EncodeAll(all) && Smooth(p, ticks) && Quiet(ticks)
    requires p.wire.Valid() && p.wire.Available() < TWO31 && Behind(p.wire, all, |p.msgs| + 1) >= 0 && Waits(p, all)
    ensures Passes(p, ticks).msgs == p.msgs
    decreases |ticks|
  {
    hide OnTrack, OnePass, Waits, SplitsEarly, EncodeAll, Legal;
    if ticks != [] {
      WaitGoesOn(p, all);
      assert ticks[0] == QUIET;
      PassStaysOnTrack(p, QUIET, all);
      var q := OnePass(p, QUIET);
      TrackIsValid(q, all);
      WaitIsForEver(q, all, ticks[1..]);
    }
  }

  /** Exactly when frames that have come in whole are dispatched without anything new: unless the
      receiver waits behind a held header, as many passes as there are frames dispatch them; if it
      waits, no number of passes dispatches any. */
  lemma ArrivedIsDispatchedIff(p: Progress, all: seq<Msg>, k: nat, ticks: seq<Tick>)
    requires OnTrack(p, all) && Sized(p.link) && AllLegal(all) && |p.msgs| < k <= |all| && p.connected
    requires p.wire.stream == EncodeAll(all) && Smooth(p, ticks) && Quiet(ticks) && |ticks| >= k - |p.msgs|
    requires p.wire.Valid() && p.wire.Available() < TWO31 && Behind(p.wire, all, k) >= 0
    ensures |Passes(p, ticks).msgs| >= k <==> !Waits(p, all)
    ensures Waits(p, all) ==> Passes(p, ticks).msgs == p.msgs
  {
    hide OnTrack, OnePass, Waits, SplitsEarly, EncodeAll, Legal, Passes;
    BehindLess(p.wire, all, |p.msgs| + 1, k);
    if Waits(p, all) {
      WaitIsForEver(p, all, ticks);
    } else {
      NoWaitDispatches(p, all, k, ticks);
    }
  }

  lemma BehindLess(w: Wire, all: seq<Msg>, j: nat, k: nat)
    requires AllLegal(all) && j <= k <= |all|
    ensures Behind(w, all, j) >= Behind(w, all, k)
  {
    hide EncodeAll, Legal;
    PrefixLegal(all, k);
    EncodedFront(all[..k], j);
    assert all[..k][..j] == all[..j];
  }

  lemma DispatchLeavesMarker(p: Progress, t: Tick)
    requires Sized(p.link) && p.wire.Valid() && Step(p.link, p.wire, t).outcome.Dispatch?
    ensures BodyLength(OnePass(p, t).link.header) == -1 && |OnePass(p, t).msgs| == |p.msgs| + 1
  {
    hide Field, Splice, Sentinel, Wrap, Sub32, Signed, BodyLength;
    forall h: seq<byte> | |h| == HEADER_SIZE ensures BodyLength(Sentinel(h)) == -1 { SentinelReadsMinusOne(h); }
  }

  lemma {:induction false} NoWaitDispatches(p: Progress, all: seq<Msg>, k: nat, ticks: seq<Tick>)
    requires OnTrack(p, all) && Sized(p.link) && AllLegal(all) && |p.msgs| < k <= |all| && p.connected && !Waits(p, all)
    requires p.wire.stream == EncodeAll(all) && Smooth(p, ticks) && Quiet(ticks) && |ticks| >= k - |p.msgs|
    requires p.wire.Valid() && p.wire.Available() < TWO31 && Behind(p.wire, all, k) >= 0
    ensures |Passes(p, ticks).msgs| >= k
    decreases |ticks|
  {
    hide OnTrack, OnePass, SplitsEarly, EncodeAll, Legal, BodyLength, Step;
    assert ticks[0] == QUIET && p.wire.Arrive(0) == p.wire;
    BehindLess(p.wire, all, |p.msgs| + 1, k);
    PassDispatchesIff(p, QUIET, all);
    DispatchLeavesMarker(p, QUIET);
    PassStaysOnTrack(p, QUIET, all);
    QuietPass(p);
    var q := OnePass(p, QUIET);
    TrackIsValid(q, all);
    if |q.msgs| < k { NoWaitDispatches(q, all, k, ticks[1..]); }
  }

  lemma QuietPass(p: Progress)
    requires Sized(p.link) && p.wire.Valid()
    ensures var q := OnePass(p, QUIET); q.wire.arrived == p.wire.arrived && q.wire.pos >= p.wire.pos
  {
    hide Field, Splice, Sentinel, Wrap, Sub32, Signed, BodyLength;
  }

  /** A header that is read with too little of its body behind it is kept. */
  lemma HeaderPass(p: Progress, t: Tick)
    requires Sized(p.link) && p.wire.Valid() && BodyLength(p.link.header) == -1 && p.link.already == 0 && Succeeds(t)
    requires var w := p.wire.Arrive(t.beforePeek);
             t.beforeHeader == 0 && HEADER_SIZE <= w.Available() < TWO31 &&
             Field(w.stream[w.pos..w.pos + HEADER_SIZE], 0) == MAGIC &&
             BodyLength(w.stream[w.pos..w.pos + HEADER_SIZE]) > w.Available() - HEADER_SIZE
    ensures var w := p.wire.Arrive(t.beforePeek);
            OnePass(p, t) == Progress(Link(w.stream[w.pos..w.pos + HEADER_SIZE], p.link.body, 0), w.(pos := w.pos + HEADER_SIZE), p.msgs, true)
  {
    hide Field, BodyLength, ReadBody, ReadHeader;
    var w := p.wire.Arrive(t.beforePeek);
    HeaderWithoutBody(p.link, w, t);
  }

  lemma HeaderWithoutBody(l: Link, w: Wire, t: Tick)
    requires Sized(l) && w.Valid() && l.already == 0 && t.headerOk && t.beforeHeader == 0 && HEADER_SIZE <= w.Available() < TWO31
    requires var header := w.stream[w.pos..w.pos + HEADER_SIZE];
             Field(header, 0) == MAGIC && BodyLength(header) > w.Available() - HEADER_SIZE
    ensures ReadHeader(l, w, w.Available(), t) ==
            Pass(Link(w.stream[w.pos..w.pos + HEADER_SIZE], l.body, 0), w.(pos := w.pos + HEADER_SIZE), Again)
  {
    hide Field, BodyLength, ReadBody, Splice;
    var header := w.stream[w.pos..w.pos + HEADER_SIZE];
    SpliceFront(l.header, header);
    assert Splice(l.header, 0, header) == header && w.Arrive(0) == w;
    assert Sub32(w.Available(), HEADER_SIZE) == w.Available() - HEADER_SIZE;
  }

  /** The frames of a message with 16 bytes and of one without any. */
  predicate SixteenAndNone(p: Progress, m: Msg, e: Msg) {
    |m.body| == 16 && e.body == [] && Begins(p, [m, e]) && p.wire.arrived == 20
  }

  lemma TwoFrames(m: Msg, e: Msg)
    requires Legal(m) && Legal(e)
    ensures AllLegal([m, e]) && EncodeAll([m, e]) == Encode(m) + Encode(e)
  {
    hide Encode, Legal;
    EncodeAllSnoc([], m);
    EncodeAllSnoc([m], e);
    NothingEncoded();
    assert [] + [m] == [m] && [m] + [e] == [m, e] && [] + Encode(m) == Encode(m);
  }

  lemma SixteenHeader(p: Progress, m: Msg, e: Msg)
    requires SixteenAndNone(p, m, e)
    ensures var header := p.wire.stream[..HEADER_SIZE];
            |p.wire.stream| == 40 && Field(header, 0) == MAGIC && BodyLength(header) == 16
  {
    TwoFrames(m, e);
    hide Field, BodyLength, EncodeAll;
    assert Encode(m) + Encode(e) == Encode(m) + (Encode(e) + []);
    HeaderOfFrame(m, Encode(m)[..HEADER_SIZE]);
    assert p.wire.stream[..HEADER_SIZE] == Encode(m)[..HEADER_SIZE];
  }

  /** Its frame comes in three pieces: the header and half the body, the other half, and then a whole
      further frame. Everything is there, and still nothing is dispatched, ever. */
  lemma FrameBehindIsNotEnough(p: Progress, m: Msg, e: Msg, quiet: seq<Tick>)
    requires SixteenAndNone(p, m, e) && Quiet(quiet)
    requires var pieces := [QUIET, QUIET, QUIET.(beforePeek := 8), QUIET.(beforePeek := 12)];
             Smooth(p, pieces) && Smooth(Passes(p, pieces), quiet)
    ensures var pieces := [QUIET, QUIET, QUIET.(beforePeek := 8), QUIET.(beforePeek := 12)];
            Passes(p, pieces).wire.arrived == |p.wire.stream| && Passes(Passes(p, pieces), quiet).msgs == []
  {
    hide EncodeAll, Legal, SplitsEarly, GoodLengths, Field, BodyLength, OnePass, InSync;
    var (all, half, frame) := ([m, e], QUIET.(beforePeek := 8), QUIET.(beforePeek := 12));
    var pieces := [QUIET, QUIET, half, frame];
    SixteenHeader(p, m, e);
    BlankOnTrack(p, all);
    HeaderPass(p, QUIET);
    var p1 := OnePass(p, QUIET);
    HeldPass(p1, QUIET);
    var p2 := OnePass(p1, QUIET);
    HeldPass(p2, half);
    var p3 := OnePass(p2, half);
    HeldPass(p3, frame);
    var p4 := OnePass(p3, frame);
    FourPasses(p, pieces);
    NoneWellArrived(p.wire, all);
    PassesDispatch(p, pieces, all, 0);
    BehindFirst(p4, m, e);
    WaitIsForEver(p4, all, quiet);
  }

  lemma FourPasses(p: Progress, ticks: seq<Tick>)
    requires Sized(p.link) && p.wire.Valid() && |ticks| == 4 && p.connected
    requires var p1 := OnePass(p, ticks[0]); var p2 := OnePass(p1, ticks[1]); var p3 := OnePass(p2, ticks[2]);
             p1.connected && p2.connected && p3.connected
    ensures Passes(p, ticks) == OnePass(OnePass(OnePass(OnePass(p, ticks[0]), ticks[1]), ticks[2]), ticks[3])
  {
    hide OnePass;
    var (p1, r1, r2, r3) := (OnePass(p, ticks[0]), ticks[1..], ticks[2..], ticks[3..]);
    assert r1[1..] == r2 && r2[1..] == r3 && r3[1..] == [];
    var (p2, p3) := (OnePass(p1, r1[0]), OnePass(OnePass(p1, r1[0]), r2[0]));
    assert Passes(p2, r2) == Passes(p3, r3);
    assert Passes(OnePass(p3, r3[0]), []) == OnePass(p3, r3[0]);
  }

  lemma BehindFirst(p: Progress, m: Msg, e: Msg)
    requires Legal(m) && Legal(e) && AllLegal([m, e]) && p.wire.arrived == 40 && |m.body| == 16
    ensures Behind(p.wire, [m, e], 1) == 12
  {
    hide Legal;
    assert [m, e][..1] == [] + [m];
    EncodeAllSnoc([], m);
    NothingEncoded();
  }
}
