/** The invisible reference counting of the Direct3D 9 overlay: hooked AddRef and Release calls are
    counted apart for the application and for the overlay itself, by the thread that makes them. */
module RefCounting {

  /** Thread ids; 0 is none. */
  type Thread = t: nat | t > 0 witness 1

  /** A section of overlay code: the thread that runs it, and the thread id it put aside. */
  datatype Section = Section(thread: Thread, saved: nat)

  /** What the hooks know of a device, and the count that the real device keeps. Calls of the thread
      noted in myThread are taken for the overlay's own. */
  datatype State = State(registered: bool, initRefCount: int, refCount: int, myRefCount: int,
                         myThread: nat, open: seq<Section>, deviceCount: int)

  /** What a hooked call leaves behind and returns, and whether the pipe was disconnected. */
  datatype Outcome = Outcome(state: State, count: int, disconnected: bool)

  function AddRefBy(s: State, thread: Thread): Outcome {
    if !s.registered then Outcome(s.(deviceCount := s.deviceCount + 1), s.deviceCount + 1, false)
    else
      var r := if thread == s.myThread then s.(myRefCount := s.myRefCount + 1) else s.(refCount := s.refCount + 1);
      Outcome(r, r.initRefCount + r.refCount, false)
  }

  /** While the last reference is given up, the overlay drops a number of its own. */
  function ReleaseBy(s: State, thread: Thread, drops: nat): Outcome {
    if !s.registered then Outcome(s.(deviceCount := s.deviceCount - 1), s.deviceCount - 1, false)
    else if thread == s.myThread then Outcome(s.(myRefCount := s.myRefCount - 1), s.initRefCount + s.refCount, false)
    else
      var r := s.(refCount := s.refCount - 1);
      if r.refCount >= 0 then Outcome(r, r.initRefCount + r.refCount, r.refCount <= 1)
      else
        Outcome(r.(registered := false, myRefCount := r.myRefCount - drops, deviceCount := r.deviceCount - 1),
                r.deviceCount - 1, true)
  }

  function Entered(s: State, thread: Thread): State {
    s.(myThread := thread, open := s.open + [Section(thread, s.myThread)])
  }

  /** A section ends, not necessarily the last one opened. */
  function Left(s: State, i: nat): State {
    if i >= |s.open| then s else s.(myThread := s.open[i].saved, open := s.open[..i] + s.open[i + 1..])
  }

  /** The device as the hooks see it, its fields changed in place. */
  class Device {
    var registered: bool
    var initRefCount: int
    var refCount: int
    var myRefCount: int
    var dwMyThread: nat
    var open: seq<Section>
    var deviceCount: int

    ghost function Now(): State
      reads this
    {
      State(registered, initRefCount, refCount, myRefCount, dwMyThread, open, deviceCount)
    }

    /** Creation: an AddRef and a Release tell the count to start from. */
    constructor (count: int)
      ensures Now() == State(true, count, 0, 0, 0, [], count)
    {
      registered, initRefCount, refCount, myRefCount := true, count, 0, 0;
      dwMyThread, open, deviceCount := 0, [], count;
    }

    method MyAddRef(thread: Thread) returns (count: int)
      modifies this
      ensures var o := AddRefBy(old(Now()), thread); Now() == o.state && count == o.count
    {
      if registered {
        if dwMyThread == thread {
          myRefCount := myRefCount + 1;
        } else {
          refCount := refCount + 1;
        }
        return initRefCount + refCount;
      }
      deviceCount := deviceCount + 1;
      count := deviceCount;
    }

    method MyRelease(thread: Thread, drops: nat) returns (count: int, disconnected: bool)
      modifies this
      ensures var o := ReleaseBy(old(Now()), thread, drops);
              Now() == o.state && count == o.count && disconnected == o.disconnected
      decreases drops, 1
    {
      disconnected := false;
      if registered {
        if dwMyThread == thread {
          myRefCount := myRefCount - 1;
          return initRefCount + refCount, false;
        } else {
          refCount := refCount - 1;
        }
        if refCount <= 1 {
          disconnected := true;
        }
        if refCount >= 0 {
          return initRefCount + refCount, disconnected;
        }
        ReleaseAll(thread, drops);
        registered := false;
      }
      deviceCount := deviceCount - 1;
      count := deviceCount;
    }

    /** The overlay gives up what it holds, as its own thread: the calls come back to the hook. */
    method ReleaseAll(thread: Thread, drops: nat)
      requires registered
      modifies this
      ensures Now() == old(Now()).(myRefCount := old(myRefCount) - drops)
      decreases drops, 0
    {
      EnterSection(thread);
      for i := 0 to drops
        invariant Now() == State(true, old(initRefCount), old(refCount), old(myRefCount) - i, thread,
                                 old(open) + [Section(thread, old(dwMyThread))], old(deviceCount))
      {
        var _, _ := MyRelease(thread, 0);
      }
      LeaveSection(|open| - 1);
    }

    /** Stash: note the thread, and put the former one aside. */
    method EnterSection(thread: Thread)
      modifies this
      ensures Now() == Entered(old(Now()), thread)
    {
      open := open + [Section(thread, dwMyThread)];
      dwMyThread := thread;
    }

    method LeaveSection(section: nat)
      modifies this
      ensures Now() == Left(old(Now()), section)
    {
      if section < |open| {
        dwMyThread := open[section].saved;
        open := open[..section] + open[section + 1..];
      }
    }
  }

  /** Who really makes a call: the hooks cannot see it. */
  datatype Origin = Application | Overlay

  datatype Op =
    | AddRef(origin: Origin, thread: Thread)
    | Release(origin: Origin, thread: Thread, drops: nat)
    | Enter(thread: Thread)
    | Leave(section: nat)
  {
    predicate Call() { AddRef? || Release? }

    function Change(): int
      requires Call()
    {
      if AddRef? then 1 else -1
    }
  }

  /** The count that calls return: from the hooks, or from the device. */
  function Shown(s: State): int { if s.registered then s.initRefCount + s.refCount else s.deviceCount }

  function Step(s: State, op: Op): Outcome {
    match op
    case AddRef(_, thread) => AddRefBy(s, thread)
    case Release(_, thread, drops) => ReleaseBy(s, thread, drops)
    case Enter(thread) => Outcome(Entered(s, thread), Shown(s), false)
    case Leave(i) => Outcome(Left(s, i), Shown(s), false)
  }

  function Run(s: State, ops: seq<Op>): State
    decreases |ops|
  {
    if ops == [] then s else Run(Step(s, ops[0]).state, ops[1..])
  }

  /** The hooks take the call for one of the overlay's. */
  predicate Own(s: State, op: Op)
    requires op.Call()
  {
    s.registered && op.thread == s.myThread
  }

  /** How much further the count shown moves away from the application's: by a call that is counted
      for the other side. */
  function Shift(s: State, op: Op): int {
    if !op.Call() || Own(s, op) == op.origin.Overlay? then 0
    else if op.origin.Overlay? then op.Change()
    else -op.Change()
  }

  /** While registered, the real device still has its first count. */
  predicate Sound(s: State) { s.registered ==> s.deviceCount == s.initRefCount && s.refCount >= 0 }

  /** What the application's calls of a run return. */
  function Seen(s: State, ops: seq<Op>): seq<int>
    decreases |ops|
  {
    if ops == [] then []
    else
      var o := Step(s, ops[0]);
      (if ops[0].Call() && ops[0].origin.Application? then [o.count] else []) + Seen(o.state, ops[1..])
  }

  /** What a counter of the application's calls alone would return. */
  function Counter(count: int, ops: seq<Op>): seq<int>
    decreases |ops|
  {
    if ops == [] then []
    else if ops[0].Call() && ops[0].origin.Application? then
      [count + ops[0].Change()] + Counter(count + ops[0].Change(), ops[1..])
    else Counter(count, ops[1..])
  }

  /** At each call of the application, the net of all calls counted for the wrong side up to then. */
  function Drifts(s: State, drift: int, ops: seq<Op>): seq<int>
    decreases |ops|
  {
    if ops == [] then []
    else
      var d := drift + Shift(s, ops[0]);
      (if ops[0].Call() && ops[0].origin.Application? then [d] else []) + Drifts(Step(s, ops[0]).state, d, ops[1..])
  }

  /** One step moves the count shown as the caller's origin says, and by the shift. */
  lemma StepShift(s: State, op: Op)
    requires Sound(s)
    ensures var o := Step(s, op);
            Sound(o.state) && o.count == Shown(o.state) &&
            Shown(o.state) == Shown(s) + Shift(s, op) + if op.Call() && op.origin.Application? then op.Change() else 0
  {
  }

  /** The net of all calls, whoever makes them. */
  function Net(ops: seq<Op>): int {
    if ops == [] then 0 else (if ops[0].Call() then ops[0].Change() else 0) + Net(ops[1..])
  }

  /** While a device is registered no call is lost and none reaches the device: the two counts together
      move by the net of all calls of a run, and the device keeps its count. */
  lemma {:induction false} CallsAreConserved(s: State, ops: seq<Op>)
    requires s.registered && Run(s, ops).registered
    ensures var r := Run(s, ops);
            r.refCount + r.myRefCount == s.refCount + s.myRefCount + Net(ops) &&
            r.deviceCount == s.deviceCount && r.initRefCount == s.initRefCount
    decreases |ops|
  {
    hide Step;
    if ops != [] {
      StepConserves(s, ops[0]);
      if !Step(s, ops[0]).state.registered { GoneIsGone(Step(s, ops[0]).state, ops[1..]); }
      CallsAreConserved(Step(s, ops[0]).state, ops[1..]);
    }
  }

  lemma StepConserves(s: State, op: Op)
    requires s.registered
    ensures var r := Step(s, op).state;
            r.registered ==>
              r.refCount + r.myRefCount == s.refCount + s.myRefCount + (if op.Call() then op.Change() else 0) &&
              r.deviceCount == s.deviceCount && r.initRefCount == s.initRefCount
  {
  }

  /** After the final release, the device is on its own: all calls reach it. */
  lemma {:induction false} GoneIsGone(s: State, ops: seq<Op>)
    requires !s.registered
    ensures !Run(s, ops).registered && Run(s, ops).deviceCount == s.deviceCount + Net(ops)
    decreases |ops|
  {
    if ops != [] { GoneIsGone(Step(s, ops[0]).state, ops[1..]); }
  }

  /** The final release is the application's last: what the overlay holds is given up first, off its
      own count, and the device loses one reference. */
  lemma FinalRelease(s: State, op: Op)
    requires Sound(s) && s.registered && op.Call()
    ensures var r := Step(s, op).state;
            (!r.registered <==> op.Release? && !Own(s, op) && s.refCount == 0) &&
            (!r.registered ==> r.deviceCount == s.deviceCount - 1 && r.myRefCount == s.myRefCount - op.drops)
  {
  }

  /** However calls of the application and of the overlay interleave, on whatever threads: what the
      application sees is a plain counter of its own calls, off by exactly the drift. */
  lemma {:induction false} SeenIsOffByDrift(s: State, count: int, drift: int, ops: seq<Op>)
    requires Sound(s) && Shown(s) == count + drift
    ensures |Seen(s, ops)| == |Counter(count, ops)| == |Drifts(s, drift, ops)|
    ensures forall k :: 0 <= k < |Seen(s, ops)| ==> Seen(s, ops)[k] == Counter(count, ops)[k] + Drifts(s, drift, ops)[k]
    decreases |ops|
  {
    hide Step, Sound, Shown, Shift, Op.Change;
    if ops != [] {
      var op := ops[0];
      var (next, d) := (Step(s, op).state, drift + Shift(s, op));
      StepShift(s, op);
      SeenIsOffByDrift(next, if op.Call() && op.origin.Application? then count + op.Change() else count, d, ops[1..]);
    }
  }

  /** Transparency, exactly: the application sees a plain counter of its own calls, up to the final
      release and beyond, if and only if at each of them the calls counted for the wrong side cancel. */
  lemma TransparentIff(s: State, ops: seq<Op>)
    requires Sound(s)
    ensures Seen(s, ops) == Counter(Shown(s), ops) <==> forall d :: d in Drifts(s, 0, ops) ==> d == 0
  {
    SeenIsOffByDrift(s, Shown(s), 0, ops);
    var (seen, plain, drifts) := (Seen(s, ops), Counter(Shown(s), ops), Drifts(s, 0, ops));
    if forall d :: d in drifts ==> d == 0 {
      assert forall k :: 0 <= k < |seen| ==> drifts[k] in drifts;
    }
    if seen == plain {
      forall d | d in drifts ensures d == 0 {
        var k :| 0 <= k < |drifts| && drifts[k] == d;
        assert seen[k] == plain[k] + drifts[k];
      }
    }
  }

  // When the noted thread tells who calls.

  predicate InSection(s: State, t: Thread) { exists i :: 0 <= i < |s.open| && s.open[i].thread == t }

  /** Each section put aside the thread of the one opened before it. */
  predicate Stacked(s: State) {
    (forall i :: 0 <= i < |s.open| ==> s.open[i].saved == LastThread(s.open[..i])) && s.myThread == LastThread(s.open)
  }

  function LastThread(open: seq<Section>): nat { if open == [] then 0 else open[|open| - 1].thread }

  predicate OneThread(s: State) { forall i, j :: 0 <= i < j < |s.open| ==> s.open[i].thread == s.open[j].thread }

  /** The noted thread tells for every thread whether it runs overlay code exactly when only one does. */
  lemma NotedTellsIff(s: State)
    requires Stacked(s)
    ensures (forall t: Thread :: InSection(s, t) <==> t == s.myThread) <==> OneThread(s)
  {
    if !OneThread(s) {
      var i, j :| 0 <= i < j < |s.open| && s.open[i].thread != s.open[j].thread;
      assert InSection(s, s.open[i].thread) && InSection(s, s.open[j].thread);
    } else if s.open != [] {
      assert InSection(s, s.open[|s.open| - 1].thread);
    }
  }

  /** What sections promise: the overlay calls from inside one, on the thread that runs it, and the
      application from a thread that runs none; a section begins when no other thread runs one, and
      sections end in the opposite order. */
  predicate Orderly(s: State, op: Op) {
    match op
    case Enter(t) => forall i :: 0 <= i < |s.open| ==> s.open[i].thread == t
    case Leave(i) => i + 1 == |s.open|
    case _ => if op.origin.Overlay? then s.registered && InSection(s, op.thread) else !InSection(s, op.thread)
  }

  predicate EachOrderly(s: State, ops: seq<Op>)
    decreases |ops|
  {
    ops != [] ==> Orderly(s, ops[0]) && EachOrderly(Step(s, ops[0]).state, ops[1..])
  }

  /** Between such sections a call is counted for the right side exactly when it is orderly. */
  lemma CountedRightIff(s: State, op: Op)
    requires Stacked(s) && OneThread(s) && op.Call()
    ensures Shift(s, op) == 0 <==> (Orderly(s, op) || (!s.registered && op.origin.Application?))
  {
    NotedTellsIff(s);
  }

  lemma EnterStacked(s: State, t: Thread)
    requires Stacked(s) && OneThread(s) && Orderly(s, Enter(t))
    ensures Stacked(Entered(s, t)) && OneThread(Entered(s, t))
  {
    var open := Entered(s, t).open;
    assert open[..|s.open|] == s.open;
    assert forall i :: 0 <= i < |s.open| ==> open[..i] == s.open[..i];
  }

  lemma LeaveStacked(s: State, i: nat)
    requires Stacked(s) && OneThread(s) && Orderly(s, Leave(i))
    ensures Stacked(Left(s, i)) && OneThread(Left(s, i))
  {
    var open := Left(s, i).open;
    assert s.open[i + 1..] == [];
    assert open == s.open[..i];
    assert forall j :: 0 <= j < |open| ==> open[..j] == s.open[..j];
  }

  lemma StepStacked(s: State, op: Op)
    requires Stacked(s) && OneThread(s) && Orderly(s, op)
    ensures Stacked(Step(s, op).state) && OneThread(Step(s, op).state)
  {
    match op
    case Enter(t) => EnterStacked(s, t);
    case Leave(i) => LeaveStacked(s, i);
    case _ => assert Step(s, op).state.open == s.open && Step(s, op).state.myThread == s.myThread;
  }

  lemma {:induction false} OrderlyDoesNotDrift(s: State, ops: seq<Op>)
    requires Stacked(s) && OneThread(s) && EachOrderly(s, ops)
    ensures forall d :: d in Drifts(s, 0, ops) ==> d == 0
    decreases |ops|
  {
    hide Stacked, OneThread, Orderly, Step, Shift;
    if ops != [] {
      StepStacked(s, ops[0]);
      if ops[0].Call() { CountedRightIff(s, ops[0]); } else { NoShift(s, ops[0]); }
      OrderlyDoesNotDrift(Step(s, ops[0]).state, ops[1..]);
    }
  }

  lemma NoShift(s: State, op: Op)
    requires !op.Call()
    ensures Shift(s, op) == 0
  {
  }

  /** So with sections that keep their promise the overlay is invisible, from the creation of a device
      through its final release, which is forwarded. */
  lemma OrderlyIsTransparent(count: int, ops: seq<Op>)
    requires EachOrderly(State(true, count, 0, 0, 0, [], count), ops)
    ensures Seen(State(true, count, 0, 0, 0, [], count), ops) == Counter(count, ops)
  {
    var s := State(true, count, 0, 0, 0, [], count);
    OrderlyDoesNotDrift(s, ops);
    TransparentIff(s, ops);
  }

  // What happens otherwise.

  /** Two threads whose sections end in the order they began leave the first one noted for good: the
      application's own calls on it are then not counted. */
  lemma OutOfOrderSectionsHideCalls(count: int, a: Thread, b: Thread)
    requires a != b
    ensures var s := State(true, count, 0, 0, 0, [], count);
            var ops := [Enter(a), Enter(b), Leave(0), Leave(0), AddRef(Application, a)];
            Seen(s, ops) == [count] && Counter(count, ops) == [count + 1]
  {
    var s := State(true, count, 0, 0, 0, [], count);
    var ops := [Enter(a), Enter(b), Leave(0), Leave(0), AddRef(Application, a)];
    var s1 := Entered(s, a);
    var s2 := Entered(s1, b);
    var s3 := Left(s2, 0);
    var s4 := Left(s3, 0);
    assert s2.open == [Section(a, 0), Section(b, a)] && s3.open == [Section(b, a)] && s4.open == [];
    assert s4.myThread == a;
    assert ops[1..][1..][1..][1..] == [AddRef(Application, a)];
    assert Seen(s4, ops[4..]) == [count];
    assert ops[4..] == ops[3..][1..] && ops[3..] == ops[2..][1..] && ops[2..] == ops[1..][1..];
    assert Seen(s3, ops[3..]) == [count] && Seen(s2, ops[2..]) == [count] && Seen(s1, ops[1..]) == [count];
    assert Counter(count, ops[4..]) == [count + 1] && Counter(count, ops[3..]) == [count + 1];
    assert Counter(count, ops[2..]) == [count + 1] && Counter(count, ops[1..]) == [count + 1];
  }

  /** Presenting through a swap chain: the overlay looks up the device, which adds a reference, draws
      inside a section, and gives the reference back; the first and the last call lie outside. */
  function Drawing(t: Thread, adds: seq<bool>): seq<Op> {
    if adds == [] then [] else [if adds[0] then AddRef(Overlay, t) else Release(Overlay, t, 0)] + Drawing(t, adds[1..])
  }

  lemma {:induction false} DrawingIsOwn(s: State, t: Thread, adds: seq<bool>)
    requires s.registered && s.myThread == t
    ensures var r := Run(s, Drawing(t, adds)); r == s.(myRefCount := r.myRefCount)
    decreases |adds|
  {
    if adds != [] {
      var op := if adds[0] then AddRef(Overlay, t) else Release(Overlay, t, 0);
      assert Drawing(t, adds)[1..] == Drawing(t, adds[1..]);
      DrawingIsOwn(Step(s, op).state, t, adds[1..]);
    }
  }

  /** The state in which the last call of a swap chain's Present is made. */
  function Presented(s: State, t: Thread, adds: seq<bool>): State {
    Left(Run(Entered(AddRefBy(s, t).state, t), Drawing(t, adds)), |s.open|)
  }

  /** Afterwards all counts of the application are as before; but the pipe is disconnected, in every
      frame, exactly when the application holds at most one reference more than the device had at
      creation. */
  lemma SwapPresentDisconnectsIff(s: State, t: Thread, adds: seq<bool>)
    requires Sound(s) && s.registered && s.myThread != t
    ensures var o := ReleaseBy(Presented(s, t, adds), t, 0);
            o.state == s.(myRefCount := o.state.myRefCount) &&
            (o.disconnected <==> Shown(s) <= s.initRefCount + 1)
  {
    var inside := Entered(AddRefBy(s, t).state, t);
    DrawingIsOwn(inside, t, adds);
    assert (s.open + [Section(t, s.myThread)])[..|s.open|] == s.open;
    assert s.open + [] == s.open;
  }

  /** Meanwhile another thread of the application sees one reference too many. */
  lemma SwapPresentShows(count: int, t: Thread, u: Thread)
    ensures var s := State(true, count, 0, 0, 0, [], count);
            var ops := [AddRef(Overlay, t), AddRef(Application, u)];
            Seen(s, ops) == [count + 2] && Counter(count, ops) == [count + 1]
  {
    var s := State(true, count, 0, 0, 0, [], count);
    var ops := [AddRef(Overlay, t), AddRef(Application, u)];
    assert ops[1..] == [AddRef(Application, u)] && ops[1..][1..] == [];
    var s1 := Step(s, ops[0]).state;
    assert Seen(s1, ops[1..]) == [count + 2] && Counter(count, ops[1..]) == [count + 1];
  }

  /** The pipe is given up exactly at a release that is not counted for the overlay and leaves the
      count shown at most one above the first; while calls are counted for the right side, that is
      exactly a release of the application that leaves it at most one reference more than at creation. */
  lemma DisconnectsIff(s: State, count: int, drift: int, op: Op)
    requires Sound(s) && Shown(s) == count + drift
    ensures Step(s, op).disconnected <==>
            (s.registered && op.Release? && !Own(s, op) && count + drift - 1 <= s.initRefCount + 1)
    ensures Shift(s, op) == 0 && drift == 0 ==>
            (Step(s, op).disconnected <==>
              (s.registered && op.Release? && op.origin.Application? && count - 1 <= s.initRefCount + 1))
  {
  }
}
