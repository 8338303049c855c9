/** The life of one hook over shared memory: setup, inject, restore, check, and reset. */
module HookLifecycle {
  import opened Bytes
  import opened Hooking

  /** The fields of HardHook; base is 0 while the hook is not set up. */
  datatype Hook = Hook(base: uint32, orig: seq<byte>, replace: seq<byte>, trampoline: bool, call: uint32)

  const NO_BYTES: seq<byte> := [0, 0, 0, 0, 0, 0]
  const UNUSED := Hook(0, NO_BYTES, NO_BYTES, false, 0)

  /** A hook whose address can be written: VirtualProtect succeeded there when it was set up. */
  predicate Placed(h: Hook) {
    |h.orig| == |h.replace| == CODE_REPLACE_SIZE && h.base + CODE_PROTECT_SIZE <= TWO32
  }

  function Six(mem: Memory, at: uint32): (s: seq<byte>)
    requires at + CODE_REPLACE_SIZE <= TWO32
    ensures |s| == CODE_REPLACE_SIZE
  {
    mem[at..at + CODE_REPLACE_SIZE]
  }

  /** Neither injecting nor restoring does anything to an unused hook, or unforced to one with a
      trampoline, or where the bytes cannot be made writable. */
  predicate Acts(h: Hook, force: bool, writable: bool) {
    h.base != 0 && (force || !h.trampoline) && writable
  }

  function Injected(mem: Memory, h: Hook, force: bool, writable: bool): Memory
    requires Placed(h)
  {
    if Acts(h, force, writable) then Splice(mem, h.base, h.replace) else mem
  }

  function Restored(mem: Memory, h: Hook, force: bool, writable: bool): Memory
    requires Placed(h)
  {
    if Acts(h, force, writable) then Splice(mem, h.base, h.orig) else mem
  }

  /** Injecting again where the original bytes are back, and leaving third-party code alone. */
  function Checked(mem: Memory, h: Hook, writable: bool): Memory
    requires Placed(h)
  {
    if Six(mem, h.base) != h.replace && Six(mem, h.base) == h.orig then Injected(mem, h, true, writable) else mem
  }

  /** One hook and the memory it shares; before is the memory at the time of its last setup. */
  datatype World = World(mem: Memory, cave: Cave, hook: Hook, before: Memory)

  /** The answers a setup gets: the page, the protection changes while cloning, then one for saving
      and one for injecting. */
  datatype SetupAnswers = SetupAnswers(alloc: uint32, protects: seq<bool>, readable: bool, writable: bool)

  function SetUp(w: World, func: uint32, replacement: uint32, a: SetupAnswers): World
    requires w.cave.Valid() && IsPage(a.alloc)
  {
    if w.hook.base != 0 then w else
    var c := Clone(w.mem, w.cave, func, a.alloc, a.protects);
    var cloned := w.hook.(trampoline := c.trampoline != 0, call := if c.trampoline != 0 then c.trampoline else func);
    if !a.readable || c.original + CODE_PROTECT_SIZE > TWO32 then World(c.mem, c.cave, cloned, w.mem)
    else
      var h := cloned.(base := c.original, orig := Six(c.mem, c.original), replace := Redirect(replacement));
      World(Injected(c.mem, h, true, a.writable), c.cave, h, w.mem)
  }

  datatype Op =
    | Setup(func: uint32, replacement: uint32, answers: SetupAnswers)
    | Inject(force: bool, writable: bool)
    | Restore(force: bool, writable: bool)
    | Check(writable: bool)
    | Reset

  function Perform(w: World, op: Op): World
    requires Placed(w.hook) && w.cave.Valid() && (op.Setup? ==> IsPage(op.answers.alloc))
  {
    match op
    case Setup(func, replacement, a) => SetUp(w, func, replacement, a)
    case Inject(force, writable) => w.(mem := Injected(w.mem, w.hook, force, writable))
    case Restore(force, writable) => w.(mem := Restored(w.mem, w.hook, force, writable))
    case Check(writable) => w.(mem := Checked(w.mem, w.hook, writable))
    case Reset => w.(hook := UNUSED)
  }

  /** Setup finds the function outside the trampoline page; check is called on a hook that is set up;
      reset only while the original bytes are in place. */
  predicate Allowed(w: World, op: Op)
    requires Placed(w.hook) && w.cave.Valid()
  {
    match op
    case Setup(func, _, a) =>
      IsPage(a.alloc) &&
      var c := Clone(w.mem, w.cave, func, a.alloc, a.protects);
      c.original != 0 && (c.cave.pCode != 0 ==> Clear(c.original, CODE_PROTECT_SIZE, [Region(c.cave.pCode, PAGE_SIZE)]))
    case Check(_) => w.hook.base != 0
    case Reset => w.hook.base != 0 ==> Six(w.mem, w.hook.base) == w.hook.orig
    case _ => true
  }

  /** Memory a set-up hook may have changed since its setup: the trampoline page and its six bytes. */
  function Touched(w: World): seq<Region> {
    [Region(w.cave.pCode, if w.cave.pCode == 0 then 0 else PAGE_SIZE), Region(w.hook.base, CODE_REPLACE_SIZE)]
  }

  /** The trampoline is in place: the instructions copied from the target as it was, and the jump
      behind them, in a page that does not hold the target. */
  ghost predicate TrampolineStands(w: World)
    requires Placed(w.hook) && w.cave.Valid()
  {
    var (o, n, page) := (w.hook.base, w.hook.call, w.cave.pCode);
    var (k, complete) := Scan(Code(w.before, o), 0);
    && complete && page != 0 && page <= n && n + 2 * CODE_PROTECT_SIZE <= page + PAGE_SIZE
    && Clear(o, CODE_PROTECT_SIZE, [Region(page, PAGE_SIZE)])
    && w.mem[n..n + k] == Code(w.before, o)[..k] && w.mem[n + k..n + k + JMP_OP_SIZE] == JumpBack(o, n)
  }

  /** While set up, the hook knows the bytes its target had, the target holds either all of them or
      all of the hook code, nothing else has changed since, and a trampoline stays in place. */
  ghost predicate Sound(w: World) {
    && Placed(w.hook) && w.cave.Valid()
    && (w.hook.base != 0 ==>
         w.hook.orig == Six(w.before, w.hook.base) &&
         (Six(w.mem, w.hook.base) == w.hook.orig || Six(w.mem, w.hook.base) == w.hook.replace) &&
         AgreeOutside(w.before, w.mem, Touched(w)) &&
         (w.hook.trampoline ==> TrampolineStands(w)))
  }

  lemma SixAfterSplice(mem: Memory, at: uint32, six: seq<byte>)
    requires at + CODE_REPLACE_SIZE <= TWO32 && |six| == CODE_REPLACE_SIZE
    ensures Six(Splice(mem, at, six), at) == six
  {
  }

  /** Overwriting the six bytes of the target changes only memory already touched. */
  lemma SpliceTouches(w: World, six: seq<byte>)
    requires Placed(w.hook) && |six| == CODE_REPLACE_SIZE && AgreeOutside(w.before, w.mem, Touched(w))
    ensures AgreeOutside(w.before, Splice(w.mem, w.hook.base, six), Touched(w))
  {
    assert Touched(w)[1] in Touched(w);
  }

  /** Overwriting the six bytes of the target leaves the trampoline in place. */
  lemma SpliceSparesTrampoline(w: World, six: seq<byte>)
    requires Placed(w.hook) && w.cave.Valid() && |six| == CODE_REPLACE_SIZE && TrampolineStands(w)
    ensures TrampolineStands(w.(mem := Splice(w.mem, w.hook.base, six)))
  {
    hide Scan, JumpBack;
    var (o, n, page) := (w.hook.base, w.hook.call, w.cave.pCode);
    var k := Scan(Code(w.before, o), 0).0;
    assert Region(page, PAGE_SIZE) in [Region(page, PAGE_SIZE)];
    var mem' := Splice(w.mem, o, six);
    assert mem'[n..n + k] == w.mem[n..n + k];
    assert mem'[n + k..n + k + JMP_OP_SIZE] == w.mem[n + k..n + k + JMP_OP_SIZE];
  }

  lemma CloneStands(w: World, func: uint32, a: SetupAnswers, h: Hook)
    requires w.cave.Valid() && IsPage(a.alloc) && Placed(h)
    requires var c := Clone(w.mem, w.cave, func, a.alloc, a.protects);
             c.trampoline != 0 && h.base == c.original && h.call == c.trampoline && c.cave.pCode != 0 &&
             Clear(c.original, CODE_PROTECT_SIZE, [Region(c.cave.pCode, PAGE_SIZE)])
    ensures var c := Clone(w.mem, w.cave, func, a.alloc, a.protects);
            TrampolineStands(World(c.mem, c.cave, h, w.mem))
  {
    hide Clone, Scan, JumpBack, Acquire, Clear, Splice, Code;
    var c, begin := Clone(w.mem, w.cave, func, a.alloc, a.protects), Acquire(w.cave, a.alloc);
    CloneEnds(w.mem, w.cave, func, a.alloc, a.protects);
    BesideFresh(h.base, begin, c.cave.pCode);
    CloneShape(w.mem, w.cave, func, a.alloc, a.protects);
    CloneTramp(w.mem, begin, c, Scan(Code(w.mem, c.original), 0).0);
  }

  /** Cloning leaves the function itself as it was. */
  lemma CloneSpares(mem: Memory, cave: Cave, func: uint32, a: SetupAnswers)
    requires cave.Valid() && IsPage(a.alloc)
    requires var c := Clone(mem, cave, func, a.alloc, a.protects);
             c.original + CODE_PROTECT_SIZE <= TWO32 &&
             (c.cave.pCode != 0 ==> Clear(c.original, CODE_PROTECT_SIZE, [Region(c.cave.pCode, PAGE_SIZE)]))
    ensures var c := Clone(mem, cave, func, a.alloc, a.protects);
            Six(c.mem, c.original) == Six(mem, c.original) &&
            (c.cave.pCode == 0 ==> c.mem == mem) &&
            (c.cave.pCode != 0 ==> AgreeOutside(mem, c.mem, [Region(c.cave.pCode, PAGE_SIZE)]))
  {
    hide Clone, Acquire;
    CloneWrites(mem, cave, func, a.alloc, a.protects);
    var c := Clone(mem, cave, func, a.alloc, a.protects);
    if c.cave.pCode != 0 {
      var begin := Acquire(cave, a.alloc);
      var page, part := Region(c.cave.pCode, PAGE_SIZE), Region(begin.pCode + begin.uiCode, PAGE_SIZE - begin.uiCode);
      assert page in [page];
      forall i | 0 <= i < TWO32 && Clear(i, 1, [page]) ensures c.mem[i] == mem[i] {
        assert Clear(i, 1, [part]);
      }
      forall i | c.original <= i < c.original + CODE_REPLACE_SIZE ensures c.mem[i] == mem[i] {
        assert Clear(i, 1, [page]);
      }
    }
  }

  lemma SetupSound(w: World, func: uint32, replacement: uint32, a: SetupAnswers)
    requires Sound(w) && Allowed(w, Setup(func, replacement, a))
    ensures Sound(SetUp(w, func, replacement, a))
  {
    hide Clone, Clear, TrampolineStands, AgreeOutside, Acquire;
    var c := Clone(w.mem, w.cave, func, a.alloc, a.protects);
    if w.hook.base == 0 && a.readable && c.original + CODE_PROTECT_SIZE <= TWO32 {
      CloneSpares(w.mem, w.cave, func, a);
      var w' := SetUp(w, func, replacement, a);
      var cloned := w'.(mem := c.mem);
      AgreesWithMore(w.mem, c.mem, [Region(c.cave.pCode, PAGE_SIZE)], Touched(cloned), c.cave.pCode);
      SpliceTouches(cloned, w'.hook.replace);
      SixAfterSplice(c.mem, w'.hook.base, w'.hook.replace);
      if c.trampoline != 0 {
        CloneWrites(w.mem, w.cave, func, a.alloc, a.protects);
        CloneStands(w, func, a, w'.hook);
        SpliceSparesTrampoline(cloned, w'.hook.replace);
      }
    }
  }

  lemma AgreesWithMore(mem: Memory, mem': Memory, page: seq<Region>, touched: seq<Region>, pCode: uint32)
    requires |page| == 1 && |touched| > 0 && (pCode != 0 ==> touched[0] == page[0])
    requires if pCode == 0 then mem' == mem else AgreeOutside(mem, mem', page)
    ensures AgreeOutside(mem, mem', touched)
  {
    forall a | 0 <= a < TWO32 && Clear(a, 1, touched) ensures mem'[a] == mem[a] {
      if pCode != 0 {
        assert touched[0] in touched;
        assert Clear(a, 1, page);
      }
    }
  }

  lemma PerformSound(w: World, op: Op)
    requires Sound(w) && Allowed(w, op)
    ensures Sound(Perform(w, op))
  {
    match op
    case Setup(func, replacement, a) => SetupSound(w, func, replacement, a);
    case Reset =>
    case _ =>
      hide AgreeOutside, TrampolineStands;
      var h := w.hook;
      if h.base != 0 {
        if h.trampoline {
          SpliceSparesTrampoline(w, h.replace);
          SpliceSparesTrampoline(w, h.orig);
        }
        SpliceTouches(w, h.replace);
        SpliceTouches(w, h.orig);
        SixAfterSplice(w.mem, h.base, h.replace);
        SixAfterSplice(w.mem, h.base, h.orig);
      }
  }

  ghost predicate EachAllowed(w: World, ops: seq<Op>)
    decreases |ops|
  {
    ops != [] ==>
      Placed(w.hook) && w.cave.Valid() && Allowed(w, ops[0]) && EachAllowed(Perform(w, ops[0]), ops[1..])
  }

  ghost function PerformAll(w: World, ops: seq<Op>): World
    requires EachAllowed(w, ops)
    decreases |ops|
  {
    if ops == [] then w else PerformAll(Perform(w, ops[0]), ops[1..])
  }

  /** A hook begins unused. */
  lemma UnusedIsSound(mem: Memory)
    ensures Sound(World(mem, Cave(0, 0), UNUSED, mem))
  {
  }

  /** Over any sequence of operations the target is never half patched, and a set-up hook can always
      tell what was there before. */
  lemma {:induction false} HookSound(w: World, ops: seq<Op>)
    requires Sound(w) && EachAllowed(w, ops)
    ensures Sound(PerformAll(w, ops))
    decreases |ops|
  {
    hide Perform, Sound, Clear;
    if ops != [] {
      PerformSound(w, ops[0]);
      HookSound(Perform(w, ops[0]), ops[1..]);
    }
  }

  /** A forced restore whose protection change succeeds brings back the bytes seen at setup, and then
      all memory outside the trampoline page is as it was before. */
  lemma RestoreReturnsSeen(w: World)
    requires Sound(w) && w.hook.base != 0
    ensures var mem := Restored(w.mem, w.hook, true, true);
            Six(mem, w.hook.base) == Six(w.before, w.hook.base) && AgreeOutside(w.before, mem, Touched(w)[..1])
  {
    hide TrampolineStands;
    var (o, mem) := (w.hook.base, Restored(w.mem, w.hook, true, true));
    SixAfterSplice(w.mem, o, w.hook.orig);
    forall i | 0 <= i < TWO32 && Clear(i, 1, Touched(w)[..1]) ensures mem[i] == w.before[i] {
      if o <= i < o + CODE_REPLACE_SIZE {
        assert mem[i] == Six(mem, o)[i - o] && w.before[i] == Six(w.before, o)[i - o];
      } else {
        assert Touched(w)[0] in Touched(w)[..1];
        assert Clear(i, 1, Touched(w));
      }
    }
  }

  /** Without a trampoline, the code between restore and inject runs unhooked exactly when the
      restore could write, or the hook was not in place to begin with; it then meets the instructions
      it would have met before the setup. The inject behind it hooks again exactly when it can write. */
  lemma BracketRunsUnhooked(w: World, writable: bool, writableAfter: bool, at: uint32, steps: nat)
    requires Sound(w) && w.hook.base != 0 && !w.hook.trampoline && w.hook.orig != w.hook.replace
    ensures var mem := Restored(w.mem, w.hook, false, writable);
            (Six(mem, w.hook.base) == Six(w.before, w.hook.base) <==>
              writable || Six(w.mem, w.hook.base) == w.hook.orig) &&
            (writable && Avoids(w.before, at, steps, Touched(w)[..1]) ==>
              Fetch(mem, at, steps) == Fetch(w.before, at, steps)) &&
            (writable ==> (Six(Injected(mem, w.hook, false, writableAfter), w.hook.base) == w.hook.replace <==> writableAfter))
  {
    hide Fetch, Avoids, AgreeOutside, TrampolineStands;
    var mem := Restored(w.mem, w.hook, false, writable);
    RestoreReturnsSeen(w);
    SixAfterSplice(w.mem, w.hook.base, w.hook.orig);
    SixAfterSplice(mem, w.hook.base, w.hook.replace);
    if writable && Avoids(w.before, at, steps, Touched(w)[..1]) {
      FetchUnchanged(w.before, mem, at, steps, Touched(w)[..1]);
    }
  }

  /** With a trampoline, calling through it meets the instructions of the function as it was before
      setup, at any point of the hook's life, hooked or restored. */
  lemma CallThroughTrampoline(w: World, steps: nat)
    requires Sound(w) && w.hook.base != 0 && w.hook.trampoline
    requires Avoids(w.before, Add32(w.hook.base, Scan(Code(w.before, w.hook.base), 0).0), steps, Touched(w))
    ensures var copied := |Instructions(Code(w.before, w.hook.base), 0)|;
            Fetch(w.mem, w.hook.call, copied + (1 + steps)) == Fetch(w.before, w.hook.base, copied + steps)
  {
    hide Scan, Fetch, Avoids, AgreeOutside, Touched, Instructions, JumpBack;
    CopyStandsForOriginal(w.before, w.mem, w.hook.base, w.hook.call, steps, Touched(w));
  }

  /** A hook that is in place sends control to its replacement. */
  lemma InjectedGoesToReplacement(w: World, func: uint32, replacement: uint32, a: SetupAnswers)
    requires w.cave.Valid() && IsPage(a.alloc) && w.hook == UNUSED && a.readable && a.writable
    requires var c := Clone(w.mem, w.cave, func, a.alloc, a.protects);
             c.original != 0 && c.original + CODE_PROTECT_SIZE <= TWO32
    ensures var w' := SetUp(w, func, replacement, a);
            w'.hook.base == Clone(w.mem, w.cave, func, a.alloc, a.protects).original &&
            Fetch(w'.mem, w'.hook.base, 1) == Trace([[0x68] + LE32(replacement)], w'.hook.base + 5) &&
            w'.mem[w'.hook.base + 5] == 0xc3
  {
    hide Clone, Fetch, Redirect;
    var w' := SetUp(w, func, replacement, a);
    var c := Clone(w.mem, w.cave, func, a.alloc, a.protects);
    SixAfterSplice(c.mem, c.original, Redirect(replacement));
    HookedGoesToReplacement(w'.mem, w'.hook.base, replacement);
  }

  /** Everything but the six bytes at this address is the same. */
  ghost predicate OnlySix(mem: Memory, mem': Memory, at: uint32) {
    forall i :: 0 <= i < TWO32 && !(at <= i < at + CODE_REPLACE_SIZE) ==> mem'[i] == mem[i]
  }

  lemma SpliceOnlySix(mem: Memory, at: uint32, six: seq<byte>)
    requires at + CODE_REPLACE_SIZE <= TWO32 && |six| == CODE_REPLACE_SIZE
    ensures Six(Splice(mem, at, six), at) == six && OnlySix(mem, Splice(mem, at, six), at)
  {
  }

  /** What a check does to the bytes in memory: they are the hook afterwards exactly when they were
      before, or were the original ones and can be written; code that a third party put there stays,
      and so does everything else. */
  lemma CheckOnBytes(w: World, writable: bool)
    requires Placed(w.hook) && w.cave.Valid() && w.hook.base != 0
    ensures var (at, w') := (w.hook.base, Perform(w, Check(writable)));
            var (was, now) := (Six(w.mem, at), Six(w'.mem, at));
            w' == w.(mem := w'.mem) && OnlySix(w.mem, w'.mem, at) &&
            (now == w.hook.replace <==> was == w.hook.replace || (was == w.hook.orig && writable)) &&
            (now != w.hook.replace ==> now == was)
  {
    SpliceOnlySix(w.mem, w.hook.base, w.hook.replace);
    hide Splice;
  }

  /** Injecting makes the six bytes the hook, and restoring makes them the original ones, if they can
      be written and the call is forced or the hook has no trampoline; otherwise, and on a hook that
      is not set up, nothing happens. */
  lemma PatchOnBytes(w: World, force: bool, writable: bool)
    requires Placed(w.hook) && w.cave.Valid()
    ensures var (at, hooked, freed) := (w.hook.base, Perform(w, Inject(force, writable)), Perform(w, Restore(force, writable)));
            hooked == w.(mem := hooked.mem) && OnlySix(w.mem, hooked.mem, at) &&
            freed == w.(mem := freed.mem) && OnlySix(w.mem, freed.mem, at) &&
            if at != 0 && writable && (force || !w.hook.trampoline)
            then Six(hooked.mem, at) == w.hook.replace && Six(freed.mem, at) == w.hook.orig
            else hooked.mem == w.mem && freed.mem == w.mem
  {
    SpliceOnlySix(w.mem, w.hook.base, w.hook.replace);
    SpliceOnlySix(w.mem, w.hook.base, w.hook.orig);
    hide Splice;
  }

  /** What a setup leaves behind, whether it could hook the function or not. There is something to
      call: the trampoline if one could be built, and otherwise the function. The hook is set up
      exactly when the code behind the jumps can be read, with the bytes saved that were there; and
      these are overwritten by the hook exactly when they can be written. */
  lemma SetupOnBytes(w: World, func: uint32, replacement: uint32, a: SetupAnswers)
    requires w.cave.Valid() && IsPage(a.alloc) && w.hook == UNUSED
    requires Allowed(w, Setup(func, replacement, a))
    ensures var (w', c) := (SetUp(w, func, replacement, a), Clone(w.mem, w.cave, func, a.alloc, a.protects));
            var (h, o) := (w'.hook, c.original);
            h.call == (if c.trampoline == 0 then func else c.trampoline) && (h.trampoline <==> c.trampoline != 0) &&
            (h.base != 0 <==> a.readable && o + CODE_PROTECT_SIZE <= TWO32) &&
            (h.base == 0 ==> h.orig == h.replace == NO_BYTES && w'.mem == c.mem) &&
            (h.base != 0 ==>
              h.base == o && h.orig == Six(w.mem, o) && h.replace == Redirect(replacement) && OnlySix(c.mem, w'.mem, o) &&
              Six(w'.mem, o) == if a.writable then Redirect(replacement) else Six(w.mem, o))
  {
    hide Clone, Splice, Clear, Redirect, AgreeOutside;
    var c := Clone(w.mem, w.cave, func, a.alloc, a.protects);
    if c.original + CODE_PROTECT_SIZE <= TWO32 {
      CloneSpares(w.mem, w.cave, func, a);
      SpliceOnlySix(c.mem, c.original, Redirect(replacement));
    }
  }

  /** Calling a function that has no trampoline, between a restore that can write and the inject behind
      it: the instructions met are those of the function before the setup. */
  lemma BracketedCall(w: World, func: uint32, replacement: uint32, a: SetupAnswers, steps: nat)
    requires w.cave.Valid() && IsPage(a.alloc) && w.hook == UNUSED && a.readable
    requires Allowed(w, Setup(func, replacement, a))
    requires var c := Clone(w.mem, w.cave, func, a.alloc, a.protects);
             c.trampoline == 0 && c.original + CODE_PROTECT_SIZE <= TWO32
    requires var w' := SetUp(w, func, replacement, a); Avoids(w.mem, func, steps, Touched(w')[..1])
    ensures var w' := SetUp(w, func, replacement, a);
            Fetch(Restored(w'.mem, w'.hook, false, true), w'.hook.call, steps) == Fetch(w.mem, func, steps)
  {
    hide Clone, Fetch, Avoids, AgreeOutside, TrampolineStands, Clear, Redirect;
    assert Sound(w);
    SetupSound(w, func, replacement, a);
    var w' := SetUp(w, func, replacement, a);
    RestoreReturnsSeen(w');
    FetchUnchanged(w.mem, Restored(w'.mem, w'.hook, true, true), func, steps, Touched(w')[..1]);
  }

  /** Setting up again after a reset saves the true original bytes exactly when the reset found them
      in place: a reset while hooked makes the hook's own code the saved original. */
  lemma ResetKeepsOriginalIff(w: World, func: uint32, replacement: uint32, a: SetupAnswers)
    requires Sound(w) && w.hook.base != 0 && a.readable
    requires Allowed(Perform(w, Reset), Setup(func, replacement, a))
    requires Clone(w.mem, w.cave, func, a.alloc, a.protects).original == w.hook.base
    ensures SetUp(Perform(w, Reset), func, replacement, a).hook.orig == w.hook.orig <==>
            Six(w.mem, w.hook.base) == w.hook.orig
  {
    hide Clone, Clear, TrampolineStands, AgreeOutside;
    CloneSpares(w.mem, w.cave, func, a);
  }
}
