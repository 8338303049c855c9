/** All hooks of the program together: they share the trampoline pages and the memory that everybody
    else writes to as well. */
module HookSystem {
  import opened Bytes
  import opened Hooking
  import L = HookLifecycle

  /** One hook, and the number of bytes its trampoline was copied from. */
  datatype Member = Member(hook: L.Hook, copied: nat) {
    predicate Active() { hook.base != 0 }

    /** The sixteen bytes from which a trampoline may be copied. */
    predicate InWindow(at: nat, size: nat) { at < hook.base + CODE_PROTECT_SIZE && hook.base < at + size }
  }

  datatype System = System(mem: Memory, cave: Cave, pages: seq<uint32>, members: seq<Member>)

  datatype Op =
    | Setup(i: nat, func: uint32, replacement: uint32, answers: L.SetupAnswers)
    | Inject(i: nat, force: bool, writable: bool)
    | Restore(i: nat, force: bool, writable: bool)
    | Check(i: nat, writable: bool)
    | Reset(i: nat)
    | Write(at: uint32, data: seq<byte>)

  /** The code of the target as it is without the hook. */
  function Original(mem: Memory, m: Member): (code: seq<byte>)
    requires L.Placed(m.hook)
    ensures |code| == CODE_PROTECT_SIZE
  {
    m.hook.orig + mem[m.hook.base + CODE_REPLACE_SIZE..m.hook.base + CODE_PROTECT_SIZE]
  }

  /** The trampoline holds the instructions of the target without the hook, and the jump behind them. */
  predicate Faithful(mem: Memory, m: Member)
    requires L.Placed(m.hook)
  {
    var (o, n, k) := (m.hook.base, m.hook.call, m.copied);
    n + 2 * CODE_PROTECT_SIZE <= TWO32 && Scan(Original(mem, m), 0) == (k, true) &&
    mem[n..n + k] == Original(mem, m)[..k] && mem[n + k..n + k + JMP_OP_SIZE] == JumpBack(o, n)
  }

  /** The target holds all of the original bytes or all of the hook, and the trampoline is faithful. */
  predicate Stands(mem: Memory, m: Member) {
    L.Placed(m.hook) && m.copied <= CODE_PROTECT_SIZE &&
    (m.Active() ==>
      (L.Six(mem, m.hook.base) == m.hook.orig || L.Six(mem, m.hook.base) == m.hook.replace) &&
      (m.hook.trampoline ==> Faithful(mem, m)))
  }

  predicate OffPages(pages: seq<uint32>, at: nat, size: nat) {
    forall p :: p in pages ==> at + size <= p || p + PAGE_SIZE <= at
  }

  /** A trampoline lies in a page, below the used mark where that is the page in use. */
  ghost predicate Housed(s: System, m: Member) {
    (exists p :: p in s.pages && p <= m.hook.call && m.hook.call + m.copied + JMP_OP_SIZE <= p + PAGE_SIZE) &&
    (s.cave.pCode == 0 || s.cave.pCode + PAGE_SIZE <= m.hook.call ||
      m.hook.call + m.copied + JMP_OP_SIZE <= s.cave.pCode + s.cave.uiCode)
  }

  ghost predicate MemberSound(s: System, m: Member) {
    Stands(s.mem, m) &&
    (m.Active() ==> OffPages(s.pages, m.hook.base, CODE_PROTECT_SIZE) && (m.hook.trampoline ==> Housed(s, m)))
  }

  predicate WindowsApart(members: seq<Member>) {
    forall i, j :: 0 <= i < |members| && 0 <= j < |members| && i != j && members[i].Active() && members[j].Active() ==>
      !members[i].InWindow(members[j].hook.base, CODE_PROTECT_SIZE)
  }

  ghost predicate Sound(s: System) {
    && s.cave.Valid()
    && (s.cave.pCode != 0 ==> s.cave.pCode in s.pages)
    && (forall p :: p in s.pages ==> p + PAGE_SIZE <= TWO32)
    && (forall i :: 0 <= i < |s.members| ==> MemberSound(s, s.members[i]))
    && WindowsApart(s.members)
  }

  /** No active hook's target window is touched. */
  predicate OffWindows(members: seq<Member>, at: nat, size: nat) {
    forall i :: 0 <= i < |members| && members[i].Active() ==> !members[i].InWindow(at, size)
  }

  /** New pages overlap no page and no target; a target set up lies in no page and apart from the other
      targets; check is called on a hook that is set up, and reset while the original bytes are in
      place; everybody else writes neither to pages nor to targets. */
  predicate Allowed(s: System, op: Op)
    requires s.cave.Valid()
  {
    match op
    case Setup(i, func, _, a) =>
      i < |s.members| &&
      (a.alloc == 0 || (PageFree(s.pages, a.alloc) && OffWindows(s.members, a.alloc, PAGE_SIZE))) &&
      var c := Clone(s.mem, s.cave, func, a.alloc, a.protects);
      (s.members[i].Active() ||
        (c.original != 0 && OffPages(PagesAfter(s, a.alloc), c.original, CODE_PROTECT_SIZE) &&
         OffWindows(s.members, c.original, CODE_PROTECT_SIZE)))
    case Check(i, _) => i < |s.members| && s.members[i].Active()
    case Reset(i) =>
      i < |s.members| &&
      (s.members[i].Active() && L.Placed(s.members[i].hook) ==> L.Six(s.mem, s.members[i].hook.base) == s.members[i].hook.orig)
    case Inject(i, _, _) => i < |s.members|
    case Restore(i, _, _) => i < |s.members|
    case Write(at, data) => at + |data| <= TWO32 && OffPages(s.pages, at, |data|) && OffWindows(s.members, at, |data|)
  }

  function PagesAfter(s: System, alloc: uint32): seq<uint32>
    requires s.cave.Valid() && IsPage(alloc)
  {
    if Acquire(s.cave, alloc) == s.cave || alloc == 0 then s.pages else s.pages + [alloc]
  }

  function SetUp(s: System, i: nat, func: uint32, replacement: uint32, a: L.SetupAnswers): System
    requires s.cave.Valid() && i < |s.members| && IsPage(a.alloc)
  {
    var h := s.members[i].hook;
    if h.base != 0 then s
    else
      var w := L.SetUp(L.World(s.mem, s.cave, h, s.mem), func, replacement, a);
      var o := Clone(s.mem, s.cave, func, a.alloc, a.protects).original;
      var k := if o + CODE_PROTECT_SIZE <= TWO32 then Scan(Code(s.mem, o), 0).0 else 0;
      System(w.mem, w.cave, PagesAfter(s, a.alloc), s.members[i := Member(w.hook, k)])
  }

  /** One operation of one hook, or a write of somebody else. */
  function Perform(s: System, op: Op): System
    requires s.cave.Valid() && Allowed(s, op) && AllPlaced(s.members)
  {
    match op
    case Setup(i, func, replacement, a) => SetUp(s, i, func, replacement, a)
    case Inject(i, force, writable) => s.(mem := L.Injected(s.mem, s.members[i].hook, force, writable))
    case Restore(i, force, writable) => s.(mem := L.Restored(s.mem, s.members[i].hook, force, writable))
    case Check(i, writable) => s.(mem := L.Checked(s.mem, s.members[i].hook, writable))
    case Reset(i) => s.(members := s.members[i := Member(L.UNUSED, 0)])
    case Write(at, data) => s.(mem := Splice(s.mem, at, data))
  }

  /** The hook that an operation is about, and what it is for that hook alone. */
  function Local(op: Op): (nat, L.Op)
    requires !op.Write?
  {
    match op
    case Setup(i, func, replacement, a) => (i, L.Setup(func, replacement, a))
    case Inject(i, force, writable) => (i, L.Inject(force, writable))
    case Restore(i, force, writable) => (i, L.Restore(force, writable))
    case Check(i, writable) => (i, L.Check(writable))
    case Reset(i) => (i, L.Reset)
  }

  /** Of all hooks only that one changes, and memory as it changes it; a write puts its bytes in place. */
  lemma OneHookActs(s: System, op: Op)
    requires s.cave.Valid() && Allowed(s, op) && AllPlaced(s.members)
    ensures var r := Perform(s, op);
            if op.Write? then
              r == s.(mem := r.mem) && r.mem[op.at..op.at + |op.data|] == op.data &&
              forall a :: 0 <= a < TWO32 && !(op.at <= a < op.at + |op.data|) ==> r.mem[a] == s.mem[a]
            else
              var (i, local) := Local(op);
              i < |s.members| && |r.members| == |s.members| && s.members[i].hook.base + CODE_PROTECT_SIZE <= TWO32 &&
              var w := L.Perform(L.World(s.mem, s.cave, s.members[i].hook, s.mem), local);
              (r.mem, r.cave, r.members[i].hook) == (w.mem, w.cave, w.hook) &&
              forall j :: 0 <= j < |s.members| && j != i ==> r.members[j] == s.members[j]
  {
    hide Clone, Splice, OffPages, OffWindows, PageFree, Scan;
    if op.Write? {
      assert Perform(s, op).mem == Splice(s.mem, op.at, op.data);
      Spliced(s.mem, op.at, op.data);
    }
  }

  lemma Spliced(mem: Memory, at: nat, data: seq<byte>)
    requires at + |data| <= TWO32
    ensures Splice(mem, at, data)[at..at + |data|] == data
  {
  }

  /** The same bytes in both memories. */
  predicate Same(mem: Memory, mem': Memory, at: nat, size: nat) {
    at + size <= TWO32 && mem'[at..at + size] == mem[at..at + size]
  }

  lemma SameByAgreement(mem: Memory, mem': Memory, region: Region, at: nat, size: nat)
    requires AgreeOutside(mem, mem', [region]) && at + size <= TWO32
    requires at + size <= region.lo || region.lo + region.size <= at
    ensures Same(mem, mem', at, size)
  {
    forall a | at <= a < at + size ensures mem'[a] == mem[a] {
      assert Clear(a, 1, [region]);
    }
  }

  lemma SamePart(mem: Memory, mem': Memory, at: nat, size: nat, lo: nat, n: nat)
    requires Same(mem, mem', at, size) && at <= lo && lo + n <= at + size
    ensures Same(mem, mem', lo, n)
  {
    SliceOfSlice(mem, at, size, lo - at, lo - at + n);
    SliceOfSlice(mem', at, size, lo - at, lo - at + n);
  }

  /** What a hook needs of memory: its window, and its trampoline. */
  predicate Untouched(mem: Memory, mem': Memory, m: Member) {
    m.Active() ==>
      Same(mem, mem', m.hook.base, CODE_PROTECT_SIZE) &&
      (m.hook.trampoline ==> Same(mem, mem', m.hook.call, m.copied + JMP_OP_SIZE))
  }

  lemma StandsUntouched(mem: Memory, mem': Memory, m: Member)
    requires Stands(mem, m) && Untouched(mem, mem', m)
    ensures Stands(mem', m)
  {
    hide Scan, JumpBack, Splice;
    if m.Active() {
      var (o, n, k) := (m.hook.base, m.hook.call, m.copied);
      SamePart(mem, mem', o, CODE_PROTECT_SIZE, o, CODE_REPLACE_SIZE);
      SamePart(mem, mem', o, CODE_PROTECT_SIZE, o + CODE_REPLACE_SIZE, CODE_PROTECT_SIZE - CODE_REPLACE_SIZE);
      if m.hook.trampoline {
        SamePart(mem, mem', n, k + JMP_OP_SIZE, n, k);
        SamePart(mem, mem', n, k + JMP_OP_SIZE, n + k, JMP_OP_SIZE);
      }
    }
  }

  /** A change of memory in one region that an active hook's window and trampoline lie outside of. */
  lemma UntouchedOutside(s: System, mem': Memory, region: Region, m: Member)
    requires MemberSound(s, m) && AgreeOutside(s.mem, mem', [region])
    requires m.Active() ==>
      (m.hook.base + CODE_PROTECT_SIZE <= region.lo || region.lo + region.size <= m.hook.base) &&
      (m.hook.trampoline ==>
        (m.hook.call + m.copied + JMP_OP_SIZE <= region.lo || region.lo + region.size <= m.hook.call))
    ensures Stands(mem', m)
  {
    hide AgreeOutside, Housed, OffPages;
    if m.Active() {
      PlacedFits(s.mem, m);
      hide Stands;
      SameByAgreement(s.mem, mem', region, m.hook.base, CODE_PROTECT_SIZE);
      if m.hook.trampoline {
        SameByAgreement(s.mem, mem', region, m.hook.call, m.copied + JMP_OP_SIZE);
      }
      StandsUntouched(s.mem, mem', m);
    }
  }

  lemma PlacedFits(mem: Memory, m: Member)
    requires Stands(mem, m)
    ensures m.hook.base + CODE_PROTECT_SIZE <= TWO32
    ensures m.Active() && m.hook.trampoline ==> m.hook.call + m.copied + JMP_OP_SIZE <= TWO32
  {
    hide Scan, JumpBack;
  }

  /** A trampoline lies outside everything that is off the pages. */
  lemma HousedOff(s: System, m: Member, at: nat, size: nat)
    requires Housed(s, m) && OffPages(s.pages, at, size)
    ensures m.hook.call + m.copied + JMP_OP_SIZE <= at || at + size <= m.hook.call
  {
    var p :| p in s.pages && p <= m.hook.call && m.hook.call + m.copied + JMP_OP_SIZE <= p + PAGE_SIZE;
  }

  lemma HousedKept(s: System, s': System, m: Member)
    requires Housed(s, m) && s'.cave == s.cave && s'.pages == s.pages
    ensures Housed(s', m)
  {
  }

  lemma SpliceAgreesAt(mem: Memory, at: nat, data: seq<byte>)
    requires at + |data| <= TWO32
    ensures AgreeOutside(mem, Splice(mem, at, data), [Region(at, |data|)])
  {
    assert Region(at, |data|) in [Region(at, |data|)];
  }

  /** Somebody else's write. */
  lemma WriteSound(s: System, at: uint32, data: seq<byte>)
    requires Sound(s) && Allowed(s, Op.Write(at, data))
    ensures Sound(s.(mem := Splice(s.mem, at, data)))
  {
    hide AgreeOutside, Splice, Stands, Housed, OffPages;
    var s' := s.(mem := Splice(s.mem, at, data));
    SpliceAgreesAt(s.mem, at, data);
    forall i | 0 <= i < |s'.members| ensures MemberSound(s', s'.members[i]) {
      var m := s.members[i];
      if m.Active() && m.hook.trampoline { HousedOff(s, m, at, |data|); HousedKept(s, s', m); }
      UntouchedOutside(s, s'.mem, Region(at, |data|), m);
    }
  }

  /** The window of the hook whose own six bytes are overwritten. */
  lemma StandsPatched(mem: Memory, m: Member, six: seq<byte>)
    requires Stands(mem, m) && m.Active() && (six == m.hook.orig || six == m.hook.replace)
    requires m.hook.trampoline ==>
      (m.hook.call + m.copied + JMP_OP_SIZE <= m.hook.base || m.hook.base + CODE_PROTECT_SIZE <= m.hook.call)
    ensures Stands(Splice(mem, m.hook.base, six), m)
  {
    hide Scan, JumpBack, Splice, AgreeOutside;
    var (o, n, k) := (m.hook.base, m.hook.call, m.copied);
    var mem' := Splice(mem, o, six);
    L.SixAfterSplice(mem, o, six);
    SpliceAgreesAt(mem, o, six);
    var region := Region(o, |six|);
    SameByAgreement(mem, mem', region, o + CODE_REPLACE_SIZE, CODE_PROTECT_SIZE - CODE_REPLACE_SIZE);
    assert Original(mem', m) == Original(mem, m);
    if m.hook.trampoline {
      hide Original;
      SameByAgreement(mem, mem', region, n, k);
      SameByAgreement(mem, mem', region, n + k, JMP_OP_SIZE);
    }
  }

  /** Overwriting the six bytes of one target with its original bytes or its hook. */
  lemma PatchSound(s: System, i: nat, six: seq<byte>)
    requires Sound(s) && i < |s.members| && s.members[i].Active()
    requires six == s.members[i].hook.orig || six == s.members[i].hook.replace
    ensures |six| == CODE_REPLACE_SIZE && s.members[i].hook.base + CODE_PROTECT_SIZE <= TWO32
    ensures Sound(s.(mem := Splice(s.mem, s.members[i].hook.base, six)))
  {
    var own := s.members[i];
    assert MemberSound(s, own);
    SixIsSix(s.mem, own, six);
    hide AgreeOutside, Splice, Stands, Housed, OffPages;
    var o := own.hook.base;
    PlacedFits(s.mem, own);
    var s' := s.(mem := Splice(s.mem, o, six));
    SpliceAgreesAt(s.mem, o, six);
    forall j | 0 <= j < |s'.members| ensures MemberSound(s', s'.members[j]) {
      var m := s.members[j];
      if m.Active() && m.hook.trampoline { HousedOff(s, m, o, CODE_PROTECT_SIZE); HousedKept(s, s', m); }
      if j == i {
        StandsPatched(s.mem, own, six);
      } else {
        UntouchedOutside(s, s'.mem, Region(o, |six|), m);
      }
    }
  }

  lemma SixIsSix(mem: Memory, m: Member, six: seq<byte>)
    requires Stands(mem, m) && (six == m.hook.orig || six == m.hook.replace)
    ensures |six| == CODE_REPLACE_SIZE
  {
    hide Faithful;
  }

  lemma ResetSound(s: System, i: nat)
    requires Sound(s) && i < |s.members|
    ensures Sound(s.(members := s.members[i := Member(L.UNUSED, 0)]))
  {
    hide Stands, Housed, OffPages;
    var s' := s.(members := s.members[i := Member(L.UNUSED, 0)]);
    UnusedStands(s.mem);
    forall j | 0 <= j < |s'.members| ensures MemberSound(s', s'.members[j]) {
      if j != i {
        assert MemberSound(s, s.members[j]);
        if s.members[j].Active() && s.members[j].hook.trampoline { HousedKept(s, s', s.members[j]); }
      }
    }
  }

  lemma UnusedStands(mem: Memory)
    ensures Stands(mem, Member(L.UNUSED, 0))
  {
  }

  /** The system after cloneCode alone. */
  function CloneOnly(s: System, c: Cloned, alloc: uint32): System
    requires s.cave.Valid() && IsPage(alloc)
  {
    System(c.mem, c.cave, PagesAfter(s, alloc), s.members)
  }

  predicate FreshPage(s: System, alloc: uint32) {
    alloc == 0 || (PageFree(s.pages, alloc) && OffWindows(s.members, alloc, PAGE_SIZE))
  }

  lemma PageKept(s: System, alloc: uint32)
    requires Sound(s) && FreshPage(s, alloc)
    ensures IsPage(alloc)
    ensures var (begin, pages) := (Acquire(s.cave, alloc), PagesAfter(s, alloc));
            (begin.pCode != 0 ==> begin.pCode in pages) && (forall p :: p in pages ==> p + PAGE_SIZE <= TWO32) &&
            (begin == s.cave || (begin == Cave(alloc, 0) && (alloc != 0 ==> pages == s.pages + [alloc])))
    ensures forall p :: p in PagesAfter(s, alloc) <==> p in s.pages || (p == alloc != 0 && Acquire(s.cave, alloc) != s.cave)
  {
    hide MemberSound, WindowsApart, OffWindows;
  }

  lemma OffMorePages(s: System, alloc: uint32, m: Member)
    requires Sound(s) && FreshPage(s, alloc) && MemberSound(s, m) && m in s.members && m.Active()
    ensures IsPage(alloc) && OffPages(PagesAfter(s, alloc), m.hook.base, CODE_PROTECT_SIZE)
  {
    hide Stands, Housed, WindowsApart;
    PageKept(s, alloc);
  }

  /** A trampoline ends below the unused part of the page that is filled next, or lies outside it. */
  lemma HousedAgain(s: System, s': System, alloc: uint32, m: Member)
    requires Sound(s) && FreshPage(s, alloc) && Housed(s, m)
    requires IsPage(alloc) && s'.pages == PagesAfter(s, alloc)
    requires s'.cave.pCode == Acquire(s.cave, alloc).pCode && s'.cave.uiCode >= Acquire(s.cave, alloc).uiCode
    ensures Housed(s', m)
    ensures var begin := Acquire(s.cave, alloc);
            begin.pCode != 0 ==>
              m.hook.call + m.copied + JMP_OP_SIZE <= begin.pCode + begin.uiCode || begin.pCode + PAGE_SIZE <= m.hook.call
  {
    hide MemberSound, WindowsApart, OffWindows, OffPages;
    PageKept(s, alloc);
    var p :| p in s.pages && p <= m.hook.call && m.hook.call + m.copied + JMP_OP_SIZE <= p + PAGE_SIZE;
    assert p in s'.pages;
    if Acquire(s.cave, alloc) != s.cave && alloc != 0 { PageApart(s.pages, alloc, p); }
  }

  lemma PageApart(pages: seq<uint32>, page: uint32, p: uint32)
    requires PageFree(pages, page) && p in pages
    ensures p + PAGE_SIZE <= page || page + PAGE_SIZE <= p
  {
  }

  /** Cloning leaves all hooks standing. */
  lemma CloneSound(s: System, func: uint32, alloc: uint32, protects: seq<bool>)
    requires Sound(s) && FreshPage(s, alloc)
    ensures IsPage(alloc) && Sound(CloneOnly(s, Clone(s.mem, s.cave, func, alloc, protects), alloc))
  {
    PageKept(s, alloc);
    hide Clone, Acquire, AgreeOutside, Stands, Housed, OffPages, WindowsApart, FreshPage;
    CloneWrites(s.mem, s.cave, func, alloc, protects);
    var c := Clone(s.mem, s.cave, func, alloc, protects);
    var begin, s' := Acquire(s.cave, alloc), CloneOnly(s, c, alloc);
    forall i | 0 <= i < |s'.members| ensures MemberSound(s', s'.members[i]) {
      var m := s.members[i];
      assert MemberSound(s, m);
      if m.Active() {
        OffMorePages(s, alloc, m);
        if m.hook.trampoline { HousedAgain(s, s', alloc, m); }
      }
      if begin.pCode != 0 {
        if m.Active() { OffPage(PagesAfter(s, alloc), begin.pCode, m.hook.base); }
        UntouchedOutside(s, c.mem, Region(begin.pCode + begin.uiCode, PAGE_SIZE - begin.uiCode), m);
      }
    }
  }

  lemma OffPage(pages: seq<uint32>, page: uint32, at: nat)
    requires OffPages(pages, at, CODE_PROTECT_SIZE) && page in pages
    ensures at + CODE_PROTECT_SIZE <= page || page + PAGE_SIZE <= at
    ensures Clear(at, CODE_PROTECT_SIZE, [Region(page, PAGE_SIZE)])
  {
  }

  /** Replacing one inactive hook by one that is sound keeps the others. */
  lemma ReplaceSound(s: System, i: nat, m: Member)
    requires Sound(s) && i < |s.members| && MemberSound(s, m)
    requires m.Active() ==> forall j :: 0 <= j < |s.members| && j != i && s.members[j].Active() ==>
      !s.members[j].InWindow(m.hook.base, CODE_PROTECT_SIZE)
    ensures Sound(s.(members := s.members[i := m]))
  {
    hide Stands, Housed, OffPages;
    var s' := s.(members := s.members[i := m]);
    forall j | 0 <= j < |s'.members| ensures MemberSound(s', s'.members[j]) {
      var x := s'.members[j];
      assert MemberSound(s, x);
      if x.Active() && x.hook.trampoline { HousedKept(s, s', x); }
    }
  }

  /** The hook m is what setup makes of a cloned function. */
  predicate MadeOf(s: System, c: Cloned, m: Member, pages: seq<uint32>) {
    c.original != 0 && c.original + CODE_PROTECT_SIZE <= TWO32 && OffPages(pages, c.original, CODE_PROTECT_SIZE) &&
    m.hook.base == c.original && m.hook.orig == L.Six(c.mem, c.original) && |m.hook.replace| == CODE_REPLACE_SIZE &&
    m.hook.trampoline == (c.trampoline != 0) && (c.trampoline != 0 ==> m.hook.call == c.trampoline) &&
    m.copied == Scan(Code(s.mem, c.original), 0).0
  }

  lemma WindowCloned(s: System, func: uint32, a: L.SetupAnswers, m: Member)
    requires Sound(s) && FreshPage(s, a.alloc) && IsPage(a.alloc)
    requires MadeOf(s, Clone(s.mem, s.cave, func, a.alloc, a.protects), m, PagesAfter(s, a.alloc))
    ensures var c := Clone(s.mem, s.cave, func, a.alloc, a.protects);
            Original(c.mem, m) == Code(s.mem, c.original) &&
            (c.cave.pCode != 0 ==> Clear(c.original, CODE_PROTECT_SIZE, [Region(c.cave.pCode, PAGE_SIZE)]))
  {
    PageKept(s, a.alloc);
    hide Clone, Acquire, AgreeOutside, Scan, OffPages, Clear, Sound, FreshPage, OffWindows;
    var c, begin := Clone(s.mem, s.cave, func, a.alloc, a.protects), Acquire(s.cave, a.alloc);
    CloneWrites(s.mem, s.cave, func, a.alloc, a.protects);
    if begin.pCode != 0 {
      OffPage(PagesAfter(s, a.alloc), begin.pCode, c.original);
      SameByAgreement(s.mem, c.mem, Region(begin.pCode + begin.uiCode, PAGE_SIZE - begin.uiCode), c.original, CODE_PROTECT_SIZE);
    }
    OriginalIsCode(s.mem, c.mem, m);
  }

  lemma FaithfulFrom(mem: Memory, before: Memory, begin: Cave, c: Cloned, m: Member)
    requires L.Placed(m.hook) && Shaped(before, begin, c, m.copied) && c.mem == mem
    requires m.hook.base == c.original && m.hook.call == c.trampoline
    requires Original(mem, m) == Code(before, c.original) && Clear(c.original, CODE_PROTECT_SIZE, [Region(c.cave.pCode, PAGE_SIZE)])
    ensures Faithful(mem, m) && m.copied <= CODE_PROTECT_SIZE
  {
    hide Scan, JumpBack, Clear, Splice, Code, Original;
    CloneTramp(before, begin, c, m.copied);
  }

  lemma HousedFrom(s: System, begin: Cave, c: Cloned, before: Memory, m: Member)
    requires Shaped(before, begin, c, m.copied) && m.hook.call == c.trampoline && s.cave == c.cave && begin.pCode in s.pages
    ensures Housed(s, m)
  {
    hide Scan, JumpBack, Splice, Code;
    assert begin.pCode in s.pages;
  }

  lemma NewFaithful(s: System, func: uint32, a: L.SetupAnswers, m: Member)
    requires Sound(s) && FreshPage(s, a.alloc) && IsPage(a.alloc)
    requires var c := Clone(s.mem, s.cave, func, a.alloc, a.protects);
             MadeOf(s, c, m, PagesAfter(s, a.alloc)) && c.trampoline != 0
    ensures var c := Clone(s.mem, s.cave, func, a.alloc, a.protects);
            Faithful(c.mem, m) && m.copied <= CODE_PROTECT_SIZE && Housed(CloneOnly(s, c, a.alloc), m)
  {
    hide Clone, Acquire, Scan, OffPages, Clear, MemberSound, WindowsApart, FreshPage, Code, Shaped, Faithful, Housed, Beside, PagesAfter;
    PageKept(s, a.alloc);
    var c, begin := Clone(s.mem, s.cave, func, a.alloc, a.protects), Acquire(s.cave, a.alloc);
    WindowCloned(s, func, a, m);
    CloneEnds(s.mem, s.cave, func, a.alloc, a.protects);
    BesideFresh(c.original, begin, c.cave.pCode);
    CloneShape(s.mem, s.cave, func, a.alloc, a.protects);
    FaithfulFrom(c.mem, s.mem, begin, c, m);
    HousedFrom(CloneOnly(s, c, a.alloc), begin, c, s.mem, m);
  }

  /** The hook that setup makes stands, before it is injected. */
  lemma NewStands(s: System, func: uint32, a: L.SetupAnswers, m: Member)
    requires Sound(s) && FreshPage(s, a.alloc) && IsPage(a.alloc)
    requires MadeOf(s, Clone(s.mem, s.cave, func, a.alloc, a.protects), m, PagesAfter(s, a.alloc))
    ensures MemberSound(CloneOnly(s, Clone(s.mem, s.cave, func, a.alloc, a.protects), a.alloc), m)
  {
    hide Clone, Acquire, Scan, OffPages, WindowsApart, FreshPage, Faithful, Housed, Code;
    if Clone(s.mem, s.cave, func, a.alloc, a.protects).trampoline != 0 { NewFaithful(s, func, a, m); }
  }

  lemma OriginalIsCode(mem: Memory, mem': Memory, m: Member)
    requires L.Placed(m.hook) && mem'[m.hook.base..m.hook.base + CODE_PROTECT_SIZE] == mem[m.hook.base..m.hook.base + CODE_PROTECT_SIZE]
    requires m.hook.orig == L.Six(mem', m.hook.base)
    ensures Original(mem', m) == Code(mem, m.hook.base)
  {
    var o := m.hook.base;
    assert mem'[o..o + CODE_REPLACE_SIZE] + mem'[o + CODE_REPLACE_SIZE..o + CODE_PROTECT_SIZE] == mem'[o..o + CODE_PROTECT_SIZE];
  }

  lemma SetupSound(s: System, i: nat, func: uint32, replacement: uint32, a: L.SetupAnswers)
    requires Sound(s) && Allowed(s, Setup(i, func, replacement, a))
    ensures Sound(SetUp(s, i, func, replacement, a))
  {
    var h := s.members[i].hook;
    assert MemberSound(s, s.members[i]);
    if h.base == 0 {
      CloneSound(s, func, a.alloc, a.protects);
      hide Clone, Sound, Scan, Code, OffPages, Redirect, Splice;
      var c := Clone(s.mem, s.cave, func, a.alloc, a.protects);
      var cloned := CloneOnly(s, c, a.alloc);
      var s' := SetUp(s, i, func, replacement, a);
      var m := s'.members[i];
      if a.readable && c.original + CODE_PROTECT_SIZE <= TWO32 {
        NewStands(s, func, a, m);
        SetupReplaces(s, cloned, i, m);
        var ready := cloned.(members := s.members[i := m]);
        if a.writable { PatchSound(ready, i, m.hook.replace); }
      } else {
        InactiveSound(cloned, m);
        ReplaceSound(cloned, i, m);
      }
    }
  }

  lemma SetupReplaces(s: System, cloned: System, i: nat, m: Member)
    requires Sound(cloned) && cloned.members == s.members && i < |s.members| && MemberSound(cloned, m)
    requires OffWindows(s.members, m.hook.base, CODE_PROTECT_SIZE)
    ensures Sound(cloned.(members := s.members[i := m]))
  {
    hide Sound, MemberSound;
    ReplaceSound(cloned, i, m);
  }

  lemma InactiveSound(s: System, m: Member)
    requires L.Placed(m.hook) && !m.Active() && m.copied <= CODE_PROTECT_SIZE
    ensures MemberSound(s, m)
  {
  }

  lemma SoundPlaced(s: System)
    requires Sound(s)
    ensures s.cave.Valid() && AllPlaced(s.members)
  {
    hide Faithful, Housed, OffPages, WindowsApart;
    forall m | m in s.members ensures L.Placed(m.hook) {
      var i :| 0 <= i < |s.members| && s.members[i] == m;
      assert MemberSound(s, s.members[i]);
    }
  }

  /** One operation of any hook, or a write of somebody else, leaves all hooks standing. */
  lemma PerformSound(s: System, op: Op)
    requires Sound(s) && Allowed(s, op)
    ensures AllPlaced(s.members) && Sound(Perform(s, op))
  {
    SoundPlaced(s);
    hide Sound, Clone, Splice, WindowsApart;
    match op
    case Setup(i, func, replacement, a) => SetupSound(s, i, func, replacement, a);
    case Write(at, data) => WriteSound(s, at, data);
    case Reset(i) => ResetSound(s, i);
    case _ =>
      if s.members[op.i].Active() {
        PatchSound(s, op.i, s.members[op.i].hook.orig);
        PatchSound(s, op.i, s.members[op.i].hook.replace);
      }
  }

  ghost predicate EachAllowed(s: System, ops: seq<Op>)
    decreases |ops|
  {
    ops != [] ==>
      s.cave.Valid() && AllPlaced(s.members) && Allowed(s, ops[0]) &&
      EachAllowed(Perform(s, ops[0]), ops[1..])
  }

  ghost function PerformAll(s: System, ops: seq<Op>): System
    requires EachAllowed(s, ops)
    decreases |ops|
  {
    if ops == [] then s else PerformAll(Perform(s, ops[0]), ops[1..])
  }

  /** Over any interleaving of the hooks' operations and other writes, all hooks stand. */
  lemma {:induction false} HooksStand(s: System, ops: seq<Op>)
    requires Sound(s) && EachAllowed(s, ops)
    ensures Sound(PerformAll(s, ops))
    decreases |ops|
  {
    hide Perform, Sound, Allowed;
    if ops != [] {
      PerformSound(s, ops[0]);
      HooksStand(Perform(s, ops[0]), ops[1..]);
    }
  }

  // Calls through trampolines, in the midst of all the others.

  /** Memory as it would be now if no target were hooked. */
  function Unhooked(mem: Memory, members: seq<Member>): Memory
    requires AllPlaced(members)
    decreases |members|
  {
    if members == [] then mem
    else
      var (front, last) := (members[..|members| - 1], members[|members| - 1]);
      assert last in members && L.Placed(last.hook) && forall m :: m in front ==> m in members;
      if last.Active() then Splice(Unhooked(mem, front), last.hook.base, last.hook.orig) else Unhooked(mem, front)
  }

  /** The six bytes of every target. */
  function Targets(members: seq<Member>): (regions: seq<Region>)
    ensures |regions| == |members|
  {
    seq(|members|, i requires 0 <= i < |members| =>
      Region(members[i].hook.base, if members[i].Active() then CODE_REPLACE_SIZE else 0))
  }

  predicate InTarget(m: Member, a: nat) { m.Active() && m.hook.base <= a < m.hook.base + CODE_REPLACE_SIZE }

  lemma {:induction false} UnhookedOff(mem: Memory, members: seq<Member>, a: nat)
    requires AllPlaced(members) && a < TWO32
    requires forall i :: 0 <= i < |members| ==> !InTarget(members[i], a)
    ensures Unhooked(mem, members)[a] == mem[a]
    decreases |members|
  {
    if members != [] {
      var (front, last) := (members[..|members| - 1], members[|members| - 1]);
      assert last in members && forall m :: m in front ==> m in members;
      UnhookedOff(mem, front, a);
    }
  }

  lemma {:induction false} UnhookedIn(mem: Memory, members: seq<Member>, i: nat, a: nat)
    requires AllPlaced(members) && i < |members| && InTarget(members[i], a) && WindowsApart(members)
    ensures a < TWO32 && Unhooked(mem, members)[a] == members[i].hook.orig[a - members[i].hook.base]
    decreases |members|
  {
    var (front, last) := (members[..|members| - 1], members[|members| - 1]);
    assert last in members && members[i] in members && forall m :: m in front ==> m in members;
    if i < |front| {
      assert WindowsApart(front);
      UnhookedIn(mem, front, i, a);
    }
  }

  lemma UnhookedAgrees(mem: Memory, members: seq<Member>)
    requires AllPlaced(members)
    ensures AgreeOutside(Unhooked(mem, members), mem, Targets(members))
  {
    hide Unhooked;
    forall a | 0 <= a < TWO32 && Clear(a, 1, Targets(members)) ensures mem[a] == Unhooked(mem, members)[a] {
      forall i | 0 <= i < |members| ensures !InTarget(members[i], a) {
        assert Targets(members)[i] in Targets(members);
      }
      UnhookedOff(mem, members, a);
    }
  }

  /** Without the hooks, a target's window holds its original code. */
  lemma UnhookedWindow(mem: Memory, members: seq<Member>, i: nat)
    requires AllPlaced(members) && WindowsApart(members)
    requires i < |members| && members[i].Active() && L.Placed(members[i].hook)
    ensures Code(Unhooked(mem, members), members[i].hook.base) == Original(mem, members[i])
  {
    hide Unhooked;
    var o := members[i].hook.base;
    var now := Unhooked(mem, members);
    forall a | o <= a < o + CODE_PROTECT_SIZE
      ensures now[a] == if a < o + CODE_REPLACE_SIZE then members[i].hook.orig[a - o] else mem[a]
    {
      if a < o + CODE_REPLACE_SIZE {
        UnhookedIn(mem, members, i, a);
      } else {
        forall j | 0 <= j < |members| ensures !InTarget(members[j], a) {
          assert j != i && members[j].Active() ==> !members[j].InWindow(o, CODE_PROTECT_SIZE);
        }
        UnhookedOff(mem, members, a);
      }
    }
    var code := Original(mem, members[i]);
    assert forall k :: 0 <= k < CODE_PROTECT_SIZE ==> code[k] == now[o + k];
  }

  predicate AllPlaced(members: seq<Member>) { forall m :: m in members ==> L.Placed(m.hook) }

  /** Calling through the trampoline of hook i meets the instructions that its function has in the memory
      without any hook, as it is now; unless the run behind the copied bytes leads into the six bytes of
      a target. */
  predicate CallIsFaithful(s: System, i: nat, steps: nat)
    requires i < |s.members| && AllPlaced(s.members)
  {
    var (m, plain) := (s.members[i], Unhooked(s.mem, s.members));
    assert m in s.members;
    var copied := |Instructions(Code(plain, m.hook.base), 0)|;
    m.hook.call < TWO32 &&
    (Avoids(plain, Add32(m.hook.base, m.copied), steps, Targets(s.members)) ==>
      Fetch(s.mem, m.hook.call, copied + (1 + steps)) == Fetch(plain, m.hook.base, copied + steps))
  }

  lemma FaithfulOf(s: System, i: nat)
    requires Sound(s) && i < |s.members| && s.members[i].Active() && s.members[i].hook.trampoline
    ensures AllPlaced(s.members) && WindowsApart(s.members) && Faithful(s.mem, s.members[i])
  {
    SoundPlaced(s);
    hide Faithful, Housed, OffPages, WindowsApart;
    assert MemberSound(s, s.members[i]);
  }

  /** Whatever the other hooks are doing. */
  lemma CallsAreFaithful(s: System, i: nat, steps: nat)
    requires Sound(s) && i < |s.members| && s.members[i].Active() && s.members[i].hook.trampoline
    ensures AllPlaced(s.members) && CallIsFaithful(s, i, steps)
  {
    hide Sound, Scan, JumpBack, Instructions, Fetch, Avoids, Unhooked, Targets, AgreeOutside, Code, Original, WindowsApart;
    FaithfulOf(s, i);
    var m, plain := s.members[i], Unhooked(s.mem, s.members);
    assert m in s.members;
    UnhookedWindow(s.mem, s.members, i);
    UnhookedAgrees(s.mem, s.members);
    if Avoids(plain, Add32(m.hook.base, m.copied), steps, Targets(s.members)) {
      CopyStandsForOriginal(plain, s.mem, m.hook.base, m.hook.call, steps, Targets(s.members));
    }
  }

  /** Any number of hooks, none in use yet. */
  function NoHooks(mem: Memory, count: nat): System {
    System(mem, Cave(0, 0), [], seq(count, _ => Member(L.UNUSED, 0)))
  }

  /** From there on, over any interleaving of the hooks' operations and other writes: every hook that has
      a trampoline can be called through it. */
  lemma HooksStayFaithful(mem: Memory, count: nat, ops: seq<Op>, i: nat, steps: nat)
    requires EachAllowed(NoHooks(mem, count), ops)
    requires var s := PerformAll(NoHooks(mem, count), ops);
             i < |s.members| && s.members[i].Active() && s.members[i].hook.trampoline
    ensures var s := PerformAll(NoHooks(mem, count), ops); AllPlaced(s.members) && CallIsFaithful(s, i, steps)
  {
    hide EachAllowed, PerformAll, CallIsFaithful, NoHooks, Sound;
    NoHooksSound(mem, count);
    HooksStand(NoHooks(mem, count), ops);
    CallsAreFaithful(PerformAll(NoHooks(mem, count), ops), i, steps);
  }

  lemma NoHooksSound(mem: Memory, count: nat)
    ensures Sound(NoHooks(mem, count))
  {
    UnusedStands(mem);
  }
}
