/** HardHook as the program runs it: trampolines are written into memory byte by byte, and the six
    bytes of a target are overwritten in place. */
module HookClasses {
  import opened Bytes
  import opened Hooking
  import L = HookLifecycle

  /** The address space, and the static fields of HardHook. */
  class Process {
    const mem: array<byte>
    var pCode: uint32
    var uiCode: nat

    ghost predicate Valid()
      reads this
    {
      mem.Length == TWO32 && CaveNow().Valid()
    }

    ghost function CaveNow(): Cave
      reads this
    {
      Cave(pCode, uiCode)
    }

    ghost function MemNow(): Memory
      requires Valid()
      reads this, mem
    {
      mem[..]
    }

    constructor (memory: array<byte>)
      requires memory.Length == TWO32
      ensures Valid() && mem == memory && CaveNow() == Cave(0, 0)
    {
      mem := memory;
      pCode, uiCode := 0, 0;
    }

    method WriteBytes(at: nat, data: seq<byte>)
      requires Valid() && at + |data| <= TWO32
      modifies mem
      ensures MemNow() == Splice(old(MemNow()), at, data)
    {
      for i := 0 to |data|
        invariant forall j :: 0 <= j < TWO32 ==>
          mem[j] == if at <= j < at + i then data[j - at] else old(mem[..])[j]
      {
        mem[at + i] := data[i];
      }
    }

    /** Following the jumps at the start of a function, making each target readable first. */
    method FollowJumps(func: uint32, protects: seq<bool>) returns (o: uint32, readable: bool)
      requires Valid()
      ensures (o, readable) == Resolve(MemNow(), func, protects)
    {
      hide Target;
      o, readable := func, false;
      var k := 0;
      while k < |protects| && protects[k] && o + CODE_PROTECT_SIZE <= TWO32
        invariant 0 <= k <= |protects|
        invariant Resolve(MemNow(), func, protects) == Resolve(MemNow(), o, protects[k..])
      {
        assert protects[k..][1..] == protects[k + 1..];
        if mem[o] != JMP {
          return o, true;
        }
        assert mem[o + 1..o + 5] == mem[..][o + 1..o + 5];
        o := TargetOf(o, mem[o + 1..o + 5], MemNow());
        k := k + 1;
      }
    }

    static function TargetOf(o: uint32, operand: seq<byte>, ghost memory: Memory): (target: uint32)
      requires o + JMP_OP_SIZE <= TWO32 && operand == memory[o + 1..o + 5]
      ensures target == Target(memory, o)
    {
      Add32(o + JMP_OP_SIZE, Signed(U32(operand)))
    }

    /** n[idx + i] = o[idx + i] for the bytes of one instruction. */
    method CopyInstruction(o: uint32, n: nat, idx: nat, size: nat)
      requires Valid() && o + idx + size <= TWO32 && n + idx + size <= TWO32
      modifies mem
      ensures MemNow() == CopyBytes(old(MemNow()), o, n, idx, size)
    {
      ghost var start := MemNow();
      for i := 0 to size
        invariant CopyBytes(start, o, n, idx, size) == CopyBytes(MemNow(), o, n, idx + i, size - i)
      {
        ghost var before := MemNow();
        mem[n + idx + i] := mem[o + idx + i];
        assert MemNow() == before[n + (idx + i) := before[o + (idx + i)]];
      }
    }

    /** Copying whole instructions until the hook fits, or one cannot be moved. */
    method CopyInstructions(o: uint32, n: nat) returns (idx: nat, complete: bool)
      requires Valid() && o + CODE_PROTECT_SIZE <= TWO32 && n + CODE_PROTECT_SIZE <= TWO32
      modifies mem
      ensures (MemNow(), idx, complete) == CopyRun(old(MemNow()), o, n, 0)
    {
      hide CopyLength, CopyBytes;
      ghost var start := MemNow();
      idx, complete := 0, true;
      while idx < CODE_REPLACE_SIZE && complete
        invariant idx <= CODE_PROTECT_SIZE
        invariant CopyRun(start, o, n, 0) == if complete then CopyRun(MemNow(), o, n, idx) else (MemNow(), idx, false)
        decreases CODE_PROTECT_SIZE - idx, complete
      {
        LengthsAreIntels(mem[o + idx], mem[o + idx + 1], mem[o + idx + 2]);
        var size := CopyLength(mem[o + idx], mem[o + idx + 1], mem[o + idx + 2]);
        if size == 0 {
          complete := false;
        } else {
          CopyInstruction(o, n, idx, size);
          idx := idx + size;
        }
      }
    }

    /** Filling the page in use. */
    method BuildTrampoline(o: uint32) returns (trampoline: uint32)
      requires Valid() && pCode != 0 && uiCode <= 4000 && o + CODE_PROTECT_SIZE <= TWO32
      modifies this`uiCode, mem
      ensures Valid()
      ensures Cloned(MemNow(), CaveNow(), o, trampoline) == Build(old(MemNow()), old(CaveNow()), o)
    {
      hide CopyRun, JumpBack, Splice;
      var n := pCode + uiCode;
      var idx, complete := CopyInstructions(o, n);
      if !complete {
        return 0;
      }
      WriteBytes(n + idx, JumpBack(o, n));
      uiCode := uiCode + idx + JMP_OP_SIZE;
      trampoline := n;
    }

    /** Building a trampoline for a function. */
    method CloneCode(func: uint32, alloc: uint32, protects: seq<bool>) returns (original: uint32, trampoline: uint32)
      requires Valid() && IsPage(alloc)
      modifies this, mem
      ensures Valid()
      ensures Cloned(MemNow(), CaveNow(), original, trampoline) ==
              Clone(old(MemNow()), old(CaveNow()), func, alloc, protects)
    {
      hide Resolve, Build;
      if pCode == 0 || uiCode > 4000 {
        pCode, uiCode := alloc, 0;
      }
      if pCode == 0 {
        return func, 0;
      }
      var readable;
      original, readable := FollowJumps(func, protects);
      if !readable {
        return original, 0;
      }
      trampoline := BuildTrampoline(original);
    }
  }

  class HardHook {
    const process: Process
    var baseptr: uint32
    const orig: array<byte>
    const replace: array<byte>
    var bTrampoline: bool
    var call: uint32
    ghost var before: Memory

    ghost predicate Valid()
      reads this, process
    {
      && process.Valid() && orig.Length == replace.Length == CODE_REPLACE_SIZE
      && orig != replace && orig != process.mem && replace != process.mem
      && baseptr + CODE_PROTECT_SIZE <= TWO32
    }

    ghost function HookNow(): L.Hook
      reads this, orig, replace
    {
      L.Hook(baseptr, orig[..], replace[..], bTrampoline, call)
    }

    ghost function WorldNow(): (w: L.World)
      requires Valid()
      reads this, process, process.mem, orig, replace
      ensures L.Placed(w.hook) && w.cave.Valid()
    {
      L.World(process.MemNow(), process.CaveNow(), HookNow(), before)
    }

    constructor (p: Process)
      requires p.Valid()
      ensures Valid() && process == p && fresh(orig) && fresh(replace) && HookNow() == L.UNUSED
    {
      process := p;
      baseptr, bTrampoline, call := 0, false, 0;
      orig, replace := new byte[CODE_REPLACE_SIZE](_ => 0), new byte[CODE_REPLACE_SIZE](_ => 0);
      before := p.MemNow();
    }

    method Inject(force: bool, writable: bool)
      requires Valid()
      modifies process.mem
      ensures Valid() && WorldNow() == L.Perform(old(WorldNow()), L.Inject(force, writable))
    {
      if baseptr == 0 || (!force && bTrampoline) {
        return;
      }
      if writable {
        process.WriteBytes(baseptr, replace[..]);
      }
    }

    method Restore(force: bool, writable: bool)
      requires Valid()
      modifies process.mem
      ensures Valid() && WorldNow() == L.Perform(old(WorldNow()), L.Restore(force, writable))
    {
      if baseptr == 0 || (!force && bTrampoline) {
        return;
      }
      if writable {
        process.WriteBytes(baseptr, orig[..]);
      }
    }

    /** Looking at the target, and injecting again where the original bytes are back. */
    method Check(writable: bool)
      requires Valid() && baseptr != 0
      modifies process.mem
      ensures Valid() && WorldNow() == L.Perform(old(WorldNow()), L.Check(writable))
      ensures var was := L.Six(old(process.MemNow()), baseptr);
              L.Six(process.MemNow(), baseptr) == (if was == orig[..] && writable then replace[..] else was) &&
              L.OnlySix(old(process.MemNow()), process.MemNow(), baseptr)
    {
      L.CheckOnBytes(WorldNow(), writable);
      var six := process.mem[baseptr..baseptr + CODE_REPLACE_SIZE];
      assert six == L.Six(process.MemNow(), baseptr);
      if six != replace[..] {
        if six == orig[..] {
          Inject(true, writable);
        }
      }
    }

    method Assign(target: array<byte>, data: seq<byte>)
      requires Valid() && (target == orig || target == replace) && |data| == CODE_REPLACE_SIZE
      modifies target
      ensures target[..] == data
    {
      for i := 0 to CODE_REPLACE_SIZE
        invariant target[..i] == data[..i]
      {
        target[i] := data[i];
      }
    }

    method Reset()
      requires Valid()
      modifies this, orig, replace
      ensures Valid() && WorldNow() == L.Perform(old(WorldNow()), L.Reset)
    {
      baseptr, bTrampoline, call := 0, false, 0;
      Assign(orig, L.NO_BYTES);
      Assign(replace, L.NO_BYTES);
    }

    method Setup(func: uint32, replacement: uint32, a: L.SetupAnswers)
      requires Valid() && IsPage(a.alloc)
      modifies this, process, process.mem, orig, replace
      ensures Valid() && WorldNow() == L.Perform(old(WorldNow()), L.Setup(func, replacement, a))
    {
      hide Clone, Clear, Redirect;
      if baseptr != 0 {
        return;
      }
      before := process.MemNow();
      var fptr, tramp := process.CloneCode(func, a.alloc, a.protects);
      call := tramp;
      if call != 0 {
        bTrampoline := true;
      } else {
        bTrampoline := false;
        call := func;
      }
      if a.readable && fptr + CODE_PROTECT_SIZE <= TWO32 {
        Assign(replace, Redirect(replacement));
        Assign(orig, process.mem[fptr..fptr + CODE_REPLACE_SIZE]);
        assert orig[..] == L.Six(process.MemNow(), fptr);
        baseptr := fptr;
        Inject(true, a.writable);
      }
    }
  }
}
