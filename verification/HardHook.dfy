/** Function hooking on 32-bit x86: instruction lengths, relocating the start of a function into a
    trampoline, and the memory the trampolines live in. Memory is a sequence of 2^32 bytes. */
module Hooking {
  import opened Bytes

  const CODE_REPLACE_SIZE := 6
  const CODE_PROTECT_SIZE := 16
  const PAGE_SIZE := 4096
  const JMP: byte := 0xe9
  const JMP_OP_SIZE := 5

  type Memory = m: seq<byte> | |m| == TWO32 witness seq(TWO32, _ => 0)

  /** The number of bytes a ModRM byte a brings with it, if b follows; the low four bits of a
      stand for two values of its rm field each. */
  function ModRmBytes(a: byte, b: byte): nat {
    var lower := a % 16;
    if a >= 0xc0 then 0
    else if a >= 0x80 then if lower == 4 || lower == 12 then 5 else 4
    else if a >= 0x40 then if lower == 4 || lower == 12 then 2 else 1
    else if lower == 4 || lower == 12 then if b % 8 == 5 then 5 else 1
    else if lower == 5 || lower == 13 then 4
    else 0
  }

  /** The length of the instruction that starts with these bytes, or 0 for one that is not copied. */
  function CopyLength(opcode: byte, a: byte, b: byte): nat {
    if 0x50 <= opcode <= 0x5f then 1
    else if opcode == 0x6a then 2
    else if opcode == 0x68 then 5
    else if opcode == 0x81 then 1 + ModRmBytes(a, b) + 5
    else if opcode == 0x83 then 1 + ModRmBytes(a, b) + 2
    else if opcode == 0x8b then 1 + ModRmBytes(a, b) + 1
    else if opcode == 0xff && a / 8 % 8 == 6 then 1 + ModRmBytes(a, b) + 1
    else 0
  }

  /** Instruction formats of the Intel SDM: with or without a ModRM byte, and the size of the
      immediate; Other stands for every opcode outside the copied ones. */
  datatype Format = NoModRm(imm: nat) | ModRm(imm: nat) | Other

  function FormatOf(opcode: byte, reg: nat): Format {
    if opcode / 8 == 0x0a || opcode / 8 == 0x0b then NoModRm(0)  // PUSH r32, POP r32
    else if opcode == 0x6a then NoModRm(1)                       // PUSH imm8
    else if opcode == 0x68 then NoModRm(4)                       // PUSH imm32
    else if opcode == 0x81 then ModRm(4)                         // group 1 r/m32, imm32
    else if opcode == 0x83 then ModRm(1)                         // group 1 r/m32, imm8
    else if opcode == 0x8b then ModRm(0)                         // MOV r32, r/m32
    else if opcode == 0xff && reg == 6 then ModRm(0)             // PUSH r/m32
    else Other
  }

  /** Section 2.1.5 of volume 2A: a SIB byte follows rm = 4 unless mod is 3; the displacement has 8
      bits for mod 1, 32 bits for mod 2, for mod 0 with rm = 5, and for mod 0 with SIB base 5. */
  function AddressBytes(mod: nat, rm: nat, base: nat): nat {
    (if mod != 3 && rm == 4 then 1 else 0) +
    (if mod == 1 then 1
     else if mod == 2 || (mod == 0 && (rm == 5 || (rm == 4 && base == 5))) then 4
     else 0)
  }

  function SdmLength(opcode: byte, a: byte, b: byte): nat {
    match FormatOf(opcode, a / 8 % 8)
    case NoModRm(imm) => 1 + imm
    case ModRm(imm) => 2 + AddressBytes(a / 64, a % 8, b % 8) + imm
    case Other => 0
  }

  /** The lengths are those of the manual, on all bytes. */
  lemma LengthsAreIntels(opcode: byte, a: byte, b: byte)
    ensures CopyLength(opcode, a, b) == SdmLength(opcode, a, b) <= 11
  {
    ModRmIsAddress(a, b);
    hide ModRmBytes, AddressBytes;
  }

  lemma ModRmIsAddress(a: byte, b: byte)
    ensures ModRmBytes(a, b) == AddressBytes(a / 64, a % 8, b % 8) <= 5
  {
    var (lower, rm) := (a % 16, a % 8);
    assert lower == rm || lower == rm + 8;
    assert a >= 0xc0 <==> a / 64 == 3;
    assert a >= 0x80 <==> a / 64 >= 2;
    assert a >= 0x40 <==> a / 64 >= 1;
  }

  /** The length of an instruction depends on no byte behind it. */
  lemma LengthIsLocal(s: seq<byte>, t: seq<byte>)
    requires |s| >= 3 && |t| >= 3 && CopyLength(s[0], s[1], s[2]) > 0
    requires forall i :: 0 <= i < CopyLength(s[0], s[1], s[2]) && i < 3 ==> s[i] == t[i]
    ensures CopyLength(t[0], t[1], t[2]) == CopyLength(s[0], s[1], s[2])
  {
  }

  /** How many bytes are copied from this code, starting at idx; and whether copying goes on until
      the hook fits, rather than meeting an instruction that cannot be moved. */
  function Scan(code: seq<byte>, idx: nat): (r: (nat, bool))
    requires |code| == CODE_PROTECT_SIZE && idx <= CODE_PROTECT_SIZE
    ensures idx <= r.0 <= CODE_PROTECT_SIZE && (r.1 <==> r.0 >= CODE_REPLACE_SIZE)
    decreases CODE_PROTECT_SIZE - idx
  {
    if idx >= CODE_REPLACE_SIZE then (idx, true)
    else
      LengthsAreIntels(code[idx], code[idx + 1], code[idx + 2]);
      var n := CopyLength(code[idx], code[idx + 1], code[idx + 2]);
      if n == 0 then (idx, false) else Scan(code, idx + n)
  }

  function Code(mem: Memory, at: uint32): (code: seq<byte>)
    requires at + CODE_PROTECT_SIZE <= TWO32
    ensures |code| == CODE_PROTECT_SIZE
  {
    mem[at..at + CODE_PROTECT_SIZE]
  }

  /** Where the relative jump at this address leads. */
  function Target(mem: Memory, at: uint32): uint32
    requires at + JMP_OP_SIZE <= TWO32
  {
    Add32(at + JMP_OP_SIZE, Signed(U32(mem[at + 1..at + 5])))
  }

  /** Following the jumps at the start of a function. Each address is made readable first; the
      answers are consumed in order, and only memory inside the address space can be made readable. */
  function Resolve(mem: Memory, at: uint32, protects: seq<bool>): (r: (uint32, bool))
    ensures r.1 ==> r.0 + CODE_PROTECT_SIZE <= TWO32 && mem[r.0] != JMP
    decreases |protects|
  {
    if protects == [] || !protects[0] || at + CODE_PROTECT_SIZE > TWO32 then (at, false)
    else if mem[at] != JMP then (at, true)
    else Resolve(mem, Target(mem, at), protects[1..])
  }

  /** The page being filled with trampolines, or 0, and how much of it is used. */
  datatype Cave = Cave(pCode: uint32, uiCode: nat) {
    predicate Valid() { pCode == 0 || (pCode + PAGE_SIZE <= TWO32 && uiCode <= 4021) }
  }

  /** VirtualAlloc answers 0 or a page inside the address space. */
  predicate IsPage(alloc: uint32) { alloc == 0 || alloc + PAGE_SIZE <= TWO32 }

  function Acquire(cave: Cave, alloc: uint32): (c: Cave)
    requires cave.Valid() && IsPage(alloc)
    ensures c.Valid() && (c.pCode != 0 ==> c.uiCode <= 4000)
  {
    if cave.pCode == 0 || cave.uiCode > 4000 then Cave(alloc, 0) else cave
  }

  /** A relative jump, stored behind code that was copied from o to n, to where that code ended. */
  function JumpBack(o: uint32, n: uint32): (code: seq<byte>)
    ensures |code| == JMP_OP_SIZE
  {
    [JMP] + LE32(Wrap((o as int) - n - JMP_OP_SIZE))
  }

  datatype Cloned = Cloned(mem: Memory, cave: Cave, original: uint32, trampoline: uint32)

  /** Copying bytes i to i + count - 1, one after the other; where code and copy overlap, what is read
      may just have been written. */
  function CopyBytes(mem: Memory, o: nat, n: nat, i: nat, count: nat): Memory
    requires o + i + count <= TWO32 && n + i + count <= TWO32
    decreases count
  {
    if count == 0 then mem else CopyBytes(mem[n + i := mem[o + i]], o, n, i + 1, count - 1)
  }

  /** Copying instructions from o to n, from byte idx on, until the hook fits or one cannot be moved. */
  function CopyRun(mem: Memory, o: nat, n: nat, idx: nat): (r: (Memory, nat, bool))
    requires o + CODE_PROTECT_SIZE <= TWO32 && n + CODE_PROTECT_SIZE <= TWO32 && idx <= CODE_PROTECT_SIZE
    ensures idx <= r.1 <= CODE_PROTECT_SIZE && (r.2 <==> r.1 >= CODE_REPLACE_SIZE)
    decreases CODE_PROTECT_SIZE - idx
  {
    if idx >= CODE_REPLACE_SIZE then (mem, idx, true)
    else
      LengthsAreIntels(mem[o + idx], mem[o + idx + 1], mem[o + idx + 2]);
      var size := CopyLength(mem[o + idx], mem[o + idx + 1], mem[o + idx + 2]);
      if size == 0 then (mem, idx, false) else CopyRun(CopyBytes(mem, o, n, idx, size), o, n, idx + size)
  }

  /** Copying readable code into the page. */
  function Build(mem: Memory, cave: Cave, o: uint32): (c: Cloned)
    requires cave.Valid() && cave.pCode != 0 && cave.uiCode <= 4000 && o + CODE_PROTECT_SIZE <= TWO32
    ensures c.cave.Valid() && c.original == o
  {
    var n := cave.pCode + cave.uiCode;
    var (copied, k, complete) := CopyRun(mem, o, n, 0);
    if !complete then Cloned(copied, cave, o, 0)
    else Cloned(Splice(copied, n + k, JumpBack(o, n)), cave.(uiCode := cave.uiCode + k + JMP_OP_SIZE), o, n)
  }

  /** cloneCode: the trampoline's address, or 0. */
  function Clone(mem: Memory, cave: Cave, func: uint32, alloc: uint32, protects: seq<bool>): (c: Cloned)
    requires cave.Valid() && IsPage(alloc)
    ensures c.cave.Valid()
  {
    var cave := Acquire(cave, alloc);
    if cave.pCode == 0 then Cloned(mem, cave, func, 0) else
    var (o, readable) := Resolve(mem, func, protects);
    if readable then Build(mem, cave, o) else Cloned(mem, cave, o, 0)
  }

  /** The longest instruction that is copied. */
  const MAX_LENGTH := 11

  /** A recorded straight-line run: the bytes of the instructions met, and where the run stopped. */
  datatype Trace = Trace(instructions: seq<seq<byte>>, at: uint32)

  /** The run that first meets these instructions and then goes on as t. */
  function After(instructions: seq<seq<byte>>, t: Trace): Trace {
    Trace(instructions + t.instructions, t.at)
  }

  lemma AfterAppend(a: seq<seq<byte>>, b: seq<seq<byte>>, t: Trace)
    ensures After(a, After(b, t)) == After(a + b, t) && After([], t) == t
  {
    assert a + (b + t.instructions) == a + b + t.instructions;
  }

  /** The length of the instruction at an address that is copied, or 0. */
  function LengthAt(mem: Memory, at: uint32): (n: nat)
    requires at + MAX_LENGTH <= TWO32
    ensures n <= MAX_LENGTH
  {
    LengthsAreIntels(mem[at], mem[at + 1], mem[at + 2]);
    CopyLength(mem[at], mem[at + 1], mem[at + 2])
  }

  /** Fetching from an address: relative jumps are taken silently, and the run stops at the first
      instruction of another kind. */
  function Fetch(mem: Memory, at: uint32, steps: nat): Trace
    decreases steps
  {
    if steps == 0 || at + MAX_LENGTH > TWO32 then Trace([], at)
    else if mem[at] == JMP then Fetch(mem, Target(mem, at), steps - 1)
    else
      var n := LengthAt(mem, at);
      if n == 0 then Trace([], at)
      else
        After([mem[at..at + n]], Fetch(mem, Add32(at, n), steps - 1))
  }

  datatype Region = Region(lo: nat, size: nat)

  predicate Clear(at: nat, size: nat, regions: seq<Region>) {
    forall r :: r in regions ==> at + size <= r.lo || r.lo + r.size <= at
  }

  /** No instruction the run reads overlaps the regions. */
  predicate Avoids(mem: Memory, at: uint32, steps: nat, regions: seq<Region>)
    decreases steps
  {
    if steps == 0 || at + MAX_LENGTH > TWO32 then true
    else
      Clear(at, MAX_LENGTH, regions) &&
      if mem[at] == JMP then Avoids(mem, Target(mem, at), steps - 1, regions)
      else
        var n := LengthAt(mem, at);
        n == 0 || Avoids(mem, Add32(at, n), steps - 1, regions)
  }

  ghost predicate AgreeOutside(mem: Memory, mem': Memory, regions: seq<Region>) {
    forall a :: 0 <= a < TWO32 && Clear(a, 1, regions) ==> mem'[a] == mem[a]
  }

  lemma WindowAgrees(mem: Memory, mem': Memory, at: uint32, regions: seq<Region>)
    requires at + MAX_LENGTH <= TWO32 && AgreeOutside(mem, mem', regions) && Clear(at, MAX_LENGTH, regions)
    ensures mem'[at..at + MAX_LENGTH] == mem[at..at + MAX_LENGTH]
  {
    forall a | at <= a < at + MAX_LENGTH ensures mem'[a] == mem[a] {
      assert Clear(a, 1, regions);
    }
  }

  lemma SameWindow(mem: Memory, mem': Memory, at: uint32)
    requires at + MAX_LENGTH <= TWO32 && mem'[at..at + MAX_LENGTH] == mem[at..at + MAX_LENGTH]
    ensures mem'[at] == mem[at] && LengthAt(mem', at) == LengthAt(mem, at)
    ensures Target(mem', at) == Target(mem, at)
    ensures var n := LengthAt(mem, at); mem'[at..at + n] == mem[at..at + n]
  {
    hide U32, ModRmBytes;
    var w, w' := mem[at..at + MAX_LENGTH], mem'[at..at + MAX_LENGTH];
    assert mem[at] == w[0] && mem[at + 1] == w[1] && mem[at + 2] == w[2];
    assert mem'[at] == w'[0] && mem'[at + 1] == w'[1] && mem'[at + 2] == w'[2];
    var n := LengthAt(mem, at);
    SliceOfSlice(mem, at, MAX_LENGTH, 1, 5);
    SliceOfSlice(mem, at, MAX_LENGTH, 0, n);
    SliceOfSlice(mem', at, MAX_LENGTH, 1, 5);
    SliceOfSlice(mem', at, MAX_LENGTH, 0, n);
  }

  lemma SliceOfSlice(s: seq<byte>, at: nat, size: nat, i: nat, j: nat)
    requires at + size <= |s| && i <= j <= size
    ensures s[at..at + size][i..j] == s[at + i..at + j]
  {
    var x, y := s[at..at + size][i..j], s[at + i..at + j];
    assert |x| == |y| && forall m :: 0 <= m < |x| ==> x[m] == y[m];
  }

  /** A run does not notice changes in memory that it avoids. */
  lemma {:induction false} FetchUnchanged(mem: Memory, mem': Memory, at: uint32, steps: nat, regions: seq<Region>)
    requires AgreeOutside(mem, mem', regions) && Avoids(mem, at, steps, regions)
    ensures Fetch(mem', at, steps) == Fetch(mem, at, steps)
    decreases steps
  {
    hide Target, LengthAt, AgreeOutside, Clear;
    if steps > 0 && at + MAX_LENGTH <= TWO32 {
      WindowAgrees(mem, mem', at, regions);
      SameWindow(mem, mem', at);
      if mem[at] == JMP {
        FetchUnchanged(mem, mem', Target(mem, at), steps - 1, regions);
      } else {
        var n := LengthAt(mem, at);
        if n > 0 {
          FetchUnchanged(mem, mem', Add32(at, n), steps - 1, regions);
        }
      }
    }
  }

  /** The instructions that Scan passes over. */
  function Instructions(code: seq<byte>, idx: nat): seq<seq<byte>>
    requires |code| == CODE_PROTECT_SIZE && idx <= CODE_PROTECT_SIZE
    decreases CODE_PROTECT_SIZE - idx
  {
    if idx >= CODE_REPLACE_SIZE then []
    else
      LengthsAreIntels(code[idx], code[idx + 1], code[idx + 2]);
      var n := CopyLength(code[idx], code[idx + 1], code[idx + 2]);
      if n == 0 then [] else [code[idx..idx + n]] + Instructions(code, idx + n)
  }

  /** An instruction copied elsewhere is the same instruction. */
  lemma SameInstruction(mem: Memory, at: uint32, code: seq<byte>, idx: nat)
    requires idx + 3 <= |code| && at + MAX_LENGTH <= TWO32
    requires var n := CopyLength(code[idx], code[idx + 1], code[idx + 2]);
             0 < n && idx + n <= |code| && mem[at..at + n] == code[idx..idx + n]
    ensures mem[at] != JMP && LengthAt(mem, at) == CopyLength(code[idx], code[idx + 1], code[idx + 2])
  {
    var n := CopyLength(code[idx], code[idx + 1], code[idx + 2]);
    var s, t := code[idx..idx + 3], mem[at..at + 3];
    forall i | 0 <= i < n && i < 3 ensures s[i] == t[i] {
      assert t[i] == mem[at..at + n][i] == code[idx..idx + n][i];
    }
    LengthIsLocal(s, t);
  }

  lemma FetchStep(mem: Memory, at: uint32, steps: nat)
    requires at + MAX_LENGTH <= TWO32 && mem[at] != JMP && LengthAt(mem, at) > 0
    ensures var n := LengthAt(mem, at);
            Fetch(mem, at, 1 + steps) == After([mem[at..at + n]], Fetch(mem, Add32(at, n), steps))
  {
    hide LengthAt, Target;
  }

  lemma ScanStep(code: seq<byte>, idx: nat)
    requires |code| == CODE_PROTECT_SIZE && idx < CODE_REPLACE_SIZE && Scan(code, idx).1
    ensures var n := CopyLength(code[idx], code[idx + 1], code[idx + 2]);
            0 < n <= MAX_LENGTH && Scan(code, idx) == Scan(code, idx + n) && idx + n <= Scan(code, idx).0 &&
            Instructions(code, idx) == [code[idx..idx + n]] + Instructions(code, idx + n)
  {
    hide CopyLength;
    LengthsAreIntels(code[idx], code[idx + 1], code[idx + 2]);
  }

  /** Wherever the copied bytes of a code window lie, fetching them yields the instructions scanned
      and arrives right behind them. */
  lemma {:induction false} FetchScanned(mem: Memory, base: uint32, code: seq<byte>, idx: nat, steps: nat)
    requires |code| == CODE_PROTECT_SIZE && idx <= CODE_PROTECT_SIZE && Scan(code, idx).1
    requires base + CODE_PROTECT_SIZE <= TWO32
    requires var k := Scan(code, idx).0; mem[base..base + k] == code[..k]
    ensures var k := Scan(code, idx).0;
            Fetch(mem, Add32(base, idx), |Instructions(code, idx)| + steps) ==
            After(Instructions(code, idx), Fetch(mem, Add32(base, k), steps))
    decreases CODE_PROTECT_SIZE - idx
  {
    hide CopyLength, LengthAt, Target, Fetch, Scan, Add32, After, Instructions;
    var k := Scan(code, idx).0;
    if idx < CODE_REPLACE_SIZE {
      var n := CopyLength(code[idx], code[idx + 1], code[idx + 2]);
      ScanStep(code, idx);
      var at := base + idx;
      AddSmall(base, idx, n);
      SliceOfSlice(mem, base, k, idx, idx + n);
      assert code[..k][idx..idx + n] == code[idx..idx + n];
      SameInstruction(mem, at, code, idx);
      FetchScanned(mem, base, code, idx + n, steps);
      FetchStep(mem, at, |Instructions(code, idx + n)| + steps);
      AfterAppend([code[idx..idx + n]], Instructions(code, idx + n), Fetch(mem, Add32(base, k), steps));
    } else {
      NothingToScan(code, idx);
      AfterAppend([], [], Fetch(mem, Add32(base, idx), steps));
    }
  }

  lemma NothingToScan(code: seq<byte>, idx: nat)
    requires |code| == CODE_PROTECT_SIZE && CODE_REPLACE_SIZE <= idx <= CODE_PROTECT_SIZE
    ensures Scan(code, idx) == (idx, true) && Instructions(code, idx) == []
  {
  }

  lemma AddSmall(base: uint32, idx: nat, n: nat)
    requires base + idx < TWO32
    ensures Add32(base, idx) == base + idx && Add32(base + idx, n) == Add32(base, idx + n)
  {
  }

  /** The jump appended to the copy of k bytes leads behind the bytes that were copied. */
  lemma JumpLandsBehindCopy(mem: Memory, o: uint32, n: uint32, k: nat)
    requires n + k + JMP_OP_SIZE <= TWO32 && k <= CODE_PROTECT_SIZE
    requires mem[n + k..n + k + JMP_OP_SIZE] == JumpBack(o, n)
    ensures mem[n + k] == JMP && Target(mem, n + k) == Add32(o, k)
  {
    var jump := mem[n + k..n + k + JMP_OP_SIZE];
    var offset := Wrap((o as int) - n - JMP_OP_SIZE);
    assert jump[0] == mem[n + k];
    SliceOfSlice(mem, n + k, JMP_OP_SIZE, 1, 5);
    assert jump[1..5] == LE32(offset);
    LE32U32(offset);
    SignedSum(o, n, k);
  }

  lemma SignedSum(o: uint32, n: uint32, k: nat)
    requires n + k + JMP_OP_SIZE <= TWO32
    ensures Add32(n + k + JMP_OP_SIZE, Signed(Wrap((o as int) - n - JMP_OP_SIZE))) == Add32(o, k)
  {
  }

  /** The memory that the trampoline and the hook change. */
  function Changed(c: Cloned): seq<Region> {
    [Region(c.cave.pCode, PAGE_SIZE), Region(c.original, CODE_REPLACE_SIZE)]
  }

  /** What a finished clone looks like: at least six bytes of whole instructions, copied to a place
      in the page behind everything used before, and followed by the jump back. */
  ghost predicate Shaped(mem: Memory, begin: Cave, c: Cloned, k: nat) {
    c.original + CODE_PROTECT_SIZE <= TWO32 &&
    Scan(Code(mem, c.original), 0) == (k, true) && CODE_REPLACE_SIZE <= k <= CODE_PROTECT_SIZE &&
    c.trampoline == begin.pCode + begin.uiCode && c.cave == Cave(begin.pCode, begin.uiCode + k + JMP_OP_SIZE) &&
    begin.pCode + PAGE_SIZE <= TWO32 && c.trampoline + k + JMP_OP_SIZE <= begin.pCode + PAGE_SIZE - 75 &&
    c.mem == Splice(mem, c.trampoline, mem[c.original..c.original + k] + JumpBack(c.original, c.trampoline))
  }

  /** Code and copy do not overlap. */
  predicate Beside(o: nat, n: nat) { o + CODE_PROTECT_SIZE <= n || n + CODE_PROTECT_SIZE <= o }

  lemma {:induction false} CopyBytesApart(start: Memory, mem: Memory, o: nat, n: nat, i: nat, count: nat)
    requires o + CODE_PROTECT_SIZE <= TWO32 && n + CODE_PROTECT_SIZE <= TWO32 && i + count <= CODE_PROTECT_SIZE
    requires Beside(o, n) && mem == Splice(start, n, start[o..o + i])
    ensures CopyBytes(mem, o, n, i, count) == Splice(start, n, start[o..o + i + count])
    decreases count
  {
    if count > 0 {
      assert mem[o + i] == start[o + i];
      OneMore(start, o, n, i);
      hide Splice;
      CopyBytesApart(start, mem[n + i := mem[o + i]], o, n, i + 1, count - 1);
    }
  }

  lemma OneMore(start: Memory, o: nat, n: nat, i: nat)
    requires i < CODE_PROTECT_SIZE && o + CODE_PROTECT_SIZE <= TWO32 && n + CODE_PROTECT_SIZE <= TWO32
    ensures Splice(start, n, start[o..o + i])[n + i := start[o + i]] == Splice(start, n, start[o..o + i + 1])
  {
  }

  /** The code being copied reads the same while it is copied. */
  lemma WindowKept(start: Memory, now: Memory, o: nat, n: nat, idx: nat)
    requires idx <= CODE_PROTECT_SIZE && o + CODE_PROTECT_SIZE <= TWO32 && n + CODE_PROTECT_SIZE <= TWO32
    requires Beside(o, n) && now == Splice(start, n, start[o..o + idx])
    ensures now[o..o + CODE_PROTECT_SIZE] == start[o..o + CODE_PROTECT_SIZE]
  {
  }

  /** Beside each other, the copy is made of the bytes that were there, as far as they can be moved. */
  lemma {:induction false} CopyRunApart(start: Memory, mem: Memory, o: uint32, n: nat, idx: nat)
    requires o + CODE_PROTECT_SIZE <= TWO32 && n + CODE_PROTECT_SIZE <= TWO32 && idx <= CODE_PROTECT_SIZE
    requires Beside(o, n) && mem == Splice(start, n, start[o..o + idx])
    ensures var (k, complete) := Scan(Code(start, o), idx);
            CopyRun(mem, o, n, idx) == (Splice(start, n, start[o..o + k]), k, complete)
    decreases CODE_PROTECT_SIZE - idx
  {
    hide CopyLength, Splice, CopyBytes, CopyRun, Scan, Code;
    if idx < CODE_REPLACE_SIZE {
      var code := Code(start, o);
      SameLength(start, mem, o, n, idx);
      ScanTurn(code, idx);
      CopyRunTurn(mem, o, n, idx);
      var size := CopyLength(code[idx], code[idx + 1], code[idx + 2]);
      if size > 0 {
        CopyBytesApart(start, mem, o, n, idx, size);
        CopyRunApart(start, CopyBytes(mem, o, n, idx, size), o, n, idx + size);
      }
    } else {
      NothingToScan(Code(start, o), idx);
      NothingToCopy(mem, o, n, idx);
    }
  }

  lemma SameLength(start: Memory, mem: Memory, o: uint32, n: nat, idx: nat)
    requires o + CODE_PROTECT_SIZE <= TWO32 && n + CODE_PROTECT_SIZE <= TWO32 && idx < CODE_REPLACE_SIZE
    requires Beside(o, n) && mem == Splice(start, n, start[o..o + idx])
    ensures var code := Code(start, o);
            CopyLength(code[idx], code[idx + 1], code[idx + 2]) == CopyLength(mem[o + idx], mem[o + idx + 1], mem[o + idx + 2])
  {
    hide CopyLength, Splice;
    WindowKept(start, mem, o, n, idx);
    var now, code := mem[o..o + CODE_PROTECT_SIZE], Code(start, o);
    assert now[idx] == code[idx] && now[idx + 1] == code[idx + 1] && now[idx + 2] == code[idx + 2];
  }

  /** One turn of the scan, and of the copy. */
  lemma ScanTurn(code: seq<byte>, idx: nat)
    requires |code| == CODE_PROTECT_SIZE && idx < CODE_REPLACE_SIZE
    ensures var n := CopyLength(code[idx], code[idx + 1], code[idx + 2]);
            idx + n <= CODE_PROTECT_SIZE && Scan(code, idx) == if n == 0 then (idx, false) else Scan(code, idx + n)
  {
    hide CopyLength;
    LengthsAreIntels(code[idx], code[idx + 1], code[idx + 2]);
  }

  lemma CopyRunTurn(mem: Memory, o: nat, n: nat, idx: nat)
    requires o + CODE_PROTECT_SIZE <= TWO32 && n + CODE_PROTECT_SIZE <= TWO32 && idx < CODE_REPLACE_SIZE
    ensures var size := CopyLength(mem[o + idx], mem[o + idx + 1], mem[o + idx + 2]);
            idx + size <= CODE_PROTECT_SIZE &&
            CopyRun(mem, o, n, idx) ==
            if size == 0 then (mem, idx, false) else CopyRun(CopyBytes(mem, o, n, idx, size), o, n, idx + size)
  {
    hide CopyLength, CopyBytes;
    LengthsAreIntels(mem[o + idx], mem[o + idx + 1], mem[o + idx + 2]);
  }

  lemma NothingToCopy(mem: Memory, o: nat, n: nat, idx: nat)
    requires o + CODE_PROTECT_SIZE <= TWO32 && n + CODE_PROTECT_SIZE <= TWO32 && CODE_REPLACE_SIZE <= idx <= CODE_PROTECT_SIZE
    ensures CopyRun(mem, o, n, idx) == (mem, idx, true)
  {
  }

  /** Only the sixteen bytes at the copy are written. */
  lemma {:induction false} CopyBytesWrites(mem: Memory, o: nat, n: nat, i: nat, count: nat)
    requires o + i + count <= TWO32 && n + i + count <= TWO32
    ensures forall a :: 0 <= a < TWO32 && !(n + i <= a < n + i + count) ==> CopyBytes(mem, o, n, i, count)[a] == mem[a]
    decreases count
  {
    if count > 0 { CopyBytesWrites(mem[n + i := mem[o + i]], o, n, i + 1, count - 1); }
  }

  lemma {:induction false} CopyRunWrites(mem: Memory, o: nat, n: nat, idx: nat)
    requires o + CODE_PROTECT_SIZE <= TWO32 && n + CODE_PROTECT_SIZE <= TWO32 && idx <= CODE_PROTECT_SIZE
    ensures forall a :: 0 <= a < TWO32 && !(n + idx <= a < n + CODE_PROTECT_SIZE) ==> CopyRun(mem, o, n, idx).0[a] == mem[a]
    decreases CODE_PROTECT_SIZE - idx
  {
    hide CopyLength, CopyBytes;
    if idx < CODE_REPLACE_SIZE {
      LengthsAreIntels(mem[o + idx], mem[o + idx + 1], mem[o + idx + 2]);
      var size := CopyLength(mem[o + idx], mem[o + idx + 1], mem[o + idx + 2]);
      if size > 0 {
        CopyBytesWrites(mem, o, n, idx, size);
        CopyRunWrites(CopyBytes(mem, o, n, idx, size), o, n, idx + size);
      }
    }
  }

  lemma BuildShape(mem: Memory, cave: Cave, o: uint32)
    requires cave.Valid() && cave.pCode != 0 && cave.uiCode <= 4000 && o + CODE_PROTECT_SIZE <= TWO32
    requires Build(mem, cave, o).trampoline != 0 && Beside(o, cave.pCode + cave.uiCode)
    ensures Build(mem, cave, o).original == o && Shaped(mem, cave, Build(mem, cave, o), Scan(Code(mem, o), 0).0)
  {
    hide Scan, JumpBack, Splice, CopyRun, Code, Beside;
    var n := cave.pCode + cave.uiCode;
    NothingSpliced(mem, n, o);
    CopyRunApart(mem, mem, o, n, 0);
    SpliceTwice(mem, n, mem[o..o + Scan(Code(mem, o), 0).0], JumpBack(o, n));
  }

  lemma NothingSpliced(mem: Memory, n: nat, o: nat)
    requires n <= TWO32 && o <= TWO32
    ensures Splice(mem, n, mem[o..o]) == mem
  {
  }

  lemma CloneShape(mem: Memory, cave: Cave, func: uint32, alloc: uint32, protects: seq<bool>)
    requires cave.Valid() && IsPage(alloc)
    requires var c := Clone(mem, cave, func, alloc, protects);
             c.trampoline != 0 && Beside(c.original, Acquire(cave, alloc).pCode + Acquire(cave, alloc).uiCode)
    ensures var c := Clone(mem, cave, func, alloc, protects);
            Resolve(mem, func, protects) == (c.original, true) &&
            Shaped(mem, Acquire(cave, alloc), c, Scan(Code(mem, c.original), 0).0)
  {
    hide Scan, Resolve, Build, Shaped, Code;
    BuildShape(mem, Acquire(cave, alloc), Resolve(mem, func, protects).0);
  }

  /** Exactly when there is a trampoline: there is a page, the code behind the jumps is readable, and
      it starts with six bytes of instructions that can be moved. */
  lemma ClonesIff(mem: Memory, cave: Cave, func: uint32, alloc: uint32, protects: seq<bool>)
    requires cave.Valid() && IsPage(alloc)
    ensures var (begin, found) := (Acquire(cave, alloc), Resolve(mem, func, protects));
            Clone(mem, cave, func, alloc, protects).trampoline != 0 <==>
            (begin.pCode != 0 && found.1 && CopyRun(mem, found.0, begin.pCode + begin.uiCode, 0).2)
  {
    hide CopyRun, Resolve, Splice, JumpBack;
  }

  predicate Pushes(mem: Memory, o: nat, idx: nat)
    requires o + CODE_REPLACE_SIZE <= TWO32
  {
    forall i :: o + idx <= i < o + CODE_REPLACE_SIZE ==> 0x50 <= mem[i] <= 0x57
  }

  lemma {:induction false} PushesAreCopied(mem: Memory, o: nat, n: nat, idx: nat)
    requires o + CODE_PROTECT_SIZE <= TWO32 && n + CODE_PROTECT_SIZE <= TWO32 && idx <= CODE_REPLACE_SIZE && Pushes(mem, o, idx)
    ensures CopyRun(mem, o, n, idx).1 == CODE_REPLACE_SIZE && CopyRun(mem, o, n, idx).2
    decreases CODE_REPLACE_SIZE - idx
  {
    if idx < CODE_REPLACE_SIZE {
      var next := mem[n + idx := mem[o + idx]];
      assert CopyBytes(next, o, n, idx + 1, 0) == next && CopyBytes(mem, o, n, idx, 1) == next;
      PushesAreCopied(next, o, n, idx + 1);
    }
  }

  /** For one, a function that starts with six one-byte pushes, of whatever registers. */
  lemma PushesAreCloned(mem: Memory, func: uint32, alloc: uint32)
    requires func + CODE_PROTECT_SIZE <= TWO32 && alloc != 0 && IsPage(alloc) && Pushes(mem, func, 0)
    ensures var c := Clone(mem, Cave(0, 0), func, alloc, [true]);
            c.trampoline == alloc && c.original == func && c.cave == Cave(alloc, CODE_REPLACE_SIZE + JMP_OP_SIZE)
  {
    PushesAreCopied(mem, func, alloc, 0);
    hide CopyRun;
    assert mem[func] != JMP;
  }

  /** Each address but the last holds a relative jump, opcode 0xe9, to the next one. */
  predicate JumpChain(mem: Memory, path: seq<uint32>) {
    path != [] &&
    forall i :: 0 <= i < |path| - 1 ==>
      path[i] + CODE_PROTECT_SIZE <= TWO32 && mem[path[i]] == 0xe9 &&
      path[i + 1] == Add32(path[i] + 5, Signed(U32(mem[path[i] + 1..path[i] + 5])))
  }

  lemma {:induction false} ChainResolves(mem: Memory, path: seq<uint32>, protects: seq<bool>)
    requires JumpChain(mem, path) && |protects| >= |path| - 1 && forall i :: 0 <= i < |path| - 1 ==> protects[i]
    ensures Resolve(mem, path[0], protects) == Resolve(mem, path[|path| - 1], protects[|path| - 1..])
    decreases |path|
  {
    hide U32, Signed;
    if |path| > 1 {
      assert protects[1..][|path| - 2..] == protects[|path| - 1..];
      ChainResolves(mem, path[1..], protects[1..]);
    }
  }

  /** The page in use has room. */
  predicate HasRoom(cave: Cave) { cave.pCode != 0 && cave.uiCode <= 4000 }

  /** There is a page to fill, this one or a new one. */
  predicate HasPage(cave: Cave, alloc: uint32) { HasRoom(cave) || alloc != 0 }

  /** Leading jumps make no difference: where all of their addresses can be made readable, cloning the
      first is cloning what stands at the end of them, and that is what gets hooked. */
  lemma JumpsAreFollowed(mem: Memory, cave: Cave, alloc: uint32, path: seq<uint32>, protects: seq<bool>)
    requires cave.Valid() && IsPage(alloc) && HasPage(cave, alloc)
    requires JumpChain(mem, path) && |protects| >= |path| && forall i :: 0 <= i < |path| ==> protects[i]
    requires var last := path[|path| - 1]; last + CODE_PROTECT_SIZE <= TWO32 && mem[last] != 0xe9
    ensures var last := path[|path| - 1];
            Clone(mem, cave, path[0], alloc, protects) == Clone(mem, cave, last, alloc, [true]) &&
            Clone(mem, cave, path[0], alloc, protects).original == last
  {
    hide Build;
    ChainResolves(mem, path, protects);
    var (last, left) := (path[|path| - 1], protects[|path| - 1..]);
    assert left[0];
    assert Resolve(mem, last, left) == (last, true) == Resolve(mem, last, [true]);
  }

  /** Where one of them cannot, that is what gets hooked, without a trampoline; and without a page the
      jumps are not even looked at. */
  lemma JumpsAreRefused(mem: Memory, cave: Cave, alloc: uint32, path: seq<uint32>, protects: seq<bool>)
    requires cave.Valid() && IsPage(alloc)
    requires JumpChain(mem, path) && |protects| >= |path| - 1 && forall i :: 0 <= i < |path| - 1 ==> protects[i]
    requires var last := path[|path| - 1];
             last + CODE_PROTECT_SIZE > TWO32 || |protects| == |path| - 1 || !protects[|path| - 1]
    ensures var c := Clone(mem, cave, path[0], alloc, protects);
            c.trampoline == 0 && c.mem == mem && c.original == if HasPage(cave, alloc) then path[|path| - 1] else path[0]
  {
    ChainResolves(mem, path, protects);
    var (last, left) := (path[|path| - 1], protects[|path| - 1..]);
    assert |protects| > |path| - 1 ==> left[0] == protects[|path| - 1];
    assert Resolve(mem, last, left) == (last, false);
  }

  function LengthByManual(mem: Memory, at: nat): nat
    requires at + 3 <= TWO32
  {
    SdmLength(mem[at], mem[at + 1], mem[at + 2])
  }

  function Sum(sizes: seq<nat>): nat { if sizes == [] then 0 else sizes[0] + Sum(sizes[1..]) }

  /** At o there are instructions that can be moved, of these sizes, one behind the other; all but the
      last one start where the hook will be, counted from idx bytes on. */
  predicate Movable(mem: Memory, o: nat, idx: nat, sizes: seq<nat>)
    requires o + CODE_PROTECT_SIZE <= TWO32
    decreases |sizes|
  {
    sizes == [] ||
    (idx < CODE_REPLACE_SIZE && sizes[0] == LengthByManual(mem, o + idx) > 0 && Movable(mem, o, idx + sizes[0], sizes[1..]))
  }

  /** The scan passes over exactly these instructions, and goes on behind them. */
  lemma {:induction false} ScanMovable(mem: Memory, o: uint32, idx: nat, sizes: seq<nat>)
    requires o + CODE_PROTECT_SIZE <= TWO32 && idx <= CODE_PROTECT_SIZE && Movable(mem, o, idx, sizes)
    ensures idx + Sum(sizes) <= CODE_PROTECT_SIZE
    ensures Scan(Code(mem, o), idx) == Scan(Code(mem, o), idx + Sum(sizes))
    decreases |sizes|
  {
    hide SdmLength, CopyLength, Scan;
    if sizes != [] {
      ScanTurn(Code(mem, o), idx);
      LengthsAreIntels(mem[o + idx], mem[o + idx + 1], mem[o + idx + 2]);
      ScanMovable(mem, o, idx + sizes[0], sizes[1..]);
    }
  }

  lemma ScanStops(mem: Memory, o: uint32, idx: nat)
    requires o + CODE_PROTECT_SIZE <= TWO32 && idx < CODE_REPLACE_SIZE && LengthByManual(mem, o + idx) == 0
    ensures Scan(Code(mem, o), idx) == (idx, false)
  {
    hide SdmLength, CopyLength, Scan;
    ScanTurn(Code(mem, o), idx);
    LengthsAreIntels(mem[o + idx], mem[o + idx + 1], mem[o + idx + 2]);
  }

  /** Where the next trampoline goes. */
  function Place(cave: Cave, alloc: uint32): nat {
    if HasRoom(cave) then cave.pCode + cave.uiCode else alloc
  }

  lemma BuildExactly(mem: Memory, cave: Cave, o: uint32, k: nat, complete: bool)
    requires cave.Valid() && cave.pCode != 0 && cave.uiCode <= 4000 && o + CODE_PROTECT_SIZE <= TWO32
    requires Beside(o, cave.pCode + cave.uiCode) && Scan(Code(mem, o), 0) == (k, complete)
    ensures var (c, n) := (Build(mem, cave, o), cave.pCode + cave.uiCode);
            if complete then c == Cloned(Splice(mem, n, mem[o..o + k] + JumpBack(o, n)), cave.(uiCode := cave.uiCode + k + JMP_OP_SIZE), o, n)
            else c == Cloned(c.mem, cave, o, 0)
  {
    hide Scan, JumpBack, Splice, CopyRun, Code, Beside;
    var n := cave.pCode + cave.uiCode;
    NothingSpliced(mem, n, o);
    CopyRunApart(mem, mem, o, n, 0);
    SpliceTwice(mem, n, mem[o..o + k], JumpBack(o, n));
  }

  lemma CloneReadable(mem: Memory, cave: Cave, func: uint32, alloc: uint32)
    requires cave.Valid() && IsPage(alloc) && HasPage(cave, alloc)
    requires func + CODE_PROTECT_SIZE <= TWO32 && mem[func] != 0xe9
    ensures var begin := if HasRoom(cave) then cave else Cave(alloc, 0);
            begin.Valid() && Clone(mem, cave, func, alloc, [true]) == Build(mem, begin, func)
  {
    hide Build;
  }

  /** Exactly what becomes of a readable function that starts with instructions of these sizes, up to
      where the hook fits or to one that cannot be moved: in the first case there is a trampoline, made
      of just these instructions and the jump, at the next place; in the other there is none, and the
      place is still free. */
  lemma ClonesExactly(mem: Memory, cave: Cave, func: uint32, alloc: uint32, sizes: seq<nat>)
    requires cave.Valid() && IsPage(alloc) && HasPage(cave, alloc)
    requires func + CODE_PROTECT_SIZE <= TWO32 && mem[func] != 0xe9 && Beside(func, Place(cave, alloc))
    requires Movable(mem, func, 0, sizes)
    requires Sum(sizes) < CODE_REPLACE_SIZE ==> LengthByManual(mem, func + Sum(sizes)) == 0
    ensures var (c, n, k) := (Clone(mem, cave, func, alloc, [true]), Place(cave, alloc), Sum(sizes));
            c.original == func && c.cave.pCode == (if HasRoom(cave) then cave.pCode else alloc) &&
            if k < CODE_REPLACE_SIZE then c.trampoline == 0 && c.cave.pCode + c.cave.uiCode == n
            else k <= CODE_PROTECT_SIZE && n + k + JMP_OP_SIZE <= TWO32 &&
                 c.trampoline == n && c.cave.pCode + c.cave.uiCode == n + k + JMP_OP_SIZE &&
                 c.mem == Splice(mem, n, mem[func..func + k] + JumpBack(func, n))
  {
    hide SdmLength, Scan, Movable, Sum, JumpBack, Splice, Code, Beside, Build, Clone;
    var k := Sum(sizes);
    ScanMovable(mem, func, 0, sizes);
    if k < CODE_REPLACE_SIZE { ScanStops(mem, func, k); } else { NothingToScan(Code(mem, func), k); }
    CloneReadable(mem, cave, func, alloc);
    BuildExactly(mem, if HasRoom(cave) then cave else Cave(alloc, 0), func, k, k >= CODE_REPLACE_SIZE);
  }

  lemma SpliceTwice(s: seq<byte>, at: nat, a: seq<byte>, b: seq<byte>)
    requires at + |a| + |b| <= |s|
    ensures Splice(Splice(s, at, a), at + |a|, b) == Splice(s, at, a + b)
  {
  }

  /** Everything that cloning and hooking change lies in the page and the first six bytes. */
  lemma OnlyChangedChanges(mem: Memory, begin: Cave, c: Cloned, k: nat, hook: seq<byte>)
    requires Shaped(mem, begin, c, k) && |hook| == CODE_REPLACE_SIZE
    ensures AgreeOutside(mem, Splice(c.mem, c.original, hook), Changed(c))
  {
    hide Scan, JumpBack;
    var page, patch := Changed(c)[0], Changed(c)[1];
    assert page in Changed(c) && patch in Changed(c);
  }

  /** The bytes of a finished trampoline survive hooking the function they came from. */
  lemma TrampolineBytes(mem: Memory, begin: Cave, c: Cloned, k: nat, hook: seq<byte>)
    requires Shaped(mem, begin, c, k) && |hook| == CODE_REPLACE_SIZE
    requires Clear(c.original, CODE_PROTECT_SIZE, [Region(c.cave.pCode, PAGE_SIZE)])
    ensures var patched := Splice(c.mem, c.original, hook);
            var n := c.trampoline;
            patched[n..n + k] == Code(mem, c.original)[..k] &&
            patched[n + k..n + k + JMP_OP_SIZE] == JumpBack(c.original, n)
  {
    hide Scan, JumpBack;
    var o, n := c.original, c.trampoline;
    var page := Region(c.cave.pCode, PAGE_SIZE);
    assert page in [page];
    SplicedElsewhere(mem, n, mem[o..o + k], JumpBack(o, n), o, hook);
    SliceOfSlice(mem, o, CODE_PROTECT_SIZE, 0, k);
  }

  /** Before hooking, too. */
  lemma CloneTramp(mem: Memory, begin: Cave, c: Cloned, k: nat)
    requires Shaped(mem, begin, c, k) && Clear(c.original, CODE_PROTECT_SIZE, [Region(c.cave.pCode, PAGE_SIZE)])
    ensures var n := c.trampoline;
            c.mem[n..n + k] == Code(mem, c.original)[..k] && c.mem[n + k..n + k + JMP_OP_SIZE] == JumpBack(c.original, n)
  {
    hide Clear, Scan, JumpBack;
    var six := c.mem[c.original..c.original + CODE_REPLACE_SIZE];
    TrampolineBytes(mem, begin, c, k, six);
    assert Splice(c.mem, c.original, six) == c.mem;
  }

  lemma SplicedElsewhere(mem: seq<byte>, n: nat, a: seq<byte>, b: seq<byte>, o: nat, hook: seq<byte>)
    requires n + |a| + |b| <= |mem| && o + |hook| <= |mem|
    requires n + |a| + |b| <= o || o + |hook| <= n
    ensures var patched := Splice(Splice(mem, n, a + b), o, hook);
            patched[n..n + |a|] == a && patched[n + |a|..n + |a| + |b|] == b
  {
    var patched := Splice(Splice(mem, n, a + b), o, hook);
    assert forall i :: n <= i < n + |a| + |b| ==> patched[i] == (a + b)[i - n];
  }

  /** How many jumps are followed before the code that is cloned. */
  function Hops(mem: Memory, at: uint32, protects: seq<bool>): nat
    decreases |protects|
  {
    if protects == [] || !protects[0] || at + CODE_PROTECT_SIZE > TWO32 || mem[at] != JMP then 0
    else 1 + Hops(mem, Target(mem, at), protects[1..])
  }

  lemma {:induction false} HopsAreSilent(mem: Memory, at: uint32, protects: seq<bool>, steps: nat)
    requires Resolve(mem, at, protects).1
    ensures Fetch(mem, at, Hops(mem, at, protects) + steps) == Fetch(mem, Resolve(mem, at, protects).0, steps)
    decreases |protects|
  {
    hide Target, LengthAt;
    if mem[at] == JMP {
      HopsAreSilent(mem, Target(mem, at), protects[1..], steps);
    }
  }

  lemma FetchJump(mem: Memory, at: uint32, steps: nat)
    requires at + MAX_LENGTH <= TWO32 && mem[at] == JMP
    ensures Fetch(mem, at, 1 + steps) == Fetch(mem, Target(mem, at), steps)
  {
    hide Target, LengthAt;
  }

  /** Taking leading jumps one by one meets the same instructions as starting behind them. */
  lemma {:induction false} ChainIsSilent(mem: Memory, path: seq<uint32>, steps: nat)
    requires JumpChain(mem, path) && path != []
    ensures Fetch(mem, path[0], |path| - 1 + steps) == Fetch(mem, path[|path| - 1], steps)
    decreases |path|
  {
    hide Fetch, JumpChain, Target;
    if |path| > 1 {
      ChainTail(mem, path);
      FetchJump(mem, path[0], |path| - 2 + steps);
      ChainIsSilent(mem, path[1..], steps);
    }
  }

  lemma ChainTail(mem: Memory, path: seq<uint32>)
    requires JumpChain(mem, path) && |path| > 1
    ensures JumpChain(mem, path[1..]) && path[0] + MAX_LENGTH <= TWO32 && mem[path[0]] == JMP && path[1] == Target(mem, path[0])
  {
    hide U32, Signed, Add32;
  }

  /** Copied code with the jump behind it stands for the code it was copied from. */
  lemma CopyStandsForOriginal(mem: Memory, patched: Memory, o: uint32, n: uint32, steps: nat, regions: seq<Region>)
    requires o + CODE_PROTECT_SIZE <= TWO32 && n + 2 * CODE_PROTECT_SIZE <= TWO32
    requires var (k, complete) := Scan(Code(mem, o), 0);
             complete && patched[n..n + k] == Code(mem, o)[..k] &&
             patched[n + k..n + k + JMP_OP_SIZE] == JumpBack(o, n) &&
             Avoids(mem, Add32(o, k), steps, regions)
    requires AgreeOutside(mem, patched, regions)
    ensures var copied := |Instructions(Code(mem, o), 0)|;
            Fetch(patched, n, copied + (1 + steps)) == Fetch(mem, o, copied + steps)
  {
    hide Scan, JumpBack, Instructions, AgreeOutside, Target, Avoids, Add32, After, Fetch;
    var code := Code(mem, o);
    var k := Scan(code, 0).0;
    NoOffset(o);
    NoOffset(n);
    AddSmall(n, k, 0);
    JumpLandsBehindCopy(patched, o, n, k);
    FetchJump(patched, n + k, steps);
    FetchScanned(patched, n, code, 0, 1 + steps);
    SliceOfSlice(mem, o, CODE_PROTECT_SIZE, 0, k);
    FetchScanned(mem, o, code, 0, steps);
    FetchUnchanged(mem, patched, Add32(o, k), steps, regions);
  }

  /** The trampoline stands for the function: whatever the number of steps, fetching from it in the
      memory where the function is hooked meets the instructions that fetching from the function met
      in the memory before. The run behind the copied bytes must not come back to the six bytes that
      the hook overwrites, or to the trampoline page; the page must not hold the function. */
  lemma TrampolineFaithful(mem: Memory, cave: Cave, func: uint32, alloc: uint32, protects: seq<bool>,
                           hook: seq<byte>, steps: nat)
    requires cave.Valid() && IsPage(alloc) && |hook| == CODE_REPLACE_SIZE
    requires var c := Clone(mem, cave, func, alloc, protects);
             c.trampoline != 0 && (c.original + CODE_PROTECT_SIZE <= TWO32 ==>
               Clear(c.original, CODE_PROTECT_SIZE, [Region(c.cave.pCode, PAGE_SIZE)]) &&
               Avoids(mem, Add32(c.original, Scan(Code(mem, c.original), 0).0), steps, Changed(c)))
    ensures var c := Clone(mem, cave, func, alloc, protects);
            c.original + CODE_PROTECT_SIZE <= TWO32 &&
            var copied := |Instructions(Code(mem, c.original), 0)|;
            Fetch(Splice(c.mem, c.original, hook), c.trampoline, copied + (1 + steps)) ==
            Fetch(mem, func, Hops(mem, func, protects) + (copied + steps))
  {
    hide Clone, Scan, Fetch, Instructions, Splice, Resolve, Hops, Avoids, Clear, Changed, JumpBack, Acquire;
    var c := Clone(mem, cave, func, alloc, protects);
    var o := c.original;
    CloneEnds(mem, cave, func, alloc, protects);
    BesideFresh(o, Acquire(cave, alloc), c.cave.pCode);
    CloneShape(mem, cave, func, alloc, protects);
    ShapedStandsForOriginal(mem, Acquire(cave, alloc), c, Scan(Code(mem, o), 0).0, hook, steps);
    HopsAreSilent(mem, func, protects, |Instructions(Code(mem, o), 0)| + steps);
  }

  /** Code outside the page lies beside every copy made in it. */
  lemma BesideFresh(o: nat, begin: Cave, page: uint32)
    requires begin.pCode == page && begin.uiCode <= 4000 && Clear(o, CODE_PROTECT_SIZE, [Region(page, PAGE_SIZE)])
    ensures Beside(o, begin.pCode + begin.uiCode)
  {
    assert Region(page, PAGE_SIZE) in [Region(page, PAGE_SIZE)];
  }

  lemma ShapedStandsForOriginal(mem: Memory, begin: Cave, c: Cloned, k: nat, hook: seq<byte>, steps: nat)
    requires Shaped(mem, begin, c, k) && |hook| == CODE_REPLACE_SIZE
    requires Clear(c.original, CODE_PROTECT_SIZE, [Region(c.cave.pCode, PAGE_SIZE)])
    requires Avoids(mem, Add32(c.original, k), steps, Changed(c))
    ensures var copied := |Instructions(Code(mem, c.original), 0)|;
            Fetch(Splice(c.mem, c.original, hook), c.trampoline, copied + (1 + steps)) ==
            Fetch(mem, c.original, copied + steps)
  {
    hide Scan, JumpBack, Instructions, AgreeOutside, Changed, Avoids, Clear, Add32, Fetch;
    TrampolineBytes(mem, begin, c, k, hook);
    OnlyChangedChanges(mem, begin, c, k, hook);
    CopyStandsForOriginal(mem, Splice(c.mem, c.original, hook), c.original, c.trampoline, steps, Changed(c));
  }

  lemma NoOffset(at: uint32)
    ensures Add32(at, 0) == at
  {
  }

  /** The hook itself: push the replacement's address and return to it. */
  function Redirect(replacement: uint32): (hook: seq<byte>)
    ensures |hook| == CODE_REPLACE_SIZE
  {
    [0x68] + LE32(replacement) + [0xc3]
  }

  /** A hooked function pushes the address of the replacement, and the next byte is a return. */
  lemma HookedGoesToReplacement(mem: Memory, base: uint32, replacement: uint32)
    requires base + MAX_LENGTH <= TWO32 && mem[base..base + CODE_REPLACE_SIZE] == Redirect(replacement)
    ensures Fetch(mem, base, 1) == Trace([[0x68] + LE32(replacement)], base + 5)
    ensures mem[base + 5] == 0xc3 && U32(mem[base + 1..base + 5]) == replacement
  {
    hide LE32, U32;
    var hook := Redirect(replacement);
    SliceOfSlice(mem, base, CODE_REPLACE_SIZE, 0, 5);
    SliceOfSlice(mem, base, CODE_REPLACE_SIZE, 1, 5);
    assert mem[base] == mem[base..base + CODE_REPLACE_SIZE][0];
    assert mem[base + 5] == mem[base..base + CODE_REPLACE_SIZE][5];
    assert hook[0..5] == [0x68] + LE32(replacement) && hook[1..5] == LE32(replacement);
    LE32U32(replacement);
    assert Fetch(mem, base + 5, 0) == Trace([], base + 5);
  }

  /** A trampoline as it was finished: its address and its bytes. */
  datatype Trampoline = Trampoline(at: nat, code: seq<byte>) {
    function End(): nat { at + |code| }
  }

  /** All of the allocator's state: memory, the page in use, every page ever obtained, and every
      trampoline ever finished. */
  datatype Store = Store(mem: Memory, cave: Cave, pages: seq<uint32>, built: seq<Trampoline>)

  predicate PageFree(pages: seq<uint32>, page: uint32) {
    page != 0 && page + PAGE_SIZE <= TWO32 &&
    forall q :: q in pages ==> q + PAGE_SIZE <= page || page + PAGE_SIZE <= q
  }

  ghost predicate InPage(page: uint32, t: Trampoline) {
    page <= t.at && t.End() <= page + PAGE_SIZE
  }

  ghost predicate Apart(t: Trampoline, u: Trampoline) {
    t.End() <= u.at || u.End() <= t.at
  }

  /** The page in use is one of the pages; every trampoline lies inside a page, below the used mark
      where that is the page in use; trampolines do not overlap and still have their bytes. */
  ghost predicate Intact(s: Store) {
    && s.cave.Valid()
    && (s.cave.pCode != 0 ==> s.cave.pCode in s.pages)
    && (forall p :: p in s.pages ==> p + PAGE_SIZE <= TWO32)
    && (forall i, j :: 0 <= i < j < |s.pages| ==>
         s.pages[i] + PAGE_SIZE <= s.pages[j] || s.pages[j] + PAGE_SIZE <= s.pages[i])
    && (forall t :: t in s.built ==> Housed(s, t))
    && (forall i, j :: 0 <= i < j < |s.built| ==> Apart(s.built[i], s.built[j]))
  }

  ghost predicate Housed(s: Store, t: Trampoline) {
    && (exists p :: p in s.pages && InPage(p, t))
    && (s.cave.pCode != 0 && t.End() > s.cave.pCode && t.at < s.cave.pCode + PAGE_SIZE ==> t.End() <= s.cave.pCode + s.cave.uiCode)
    && t.End() <= TWO32 && s.mem[t.at..t.End()] == t.code
  }

  /** A call of cloneCode, with the page VirtualAlloc would return; or anybody writing elsewhere. */
  datatype Op = CloneCode(func: uint32, alloc: uint32, protects: seq<bool>) | Write(at: uint32, data: seq<byte>)

  /** Fresh pages overlap no earlier page, and nobody else writes into the pages. */
  predicate Allowed(s: Store, op: Op) {
    match op
    case CloneCode(_, alloc, _) => alloc == 0 || PageFree(s.pages, alloc)
    case Write(at, data) =>
      at + |data| <= TWO32 && forall p :: p in s.pages ==> at + |data| <= p || p + PAGE_SIZE <= at
  }

  function Perform(s: Store, op: Op): (r: Store)
    requires s.cave.Valid() && Allowed(s, op)
    ensures r.cave.Valid()
  {
    match op
    case Write(at, data) => s.(mem := Splice(s.mem, at, data))
    case CloneCode(func, alloc, protects) =>
      CloneEnds(s.mem, s.cave, func, alloc, protects);
      Recorded(Acquired(s, alloc), Clone(s.mem, s.cave, func, alloc, protects))
  }

  /** Obtaining a page, or keeping the one in use. */
  function Acquired(s: Store, alloc: uint32): Store
    requires s.cave.Valid() && IsPage(alloc)
  {
    Store(s.mem, Acquire(s.cave, alloc),
          if Acquire(s.cave, alloc) == s.cave || alloc == 0 then s.pages else s.pages + [alloc], s.built)
  }

  /** Taking over the outcome of a call, and noting the trampoline it finished. */
  function Recorded(s: Store, c: Cloned): Store
    requires c.trampoline != 0 ==> c.trampoline <= c.cave.pCode + c.cave.uiCode <= TWO32
  {
    Store(c.mem, c.cave, s.pages,
          if c.trampoline == 0 then s.built
          else s.built + [Trampoline(c.trampoline, c.mem[c.trampoline..c.cave.pCode + c.cave.uiCode])])
  }

  /** Where a finished trampoline starts and ends. */
  lemma CloneEnds(mem: Memory, cave: Cave, func: uint32, alloc: uint32, protects: seq<bool>)
    requires cave.Valid() && IsPage(alloc)
    ensures var (c, begin) := (Clone(mem, cave, func, alloc, protects), Acquire(cave, alloc));
            c.trampoline != 0 ==>
              begin.pCode == c.cave.pCode != 0 && c.original + CODE_PROTECT_SIZE <= TWO32 &&
              c.trampoline == begin.pCode + begin.uiCode <= c.cave.pCode + c.cave.uiCode <= TWO32
  {
    hide CopyRun, Splice, JumpBack, Resolve;
  }

  /** Where a call of cloneCode writes, successful or not: in the page it fills, behind what is used. */
  lemma CloneWrites(mem: Memory, cave: Cave, func: uint32, alloc: uint32, protects: seq<bool>)
    requires cave.Valid() && IsPage(alloc)
    ensures var c := Clone(mem, cave, func, alloc, protects);
            var begin := Acquire(cave, alloc);
            c.cave.pCode == begin.pCode && c.cave.uiCode >= begin.uiCode &&
            (c.trampoline == 0 ==> c.cave == begin) && (c.trampoline != 0 ==> begin.pCode != 0) &&
            (begin.pCode == 0 ==> c.mem == mem) &&
            (begin.pCode != 0 ==>
              AgreeOutside(mem, c.mem, [Region(begin.pCode + begin.uiCode, PAGE_SIZE - begin.uiCode)]))
  {
    hide CopyRun, Resolve, JumpBack;
    var begin := Acquire(cave, alloc);
    var region := Region(begin.pCode + begin.uiCode, PAGE_SIZE - begin.uiCode);
    assert region in [region];
    var (o, readable) := Resolve(mem, func, protects);
    if begin.pCode != 0 && readable { CopyRunWrites(mem, o, begin.pCode + begin.uiCode, 0); }
  }

  /** A trampoline outside the bytes written keeps its bytes. */
  lemma KeepsBytes(mem: Memory, mem': Memory, region: Region, t: Trampoline)
    requires AgreeOutside(mem, mem', [region]) && t.End() <= TWO32
    requires t.End() <= region.lo || region.lo + region.size <= t.at
    ensures mem'[t.at..t.End()] == mem[t.at..t.End()]
  {
    forall a | t.at <= a < t.End() ensures mem'[a] == mem[a] {
      assert Clear(a, 1, [region]);
    }
  }

  lemma WriteIntact(s: Store, at: uint32, data: seq<byte>)
    requires Intact(s) && Allowed(s, Write(at, data))
    ensures Intact(Perform(s, Write(at, data)))
  {
    hide Clone, Acquire, Splice;
    var s' := Perform(s, Write(at, data));
    var region := Region(at, |data|);
    SpliceAgrees(s.mem, at, data);
    forall t | t in s'.built ensures Housed(s', t) {
      var p :| p in s.pages && InPage(p, t);
      KeepsBytes(s.mem, s'.mem, region, t);
      assert p in s'.pages;
    }
  }

  lemma SpliceAgrees(mem: Memory, at: uint32, data: seq<byte>)
    requires at + |data| <= TWO32
    ensures AgreeOutside(mem, Splice(mem, at, data), [Region(at, |data|)])
  {
    assert Region(at, |data|) in [Region(at, |data|)];
  }

  lemma AcquireIntact(s: Store, alloc: uint32)
    requires Intact(s) && (alloc == 0 || PageFree(s.pages, alloc))
    ensures Intact(Acquired(s, alloc))
  {
    var s' := Acquired(s, alloc);
    forall t | t in s'.built ensures Housed(s', t) {
      assert Housed(s, t);
      var p :| p in s.pages && InPage(p, t);
      assert p in s'.pages;
    }
    if s'.pages != s.pages {
      forall i, j | 0 <= i < j < |s'.pages|
        ensures s'.pages[i] + PAGE_SIZE <= s'.pages[j] || s'.pages[j] + PAGE_SIZE <= s'.pages[i]
      {
        assert s'.pages[i] in s.pages;
      }
    }
  }

  /** Trampolines end below the used mark of the page in use, or lie outside that page. */
  lemma HousedOutside(s: Store, t: Trampoline)
    requires Intact(s) && t in s.built && s.cave.pCode != 0
    ensures t.End() <= s.cave.pCode + s.cave.uiCode || s.cave.pCode + PAGE_SIZE <= t.at
  {
    assert Housed(s, t);
  }

  /** Filling the page behind the used mark, and possibly moving the mark, keeps everything built. */
  lemma FillIntact(s: Store, mem': Memory, used: nat)
    requires Intact(s) && s.cave.pCode != 0 && s.cave.uiCode <= used <= 4021
    requires AgreeOutside(s.mem, mem', [Region(s.cave.pCode + s.cave.uiCode, PAGE_SIZE - s.cave.uiCode)])
    ensures Intact(Store(mem', Cave(s.cave.pCode, used), s.pages, s.built))
  {
    hide AgreeOutside;
    var s' := Store(mem', Cave(s.cave.pCode, used), s.pages, s.built);
    var region := Region(s.cave.pCode + s.cave.uiCode, PAGE_SIZE - s.cave.uiCode);
    forall t | t in s'.built ensures Housed(s', t) {
      assert Housed(s, t);
      var p :| p in s.pages && InPage(p, t);
      HousedOutside(s, t);
      KeepsBytes(s.mem, mem', region, t);
      assert p in s'.pages;
    }
  }

  /** Recording a trampoline that ends at the used mark and starts at or above the former one. */
  lemma RecordIntact(s: Store, before: Store, t: Trampoline)
    requires Intact(s) && Intact(before) && s.built == before.built && s.cave.pCode == before.cave.pCode != 0
    requires before.cave.pCode + before.cave.uiCode <= t.at && t.End() == s.cave.pCode + s.cave.uiCode
    requires t.code == s.mem[t.at..t.End()]
    ensures Intact(s.(built := s.built + [t]))
  {
    var s' := s.(built := s.built + [t]);
    forall u | u in s'.built ensures Housed(s', u) {
      if u in s.built {
        assert Housed(s, u);
        var p :| p in s.pages && InPage(p, u);
        assert p in s'.pages;
      } else {
        assert s.cave.pCode in s'.pages && InPage(s.cave.pCode, u);
      }
    }
    forall i, j | 0 <= i < j < |s'.built| ensures Apart(s'.built[i], s'.built[j]) {
      if j == |s.built| {
        HousedOutside(before, s.built[i]);
      }
    }
  }

  /** One call of cloneCode, successful or not, or one write elsewhere: the invariant holds again,
      and everything built before is still there, byte for byte. */
  lemma PerformIntact(s: Store, op: Op)
    requires Intact(s) && Allowed(s, op)
    ensures Intact(Perform(s, op)) && s.built <= Perform(s, op).built
  {
    match op
    case Write(at, data) => WriteIntact(s, at, data);
    case CloneCode(func, alloc, protects) => CloneIntact(s, func, alloc, protects);
  }

  lemma CloneIntact(s: Store, func: uint32, alloc: uint32, protects: seq<bool>)
    requires Intact(s) && s.cave.Valid() && (alloc == 0 || PageFree(s.pages, alloc))
    ensures var s' := Perform(s, CloneCode(func, alloc, protects)); Intact(s') && s.built <= s'.built
  {
    hide Intact, AgreeOutside, Acquire, Clone, Cave.Valid, PageFree, Recorded;
    assert IsPage(alloc) by { FreeIsPage(s.pages, alloc); }
    AcquireIntact(s, alloc);
    CloneWrites(s.mem, s.cave, func, alloc, protects);
    CloneEnds(s.mem, s.cave, func, alloc, protects);
    var c := Clone(s.mem, s.cave, func, alloc, protects);
    RecordedIntact(Acquired(s, alloc), c);
  }

  lemma FreeIsPage(pages: seq<uint32>, alloc: uint32)
    requires alloc == 0 || PageFree(pages, alloc)
    ensures IsPage(alloc)
  {
  }

  lemma RecordedIntact(begin: Store, c: Cloned)
    requires Intact(begin) && c.cave.Valid()
    requires c.trampoline != 0 ==> c.trampoline <= c.cave.pCode + c.cave.uiCode <= TWO32
    requires c.cave.pCode == begin.cave.pCode && c.cave.uiCode >= begin.cave.uiCode
    requires if c.trampoline == 0 then c.cave == begin.cave else c.trampoline == begin.cave.pCode + begin.cave.uiCode && c.cave.pCode != 0
    requires if c.cave.pCode == 0 then c.mem == begin.mem
             else AgreeOutside(begin.mem, c.mem, [Region(begin.cave.pCode + begin.cave.uiCode, PAGE_SIZE - begin.cave.uiCode)])
    ensures Intact(Recorded(begin, c)) && begin.built <= Recorded(begin, c).built
  {
    hide Intact, AgreeOutside;
    if c.cave.pCode != 0 {
      FillIntact(begin, c.mem, c.cave.uiCode);
      if c.trampoline != 0 {
        RecordIntact(Store(c.mem, c.cave, begin.pages, begin.built), begin,
                     Trampoline(c.trampoline, c.mem[c.trampoline..c.cave.pCode + c.cave.uiCode]));
      }
    }
  }

  ghost predicate AllAllowed(s: Store, ops: seq<Op>)
    requires s.cave.Valid()
    decreases |ops|
  {
    ops != [] ==> Allowed(s, ops[0]) && AllAllowed(Perform(s, ops[0]), ops[1..])
  }

  function PerformAll(s: Store, ops: seq<Op>): (r: Store)
    requires s.cave.Valid() && AllAllowed(s, ops)
    decreases |ops|
  {
    if ops == [] then s else PerformAll(Perform(s, ops[0]), ops[1..])
  }

  /** Runs begin without pages and trampolines. */
  lemma EmptyIsIntact(mem: Memory)
    ensures Intact(Store(mem, Cave(0, 0), [], []))
  {
  }

  /** Allocator safety over any run: every finished trampoline lies inside a page of its own 4096
      bytes, none overlap, and no later call, failed ones included, changes an earlier one. */
  lemma {:induction false} TrampolinesSafe(s: Store, ops: seq<Op>)
    requires Intact(s) && AllAllowed(s, ops)
    ensures Intact(PerformAll(s, ops)) && s.built <= PerformAll(s, ops).built
    decreases |ops|
  {
    hide Perform, Allowed;
    if ops != [] {
      PerformIntact(s, ops[0]);
      TrampolinesSafe(Perform(s, ops[0]), ops[1..]);
    }
  }
}
