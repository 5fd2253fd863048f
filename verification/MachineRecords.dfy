/**
 What a run records, read off the program: which cells it reads and writes, in which order and under
 which stack depth. Like the footprint, this depends on no value, except that a sum which a checking
 build refuses costs the record of its write. How many records there are follows.
 */
module MachineRecords {
  import opened Powers
  import opened Records
  import opened ByteMemory
  import opened MachineSteps
  import opened MachineFootprints

  /** What a record says besides its time and its value. */
  datatype CellAccess = CellAccess(instruction: MemoryInstruction, cell: nat, depth: nat)

  function AccessOf(r: TraceRecord): CellAccess {
    CellAccess(r.instruction, r.address, r.stackDepth)
  }

  function AccessesOf(trace: seq<TraceRecord>): (accesses: seq<CellAccess>)
    ensures |accesses| == |trace| && forall i :: 0 <= i < |trace| ==> accesses[i] == AccessOf(trace[i])
  {
    seq(|trace|, i requires 0 <= i < |trace| => AccessOf(trace[i]))
  }

  /** The one or two cells of an access under a depth. */
  function Spanned(sp: AddressSpace, instruction: MemoryInstruction, address: nat, depth: nat): seq<CellAccess>
    requires sp.word > 0
  {
    var lo := CellStart(sp.word, address);
    if address % sp.word == 0 then [CellAccess(instruction, address, depth)]
    else [CellAccess(instruction, lo, depth), CellAccess(instruction, sp.NextCell(lo), depth)]
  }

  /** ... or none, where the address of the second overflows. */
  function Touched(m: Settings, instruction: MemoryInstruction, address: nat, depth: nat): seq<CellAccess>
    requires m.config.wordSize > 0
  {
    if Overflows(m, address) then [] else Spanned(m.Space(), instruction, address, depth)
  }

  /** A push to depth d + 1: the slot is the d-th word of the space. */
  function Pushing(m: Settings, d: nat): seq<CellAccess> {
    [CellAccess(MemoryInstruction.Write, d * m.config.wordSize, d + 1)]
  }

  /** A pop to depth d. */
  function Popping(m: Settings, d: nat): seq<CellAccess> {
    [CellAccess(MemoryInstruction.Read, d * m.config.wordSize, d)]
  }

  /** A swap: a pop, and once the register was read from one cell a push and a write under the old depth. */
  function Swapping(m: Settings, d: nat, r: Register): seq<CellAccess>
    requires m.config.wordSize > 0
  {
    Popping(m, d) + Touched(m, MemoryInstruction.Read, r.address, d)
    + if InOneCell(m, r) then Pushing(m, d) + [CellAccess(MemoryInstruction.Write, r.address, d + 1)] else []
  }

  function Copying(m: Settings, from: nat, to: nat, depth: nat): seq<CellAccess>
    requires m.config.wordSize > 0
  {
    Touched(m, MemoryInstruction.Read, from, depth) + Touched(m, MemoryInstruction.Write, to, depth)
  }

  function Adding(m: Settings, r: Register, o: Register, depth: nat, refused: bool): seq<CellAccess>
    requires m.config.wordSize > 0
  {
    Touched(m, MemoryInstruction.Read, r.address, depth)
    + if !InOneCell(m, r) then []
      else
        Touched(m, MemoryInstruction.Read, o.address, depth)
        + if InOneCell(m, o) && !refused then [CellAccess(MemoryInstruction.Write, r.address, depth)] else []
  }

  /** What one instruction records at the given depth; `refused` is about an addition's sum. */
  function StepAccesses(m: Settings, depth: nat, op: Operation, refused: bool): seq<CellAccess>
    requires m.config.wordSize > 0
  {
    match op
    case ReadOp(a) => if m.config.memory.Contain(a) then Touched(m, MemoryInstruction.Read, a, depth) else []
    case WriteOp(a, _) => if m.config.memory.Contain(a) then Touched(m, MemoryInstruction.Write, a, depth) else []
    case PushOp(_) => if depth < m.config.stackDepth then Pushing(m, depth) else []
    case PopOp => if depth > 0 then Popping(m, depth - 1) else []
    case MovOp(to, from) =>
      if InOneCell(m, from) then Copying(m, from.address, to.address, depth)
      else Touched(m, MemoryInstruction.Read, from.address, depth)
    case SwapOp(r) => if depth > 0 then Swapping(m, depth - 1, r) else []
    case LoadOp(r, a) => if Overflows(m, a) then [] else Copying(m, a, r.address, depth)
    case SaveOp(a, r) =>
      if InOneCell(m, r) then Copying(m, r.address, a, depth)
      else Touched(m, MemoryInstruction.Read, r.address, depth)
    case InvalidOp => []
    case AddOp(r, o) => Adding(m, r, o, depth, refused)
  }

  predicate IsRefusedSum(output: Output) {
    output == Failed(AdditionOverflow)
  }

  /** What a program records, given which of its sums were refused. */
  function ProgramAccesses(m: Settings, program: seq<Operation>, outputs: seq<Output>): seq<CellAccess>
    requires m.config.wordSize > 0 && |outputs| == |program|
  {
    if program == [] then []
    else
      var n := |program| - 1;
      ProgramAccesses(m, program[..n], outputs[..n])
      + StepAccesses(m, DepthOf(m, program[..n]), program[n], IsRefusedSum(outputs[n]))
  }

  // ---------------------------------------------------------------------------------
  // One access

  lemma ReadIsAccess(sp: AddressSpace, s: State, address: nat)
    requires sp.word > 0
    ensures AccessesOf(AfterRead(sp, s, address).trace)
      == AccessesOf(s.trace) + Spanned(sp, MemoryInstruction.Read, address, s.depth)
  {
    hide CellAt;
  }

  lemma WriteIsAccess(sp: AddressSpace, s: State, address: nat, value: nat)
    requires sp.word > 0
    ensures AccessesOf(AfterWrite(sp, s, address, value).trace)
      == AccessesOf(s.trace) + Spanned(sp, MemoryInstruction.Write, address, s.depth)
  {
    hide LowBytes, HighBytes;
  }

  lemma PutIsAccess(m: Settings, s: State, address: nat, value: nat)
    requires m.config.wordSize > 0
    ensures AccessesOf(PutTo(m, s, address, value).0.trace)
      == AccessesOf(s.trace) + Touched(m, MemoryInstruction.Write, address, s.depth)
    ensures !IsRefusedSum(PutTo(m, s, address, value).1)
  {
    hide AfterWrite, Spanned;
    WriteIsAccess(m.Space(), s, address, value);
  }

  lemma SlotIsAligned(word: nat, d: nat)
    requires word > 0
    ensures (d * word) % word == 0
  {
    DivisionIsUnique(d * word, word, d, 0);
  }

  lemma PushIsAccess(m: Settings, s: State, value: nat)
    requires m.config.wordSize > 0
    ensures AccessesOf(AfterPush(m.Space(), s, value).trace) == AccessesOf(s.trace) + Pushing(m, s.depth)
    ensures AfterPush(m.Space(), s, value).depth == s.depth + 1
  {
    hide AfterWrite;
    SlotIsAligned(m.config.wordSize, s.depth);
    WriteIsAccess(m.Space(), s.(depth := s.depth + 1), s.depth * m.config.wordSize, value);
    AccessMemory(m.Space(), s.(depth := s.depth + 1), s.depth * m.config.wordSize, value);
  }

  lemma PopIsAccess(m: Settings, s: State)
    requires m.config.wordSize > 0 && s.depth > 0
    ensures AccessesOf(AfterPop(m.Space(), s).trace) == AccessesOf(s.trace) + Popping(m, s.depth - 1)
    ensures AfterPop(m.Space(), s).depth == s.depth - 1
  {
    hide AfterRead;
    SlotIsAligned(m.config.wordSize, s.depth - 1);
    ReadIsAccess(m.Space(), s.(depth := s.depth - 1), (s.depth - 1) * m.config.wordSize);
    AccessMemory(m.Space(), s.(depth := s.depth - 1), (s.depth - 1) * m.config.wordSize, 0);
  }

  // ---------------------------------------------------------------------------------
  // One instruction

  lemma CopyIsAccess(m: Settings, s: State, from: nat, to: nat, value: nat)
    requires m.config.wordSize > 0 && !Overflows(m, from)
    ensures AccessesOf(PutTo(m, AfterRead(m.Space(), s, from), to, value).0.trace)
      == AccessesOf(s.trace) + Copying(m, from, to, s.depth)
  {
    hide AfterRead, PutTo, Spanned;
    ReadIsAccess(m.Space(), s, from);
    AccessMemory(m.Space(), s, from, 0);
    PutIsAccess(m, AfterRead(m.Space(), s, from), to, value);
  }

  lemma SwapWithIsAccess(m: Settings, s: State, r: Register, top: nat)
    requires m.config.wordSize > 0
    ensures AccessesOf(SwapWith(m, s, r, top).0.trace)
      == AccessesOf(s.trace) + Touched(m, MemoryInstruction.Read, r.address, s.depth)
         + if InOneCell(m, r) then Pushing(m, s.depth) + [CellAccess(MemoryInstruction.Write, r.address, s.depth + 1)] else []
    ensures !IsRefusedSum(SwapWith(m, s, r, top).1)
  {
    hide AfterRead, AfterPush, AfterWrite, ReadValue, AccessesOf;
    var read, value := AfterRead(m.Space(), s, r.address), ReadValue(s.memory, m.Space(), r.address);
    ReadIsAccess(m.Space(), s, r.address);
    AccessMemory(m.Space(), s, r.address, 0);
    PushIsAccess(m, read, value);
    WriteIsAccess(m.Space(), AfterPush(m.Space(), read, value), r.address, top);
  }

  lemma SwapIsAccess(m: Settings, s: State, r: Register)
    requires m.config.wordSize > 0 && s.depth > 0
    ensures AccessesOf(StepSwap(m, s, r).0.trace) == AccessesOf(s.trace) + Swapping(m, s.depth - 1, r)
    ensures !IsRefusedSum(StepSwap(m, s, r).1)
  {
    hide AfterPop, SwapWith, Touched, Top, AccessesOf;
    PopIsAccess(m, s);
    SwapWithIsAccess(m, AfterPop(m.Space(), s), r, Top(m.Space(), s));
  }

  lemma AddToIsAccess(m: Settings, s: State, r: Register, a: nat, b: nat)
    requires m.config.wordSize > 0 && InOneCell(m, r)
    ensures var (after, output) := AddTo(m, s, r.address, a, b);
      AccessesOf(after.trace) == AccessesOf(s.trace)
        + if IsRefusedSum(output) then [] else [CellAccess(MemoryInstruction.Write, r.address, s.depth)]
  {
    hide PutTo, Sum, AccessesOf;
    var sum := Sum(m, a, b);
    if sum.Some? {
      PutIsAccess(m, s, r.address, sum.value);
    }
  }

  lemma AddIsAccess(m: Settings, s: State, r: Register, o: Register)
    requires m.config.wordSize > 0
    ensures var (after, output) := StepAdd(m, s, r, o);
      AccessesOf(after.trace) == AccessesOf(s.trace) + Adding(m, r, o, s.depth, IsRefusedSum(output))
    ensures IsRefusedSum(StepAdd(m, s, r, o).1) ==> InOneCell(m, r) && InOneCell(m, o)
  {
    hide AfterRead, AddTo, ReadValue, AccessesOf, Spanned;
    var first := AfterRead(m.Space(), s, r.address);
    ReadIsAccess(m.Space(), s, r.address);
    AccessMemory(m.Space(), s, r.address, 0);
    ReadIsAccess(m.Space(), first, o.address);
    AccessMemory(m.Space(), first, o.address, 0);
    if InOneCell(m, r) {
      AddToIsAccess(m, AfterRead(m.Space(), first, o.address), r, ReadValue(s.memory, m.Space(), r.address),
                    ReadValue(s.memory, m.Space(), o.address));
    }
  }

  /** Both a move and a save read a register and put its value somewhere, if it lies in one cell. */
  lemma MovIsAccess(m: Settings, s: State, from: Register, to: nat)
    requires m.config.wordSize > 0 && !Overflows(m, from.address)
    ensures var read := AfterRead(m.Space(), s, from.address);
      && AccessesOf(PutTo(m, read, to, ReadValue(s.memory, m.Space(), from.address)).0.trace)
         == AccessesOf(s.trace) + Copying(m, from.address, to, s.depth)
      && AccessesOf(read.trace) == AccessesOf(s.trace) + Touched(m, MemoryInstruction.Read, from.address, s.depth)
  {
    hide AfterRead, PutTo, Spanned, AccessesOf, ReadValue;
    CopyIsAccess(m, s, from.address, to, ReadValue(s.memory, m.Space(), from.address));
    ReadIsAccess(m.Space(), s, from.address);
  }

  /** An instruction adds its accesses to the trace. */
  lemma StepRecords(m: Settings, s: State, op: Operation)
    requires m.config.wordSize > 0 && s.depth <= m.config.stackDepth
    ensures var (after, output) := Step(m, s, op);
      AccessesOf(after.trace) == AccessesOf(s.trace) + StepAccesses(m, s.depth, op, IsRefusedSum(output))
  {
    hide AfterRead, AfterPush, AfterPop, PutTo, SwapWith, ReadValue, Top, StepAdd, Spanned, AccessesOf, Swapping, Adding, Copying;
    var sp := m.Space();
    match op
    case ReadOp(a) => ReadIsAccess(sp, s, a);
    case WriteOp(a, x) => PutIsAccess(m, s, a, x);
    case PushOp(x) => PushIsAccess(m, s, x);
    case PopOp => if s.depth > 0 { PopIsAccess(m, s); }
    case MovOp(to, from) => if !Overflows(m, from.address) { MovIsAccess(m, s, from, to.address); }
    case SwapOp(r) => if s.depth > 0 { SwapIsAccess(m, s, r); }
    case LoadOp(r, a) => if !Overflows(m, a) { CopyIsAccess(m, s, a, r.address, ReadValue(s.memory, sp, a)); }
    case SaveOp(a, r) => if !Overflows(m, r.address) { MovIsAccess(m, s, r, a); }
    case InvalidOp =>
    case AddOp(r, o) => AddIsAccess(m, s, r, o);
  }
  // ---------------------------------------------------------------------------------
  // Whole runs

  lemma {:induction false} OneOutputEach(m: Settings, s: State, program: seq<Operation>)
    requires m.config.wordSize > 0
    ensures |Run(m, s, program).1| == |program|
  {
    if program != [] {
      OneOutputEach(m, s, program[..|program| - 1]);
    }
  }

  /** What a fresh run recorded, and in which order, is what its program says. */
  lemma {:induction false} RunRecords(m: Settings, program: seq<Operation>)
    requires m.config.wordSize > 0
    ensures |Run(m, EMPTY, program).1| == |program|
    ensures AccessesOf(Run(m, EMPTY, program).0.trace) == ProgramAccesses(m, program, Run(m, EMPTY, program).1)
  {
    OneOutputEach(m, EMPTY, program);
    if program != [] {
      hide Step, StepAccesses, DepthOf;
      var n := |program| - 1;
      RunRecords(m, program[..n]);
      RunIsClean(m, program[..n]);
      OneOutputEach(m, EMPTY, program[..n]);
      var (before, outputs) := Run(m, EMPTY, program[..n]);
      StepRecords(m, before, program[n]);
      assert Run(m, EMPTY, program).1[..n] == outputs;
    }
  }

  // ---------------------------------------------------------------------------------
  // The stack depth

  /** The pushes among the outputs: those of push instructions, and the one inside a swap with a one-cell register. */
  predicate IsPush(m: Settings, op: Operation, output: Output)
    requires m.config.wordSize > 0
  {
    output == Done && (op.PushOp? || (op.SwapOp? && InOneCell(m, op.register)))
  }

  /** The pops: those of pop instructions, and the one every swap starts with. */
  predicate IsPop(op: Operation, output: Output) {
    output != Failed(StackUnderflow) && (op.PopOp? || op.SwapOp?)
  }

  function Pushes(m: Settings, program: seq<Operation>, outputs: seq<Output>): nat
    requires m.config.wordSize > 0 && |outputs| == |program|
  {
    if program == [] then 0
    else
      var n := |program| - 1;
      Pushes(m, program[..n], outputs[..n]) + if IsPush(m, program[n], outputs[n]) then 1 else 0
  }

  function Pops(program: seq<Operation>, outputs: seq<Output>): nat
    requires |outputs| == |program|
  {
    if program == [] then 0
    else
      var n := |program| - 1;
      Pops(program[..n], outputs[..n]) + if IsPop(program[n], outputs[n]) then 1 else 0
  }

  lemma StepBalance(m: Settings, s: State, op: Operation)
    requires m.config.wordSize > 0 && s.depth <= m.config.stackDepth
    ensures var output := Step(m, s, op).1;
      DepthAfter(m, s.depth, op) + (if IsPop(op, output) then 1 else 0)
        == s.depth + if IsPush(m, op, output) then 1 else 0
  {
    hide AfterRead, AfterWrite, AfterPush, AfterPop, ReadValue, Top;
  }

  /** The depth in force, before any instruction of a run, is the pushes so far less the pops. */
  lemma {:induction false} DepthIsBalance(m: Settings, program: seq<Operation>)
    requires m.config.wordSize > 0
    ensures |Run(m, EMPTY, program).1| == |program|
    ensures var (after, outputs) := Run(m, EMPTY, program);
      after.depth == DepthOf(m, program) && DepthOf(m, program) + Pops(program, outputs) == Pushes(m, program, outputs)
  {
    OneOutputEach(m, EMPTY, program);
    RunIsClean(m, program);
    if program != [] {
      hide Step, DepthAfter, IsPush, IsPop;
      var n := |program| - 1;
      DepthIsBalance(m, program[..n]);
      OneOutputEach(m, EMPTY, program[..n]);
      var (before, outputs) := Run(m, EMPTY, program[..n]);
      StepBalance(m, before, program[n]);
      assert Run(m, EMPTY, program).1[..n] == outputs;
    }
  }

  // ---------------------------------------------------------------------------------
  // How many records there are

  /** The records of one instruction, when its sum is not refused. */
  function StepCount(m: Settings, depth: nat, op: Operation): nat
    requires m.config.wordSize > 0
  {
    |StepAccesses(m, depth, op, false)|
  }

  function ProgramCount(m: Settings, program: seq<Operation>): nat
    requires m.config.wordSize > 0
  {
    if program == [] then 0
    else
      var front := program[..|program| - 1];
      ProgramCount(m, front) + StepCount(m, DepthOf(m, front), program[|program| - 1])
  }

  function RefusedSums(outputs: seq<Output>): nat {
    if outputs == [] then 0
    else RefusedSums(outputs[..|outputs| - 1]) + if IsRefusedSum(outputs[|outputs| - 1]) then 1 else 0
  }

  lemma OnlySumsAreRefused(m: Settings, s: State, op: Operation)
    requires m.config.wordSize > 0 && IsRefusedSum(Step(m, s, op).1)
    ensures !m.wraps && op.AddOp? && InOneCell(m, op.register) && InOneCell(m, op.other)
  {
    hide AfterRead, AfterWrite, AfterPush, AfterPop, ReadValue, Top;
  }

  /** An instruction leaves its count of records, less one for a refused sum. */
  lemma StepCounts(m: Settings, s: State, op: Operation)
    requires m.config.wordSize > 0 && s.depth <= m.config.stackDepth
    ensures var (after, output) := Step(m, s, op);
      |after.trace| + (if IsRefusedSum(output) then 1 else 0) == |s.trace| + StepCount(m, s.depth, op)
  {
    hide Step, Touched;
    StepRecords(m, s, op);
    if IsRefusedSum(Step(m, s, op).1) {
      OnlySumsAreRefused(m, s, op);
    }
  }

  /** The length of a fresh run's trace is the count of its program, less the sums it refused. */
  lemma {:induction false} RunCounts(m: Settings, program: seq<Operation>)
    requires m.config.wordSize > 0
    ensures var (after, outputs) := Run(m, EMPTY, program);
      |after.trace| + RefusedSums(outputs) == ProgramCount(m, program)
  {
    if program != [] {
      hide Step, StepCount, DepthOf;
      var front := program[..|program| - 1];
      var (before, outputs) := Run(m, EMPTY, front);
      var (_, output) := Step(m, before, program[|program| - 1]);
      RunCounts(m, front);
      RunIsClean(m, front);
      assert (outputs + [output])[..|outputs|] == outputs;
      StepCounts(m, before, program[|program| - 1]);
    }
  }

  /** A wrapping build refuses no sum, and neither does a program without additions. */
  lemma {:induction false} NothingRefused(m: Settings, program: seq<Operation>)
    requires m.config.wordSize > 0 && (m.wraps || forall i :: 0 <= i < |program| ==> !program[i].AddOp?)
    ensures RefusedSums(Run(m, EMPTY, program).1) == 0
  {
    if program != [] {
      hide Step;
      var front := program[..|program| - 1];
      var (before, outputs) := Run(m, EMPTY, front);
      var (_, output) := Step(m, before, program[|program| - 1]);
      NothingRefused(m, front);
      assert (outputs + [output])[..|outputs|] == outputs;
      if IsRefusedSum(output) {
        OnlySumsAreRefused(m, before, program[|program| - 1]);
      }
    }
  }
}
