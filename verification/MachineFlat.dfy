/**
 The machine refines a flat byte array with a stack depth: every program, in either layout and
 with unchecked loads and saves, reads and writes one zero-initialised array. The array is
 circular, for the builds in which an access may run over the end of the address space.
 */
module MachineFlat {
  import opened Limbs
  import opened ByteMemory
  import opened MachineSteps

  /** The writes so far, oldest first, and the stack depth. */
  datatype Flat = Flat(written: seq<(nat, nat)>, depth: nat)

  function FlatWrite(f: Flat, address: nat, value: nat): Flat {
    f.(written := f.written + [(address, value)])
  }

  function FlatPut(m: Settings, f: Flat, address: nat, value: nat): (Flat, Output)
    requires m.config.wordSize > 0
  {
    if Overflows(m, address) then (f, Failed(AddressOverflow)) else (FlatWrite(f, address, value), Done)
  }

  /** What an instruction means on the array. */
  function StepFlat(m: Settings, f: Flat, op: Operation): (Flat, Output)
    requires m.config.wordSize > 0
  {
    var word := m.config.wordSize;
    match op
    case ReadOp(a) =>
      if !m.config.memory.Contain(a) then (f, Failed(MemoryAccessDenied))
      else if Overflows(m, a) then (f, Failed(AddressOverflow))
      else (f, Value(FlatValue(f.written, m.Space(), a)))
    case WriteOp(a, x) => if m.config.memory.Contain(a) then FlatPut(m, f, a, x) else (f, Failed(MemoryAccessDenied))
    case PushOp(x) =>
      if f.depth == m.config.stackDepth then (f, Failed(StackOverflow))
      else (FlatWrite(f, f.depth * word, x).(depth := f.depth + 1), Done)
    case PopOp =>
      if f.depth == 0 then (f, Failed(StackUnderflow))
      else (f.(depth := f.depth - 1), Value(FlatTop(m, f)))
    case MovOp(to, from) => FlatCopy(m, f, from, to.address)
    case SwapOp(r) =>
      if f.depth == 0 then (f, Failed(StackUnderflow)) else FlatSwap(m, f.(depth := f.depth - 1), r, FlatTop(m, f))
    case LoadOp(r, a) =>
      if Overflows(m, a) then (f, Failed(AddressOverflow)) else FlatPut(m, f, r.address, FlatValue(f.written, m.Space(), a))
    case SaveOp(a, r) => FlatCopy(m, f, r, a)
    case InvalidOp => (f, Failed(InvalidInstruction))
    case AddOp(r, o) => FlatAdd(m, f, r, o)
  }

  function FlatTop(m: Settings, f: Flat): nat
    requires f.depth > 0
  {
    FlatValue(f.written, m.Space(), (f.depth - 1) * m.config.wordSize)
  }

  /** A register's value goes to an address, if the register lies in one cell. */
  function FlatCopy(m: Settings, f: Flat, from: Register, to: nat): (Flat, Output)
    requires m.config.wordSize > 0
  {
    if Overflows(m, from.address) then (f, Failed(AddressOverflow))
    else if from.address % m.config.wordSize != 0 then (f, Failed(RegisterInTwoCells))
    else FlatPut(m, f, to, FlatValue(f.written, m.Space(), from.address))
  }

  /** The popped top and the register exchange; a register across two cells only costs the top. */
  function FlatSwap(m: Settings, f: Flat, r: Register, top: nat): (Flat, Output)
    requires m.config.wordSize > 0
  {
    if Overflows(m, r.address) then (f, Failed(AddressOverflow))
    else if r.address % m.config.wordSize != 0 then (f, Done)
    else
      var pushed := FlatWrite(f, f.depth * m.config.wordSize, FlatValue(f.written, m.Space(), r.address));
      (FlatWrite(pushed.(depth := f.depth + 1), r.address, top), Done)
  }

  function FlatAdd(m: Settings, f: Flat, r: Register, o: Register): (Flat, Output)
    requires m.config.wordSize > 0
  {
    var word := m.config.wordSize;
    if Overflows(m, r.address) then (f, Failed(AddressOverflow))
    else if r.address % word != 0 then (f, Failed(RegisterInTwoCells))
    else if Overflows(m, o.address) then (f, Failed(AddressOverflow))
    else if o.address % word != 0 then (f, Failed(RegisterInTwoCells))
    else
      var sum := Sum(m, FlatValue(f.written, m.Space(), r.address), FlatValue(f.written, m.Space(), o.address));
      if sum.None? then (f, Failed(AdditionOverflow)) else FlatPut(m, f, r.address, sum.value)
  }

  function RunFlatProgram(m: Settings, program: seq<Operation>): (Flat, seq<Output>)
    requires m.config.wordSize > 0
  {
    if program == [] then (Flat([], 0), [])
    else
      var (before, outputs) := RunFlatProgram(m, program[..|program| - 1]);
      var (after, output) := StepFlat(m, before, program[|program| - 1]);
      (after, outputs + [output])
  }

  ghost predicate OnFlat(m: Settings, s: State, f: Flat) {
    && StackFits(m) && WellFormed(s.memory, m.config.wordSize)
    && s.depth == f.depth <= m.config.stackDepth
    && Represents(s.memory, m.Space(), ALL_BYTES, f.written)
  }

  lemma FlatReads(m: Settings, s: State, f: Flat, address: nat)
    requires OnFlat(m, s, f) && address < m.limit
    ensures OnFlat(m, AfterRead(m.Space(), s, address), f)
    ensures AfterRead(m.Space(), s, address).memory == s.memory
    ensures ReadValue(s.memory, m.Space(), address) == FlatValue(f.written, m.Space(), address)
    ensures ReadValue(s.memory, m.Space(), address) < Pow256(m.config.wordSize)
  {
    hide AfterRead, AfterWrite, ReadValue, WriteValue, FlatValue, WellFormed, Represents, Pow256;
    AccessMemory(m.Space(), s, address, 0);
    ReadRefines(s.memory, m.Space(), ALL_BYTES, f.written, address);
    ReadReturnsBytes(s.memory, m.Space(), address, 0);
  }

  lemma FlatWrites(m: Settings, s: State, f: Flat, address: nat, value: nat)
    requires OnFlat(m, s, f) && address < m.limit && value < Pow256(m.config.wordSize)
    ensures OnFlat(m, AfterWrite(m.Space(), s, address, value), FlatWrite(f, address, value))
  {
    hide AfterRead, AfterWrite, WriteValue, WellFormed, Represents, Pow256;
    AccessMemory(m.Space(), s, address, value);
    WriteKeepsWellFormed(s.memory, m.Space(), address, value);
    WriteRefines(s.memory, m.Space(), ALL_BYTES, f.written, address, value);
  }

  lemma FlatPuts(m: Settings, s: State, f: Flat, address: nat, value: nat)
    requires OnFlat(m, s, f) && address < m.limit && value < Pow256(m.config.wordSize)
    ensures OnFlat(m, PutTo(m, s, address, value).0, FlatPut(m, f, address, value).0)
    ensures PutTo(m, s, address, value).1 == FlatPut(m, f, address, value).1
  {
    hide OnFlat, AfterWrite, FlatWrite, Pow256;
    FlatWrites(m, s, f, address, value);
  }

  /** Reading an address and writing its value elsewhere. */
  lemma FlatCopies(m: Settings, s: State, f: Flat, from: nat, to: nat)
    requires StackFits(m) && OnFlat(m, s, f) && from < m.limit && to < m.limit
    ensures var read, value := AfterRead(m.Space(), s, from), ReadValue(s.memory, m.Space(), from);
      && OnFlat(m, read, f) && value == FlatValue(f.written, m.Space(), from)
      && OnFlat(m, PutTo(m, read, to, value).0, FlatPut(m, f, to, value).0)
      && PutTo(m, read, to, value).1 == FlatPut(m, f, to, value).1
  {
    hide OnFlat, AfterRead, PutTo, FlatPut, ReadValue, FlatValue, Pow256;
    FlatReads(m, s, f, from);
    FlatPuts(m, AfterRead(m.Space(), s, from), f, to, ReadValue(s.memory, m.Space(), from));
  }

  lemma FlatPushes(m: Settings, s: State, f: Flat, value: nat)
    requires OnFlat(m, s, f) && s.depth < m.config.stackDepth && value < Pow256(m.config.wordSize)
    ensures OnFlat(m, AfterPush(m.Space(), s, value), FlatWrite(f, f.depth * m.config.wordSize, value).(depth := f.depth + 1))
  {
    hide AfterWrite, Represents, WellFormed, Pow256;
    SlotInSpace(m, s.depth);
    FlatWrites(m, s.(depth := s.depth + 1), f.(depth := f.depth + 1), s.depth * m.config.wordSize, value);
  }

  lemma FlatPops(m: Settings, s: State, f: Flat)
    requires OnFlat(m, s, f) && s.depth > 0
    ensures OnFlat(m, AfterPop(m.Space(), s), f.(depth := f.depth - 1))
    ensures AfterPop(m.Space(), s).memory == s.memory
    ensures Top(m.Space(), s) == FlatTop(m, f) < Pow256(m.config.wordSize)
  {
    hide AfterRead, ReadValue, FlatValue, Represents, WellFormed, Pow256;
    SlotInSpace(m, s.depth - 1);
    FlatReads(m, s.(depth := s.depth - 1), f.(depth := f.depth - 1), (s.depth - 1) * m.config.wordSize);
  }

  lemma FlatSwaps(m: Settings, s: State, f: Flat, r: Register, top: nat)
    requires OnFlat(m, s, f) && s.depth < m.config.stackDepth && r.address < m.limit && top < Pow256(m.config.wordSize)
    ensures OnFlat(m, SwapWith(m, s, r, top).0, FlatSwap(m, f, r, top).0)
    ensures SwapWith(m, s, r, top).1 == FlatSwap(m, f, r, top).1
  {
    hide AfterRead, AfterWrite, AfterPush, ReadValue, FlatValue, Represents, WellFormed, Pow256;
    var read, value := AfterRead(m.Space(), s, r.address), ReadValue(s.memory, m.Space(), r.address);
    FlatReads(m, s, f, r.address);
    var pushed := FlatWrite(f, f.depth * m.config.wordSize, value).(depth := f.depth + 1);
    FlatPushes(m, read, f, value);
    FlatWrites(m, AfterPush(m.Space(), read, value), pushed, r.address, top);
  }

  lemma FlatAdds(m: Settings, s: State, f: Flat, r: Register, o: Register)
    requires StackFits(m) && OnFlat(m, s, f) && r.address < m.limit && o.address < m.limit
    ensures OnFlat(m, StepAdd(m, s, r, o).0, FlatAdd(m, f, r, o).0) && StepAdd(m, s, r, o).1 == FlatAdd(m, f, r, o).1
  {
    hide OnFlat, AfterRead, PutTo, FlatPut, ReadValue, FlatValue, Sum, Pow256;
    var first := AfterRead(m.Space(), s, r.address);
    FlatReads(m, s, f, r.address);
    FlatReads(m, first, f, o.address);
    var sum := Sum(m, ReadValue(s.memory, m.Space(), r.address), ReadValue(s.memory, m.Space(), o.address));
    if sum.Some? {
      FlatPuts(m, AfterRead(m.Space(), first, o.address), f, r.address, sum.value);
    }
  }

  /** One instruction acts on the cells as on the array. */
  lemma StepIsFlat(m: Settings, s: State, f: Flat, op: Operation)
    requires OnFlat(m, s, f) && Legal(m, op)
    ensures OnFlat(m, Step(m, s, op).0, StepFlat(m, f, op).0) && Step(m, s, op).1 == StepFlat(m, f, op).1
  {
    hide AfterRead, AfterWrite, AfterPush, AfterPop, PutTo, FlatPut, ReadValue, FlatValue, SwapWith, FlatSwap, StepAdd,
      FlatAdd, Top, FlatTop, Represents, WellFormed, Pow256;
    match op
    case ReadOp(a) => FlatReads(m, s, f, a);
    case WriteOp(a, x) => FlatPuts(m, s, f, a, x);
    case PushOp(x) => if s.depth < m.config.stackDepth { FlatPushes(m, s, f, x); }
    case PopOp => if s.depth > 0 { FlatPops(m, s, f); }
    case MovOp(to, from) => FlatCopies(m, s, f, from.address, to.address);
    case SwapOp(r) =>
      if s.depth > 0 {
        FlatPops(m, s, f);
        FlatSwaps(m, AfterPop(m.Space(), s), f.(depth := f.depth - 1), r, Top(m.Space(), s));
      }
    case LoadOp(r, a) => FlatCopies(m, s, f, a, r.address);
    case SaveOp(a, r) => FlatCopies(m, s, f, r.address, a);
    case InvalidOp =>
    case AddOp(r, o) => FlatAdds(m, s, f, r, o);
  }

  /** Every program, in any layout, acts on the cells as on one zero-initialised byte array. */
  lemma {:induction false} RunIsFlat(m: Settings, program: seq<Operation>)
    requires StackFits(m) && AllLegal(m, program)
    ensures OnFlat(m, Run(m, EMPTY, program).0, RunFlatProgram(m, program).0)
    ensures Run(m, EMPTY, program).1 == RunFlatProgram(m, program).1
  {
    if program == [] {
      NothingStored(m.Space(), ALL_BYTES);
    } else {
      hide OnFlat, Step, StepFlat, Legal;
      var front := program[..|program| - 1];
      RunIsFlat(m, front);
      StepIsFlat(m, Run(m, EMPTY, front).0, RunFlatProgram(m, front).0, program[|program| - 1]);
    }
  }
}
