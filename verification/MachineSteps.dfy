/**
 What the machine's accesses and instructions do, as functions of its state: the cells, the stack
 depth and the trace. Nothing here depends on how the sections are laid out.
 */
module MachineSteps {
  import opened Powers
  import opened Limbs
  import opened Records
  import opened ByteMemory
  import opened MachineTraces
  import opened Config

  datatype Error =
    | StackOverflow
    | StackUnderflow
    | MemoryAccessDenied
    | InvalidInstruction
    | RegisterInTwoCells
    | AdditionOverflow
    | AddressOverflow

  /** A virtual register: its index, and the address it stands for. */
  datatype Register = Register(index: nat, address: nat)

  datatype Operation =
    | ReadOp(address: nat)
    | WriteOp(address: nat, value: nat)
    | PushOp(value: nat)
    | PopOp
    | MovOp(to: Register, from: Register)
    | SwapOp(register: Register)
    | LoadOp(register: Register, address: nat)
    | SaveOp(address: nat, register: Register)
    | InvalidOp
    | AddOp(register: Register, other: Register)

  datatype Output = Done | Value(value: nat) | Failed(error: Error)

  /** The configuration, the number of addresses, and whether the build's additions wrap around. */
  datatype Settings = Settings(config: Config, limit: nat, wraps: bool) {
    function Space(): AddressSpace {
      AddressSpace(config.wordSize, limit)
    }
  }

  datatype State = State(memory: Cells, depth: nat, trace: seq<TraceRecord>)

  const EMPTY: State := State(map[], 0, [])

  // ---------------------------------------------------------------------------------
  // Accesses

  function CellRecord(s: State, instruction: MemoryInstruction, address: nat, value: nat): TraceRecord {
    TraceRecord(|s.trace|, s.depth, instruction, address, value)
  }

  /** The state after a record has been tracked. */
  function Track(s: State, instruction: MemoryInstruction, address: nat, value: nat): State {
    s.(trace := s.trace + [CellRecord(s, instruction, address, value)])
  }

  function TrackRead(s: State, cell: nat): State {
    Track(s, MemoryInstruction.Read, cell, CellAt(s.memory, cell))
  }

  /** A read that starts `remain` bytes into cell lo: one record, or one for each of two cells. */
  function ReadCells(sp: AddressSpace, s: State, lo: nat, remain: nat): State {
    if remain == 0 then TrackRead(s, lo) else TrackRead(TrackRead(s, lo), sp.NextCell(lo))
  }

  function AfterRead(sp: AddressSpace, s: State, address: nat): State
    requires sp.word > 0
  {
    ReadCells(sp, s, CellStart(sp.word, address), address % sp.word)
  }

  /** Stores one cell and records it. */
  function StoreCell(s: State, cell: nat, value: nat): State {
    Track(s.(memory := s.memory[cell := value]), MemoryInstruction.Write, cell, value)
  }

  /** A write that starts `remain` bytes into cell lo. */
  function WriteCells(sp: AddressSpace, s: State, lo: nat, remain: nat, value: nat): State
    requires remain < sp.word
  {
    if remain == 0 then StoreCell(s, lo, value)
    else
      var valLo := FromBytes(LowBytes(s.memory, sp, lo, remain, value));
      var valHi := FromBytes(HighBytes(s.memory, sp, lo, remain, value));
      StoreCell(StoreCell(s, lo, valLo), sp.NextCell(lo), valHi)
  }

  function AfterWrite(sp: AddressSpace, s: State, address: nat, value: nat): State
    requires sp.word > 0
  {
    WriteCells(sp, s, CellStart(sp.word, address), address % sp.word, value)
  }

  /** A push writes at the old stack pointer, at the new depth. */
  function AfterPush(sp: AddressSpace, s: State, value: nat): State
    requires sp.word > 0
  {
    AfterWrite(sp, s.(depth := s.depth + 1), s.depth * sp.word, value)
  }

  /** A pop reads at the new stack pointer, at the new depth. */
  function AfterPop(sp: AddressSpace, s: State): State
    requires sp.word > 0 && s.depth > 0
  {
    AfterRead(sp, s.(depth := s.depth - 1), (s.depth - 1) * sp.word)
  }

  /** The value a pop returns. */
  function Top(sp: AddressSpace, s: State): nat
    requires sp.word > 0 && s.depth > 0
  {
    ReadValue(s.memory, sp, (s.depth - 1) * sp.word)
  }

  lemma AccessMemory(sp: AddressSpace, s: State, address: nat, value: nat)
    requires sp.word > 0
    ensures AfterRead(sp, s, address).memory == s.memory && AfterRead(sp, s, address).depth == s.depth
    ensures AfterWrite(sp, s, address, value).memory == WriteValue(s.memory, sp, address, value)
    ensures AfterWrite(sp, s, address, value).depth == s.depth
  {
    CellsMemory(sp, s, CellStart(sp.word, address), address % sp.word, value);
  }

  lemma CellsMemory(sp: AddressSpace, s: State, lo: nat, remain: nat, value: nat)
    requires remain < sp.word
    ensures ReadCells(sp, s, lo, remain).memory == s.memory && ReadCells(sp, s, lo, remain).depth == s.depth
    ensures WriteCells(sp, s, lo, remain, value).memory == WriteParts(s.memory, sp, lo, remain, value)
    ensures WriteCells(sp, s, lo, remain, value).depth == s.depth
  {
    hide LowBytes, HighBytes, FromBytes;
  }

  /** The second cell's address is past the end, in a build that checks additions. */
  predicate Overflows(m: Settings, address: nat)
    requires m.config.wordSize > 0
  {
    !m.wraps && address % m.config.wordSize != 0 && CellStart(m.config.wordSize, address) + m.config.wordSize >= m.limit
  }

  // ---------------------------------------------------------------------------------
  // Instructions

  /** Writes the value, or fails before it changes anything. */
  function PutTo(m: Settings, s: State, address: nat, value: nat): (State, Output)
    requires m.config.wordSize > 0
  {
    if Overflows(m, address) then (s, Failed(AddressOverflow)) else (AfterWrite(m.Space(), s, address, value), Done)
  }

  function StepRead(m: Settings, s: State, address: nat): (State, Output)
    requires m.config.wordSize > 0
  {
    if !m.config.memory.Contain(address) then (s, Failed(MemoryAccessDenied))
    else if Overflows(m, address) then (s, Failed(AddressOverflow))
    else (AfterRead(m.Space(), s, address), Value(ReadValue(s.memory, m.Space(), address)))
  }

  function StepWrite(m: Settings, s: State, address: nat, value: nat): (State, Output)
    requires m.config.wordSize > 0
  {
    if !m.config.memory.Contain(address) then (s, Failed(MemoryAccessDenied)) else PutTo(m, s, address, value)
  }

  function StepPush(m: Settings, s: State, value: nat): (State, Output)
    requires m.config.wordSize > 0
  {
    if s.depth == m.config.stackDepth then (s, Failed(StackOverflow)) else (AfterPush(m.Space(), s, value), Done)
  }

  function StepPop(m: Settings, s: State): (State, Output)
    requires m.config.wordSize > 0
  {
    if s.depth == 0 then (s, Failed(StackUnderflow)) else (AfterPop(m.Space(), s), Value(Top(m.Space(), s)))
  }

  /** Copies a register; a source that lies across two cells is refused after it has been read. */
  function StepMov(m: Settings, s: State, to: Register, from: Register): (State, Output)
    requires m.config.wordSize > 0
  {
    if Overflows(m, from.address) then (s, Failed(AddressOverflow))
    else
      var read := AfterRead(m.Space(), s, from.address);
      if from.address % m.config.wordSize != 0 then (read, Failed(RegisterInTwoCells))
      else PutTo(m, read, to.address, ReadValue(s.memory, m.Space(), from.address))
  }

  /** Exchanges a register and the top of the stack; a register across two cells only costs the top. */
  function StepSwap(m: Settings, s: State, register: Register): (State, Output)
    requires m.config.wordSize > 0
  {
    if s.depth == 0 then (s, Failed(StackUnderflow)) else SwapWith(m, AfterPop(m.Space(), s), register, Top(m.Space(), s))
  }

  /** Pushes the register's value and gives it the top that has been popped. */
  function SwapWith(m: Settings, s: State, register: Register, top: nat): (State, Output)
    requires m.config.wordSize > 0
  {
    if Overflows(m, register.address) then (s, Failed(AddressOverflow))
    else
      var read := AfterRead(m.Space(), s, register.address);
      if register.address % m.config.wordSize != 0 then (read, Done)
      else
        var pushed := AfterPush(m.Space(), read, ReadValue(s.memory, m.Space(), register.address));
        (AfterWrite(m.Space(), pushed, register.address, top), Done)
  }

  /** Loads any address, inside the memory section or not. */
  function StepLoad(m: Settings, s: State, register: Register, address: nat): (State, Output)
    requires m.config.wordSize > 0
  {
    if Overflows(m, address) then (s, Failed(AddressOverflow))
    else PutTo(m, AfterRead(m.Space(), s, address), register.address, ReadValue(s.memory, m.Space(), address))
  }

  /** Saves to any address, inside the memory section or not. */
  function StepSave(m: Settings, s: State, address: nat, register: Register): (State, Output)
    requires m.config.wordSize > 0
  {
    if Overflows(m, register.address) then (s, Failed(AddressOverflow))
    else
      var read := AfterRead(m.Space(), s, register.address);
      if register.address % m.config.wordSize != 0 then (read, Failed(RegisterInTwoCells))
      else PutTo(m, read, address, ReadValue(s.memory, m.Space(), register.address))
  }

  function StepAdd(m: Settings, s: State, register: Register, other: Register): (State, Output)
    requires m.config.wordSize > 0
  {
    if Overflows(m, register.address) then (s, Failed(AddressOverflow))
    else
      var first := AfterRead(m.Space(), s, register.address);
      if register.address % m.config.wordSize != 0 then (first, Failed(RegisterInTwoCells))
      else if Overflows(m, other.address) then (first, Failed(AddressOverflow))
      else
        var second := AfterRead(m.Space(), first, other.address);
        if other.address % m.config.wordSize != 0 then (second, Failed(RegisterInTwoCells))
        else AddTo(m, second, register.address, ReadValue(s.memory, m.Space(), register.address),
                   ReadValue(s.memory, m.Space(), other.address))
  }

  /** Writes the sum, unless the addition panics. */
  function AddTo(m: Settings, s: State, address: nat, a: nat, b: nat): (State, Output)
    requires m.config.wordSize > 0
  {
    var sum := Sum(m, a, b);
    if sum.None? then (s, Failed(AdditionOverflow)) else PutTo(m, s, address, sum.value)
  }

  /** Addition of two cell values: a wrapping build reduces the sum, a checking one refuses it. */
  function Sum(m: Settings, a: nat, b: nat): (sum: Option<nat>)
    ensures sum.Some? ==> sum.value < Pow256(m.config.wordSize)
  {
    var size := Pow256(m.config.wordSize);
    if a + b < size then Some(a + b) else if m.wraps then Some((a + b) % size) else None
  }

  function Step(m: Settings, s: State, op: Operation): (State, Output)
    requires m.config.wordSize > 0
  {
    match op
    case ReadOp(a) => StepRead(m, s, a)
    case WriteOp(a, x) => StepWrite(m, s, a, x)
    case PushOp(x) => StepPush(m, s, x)
    case PopOp => StepPop(m, s)
    case MovOp(to, from) => StepMov(m, s, to, from)
    case SwapOp(r) => StepSwap(m, s, r)
    case LoadOp(r, a) => StepLoad(m, s, r, a)
    case SaveOp(a, r) => StepSave(m, s, a, r)
    case InvalidOp => (s, Failed(InvalidInstruction))
    case AddOp(r, o) => StepAdd(m, s, r, o)
  }

  /** A program, one instruction after the other; a failed one leaves the state where it stopped. */
  function Run(m: Settings, s: State, program: seq<Operation>): (State, seq<Output>)
    requires m.config.wordSize > 0
  {
    if program == [] then (s, [])
    else
      var (before, outputs) := Run(m, s, program[..|program| - 1]);
      var (after, output) := Step(m, before, program[|program| - 1]);
      (after, outputs + [output])
  }

  lemma RunOneMore(m: Settings, s: State, program: seq<Operation>, n: nat)
    requires m.config.wordSize > 0 && n < |program|
    ensures var (before, outputs) := Run(m, s, program[..n]);
      var (after, output) := Step(m, before, program[n]);
      Run(m, s, program[..n + 1]) == (after, outputs + [output])
  {
    assert program[..n + 1][..n] == program[..n];
  }

  // ---------------------------------------------------------------------------------
  // Legal programs and good states

  /** Values fit a cell, and addresses lie in the space. */
  predicate Legal(m: Settings, op: Operation) {
    match op
    case ReadOp(a) => a < m.limit
    case WriteOp(a, x) => a < m.limit && x < Pow256(m.config.wordSize)
    case PushOp(x) => x < Pow256(m.config.wordSize)
    case PopOp => true
    case MovOp(to, from) => to.address < m.limit && from.address < m.limit
    case SwapOp(r) => r.address < m.limit
    case LoadOp(r, a) => r.address < m.limit && a < m.limit
    case SaveOp(a, r) => r.address < m.limit && a < m.limit
    case InvalidOp => true
    case AddOp(r, o) => r.address < m.limit && o.address < m.limit
  }

  predicate AllLegal(m: Settings, program: seq<Operation>) {
    forall i :: 0 <= i < |program| ==> Legal(m, program[i])
  }

  /** The space holds whole cells, and the stack with the address after it. */
  predicate StackFits(m: Settings) {
    m.Space().Valid() && m.config.stackDepth * m.config.wordSize < m.limit
  }

  /** A record's fields fit the machine: a cell value, an address in the space, a legal depth. */
  predicate RecordFits(m: Settings, r: TraceRecord) {
    r.address < m.limit && r.value < Pow256(m.config.wordSize) && r.stackDepth <= m.config.stackDepth
  }

  /** The trace was taken from a run that ends in this memory. */
  predicate TakenFrom(m: Settings, trace: seq<TraceRecord>, memory: Cells) {
    && IsMachineTrace(trace) && Replay(trace) == memory
    && forall i :: 0 <= i < |trace| ==> RecordFits(m, trace[i])
  }

  /** Aligned cells, a clocked trace that replays to them, and a depth within the bound. */
  predicate Good(m: Settings, s: State) {
    && WellFormed(s.memory, m.config.wordSize) && TakenFrom(m, s.trace, s.memory)
    && s.depth <= m.config.stackDepth
  }

  lemma EmptyIsGood(m: Settings)
    requires m.config.wordSize > 0
    ensures Good(m, EMPTY)
  {
  }

  /** Tracking a record keeps the trace clocked and in step with the memory. */
  lemma TrackKeeps(m: Settings, trace: seq<TraceRecord>, memory: Cells, r: TraceRecord)
    requires TakenFrom(m, trace, memory) && r.timeLog == |trace| && RecordFits(m, r)
    requires r.instruction.Read? ==> r.value == CellAt(memory, r.address)
    ensures TakenFrom(m, trace + [r], if r.instruction.Write? then memory[r.address := r.value] else memory)
  {
    MachineTraceAppend(trace, r);
    ReplayAppend(trace, r);
  }

  lemma TrackReadKeepsGood(m: Settings, s: State, cell: nat)
    requires Good(m, s) && cell < m.limit
    ensures Good(m, TrackRead(s, cell))
  {
    TrackKeeps(m, s.trace, s.memory, CellRecord(s, MemoryInstruction.Read, cell, CellAt(s.memory, cell)));
  }

  lemma StoreCellKeepsGood(m: Settings, s: State, cell: nat, value: nat)
    requires Good(m, s) && cell < m.limit && cell % m.config.wordSize == 0 && value < Pow256(m.config.wordSize)
    ensures Good(m, StoreCell(s, cell, value))
  {
    hide TakenFrom, Pow256;
    assert RecordFits(m, CellRecord(s, MemoryInstruction.Write, cell, value));
    TrackKeeps(m, s.trace, s.memory, CellRecord(s, MemoryInstruction.Write, cell, value));
    StoredFits(s.memory, m.config.wordSize, cell, value);
  }

  lemma ReadKeepsGood(m: Settings, s: State, address: nat)
    requires StackFits(m) && Good(m, s) && address < m.limit
    ensures Good(m, AfterRead(m.Space(), s, address))
  {
    hide Good, TrackRead;
    var lo := CellStart(m.config.wordSize, address);
    NextCellFits(m.Space(), lo);
    TrackReadKeepsGood(m, s, lo);
    if address % m.config.wordSize != 0 {
      TrackReadKeepsGood(m, TrackRead(s, lo), m.Space().NextCell(lo));
    }
  }

  lemma WriteCellsKeepsGood(m: Settings, s: State, lo: nat, remain: nat, value: nat)
    requires StackFits(m) && Good(m, s) && value < Pow256(m.config.wordSize)
    requires lo % m.config.wordSize == 0 && lo < m.limit && remain < m.config.wordSize
    ensures Good(m, WriteCells(m.Space(), s, lo, remain, value))
  {
    hide Good, StoreCell, LowBytes, HighBytes, FromBytes, Pow256;
    if remain == 0 {
      StoreCellKeepsGood(m, s, lo, value);
    } else {
      var valLo := FromBytes(LowBytes(s.memory, m.Space(), lo, remain, value));
      var valHi := FromBytes(HighBytes(s.memory, m.Space(), lo, remain, value));
      NextCellFits(m.Space(), lo);
      StoreCellKeepsGood(m, s, lo, valLo);
      StoreCellKeepsGood(m, StoreCell(s, lo, valLo), m.Space().NextCell(lo), valHi);
    }
  }

  lemma WriteKeepsGood(m: Settings, s: State, address: nat, value: nat)
    requires StackFits(m) && Good(m, s) && address < m.limit && value < Pow256(m.config.wordSize)
    ensures Good(m, AfterWrite(m.Space(), s, address, value))
  {
    hide Good, WriteCells, Pow256;
    WriteCellsKeepsGood(m, s, CellStart(m.config.wordSize, address), address % m.config.wordSize, value);
  }

  lemma PutKeepsGood(m: Settings, s: State, address: nat, value: nat)
    requires StackFits(m) && Good(m, s) && address < m.limit && value < Pow256(m.config.wordSize)
    ensures Good(m, PutTo(m, s, address, value).0)
  {
    hide Good, AfterWrite, Pow256;
    WriteKeepsGood(m, s, address, value);
  }

  /** The stack slot at a depth below the bound is an aligned cell of the address space. */
  lemma SlotInSpace(m: Settings, depth: nat)
    requires StackFits(m) && depth < m.config.stackDepth
    ensures depth * m.config.wordSize < m.limit && (depth * m.config.wordSize) % m.config.wordSize == 0
    ensures (depth + 1) * m.config.wordSize == depth * m.config.wordSize + m.config.wordSize < m.limit
  {
    DivisionIsUnique(depth * m.config.wordSize, m.config.wordSize, depth, 0);
    ScaledOrder(depth + 1, m.config.stackDepth, m.config.wordSize);
  }

  lemma PushKeepsGood(m: Settings, s: State, value: nat)
    requires StackFits(m) && Good(m, s) && s.depth < m.config.stackDepth && value < Pow256(m.config.wordSize)
    ensures Good(m, AfterPush(m.Space(), s, value))
  {
    hide AfterWrite, Pow256, WellFormed, TakenFrom;
    SlotInSpace(m, s.depth);
    WriteKeepsGood(m, s.(depth := s.depth + 1), s.depth * m.config.wordSize, value);
  }

  lemma PopKeepsGood(m: Settings, s: State)
    requires StackFits(m) && Good(m, s) && s.depth > 0
    ensures Good(m, AfterPop(m.Space(), s))
  {
    hide AfterRead, WellFormed, TakenFrom;
    SlotInSpace(m, s.depth - 1);
    ReadKeepsGood(m, s.(depth := s.depth - 1), (s.depth - 1) * m.config.wordSize);
  }

  lemma ValueFits(m: Settings, s: State, address: nat)
    requires StackFits(m) && Good(m, s) && address < m.limit
    ensures ReadValue(s.memory, m.Space(), address) < Pow256(m.config.wordSize)
  {
    hide ReadValue, Pow256;
    ReadReturnsBytes(s.memory, m.Space(), address, 0);
  }

  lemma TopFits(m: Settings, s: State)
    requires StackFits(m) && Good(m, s) && s.depth > 0
    ensures Top(m.Space(), s) < Pow256(m.config.wordSize)
  {
    hide ReadValue, Pow256, WellFormed, TakenFrom;
    SlotInSpace(m, s.depth - 1);
    ValueFits(m, s, (s.depth - 1) * m.config.wordSize);
  }

  lemma SwapWithKeepsGood(m: Settings, s: State, register: Register, top: nat)
    requires StackFits(m) && Good(m, s) && s.depth < m.config.stackDepth
    requires register.address < m.limit && top < Pow256(m.config.wordSize)
    ensures Good(m, SwapWith(m, s, register, top).0)
  {
    hide AfterRead, AfterPush, AfterWrite, ReadValue, WellFormed, TakenFrom, Pow256;
    var read, value := AfterRead(m.Space(), s, register.address), ReadValue(s.memory, m.Space(), register.address);
    ReadKeepsGood(m, s, register.address);
    AccessMemory(m.Space(), s, register.address, 0);
    ValueFits(m, s, register.address);
    PushKeepsGood(m, read, value);
    WriteKeepsGood(m, AfterPush(m.Space(), read, value), register.address, top);
  }

  lemma SwapKeepsGood(m: Settings, s: State, register: Register)
    requires StackFits(m) && Good(m, s) && register.address < m.limit
    ensures Good(m, StepSwap(m, s, register).0)
  {
    hide AfterRead, SwapWith, Top, WellFormed, TakenFrom, Pow256;
    if s.depth > 0 {
      PopKeepsGood(m, s);
      TopFits(m, s);
      AccessMemory(m.Space(), s.(depth := s.depth - 1), (s.depth - 1) * m.config.wordSize, 0);
      SwapWithKeepsGood(m, AfterPop(m.Space(), s), register, Top(m.Space(), s));
    }
  }

  /** Reading an address and writing its value elsewhere. */
  lemma CopyKeepsGood(m: Settings, s: State, from: nat, to: nat)
    requires StackFits(m) && Good(m, s) && from < m.limit && to < m.limit
    ensures Good(m, AfterRead(m.Space(), s, from))
    ensures Good(m, PutTo(m, AfterRead(m.Space(), s, from), to, ReadValue(s.memory, m.Space(), from)).0)
  {
    hide Good, AfterRead, PutTo, ReadValue, Pow256;
    ReadKeepsGood(m, s, from);
    ValueFits(m, s, from);
    PutKeepsGood(m, AfterRead(m.Space(), s, from), to, ReadValue(s.memory, m.Space(), from));
  }

  lemma AddKeepsGood(m: Settings, s: State, register: Register, other: Register)
    requires StackFits(m) && Good(m, s) && register.address < m.limit && other.address < m.limit
    ensures Good(m, StepAdd(m, s, register, other).0)
  {
    hide Good, AfterRead, PutTo, ReadValue, Sum, Pow256;
    var first := AfterRead(m.Space(), s, register.address);
    var sum := Sum(m, ReadValue(s.memory, m.Space(), register.address), ReadValue(s.memory, m.Space(), other.address));
    ReadKeepsGood(m, s, register.address);
    ReadKeepsGood(m, first, other.address);
    if sum.Some? {
      PutKeepsGood(m, AfterRead(m.Space(), first, other.address), register.address, sum.value);
    }
  }

  lemma StepKeepsGood(m: Settings, s: State, op: Operation)
    requires StackFits(m) && Good(m, s) && Legal(m, op)
    ensures Good(m, Step(m, s, op).0)
  {
    hide AfterRead, AfterWrite, PutTo, ReadValue, AfterPush, AfterPop, Top, StepSwap, StepAdd, WellFormed, TakenFrom, Pow256;
    match op
    case ReadOp(a) => ReadKeepsGood(m, s, a);
    case WriteOp(a, x) => PutKeepsGood(m, s, a, x);
    case PushOp(x) => if s.depth < m.config.stackDepth { PushKeepsGood(m, s, x); }
    case PopOp => if s.depth > 0 { PopKeepsGood(m, s); }
    case MovOp(to, from) => CopyKeepsGood(m, s, from.address, to.address);
    case SwapOp(r) => SwapKeepsGood(m, s, r);
    case LoadOp(r, a) => CopyKeepsGood(m, s, a, r.address);
    case SaveOp(a, r) => CopyKeepsGood(m, s, r.address, a);
    case InvalidOp =>
    case AddOp(r, o) => AddKeepsGood(m, s, r, o);
  }

  /** Every reachable state is good. */
  lemma {:induction false} RunKeepsGood(m: Settings, s: State, program: seq<Operation>)
    requires StackFits(m) && Good(m, s) && AllLegal(m, program)
    ensures Good(m, Run(m, s, program).0)
  {
    hide Good, Step, Legal;
    if program != [] {
      RunKeepsGood(m, s, program[..|program| - 1]);
      StepKeepsGood(m, Run(m, s, program[..|program| - 1]).0, program[|program| - 1]);
    }
  }
}
