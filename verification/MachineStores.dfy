/**
 When the sections lie apart the machine refines three separate stores, although all of them share
 one cell memory: a stack of values, a register file and a zero-initialised byte array.
 */
module MachineStores {
  import opened Powers
  import opened Limbs
  import opened ByteMemory
  import opened MachineSections
  import opened MachineSteps

  datatype Stores = Stores(stack: seq<nat>, registers: seq<nat>, written: seq<(nat, nat)>)

  function Popped(st: Stores): Stores
    requires st.stack != []
  {
    st.(stack := st.stack[..|st.stack| - 1])
  }

  function TopOf(st: Stores): nat
    requires st.stack != []
  {
    st.stack[|st.stack| - 1]
  }

  function Pushed(st: Stores, value: nat): Stores {
    st.(stack := st.stack + [value])
  }

  function WithRegister(st: Stores, r: Register, value: nat): Stores
    requires r.index < |st.registers|
  {
    st.(registers := st.registers[r.index := value])
  }

  function Saved(st: Stores, address: nat, value: nat): Stores {
    st.(written := st.written + [(address, value)])
  }

  /** The operation's register operands. */
  function Operands(op: Operation): seq<Register> {
    match op
    case MovOp(to, from) => [to, from]
    case SwapOp(r) => [r]
    case LoadOp(r, _) => [r]
    case SaveOp(_, r) => [r]
    case AddOp(r, o) => [r, o]
    case _ => []
  }

  /** A register of the file, as the configuration makes it. */
  predicate IsRegister(m: Settings, noRegister: nat, r: Register) {
    r.index < noRegister && r.address == m.config.RegisterAddress(r.index)
  }

  /** Operands are registers of the file, and loads and saves stay in the memory section. */
  predicate Sectioned(m: Settings, noRegister: nat, op: Operation) {
    && (forall r :: r in Operands(op) ==> IsRegister(m, noRegister, r))
    && ((op.LoadOp? || op.SaveOp?) ==> m.config.memory.Contain(op.address))
  }

  predicate AllSectioned(m: Settings, noRegister: nat, program: seq<Operation>) {
    forall i :: 0 <= i < |program| ==> Sectioned(m, noRegister, program[i])
  }

  /** What an instruction means on the separate stores. */
  function StepStores(m: Settings, st: Stores, op: Operation): (Stores, Output)
    requires m.config.wordSize > 0 && Sectioned(m, |st.registers|, op)
  {
    match op
    case ReadOp(a) =>
      if !m.config.memory.Contain(a) then (st, Failed(MemoryAccessDenied))
      else if Overflows(m, a) then (st, Failed(AddressOverflow))
      else (st, Value(FlatValue(st.written, m.Space(), a)))
    case WriteOp(a, x) => if m.config.memory.Contain(a) then SavedAt(m, st, a, x) else (st, Failed(MemoryAccessDenied))
    case PushOp(x) =>
      if |st.stack| == m.config.stackDepth then (st, Failed(StackOverflow)) else (Pushed(st, x), Done)
    case PopOp =>
      if st.stack == [] then (st, Failed(StackUnderflow)) else (Popped(st), Value(TopOf(st)))
    case MovOp(to, from) =>
      assert from in Operands(op) && to in Operands(op);
      (WithRegister(st, to, st.registers[from.index]), Done)
    case SwapOp(r) =>
      assert r in Operands(op);
      if st.stack == [] then (st, Failed(StackUnderflow))
      else (WithRegister(Pushed(Popped(st), st.registers[r.index]), r, TopOf(st)), Done)
    case LoadOp(r, a) =>
      assert r in Operands(op);
      if Overflows(m, a) then (st, Failed(AddressOverflow))
      else (WithRegister(st, r, FlatValue(st.written, m.Space(), a)), Done)
    case SaveOp(a, r) =>
      assert r in Operands(op);
      SavedAt(m, st, a, st.registers[r.index])
    case InvalidOp => (st, Failed(InvalidInstruction))
    case AddOp(r, o) =>
      assert r in Operands(op) && o in Operands(op);
      var sum := Sum(m, st.registers[r.index], st.registers[o.index]);
      if sum.None? then (st, Failed(AdditionOverflow)) else (WithRegister(st, r, sum.value), Done)
  }

  function SavedAt(m: Settings, st: Stores, address: nat, value: nat): (Stores, Output)
    requires m.config.wordSize > 0
  {
    if Overflows(m, address) then (st, Failed(AddressOverflow)) else (Saved(st, address, value), Done)
  }

  lemma StepKeepsFile(m: Settings, st: Stores, op: Operation)
    requires m.config.wordSize > 0 && Sectioned(m, |st.registers|, op)
    ensures |StepStores(m, st, op).0.registers| == |st.registers|
  {
    assert forall r :: r in Operands(op) ==> IsRegister(m, |st.registers|, r);
    match op
    case MovOp(to, from) => assert to in Operands(op);
    case SwapOp(r) => assert r in Operands(op);
    case LoadOp(r, _) => assert r in Operands(op);
    case AddOp(r, _) => assert r in Operands(op);
    case _ =>
  }

  function RunStores(m: Settings, noRegister: nat, program: seq<Operation>): (run: (Stores, seq<Output>))
    requires m.config.wordSize > 0 && AllSectioned(m, noRegister, program)
    ensures |run.0.registers| == noRegister
  {
    if program == [] then (Stores([], seq(noRegister, _ => 0), []), [])
    else
      var (before, outputs) := RunStores(m, noRegister, program[..|program| - 1]);
      StepKeepsFile(m, before, program[|program| - 1]);
      var (after, output) := StepStores(m, before, program[|program| - 1]);
      (after, outputs + [output])
  }

  // ---------------------------------------------------------------------------------
  // Sections that lie apart

  predicate FileBelow(m: Settings, noRegister: nat) {
    m.config.register.low + noRegister * m.config.wordSize <= m.config.memory.low
  }

  predicate FileAbove(m: Settings)
    requires m.config.wordSize > 0
  {
    m.config.memory.high % m.config.wordSize == 0 && m.config.memory.high + m.config.wordSize <= m.config.register.low
  }

  /** No unaligned access runs over the end of the space into the stack or the register file. */
  predicate EndIsFree(m: Settings, noRegister: nat)
    requires m.config.wordSize > 0
  {
    || !m.wraps || m.config.wordSize == 1 || m.config.memory.high % m.config.wordSize == 0
    || (m.config.stackDepth == 0 && (noRegister == 0 || m.config.register.low > 0))
  }

  /**
   The sections start on word boundaries, the stack, which grows from address 0, ends below the
   other two, and the register file lies below or above every access to the memory section.
   */
  predicate SectionsApart(m: Settings, noRegister: nat) {
    && StackFits(m) && m.config.memory.high < m.limit
    && m.config.stackDepth * m.config.wordSize <= m.config.register.low
    && m.config.stackDepth * m.config.wordSize <= m.config.memory.low
    && m.config.register.low % m.config.wordSize == 0 && m.config.memory.low % m.config.wordSize == 0
    && (noRegister == 0 || FileBelow(m, noRegister) || FileAbove(m))
    && EndIsFree(m, noRegister)
  }

  /** The cell belongs neither to the stack nor to the register file. */
  predicate IsFreeCell(m: Settings, n: nat, c: nat) {
    && m.config.stackDepth * m.config.wordSize <= c
    && (n == 0 || c + m.config.wordSize <= m.config.register.low || m.config.register.low + n * m.config.wordSize <= c)
  }

  /** The cells of every access to the memory section are free. */
  lemma AccessIsFree(m: Settings, n: nat, address: nat, c: nat)
    requires SectionsApart(m, n) && m.config.memory.Contain(address) && address < m.limit && !Overflows(m, address)
    requires c in CellsOf(m.Space(), address)
    ensures IsFreeCell(m, n, c)
  {
    var word, lo := m.config.wordSize, CellStart(m.config.wordSize, address);
    CellAboveBoundary(word, m.config.memory.low, address);
    CellFits(m.Space(), lo);
    if FileAbove(m) || m.config.memory.high % word == 0 {
      CellsUpTo(word, m.config.memory.high, address);
    }
    if address % word != 0 && lo + word == m.limit && n > 0 && m.config.register.low > 0 {
      DivisionIsUnique(0, word, 0, 0);
      BlocksApart(word, 0, m.config.register.low);
    }
  }

  /** Everything but the stack and the register file. */
  function MemoryWindow(m: Settings, noRegister: nat): Window {
    var low := m.config.stackDepth * m.config.wordSize;
    if noRegister == 0 then Window(low, 0, 0)
    else Window(low, m.config.register.low, m.config.register.low + noRegister * m.config.wordSize)
  }

  lemma AccessIsShown(m: Settings, n: nat, address: nat)
    requires SectionsApart(m, n) && m.config.memory.Contain(address) && address < m.limit && !Overflows(m, address)
    ensures MemoryWindow(m, n).ShowsAll(m.Space(), address)
  {
    hide CellsOf, Overflows, EndIsFree;
    forall k | 0 <= k < m.config.wordSize ensures MemoryWindow(m, n).Shows(m.Space().ByteOf(address, k)) {
      var c := ByteInAccess(m.Space(), address, k);
      AccessIsFree(m, n, address, c);
    }
  }

  /** The bytes of an aligned cell are those from its start on. */
  lemma AlignedBytes(sp: AddressSpace, cell: nat, b: nat)
    requires sp.Valid() && cell % sp.word == 0 && cell < sp.limit && sp.Covers(cell, b)
    ensures cell <= b < cell + sp.word
  {
    CellFits(sp, cell);
  }

  lemma SlotIsHidden(m: Settings, n: nat, cell: nat)
    requires m.Space().Valid() && cell % m.config.wordSize == 0 && cell < m.limit
    requires cell + m.config.wordSize <= m.config.stackDepth * m.config.wordSize
      || (n > 0 && m.config.register.low <= cell
          && cell + m.config.wordSize <= m.config.register.low + n * m.config.wordSize)
    ensures MemoryWindow(m, n).ShowsNone(m.Space(), cell)
  {
    forall b: nat | b < m.limit && m.Space().Covers(cell, b) ensures !MemoryWindow(m, n).Shows(b) {
      AlignedBytes(m.Space(), cell, b);
    }
  }

  /** The three sections of the cell memory hold the three stores. */
  ghost predicate InSections(m: Settings, noRegister: nat, s: State, st: Stores) {
    && WellFormed(s.memory, m.config.wordSize)
    && st.stack == CellRow(s.memory, m.config.wordSize, 0, s.depth) && s.depth <= m.config.stackDepth
    && st.registers == CellRow(s.memory, m.config.wordSize, m.config.register.low, noRegister)
    && Represents(s.memory, m.Space(), MemoryWindow(m, noRegister), st.written)
  }

  lemma SectionReads(m: Settings, n: nat, s: State, st: Stores, address: nat)
    requires SectionsApart(m, n) && InSections(m, n, s, st) && address < m.limit
    ensures InSections(m, n, AfterRead(m.Space(), s, address), st)
    ensures AfterRead(m.Space(), s, address).memory == s.memory
    ensures ReadValue(s.memory, m.Space(), address) < Pow256(m.config.wordSize)
  {
    hide AfterRead, AfterWrite, ReadValue, WriteValue, CellRow, Represents, Pow256;
    AccessMemory(m.Space(), s, address, 0);
    ReadReturnsBytes(s.memory, m.Space(), address, 0);
  }

  lemma SectionPops(m: Settings, n: nat, s: State, st: Stores)
    requires SectionsApart(m, n) && InSections(m, n, s, st) && s.depth > 0
    ensures st.stack != [] && InSections(m, n, AfterPop(m.Space(), s), Popped(st))
    ensures AfterPop(m.Space(), s).memory == s.memory
    ensures Top(m.Space(), s) == TopOf(st) < Pow256(m.config.wordSize)
  {
    hide AfterRead, ReadValue, CellRow, Represents, WellFormed, Pow256;
    SlotInSpace(m, s.depth - 1);
    StackPopped(s.memory, m.Space(), s.depth - 1);
    SectionReads(m, n, s.(depth := s.depth - 1), Popped(st), (s.depth - 1) * m.config.wordSize);
  }

  /** The stack slots below d, and the register file, are not in slot d. */
  lemma SlotMissesFile(m: Settings, n: nat, d: nat)
    requires SectionsApart(m, n) && d < m.config.stackDepth
    ensures RowMissed(m.Space(), m.config.register.low, n, d * m.config.wordSize)
  {
    StackSlot(m.config.wordSize, d, m.config.stackDepth);
    forall i | 0 <= i < n ensures m.config.register.low + i * m.config.wordSize !in CellsOf(m.Space(), d * m.config.wordSize) {
      ScaledOrder(0, i, m.config.wordSize);
    }
  }

  lemma SectionPushes(m: Settings, n: nat, s: State, st: Stores, value: nat)
    requires SectionsApart(m, n) && InSections(m, n, s, st) && s.depth < m.config.stackDepth
    requires value < Pow256(m.config.wordSize)
    ensures InSections(m, n, AfterPush(m.Space(), s, value), Pushed(st, value))
  {
    hide AfterRead, AfterWrite, WriteValue, CellRow, Represents, WellFormed, RowMissed, MemoryWindow, CellsOf, Pow256;
    var sp, slot := m.Space(), s.depth * m.config.wordSize;
    StackSlot(sp.word, s.depth, m.config.stackDepth);
    SlotInSpace(m, s.depth);
    AccessMemory(sp, s.(depth := s.depth + 1), slot, value);
    WriteKeepsWellFormed(s.memory, sp, slot, value);
    StackPushed(s.memory, sp, s.depth, value);
    SlotMissesFile(m, n, s.depth);
    MissedRowStays(s.memory, sp, m.config.register.low, n, slot, value);
    SlotIsHidden(m, n, slot);
    WriteElsewhere(s.memory, sp, MemoryWindow(m, n), st.written, slot, value);
  }

  lemma RegisterIsCell(m: Settings, n: nat, r: Register)
    requires SectionsApart(m, n) && IsRegister(m, n, r)
    ensures r.address % m.config.wordSize == 0 && m.config.register.low <= r.address
    ensures r.address + m.config.wordSize <= m.config.register.low + n * m.config.wordSize
  {
    RegisterSlot(m.config.wordSize, m.config.register.low, r.index, n);
  }

  lemma SectionGets(m: Settings, n: nat, s: State, st: Stores, r: Register)
    requires SectionsApart(m, n) && InSections(m, n, s, st) && IsRegister(m, n, r)
    ensures r.address % m.config.wordSize == 0 && !Overflows(m, r.address)
    ensures ReadValue(s.memory, m.Space(), r.address) == st.registers[r.index]
  {
    hide ReadValue, Represents, WellFormed;
    RegisterIsCell(m, n, r);
    AlignedAccess(s.memory, m.Space(), r.address, 0);
  }

  lemma RegisterMissesStack(m: Settings, n: nat, r: Register, depth: nat)
    requires SectionsApart(m, n) && IsRegister(m, n, r) && depth <= m.config.stackDepth
    ensures RowMissed(m.Space(), 0, depth, r.address)
  {
    RegisterIsCell(m, n, r);
    forall i | 0 <= i < depth ensures 0 + i * m.config.wordSize !in CellsOf(m.Space(), r.address) {
      StackSlot(m.config.wordSize, i, m.config.stackDepth);
    }
  }

  lemma SectionSets(m: Settings, n: nat, s: State, st: Stores, r: Register, value: nat)
    requires SectionsApart(m, n) && InSections(m, n, s, st) && IsRegister(m, n, r) && r.address < m.limit
    requires value < Pow256(m.config.wordSize)
    ensures InSections(m, n, AfterWrite(m.Space(), s, r.address, value), WithRegister(st, r, value))
  {
    hide AfterRead, AfterWrite, WriteValue, CellRow, Represents, WellFormed, RowMissed, MemoryWindow, CellsOf, Pow256;
    var sp, low := m.Space(), m.config.register.low;
    RegisterIsCell(m, n, r);
    AccessMemory(sp, s, r.address, value);
    WriteKeepsWellFormed(s.memory, sp, r.address, value);
    RegisterSet(s.memory, sp, low, n, r.index, value);
    RegisterMissesStack(m, n, r, s.depth);
    MissedRowStays(s.memory, sp, 0, s.depth, r.address, value);
    SlotIsHidden(m, n, r.address);
    WriteElsewhere(s.memory, sp, MemoryWindow(m, n), st.written, r.address, value);
  }

  /** An access to the memory section misses the stack and the register file. */
  lemma AccessMissesRows(m: Settings, n: nat, depth: nat, address: nat)
    requires SectionsApart(m, n) && depth <= m.config.stackDepth
    requires m.config.memory.Contain(address) && address < m.limit && !Overflows(m, address)
    ensures RowMissed(m.Space(), 0, depth, address) && RowMissed(m.Space(), m.config.register.low, n, address)
  {
    hide CellsOf, Overflows, EndIsFree;
    forall i | 0 <= i < depth ensures 0 + i * m.config.wordSize !in CellsOf(m.Space(), address) {
      StackSlot(m.config.wordSize, i, m.config.stackDepth);
      if i * m.config.wordSize in CellsOf(m.Space(), address) {
        AccessIsFree(m, n, address, i * m.config.wordSize);
      }
    }
    forall i | 0 <= i < n ensures m.config.register.low + i * m.config.wordSize !in CellsOf(m.Space(), address) {
      RegisterSlot(m.config.wordSize, m.config.register.low, i, n);
      if m.config.register.low + i * m.config.wordSize in CellsOf(m.Space(), address) {
        AccessIsFree(m, n, address, m.config.register.low + i * m.config.wordSize);
      }
    }
  }

  lemma SectionWrites(m: Settings, n: nat, s: State, st: Stores, address: nat, value: nat)
    requires SectionsApart(m, n) && InSections(m, n, s, st) && m.config.memory.Contain(address) && address < m.limit
    requires value < Pow256(m.config.wordSize)
    ensures InSections(m, n, PutTo(m, s, address, value).0, SavedAt(m, st, address, value).0)
    ensures PutTo(m, s, address, value).1 == SavedAt(m, st, address, value).1
  {
    hide AfterRead, AfterWrite, WriteValue, CellRow, Represents, WellFormed, RowMissed, MemoryWindow, CellsOf, Overflows, Pow256;
    var sp := m.Space();
    if !Overflows(m, address) {
      AccessMemory(sp, s, address, value);
      WriteKeepsWellFormed(s.memory, sp, address, value);
      AccessMissesRows(m, n, s.depth, address);
      MissedRowStays(s.memory, sp, 0, s.depth, address, value);
      MissedRowStays(s.memory, sp, m.config.register.low, n, address, value);
      WriteRefines(s.memory, sp, MemoryWindow(m, n), st.written, address, value);
    }
  }

  lemma SectionLoads(m: Settings, n: nat, s: State, st: Stores, address: nat)
    requires SectionsApart(m, n) && InSections(m, n, s, st)
    requires m.config.memory.Contain(address) && address < m.limit && !Overflows(m, address)
    ensures ReadValue(s.memory, m.Space(), address) == FlatValue(st.written, m.Space(), address)
  {
    hide ReadValue, FlatValue, CellRow, Represents, WellFormed, MemoryWindow, Overflows;
    AccessIsShown(m, n, address);
    ReadRefines(s.memory, m.Space(), MemoryWindow(m, n), st.written, address);
  }

  // ---------------------------------------------------------------------------------
  // Refinement

  lemma MovInSections(m: Settings, n: nat, s: State, st: Stores, to: Register, from: Register)
    requires SectionsApart(m, n) && InSections(m, n, s, st) && IsRegister(m, n, to) && IsRegister(m, n, from)
    requires to.address < m.limit && from.address < m.limit
    ensures InSections(m, n, StepMov(m, s, to, from).0, WithRegister(st, to, st.registers[from.index]))
    ensures StepMov(m, s, to, from).1 == Done
  {
    hide AfterRead, AfterWrite, ReadValue, CellRow, Represents, WellFormed, Pow256;
    SectionGets(m, n, s, st, from);
    SectionGets(m, n, s, st, to);
    SectionReads(m, n, s, st, from.address);
    SectionSets(m, n, AfterRead(m.Space(), s, from.address), st, to, st.registers[from.index]);
  }

  lemma SwapInSections(m: Settings, n: nat, s: State, st: Stores, r: Register, top: nat)
    requires SectionsApart(m, n) && InSections(m, n, s, st) && IsRegister(m, n, r) && r.address < m.limit
    requires s.depth < m.config.stackDepth && top < Pow256(m.config.wordSize)
    ensures InSections(m, n, SwapWith(m, s, r, top).0, WithRegister(Pushed(st, st.registers[r.index]), r, top))
    ensures SwapWith(m, s, r, top).1 == Done
  {
    hide AfterRead, AfterWrite, AfterPush, ReadValue, CellRow, Represents, WellFormed, Pow256;
    var read, value := AfterRead(m.Space(), s, r.address), st.registers[r.index];
    SectionGets(m, n, s, st, r);
    SectionReads(m, n, s, st, r.address);
    SectionPushes(m, n, read, st, value);
    SectionSets(m, n, AfterPush(m.Space(), read, value), Pushed(st, value), r, top);
  }

  lemma LoadInSections(m: Settings, n: nat, s: State, st: Stores, r: Register, address: nat)
    requires SectionsApart(m, n) && InSections(m, n, s, st) && IsRegister(m, n, r) && r.address < m.limit
    requires m.config.memory.Contain(address) && address < m.limit && !Overflows(m, address)
    ensures InSections(m, n, StepLoad(m, s, r, address).0, WithRegister(st, r, FlatValue(st.written, m.Space(), address)))
    ensures StepLoad(m, s, r, address).1 == Done
  {
    hide AfterRead, AfterWrite, ReadValue, FlatValue, CellRow, Represents, WellFormed, Overflows, Pow256;
    SectionGets(m, n, s, st, r);
    SectionLoads(m, n, s, st, address);
    SectionReads(m, n, s, st, address);
    SectionSets(m, n, AfterRead(m.Space(), s, address), st, r, ReadValue(s.memory, m.Space(), address));
  }

  lemma SaveInSections(m: Settings, n: nat, s: State, st: Stores, address: nat, r: Register)
    requires SectionsApart(m, n) && InSections(m, n, s, st) && IsRegister(m, n, r) && r.address < m.limit
    requires m.config.memory.Contain(address) && address < m.limit
    ensures InSections(m, n, StepSave(m, s, address, r).0, SavedAt(m, st, address, st.registers[r.index]).0)
    ensures StepSave(m, s, address, r).1 == SavedAt(m, st, address, st.registers[r.index]).1
  {
    hide AfterRead, PutTo, SavedAt, ReadValue, CellRow, Represents, WellFormed, Overflows, Pow256;
    SectionGets(m, n, s, st, r);
    SectionReads(m, n, s, st, r.address);
    SectionWrites(m, n, AfterRead(m.Space(), s, r.address), st, address, st.registers[r.index]);
  }

  lemma AddInSections(m: Settings, n: nat, s: State, st: Stores, r: Register, o: Register)
    requires SectionsApart(m, n) && InSections(m, n, s, st) && IsRegister(m, n, r) && IsRegister(m, n, o)
    requires r.address < m.limit && o.address < m.limit
    ensures var sum := Sum(m, st.registers[r.index], st.registers[o.index]);
      && InSections(m, n, StepAdd(m, s, r, o).0, if sum.None? then st else WithRegister(st, r, sum.value))
      && StepAdd(m, s, r, o).1 == if sum.None? then Failed(AdditionOverflow) else Done
  {
    hide AfterRead, AfterWrite, ReadValue, CellRow, Represents, WellFormed, Sum, Pow256;
    var first := AfterRead(m.Space(), s, r.address);
    SectionGets(m, n, s, st, r);
    SectionGets(m, n, s, st, o);
    SectionReads(m, n, s, st, r.address);
    SectionReads(m, n, first, st, o.address);
    var sum := Sum(m, st.registers[r.index], st.registers[o.index]);
    if sum.Some? {
      SectionSets(m, n, AfterRead(m.Space(), first, o.address), st, r, sum.value);
    }
  }

  /** One instruction acts on the shared memory as on the separate stores. */
  lemma StepInSections(m: Settings, n: nat, s: State, st: Stores, op: Operation)
    requires SectionsApart(m, n) && InSections(m, n, s, st) && Legal(m, op) && Sectioned(m, n, op)
    ensures |st.registers| == n
    ensures InSections(m, n, Step(m, s, op).0, StepStores(m, st, op).0) && Step(m, s, op).1 == StepStores(m, st, op).1
  {
    hide AfterRead, AfterWrite, AfterPush, AfterPop, PutTo, SavedAt, ReadValue, FlatValue, SwapWith, StepMov, StepAdd,
      StepSave, Top, Represents, WellFormed, Overflows, IsRegister, Pow256;
    match op
    case ReadOp(a) =>
      if m.config.memory.Contain(a) && !Overflows(m, a) {
        SectionReads(m, n, s, st, a);
        SectionLoads(m, n, s, st, a);
      }
    case WriteOp(a, x) => if m.config.memory.Contain(a) { SectionWrites(m, n, s, st, a, x); }
    case PushOp(x) => if s.depth < m.config.stackDepth { SectionPushes(m, n, s, st, x); }
    case PopOp => if s.depth > 0 { SectionPops(m, n, s, st); }
    case MovOp(to, from) =>
      assert to in Operands(op) && from in Operands(op);
      MovInSections(m, n, s, st, to, from);
    case SwapOp(r) =>
      assert r in Operands(op);
      if s.depth > 0 {
        SectionPops(m, n, s, st);
        SwapInSections(m, n, AfterPop(m.Space(), s), Popped(st), r, Top(m.Space(), s));
      }
    case LoadOp(r, a) =>
      assert r in Operands(op);
      if !Overflows(m, a) { LoadInSections(m, n, s, st, r, a); }
    case SaveOp(a, r) =>
      assert r in Operands(op);
      SaveInSections(m, n, s, st, a, r);
    case InvalidOp =>
    case AddOp(r, o) =>
      assert r in Operands(op) && o in Operands(op);
      AddInSections(m, n, s, st, r, o);
  }

  lemma EmptyInSections(m: Settings, n: nat)
    requires SectionsApart(m, n)
    ensures InSections(m, n, EMPTY, Stores([], seq(n, _ => 0), []))
  {
    assert CellRow(map[], m.config.wordSize, m.config.register.low, n) == seq(n, _ => 0);
    NothingStored(m.Space(), MemoryWindow(m, n));
  }

  /** Any interleaving of instructions that keep to their sections acts as on three separate stores. */
  lemma {:induction false} RunInSections(m: Settings, n: nat, program: seq<Operation>)
    requires SectionsApart(m, n) && AllLegal(m, program) && AllSectioned(m, n, program)
    ensures InSections(m, n, Run(m, EMPTY, program).0, RunStores(m, n, program).0)
    ensures Run(m, EMPTY, program).1 == RunStores(m, n, program).1
  {
    if program == [] {
      EmptyInSections(m, n);
    } else {
      hide InSections, Step, StepStores, Legal, Sectioned;
      var front := program[..|program| - 1];
      RunInSections(m, n, front);
      StepInSections(m, n, Run(m, EMPTY, front).0, RunStores(m, n, front).0, program[|program| - 1]);
    }
  }
}
