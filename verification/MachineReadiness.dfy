/**
 When the sections lie apart, writing every cell before reading it is a condition on registers and
 memory accesses alone: the stack takes care of itself, and the three sections share no cell.
 */
module MachineReadiness {
  import opened ByteMemory
  import opened MachineSections
  import opened MachineTraces
  import opened MachineSteps
  import opened MachineStores
  import opened MachineFootprints

  /** At this stack depth the instruction gives register i a value of its own accord. */
  predicate SetsRegister(m: Settings, depth: nat, op: Operation, i: nat)
    requires m.config.wordSize > 0
  {
    || (op.MovOp? && op.to.index == i)
    || (op.LoadOp? && op.register.index == i && !Overflows(m, op.address))
    || (op.SwapOp? && depth > 0 && op.register.index == i)
  }

  /** At this stack depth the instruction needs a value in register i. */
  predicate UsesRegister(depth: nat, op: Operation, i: nat) {
    || (op.MovOp? && op.from.index == i)
    || (op.SwapOp? && depth > 0 && op.register.index == i)
    || (op.SaveOp? && op.register.index == i)
    || (op.AddOp? && (op.register.index == i || op.other.index == i))
  }

  predicate FillsCell(m: Settings, op: Operation, c: nat)
    requires m.config.wordSize > 0
  {
    && ((op.WriteOp? && m.config.memory.Contain(op.address)) || op.SaveOp?)
    && c in Reached(m, op.address)
  }

  predicate NeedsCell(m: Settings, op: Operation, c: nat)
    requires m.config.wordSize > 0
  {
    && ((op.ReadOp? && m.config.memory.Contain(op.address)) || op.LoadOp?)
    && c in Reached(m, op.address)
  }

  predicate SetsAt(m: Settings, program: seq<Operation>, j: nat, i: nat)
    requires m.config.wordSize > 0 && j < |program|
  {
    SetsRegister(m, DepthOf(m, program[..j]), program[j], i)
  }

  predicate SetBefore(m: Settings, program: seq<Operation>, k: nat, i: nat)
    requires m.config.wordSize > 0 && k <= |program|
  {
    exists j :: 0 <= j < k && SetsAt(m, program, j, i)
  }

  predicate FilledBefore(m: Settings, program: seq<Operation>, k: nat, c: nat)
    requires m.config.wordSize > 0 && k <= |program|
  {
    exists j :: 0 <= j < k && FillsCell(m, program[j], c)
  }

  /** Every register instruction k uses was set before, every memory cell it needs was filled before. */
  ghost predicate Ready(m: Settings, program: seq<Operation>, k: nat)
    requires m.config.wordSize > 0 && k < |program|
  {
    && (forall i :: UsesRegister(DepthOf(m, program[..k]), program[k], i) ==> SetBefore(m, program, k, i))
    && (forall c :: NeedsCell(m, program[k], c) ==> FilledBefore(m, program, k, c))
  }

  ghost predicate AllReady(m: Settings, program: seq<Operation>)
    requires m.config.wordSize > 0
  {
    forall k :: 0 <= k < |program| ==> Ready(m, program, k)
  }

  // ---------------------------------------------------------------------------------
  // The sections share no cell

  lemma RegisterCell(m: Settings, n: nat, r: Register, i: nat)
    requires SectionsApart(m, n) && IsRegister(m, n, r)
    ensures Reached(m, r.address) == {r.address} && InOneCell(m, r)
    ensures AboveStack(m, r.address)
    ensures r.address == m.config.RegisterAddress(i) <==> r.index == i
  {
    RegisterIsCell(m, n, r);
    if r.index != i {
      SlotsDiffer(m.config.wordSize, if r.index < i then r.index else i, if r.index < i then i else r.index);
    }
  }

  predicate AboveStack(m: Settings, c: nat) {
    m.config.stackDepth * m.config.wordSize <= c
  }

  predicate OutsideFile(m: Settings, n: nat, c: nat) {
    forall i :: 0 <= i < n ==> c != m.config.RegisterAddress(i)
  }

  lemma StackCell(m: Settings, n: nat, d: nat, c: nat)
    requires SectionsApart(m, n) && d < m.config.stackDepth && c in Slot(m, d)
    ensures !AboveStack(m, c)
  {
    StackSlot(m.config.wordSize, d, m.config.stackDepth);
  }

  lemma MemoryCell(m: Settings, n: nat, address: nat, c: nat)
    requires SectionsApart(m, n) && m.config.memory.Contain(address) && address < m.limit && c in Reached(m, address)
    ensures AboveStack(m, c) && OutsideFile(m, n, c)
  {
    hide CellsOf, Overflows, EndIsFree;
    AccessIsFree(m, n, address, c);
    forall i | 0 <= i < n ensures c != m.config.RegisterAddress(i) {
      RegisterSlot(m.config.wordSize, m.config.register.low, i, n);
    }
  }

  /** Outside the stack, an instruction writes the registers it sets and the memory cells it fills. */
  lemma WritesBySection(m: Settings, n: nat, depth: nat, op: Operation, c: nat)
    requires SectionsApart(m, n) && Legal(m, op) && Sectioned(m, n, op) && depth <= m.config.stackDepth && AboveStack(m, c)
    ensures c in StepWrites(m, depth, op)
      <==> FillsCell(m, op, c) || exists r :: r in Operands(op) && SetsRegister(m, depth, op, r.index) && c == r.address
  {
    hide Reached, Slot, IsRegister;
    match op
    case WriteOp(a, _) =>
    case PushOp(_) => if depth < m.config.stackDepth && c in Slot(m, depth) { StackCell(m, n, depth, c); }
    case MovOp(to, from) =>
      assert to in Operands(op) && from in Operands(op);
      RegisterCell(m, n, to, to.index);
      RegisterCell(m, n, from, to.index);
    case SwapOp(r) =>
      assert r in Operands(op);
      RegisterCell(m, n, r, r.index);
      if depth > 0 && c in Slot(m, depth - 1) { StackCell(m, n, depth - 1, c); }
    case LoadOp(r, _) =>
      assert r in Operands(op);
      RegisterCell(m, n, r, r.index);
    case SaveOp(_, r) =>
      assert r in Operands(op);
      RegisterCell(m, n, r, r.index);
    case _ =>
  }

  lemma WritesRegister(m: Settings, n: nat, depth: nat, op: Operation, i: nat)
    requires SectionsApart(m, n) && Legal(m, op) && Sectioned(m, n, op) && depth <= m.config.stackDepth && i < n
    ensures m.config.RegisterAddress(i) in StepWrites(m, depth, op) <==> SetsRegister(m, depth, op, i)
  {
    hide Reached, StepWrites, IsRegister;
    var c := m.config.RegisterAddress(i);
    RegisterCell(m, n, Register(i, c), i);
    WritesBySection(m, n, depth, op, c);
    if FillsCell(m, op, c) {
      MemoryCell(m, n, op.address, c);
    }
    forall r | r in Operands(op) ensures c == r.address <==> r.index == i {
      RegisterCell(m, n, r, i);
    }
    match op
    case MovOp(to, _) => assert to in Operands(op);
    case LoadOp(r, _) => assert r in Operands(op);
    case SwapOp(r) => assert r in Operands(op);
    case _ =>
  }

  lemma WritesMemory(m: Settings, n: nat, depth: nat, op: Operation, c: nat)
    requires SectionsApart(m, n) && Legal(m, op) && Sectioned(m, n, op) && depth <= m.config.stackDepth
    requires AboveStack(m, c) && OutsideFile(m, n, c)
    ensures c in StepWrites(m, depth, op) <==> FillsCell(m, op, c)
  {
    hide Reached, StepWrites;
    WritesBySection(m, n, depth, op, c);
  }

  // ---------------------------------------------------------------------------------
  // Programs

  lemma SetIsWritten(m: Settings, n: nat, program: seq<Operation>, k: nat, i: nat)
    requires SectionsApart(m, n) && AllLegal(m, program) && AllSectioned(m, n, program) && k <= |program| && i < n
    ensures WrittenTo(m, program, k, m.config.RegisterAddress(i)) <==> SetBefore(m, program, k, i)
  {
    hide StepWrites, SetsRegister, DepthOf, Sectioned;
    var c := m.config.RegisterAddress(i);
    forall j | 0 <= j < k ensures WritesAt(m, program, j, c) <==> SetsAt(m, program, j, i) {
      WritesRegister(m, n, DepthOf(m, program[..j]), program[j], i);
    }
    if WrittenTo(m, program, k, c) {
      var j :| 0 <= j < k && WritesAt(m, program, j, c);
      assert SetsAt(m, program, j, i);
    }
    if SetBefore(m, program, k, i) {
      var j :| 0 <= j < k && SetsAt(m, program, j, i);
      assert WritesAt(m, program, j, c);
    }
  }

  lemma FilledIsWritten(m: Settings, n: nat, program: seq<Operation>, k: nat, c: nat)
    requires SectionsApart(m, n) && AllLegal(m, program) && AllSectioned(m, n, program) && k <= |program|
    requires AboveStack(m, c) && OutsideFile(m, n, c)
    ensures WrittenTo(m, program, k, c) <==> FilledBefore(m, program, k, c)
  {
    hide StepWrites, DepthOf, Sectioned, FillsCell;
    forall j | 0 <= j < k ensures WritesAt(m, program, j, c) <==> FillsCell(m, program[j], c) {
      WritesMemory(m, n, DepthOf(m, program[..j]), program[j], c);
    }
    if WrittenTo(m, program, k, c) {
      var j :| 0 <= j < k && WritesAt(m, program, j, c);
      assert FillsCell(m, program[j], c);
    }
    if FilledBefore(m, program, k, c) {
      var j :| 0 <= j < k && FillsCell(m, program[j], c);
      assert WritesAt(m, program, j, c);
    }
  }

  /** What an instruction reads outside the stack: the registers it uses and the cells it needs. */
  lemma ReadsBySection(m: Settings, n: nat, depth: nat, op: Operation, c: nat)
    requires SectionsApart(m, n) && Sectioned(m, n, op)
    ensures c in OtherReads(m, depth, op)
      <==> NeedsCell(m, op, c) || exists r :: r in Operands(op) && UsesRegister(depth, op, r.index) && c == r.address
  {
    hide Reached, IsRegister;
    match op
    case MovOp(to, from) =>
      assert to in Operands(op) && from in Operands(op);
      RegisterCell(m, n, from, from.index);
      RegisterCell(m, n, to, from.index);
    case SwapOp(r) =>
      assert r in Operands(op);
      RegisterCell(m, n, r, r.index);
    case LoadOp(r, _) =>
    case SaveOp(_, r) =>
      assert r in Operands(op);
      RegisterCell(m, n, r, r.index);
    case AddOp(r, o) =>
      assert r in Operands(op) && o in Operands(op);
      RegisterCell(m, n, r, r.index);
      RegisterCell(m, n, o, o.index);
    case _ =>
  }

  lemma ReadyIsWritten(m: Settings, n: nat, program: seq<Operation>, k: nat)
    requires SectionsApart(m, n) && AllLegal(m, program) && AllSectioned(m, n, program) && k < |program|
    ensures ReadsWritten(m, program, k) <==> Ready(m, program, k)
  {
    if ReadsWritten(m, program, k) {
      ReadsMakeReady(m, n, program, k);
    }
    if Ready(m, program, k) {
      ReadyMakesReads(m, n, program, k);
    }
  }

  lemma ReadsMakeReady(m: Settings, n: nat, program: seq<Operation>, k: nat)
    requires SectionsApart(m, n) && AllLegal(m, program) && AllSectioned(m, n, program) && k < |program| && ReadsWritten(m, program, k)
    ensures Ready(m, program, k)
  {
    hide OtherReads, DepthOf, WrittenTo, NeedsCell, SetBefore, FilledBefore;
    var depth, op := DepthOf(m, program[..k]), program[k];
    forall i | UsesRegister(depth, op, i) ensures SetBefore(m, program, k, i) {
      var r :| r in Operands(op) && r.index == i && IsRegister(m, n, r);
      ReadsBySection(m, n, depth, op, r.address);
      SetIsWritten(m, n, program, k, i);
    }
    forall c | NeedsCell(m, op, c) ensures FilledBefore(m, program, k, c) {
      ReadsBySection(m, n, depth, op, c);
      NeededIsMemory(m, n, op, c);
      FilledIsWritten(m, n, program, k, c);
    }
  }

  lemma ReadyMakesReads(m: Settings, n: nat, program: seq<Operation>, k: nat)
    requires SectionsApart(m, n) && AllLegal(m, program) && AllSectioned(m, n, program) && k < |program| && Ready(m, program, k)
    ensures ReadsWritten(m, program, k)
  {
    hide OtherReads, DepthOf, WrittenTo, NeedsCell, SetBefore, FilledBefore;
    var depth, op := DepthOf(m, program[..k]), program[k];
    forall c | c in OtherReads(m, depth, op) ensures WrittenTo(m, program, k, c) {
      ReadsBySection(m, n, depth, op, c);
      if NeedsCell(m, op, c) {
        NeededIsMemory(m, n, op, c);
        FilledIsWritten(m, n, program, k, c);
      } else {
        var r :| r in Operands(op) && UsesRegister(depth, op, r.index) && c == r.address;
        SetIsWritten(m, n, program, k, r.index);
      }
    }
  }

  lemma NeededIsMemory(m: Settings, n: nat, op: Operation, c: nat)
    requires SectionsApart(m, n) && Legal(m, op) && Sectioned(m, n, op) && NeedsCell(m, op, c)
    ensures AboveStack(m, c) && OutsideFile(m, n, c)
  {
    MemoryCell(m, n, op.address, c);
  }

  /** When the sections lie apart a program writes first exactly when each instruction finds its operands ready. */
  lemma WritesFirstIsReady(m: Settings, n: nat, program: seq<Operation>)
    requires SectionsApart(m, n) && AllLegal(m, program) && AllSectioned(m, n, program)
    ensures WritesFirst(m, program) <==> AllReady(m, program)
  {
    hide ReadsWritten, Ready, AllSectioned;
    forall k | 0 <= k < |program| ensures ReadsWritten(m, program, k) <==> Ready(m, program, k) {
      ReadyIsWritten(m, n, program, k);
    }
  }

  /**
   With sections that lie apart a run from a fresh machine reads no cell before writing it exactly when every
   register is set before it is used and every memory cell filled before it is read.
   */
  lemma ReadyRuns(m: Settings, n: nat, program: seq<Operation>)
    requires SectionsApart(m, n) && AllLegal(m, program) && AllSectioned(m, n, program)
    ensures NoReadBeforeWrite(Run(m, EMPTY, program).0.trace) <==> AllReady(m, program)
  {
    CleanRuns(m, program);
    WritesFirstIsReady(m, n, program);
  }
}
