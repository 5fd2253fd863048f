/**
 Which programs write every cell before they read it, decided on the program alone: the cells an
 instruction reads and writes depend on the stack depth but not on any value.
 */
module MachineFootprints {
  import opened Limbs
  import opened Records
  import opened ByteMemory
  import opened MachineTraces
  import opened MachineSteps

  /** The cells an access touches: none, when its second address overflows. */
  function Reached(m: Settings, address: nat): (cells: set<nat>)
    requires m.config.wordSize > 0
  {
    if Overflows(m, address) then {} else CellsOf(m.Space(), address)
  }

  function Slot(m: Settings, depth: nat): (cells: set<nat>)
    requires m.config.wordSize > 0
  {
    CellsOf(m.Space(), depth * m.config.wordSize)
  }

  predicate InOneCell(m: Settings, r: Register)
    requires m.config.wordSize > 0
  {
    r.address % m.config.wordSize == 0
  }

  /** The stack cell an instruction reads. */
  function StackReads(m: Settings, depth: nat, op: Operation): set<nat>
    requires m.config.wordSize > 0
  {
    if (op.PopOp? || op.SwapOp?) && depth > 0 then Slot(m, depth - 1) else {}
  }

  /** The other cells an instruction reads. */
  function OtherReads(m: Settings, depth: nat, op: Operation): set<nat>
    requires m.config.wordSize > 0
  {
    match op
    case ReadOp(a) => if m.config.memory.Contain(a) then Reached(m, a) else {}
    case MovOp(_, from) => Reached(m, from.address)
    case SwapOp(r) => if depth > 0 then Reached(m, r.address) else {}
    case LoadOp(_, a) => Reached(m, a)
    case SaveOp(_, r) => Reached(m, r.address)
    case AddOp(r, o) => Reached(m, r.address) + if InOneCell(m, r) then Reached(m, o.address) else {}
    case _ => {}
  }

  /** The cells an instruction writes, but for a sum, which goes to a cell that has just been read. */
  function StepWrites(m: Settings, depth: nat, op: Operation): set<nat>
    requires m.config.wordSize > 0
  {
    match op
    case WriteOp(a, _) => if m.config.memory.Contain(a) then Reached(m, a) else {}
    case PushOp(_) => if depth < m.config.stackDepth then Slot(m, depth) else {}
    case MovOp(to, from) => if InOneCell(m, from) then Reached(m, to.address) else {}
    case SwapOp(r) => if depth > 0 && InOneCell(m, r) then Slot(m, depth - 1) + Reached(m, r.address) else {}
    case LoadOp(r, a) => if Overflows(m, a) then {} else Reached(m, r.address)
    case SaveOp(a, r) => if InOneCell(m, r) then Reached(m, a) else {}
    case _ => {}
  }

  function DepthAfter(m: Settings, depth: nat, op: Operation): nat {
    match op
    case PushOp(_) => if depth < m.config.stackDepth then depth + 1 else depth
    case PopOp => if depth > 0 then depth - 1 else depth
    case SwapOp(r) => if m.config.wordSize > 0 && depth > 0 && !InOneCell(m, r) then depth - 1 else depth
    case _ => depth
  }

  /** The stack depth after a program. */
  function DepthOf(m: Settings, program: seq<Operation>): (depth: nat)
    ensures depth <= m.config.stackDepth
  {
    if program == [] then 0 else DepthAfter(m, DepthOf(m, program[..|program| - 1]), program[|program| - 1])
  }

  /** Instruction j of the program writes cell c. */
  predicate WritesAt(m: Settings, program: seq<Operation>, j: nat, c: nat)
    requires m.config.wordSize > 0 && j < |program|
  {
    c in StepWrites(m, DepthOf(m, program[..j]), program[j])
  }

  /** An instruction before k writes cell c. */
  predicate WrittenTo(m: Settings, program: seq<Operation>, k: nat, c: nat)
    requires m.config.wordSize > 0 && k <= |program|
  {
    exists j :: 0 <= j < k && WritesAt(m, program, j, c)
  }

  predicate AllWrittenTo(m: Settings, program: seq<Operation>, k: nat, cells: set<nat>)
    requires m.config.wordSize > 0 && k <= |program|
  {
    forall c :: c in cells ==> WrittenTo(m, program, k, c)
  }

  /** Instruction k reads only cells that earlier instructions wrote; the stack needs no check. */
  predicate ReadsWritten(m: Settings, program: seq<Operation>, k: nat)
    requires m.config.wordSize > 0 && k < |program|
  {
    AllWrittenTo(m, program, k, OtherReads(m, DepthOf(m, program[..k]), program[k]))
  }

  predicate WritesFirst(m: Settings, program: seq<Operation>)
    requires m.config.wordSize > 0
  {
    forall k :: 0 <= k < |program| ==> ReadsWritten(m, program, k)
  }

  // ---------------------------------------------------------------------------------
  // Traces of accesses

  predicate InStep(s: State) {
    Replay(s.trace) == s.memory
  }

  predicate Clean(s: State) {
    NoReadBeforeWrite(s.trace)
  }

  /** A record more: a read must find its cell written, a write is always clean. */
  lemma TrackIsClean(s: State, trace: seq<TraceRecord>, r: TraceRecord)
    requires trace == s.trace + [r]
    ensures NoReadBeforeWrite(trace) <==> Clean(s) && (r.instruction.Read? ==> r.address in Replay(s.trace))
  {
    assert trace[..|s.trace|] == s.trace;
    forall i | 0 <= i < |s.trace| ensures WrittenBefore(trace, i) == WrittenBefore(s.trace, i) {
      assert trace[..i] == s.trace[..i];
    }
    if NoReadBeforeWrite(trace) {
      forall i | 0 <= i < |s.trace| ensures WrittenBefore(s.trace, i) {
        assert WrittenBefore(trace, i);
      }
      assert WrittenBefore(trace, |s.trace|);
    }
  }

  lemma TrackReadIsClean(s: State, cell: nat)
    requires InStep(s)
    ensures InStep(TrackRead(s, cell))
    ensures Clean(TrackRead(s, cell)) <==> Clean(s) && cell in s.memory
  {
    var r := CellRecord(s, MemoryInstruction.Read, cell, CellAt(s.memory, cell));
    TrackIsClean(s, s.trace + [r], r);
    ReplayAppend(s.trace, r);
  }

  lemma StoreCellIsClean(s: State, cell: nat, value: nat)
    requires InStep(s)
    ensures InStep(StoreCell(s, cell, value)) && (Clean(StoreCell(s, cell, value)) <==> Clean(s))
    ensures StoreCell(s, cell, value).memory.Keys == s.memory.Keys + {cell}
  {
    var r := CellRecord(s, MemoryInstruction.Write, cell, value);
    TrackIsClean(s, s.trace + [r], r);
    ReplayAppend(s.trace, r);
  }

  lemma ReadIsClean(sp: AddressSpace, s: State, address: nat)
    requires sp.word > 0 && InStep(s)
    ensures var after := AfterRead(sp, s, address);
      && InStep(after) && after.memory == s.memory && after.depth == s.depth
      && (Clean(after) <==> Clean(s) && CellsOf(sp, address) <= s.memory.Keys)
  {
    hide Replay, NoReadBeforeWrite, CellAt;
    var lo := CellStart(sp.word, address);
    TrackReadIsClean(s, lo);
    if address % sp.word != 0 {
      TrackReadIsClean(TrackRead(s, lo), sp.NextCell(lo));
    }
  }

  lemma WriteIsClean(sp: AddressSpace, s: State, address: nat, value: nat)
    requires sp.word > 0 && InStep(s)
    ensures var after := AfterWrite(sp, s, address, value);
      && InStep(after) && after.depth == s.depth && (Clean(after) <==> Clean(s))
      && after.memory.Keys == s.memory.Keys + CellsOf(sp, address)
  {
    hide WriteCells, InStep, Clean;
    WriteCellsIsClean(sp, s, CellStart(sp.word, address), address % sp.word, value);
  }

  lemma WriteCellsIsClean(sp: AddressSpace, s: State, lo: nat, remain: nat, value: nat)
    requires remain < sp.word && InStep(s)
    ensures var after := WriteCells(sp, s, lo, remain, value);
      && InStep(after) && after.depth == s.depth && (Clean(after) <==> Clean(s))
      && after.memory.Keys == s.memory.Keys + if remain == 0 then {lo} else {lo, sp.NextCell(lo)}
  {
    hide Replay, NoReadBeforeWrite, LowBytes, HighBytes, FromBytes;
    if remain == 0 {
      StoreCellIsClean(s, lo, value);
    } else {
      var valLo := FromBytes(LowBytes(s.memory, sp, lo, remain, value));
      var valHi := FromBytes(HighBytes(s.memory, sp, lo, remain, value));
      StoreCellIsClean(s, lo, valLo);
      StoreCellIsClean(StoreCell(s, lo, valLo), sp.NextCell(lo), valHi);
    }
  }

  /** From s to after, the cells `from` of s were read and the cells `to` were written. */
  ghost predicate Touches(s: State, after: State, from: set<nat>, to: set<nat>) {
    && InStep(after)
    && (Clean(after) <==> Clean(s) && from <= s.memory.Keys)
    && after.memory.Keys == s.memory.Keys + to
  }

  lemma TouchesBoth(s: State, mid: State, after: State, r: set<nat>, w: set<nat>, r2: set<nat>, w2: set<nat>)
    requires Touches(s, mid, r, w) && Touches(mid, after, r2, w2)
    ensures Touches(s, after, r + (r2 - w), w + w2)
  {
    assert r2 <= s.memory.Keys + w <==> r2 - w <= s.memory.Keys;
  }

  lemma ReadTouches(sp: AddressSpace, s: State, address: nat)
    requires sp.word > 0 && InStep(s)
    ensures Touches(s, AfterRead(sp, s, address), CellsOf(sp, address), {})
    ensures AfterRead(sp, s, address).depth == s.depth
  {
    hide AfterRead, CellsOf;
    ReadIsClean(sp, s, address);
  }

  lemma WriteTouches(sp: AddressSpace, s: State, address: nat, value: nat)
    requires sp.word > 0 && InStep(s)
    ensures Touches(s, AfterWrite(sp, s, address, value), {}, CellsOf(sp, address))
    ensures AfterWrite(sp, s, address, value).depth == s.depth
  {
    hide AfterWrite, CellsOf;
    WriteIsClean(sp, s, address, value);
  }

  lemma NothingTouched(s: State)
    requires InStep(s)
    ensures Touches(s, s, {}, {})
  {
  }

  lemma PutTouches(m: Settings, s: State, address: nat, value: nat)
    requires m.config.wordSize > 0 && InStep(s)
    ensures Touches(s, PutTo(m, s, address, value).0, {}, Reached(m, address))
    ensures PutTo(m, s, address, value).0.depth == s.depth
  {
    hide AfterWrite, CellsOf, Touches, Overflows;
    NothingTouched(s);
    WriteTouches(m.Space(), s, address, value);
  }

  lemma PushTouches(sp: AddressSpace, s: State, value: nat)
    requires sp.word > 0 && InStep(s)
    ensures Touches(s, AfterPush(sp, s, value), {}, CellsOf(sp, s.depth * sp.word))
    ensures AfterPush(sp, s, value).depth == s.depth + 1
  {
    hide AfterWrite, CellsOf, Replay, NoReadBeforeWrite;
    var higher := s.(depth := s.depth + 1);
    assert Clean(higher) == Clean(s);
    WriteTouches(sp, higher, s.depth * sp.word, value);
  }

  lemma PopTouches(sp: AddressSpace, s: State)
    requires sp.word > 0 && InStep(s) && s.depth > 0
    ensures Touches(s, AfterPop(sp, s), CellsOf(sp, (s.depth - 1) * sp.word), {})
    ensures AfterPop(sp, s).depth == s.depth - 1
  {
    hide AfterRead, CellsOf, Replay, NoReadBeforeWrite;
    var lower := s.(depth := s.depth - 1);
    assert Clean(lower) == Clean(s);
    ReadTouches(sp, lower, (s.depth - 1) * sp.word);
  }

  lemma CopyTouches(m: Settings, s: State, from: nat, to: nat, value: nat)
    requires m.config.wordSize > 0 && InStep(s)
    ensures var after := PutTo(m, AfterRead(m.Space(), s, from), to, value).0;
      Touches(s, after, CellsOf(m.Space(), from), Reached(m, to)) && after.depth == s.depth
  {
    hide AfterRead, PutTo, CellsOf, Reached, InStep, Clean;
    var read := AfterRead(m.Space(), s, from);
    ReadTouches(m.Space(), s, from);
    PutTouches(m, read, to, value);
    CopyBoth(s, read, PutTo(m, read, to, value).0, CellsOf(m.Space(), from), Reached(m, to));
  }

  lemma CopyBoth(s: State, read: State, after: State, from: set<nat>, to: set<nat>)
    requires Touches(s, read, from, {}) && Touches(read, after, {}, to)
    ensures Touches(s, after, from, to)
  {
    hide Touches;
    TouchesBoth(s, read, after, from, {}, {}, to);
    assert from + ({} - {}) == from && {} + to == to;
  }

  /** The effect of an instruction on the set of stored cells, and when its reads are clean. */
  ghost predicate Leaves(m: Settings, s: State, after: State, op: Operation)
    requires m.config.wordSize > 0
  {
    && InStep(after) && after.depth == DepthAfter(m, s.depth, op)
    && (Clean(after) <==> Clean(s) && StackReads(m, s.depth, op) + OtherReads(m, s.depth, op) <= s.memory.Keys)
    && (Clean(after) ==> after.memory.Keys == s.memory.Keys + StepWrites(m, s.depth, op))
  }

  lemma SwapWithTouches(m: Settings, s: State, r: Register, top: nat)
    requires m.config.wordSize > 0 && InStep(s)
    ensures var after := SwapWith(m, s, r, top).0;
      && Touches(s, after, Reached(m, r.address), if InOneCell(m, r) then Slot(m, s.depth) + Reached(m, r.address) else {})
      && after.depth == if InOneCell(m, r) then s.depth + 1 else s.depth
  {
    hide AfterRead, AfterPush, AfterWrite, ReadValue, CellsOf, InStep, Clean, Touches;
    var read := AfterRead(m.Space(), s, r.address);
    var cells, slot := Reached(m, r.address), Slot(m, s.depth);
    if Overflows(m, r.address) {
      NothingTouched(s);
    } else {
      ReadTouches(m.Space(), s, r.address);
      TouchesInStep(s, read, cells, {});
      if InOneCell(m, r) {
        var value := ReadValue(s.memory, m.Space(), r.address);
        SwapWrites(m.Space(), read, value, r.address, top);
        CopyBoth(s, read, SwapWith(m, s, r, top).0, cells, slot + cells);
      }
    }
  }

  lemma TouchesInStep(s: State, after: State, from: set<nat>, to: set<nat>)
    requires Touches(s, after, from, to)
    ensures InStep(after)
  {
  }

  /** The two writes of a swap. */
  lemma SwapWrites(sp: AddressSpace, s: State, value: nat, address: nat, top: nat)
    requires sp.word > 0 && InStep(s)
    ensures var after := AfterWrite(sp, AfterPush(sp, s, value), address, top);
      && Touches(s, after, {}, CellsOf(sp, s.depth * sp.word) + CellsOf(sp, address))
      && after.depth == s.depth + 1
  {
    hide AfterPush, AfterWrite, CellsOf, InStep, Clean, Touches;
    var pushed := AfterPush(sp, s, value);
    PushTouches(sp, s, value);
    TouchesInStep(s, pushed, {}, CellsOf(sp, s.depth * sp.word));
    WriteTouches(sp, pushed, address, top);
    var slot, cells := CellsOf(sp, s.depth * sp.word), CellsOf(sp, address);
    TouchesBoth(s, pushed, AfterWrite(sp, pushed, address, top), {}, slot, {}, cells);
    assert {} + ({} - slot) == {};
  }

  lemma SwapLeaves(m: Settings, s: State, r: Register)
    requires m.config.wordSize > 0 && InStep(s)
    ensures Leaves(m, s, StepSwap(m, s, r).0, SwapOp(r))
  {
    hide AfterPop, SwapWith, Top, CellsOf, Overflows;
    if s.depth > 0 {
      var popped, top := AfterPop(m.Space(), s), Top(m.Space(), s);
      var slot, cells := Slot(m, s.depth - 1), Reached(m, r.address);
      PopTouches(m.Space(), s);
      SwapWithTouches(m, popped, r, top);
      TouchesBoth(s, popped, SwapWith(m, popped, r, top).0, slot, {}, cells, if InOneCell(m, r) then slot + cells else {});
    }
  }

  lemma AddLeaves(m: Settings, s: State, r: Register, o: Register)
    requires m.config.wordSize > 0 && InStep(s)
    ensures Leaves(m, s, StepAdd(m, s, r, o).0, AddOp(r, o))
  {
    hide AfterRead, AfterWrite, ReadValue, CellsOf, Sum;
    var first := AfterRead(m.Space(), s, r.address);
    var second := AfterRead(m.Space(), first, o.address);
    var sum := Sum(m, ReadValue(s.memory, m.Space(), r.address), ReadValue(s.memory, m.Space(), o.address));
    ReadTouches(m.Space(), s, r.address);
    if InOneCell(m, r) {
      ReadTouches(m.Space(), first, o.address);
      TouchesBoth(s, first, second, CellsOf(m.Space(), r.address), {}, CellsOf(m.Space(), o.address), {});
      if InOneCell(m, o) && sum.Some? {
        WriteTouches(m.Space(), second, r.address, sum.value);
      }
    }
  }

  lemma MovLeaves(m: Settings, s: State, to: Register, from: Register)
    requires m.config.wordSize > 0 && InStep(s)
    ensures Leaves(m, s, StepMov(m, s, to, from).0, MovOp(to, from))
  {
    hide AfterRead, PutTo, ReadValue, CellsOf;
    ReadTouches(m.Space(), s, from.address);
    CopyTouches(m, s, from.address, to.address, ReadValue(s.memory, m.Space(), from.address));
  }

  lemma SaveLeaves(m: Settings, s: State, address: nat, r: Register)
    requires m.config.wordSize > 0 && InStep(s)
    ensures Leaves(m, s, StepSave(m, s, address, r).0, SaveOp(address, r))
  {
    hide AfterRead, PutTo, ReadValue, CellsOf;
    ReadTouches(m.Space(), s, r.address);
    CopyTouches(m, s, r.address, address, ReadValue(s.memory, m.Space(), r.address));
  }

  lemma LoadLeaves(m: Settings, s: State, r: Register, address: nat)
    requires m.config.wordSize > 0 && InStep(s)
    ensures Leaves(m, s, StepLoad(m, s, r, address).0, LoadOp(r, address))
  {
    hide AfterRead, PutTo, ReadValue, CellsOf;
    CopyTouches(m, s, address, r.address, ReadValue(s.memory, m.Space(), address));
  }

  lemma ReadLeaves(m: Settings, s: State, address: nat)
    requires m.config.wordSize > 0 && InStep(s)
    ensures Leaves(m, s, StepRead(m, s, address).0, ReadOp(address))
  {
    hide AfterRead, ReadValue, CellsOf;
    ReadTouches(m.Space(), s, address);
  }

  lemma WriteLeaves(m: Settings, s: State, address: nat, value: nat)
    requires m.config.wordSize > 0 && InStep(s)
    ensures Leaves(m, s, StepWrite(m, s, address, value).0, WriteOp(address, value))
  {
    hide PutTo, CellsOf;
    PutTouches(m, s, address, value);
  }

  lemma PushLeaves(m: Settings, s: State, value: nat)
    requires m.config.wordSize > 0 && InStep(s) && s.depth <= m.config.stackDepth
    ensures Leaves(m, s, StepPush(m, s, value).0, PushOp(value))
  {
    hide AfterPush, CellsOf;
    PushTouches(m.Space(), s, value);
  }

  lemma PopLeaves(m: Settings, s: State)
    requires m.config.wordSize > 0 && InStep(s)
    ensures Leaves(m, s, StepPop(m, s).0, PopOp)
  {
    hide AfterPop, Top, CellsOf;
    if s.depth > 0 {
      PopTouches(m.Space(), s);
    }
  }

  lemma StepLeaves(m: Settings, s: State, op: Operation)
    requires m.config.wordSize > 0 && InStep(s) && s.depth <= m.config.stackDepth
    ensures Leaves(m, s, Step(m, s, op).0, op)
  {
    hide StepRead, StepWrite, StepPush, StepPop, StepMov, StepSwap, StepLoad, StepSave, StepAdd;
    match op
    case ReadOp(a) => ReadLeaves(m, s, a);
    case WriteOp(a, x) => WriteLeaves(m, s, a, x);
    case PushOp(x) => PushLeaves(m, s, x);
    case PopOp => PopLeaves(m, s);
    case MovOp(to, from) => MovLeaves(m, s, to, from);
    case SwapOp(r) => SwapLeaves(m, s, r);
    case LoadOp(r, a) => LoadLeaves(m, s, r, a);
    case SaveOp(a, r) => SaveLeaves(m, s, a, r);
    case InvalidOp =>
    case AddOp(r, o) => AddLeaves(m, s, r, o);
  }

  // ---------------------------------------------------------------------------------
  // Programs

  /** The stored cells are those the program wrote. */
  ghost predicate StoredAre(m: Settings, s: State, program: seq<Operation>)
    requires m.config.wordSize > 0
  {
    forall c :: c in s.memory <==> WrittenTo(m, program, |program|, c)
  }

  /** A longer program writes what its front wrote and what its last instruction writes. */
  lemma WrittenOneMore(m: Settings, program: seq<Operation>, c: nat)
    requires m.config.wordSize > 0 && program != []
    ensures var n := |program| - 1;
      WrittenTo(m, program, n + 1, c)
      <==> WrittenTo(m, program[..n], n, c) || c in StepWrites(m, DepthOf(m, program[..n]), program[n])
  {
    var n := |program| - 1;
    WrittenInFront(m, program, n, n, c);
    assert WritesAt(m, program, n, c) <==> c in StepWrites(m, DepthOf(m, program[..n]), program[n]);
    if WrittenTo(m, program, n + 1, c) && !WritesAt(m, program, n, c) {
      var j :| 0 <= j < n + 1 && WritesAt(m, program, j, c);
      assert 0 <= j < n;
    }
  }

  /** What was written before k does not depend on later instructions. */
  lemma WrittenInFront(m: Settings, program: seq<Operation>, n: nat, k: nat, c: nat)
    requires m.config.wordSize > 0 && k <= n <= |program|
    ensures WrittenTo(m, program[..n], k, c) <==> WrittenTo(m, program, k, c)
  {
    forall j | 0 <= j < k ensures WritesAt(m, program[..n], j, c) == WritesAt(m, program, j, c) {
      assert program[..n][..j] == program[..j];
    }
    if WrittenTo(m, program[..n], k, c) {
      var j :| 0 <= j < k && WritesAt(m, program[..n], j, c);
      assert WritesAt(m, program, j, c);
    }
    if WrittenTo(m, program, k, c) {
      var j :| 0 <= j < k && WritesAt(m, program, j, c);
      assert WritesAt(m, program[..n], j, c);
    }
  }

  /** The condition on a longer program is the one on its front and on its last instruction. */
  lemma WritesFirstOneMore(m: Settings, program: seq<Operation>)
    requires m.config.wordSize > 0 && program != []
    ensures var n := |program| - 1;
      WritesFirst(m, program)
      <==> WritesFirst(m, program[..n]) && AllWrittenTo(m, program[..n], n, OtherReads(m, DepthOf(m, program[..n]), program[n]))
  {
    var n := |program| - 1;
    forall k | 0 <= k < n ensures ReadsWritten(m, program[..n], k) == ReadsWritten(m, program, k) {
      assert program[..n][..k] == program[..k];
      AllWrittenInFront(m, program, n, k, OtherReads(m, DepthOf(m, program[..k]), program[k]));
    }
    AllWrittenInFront(m, program, n, n, OtherReads(m, DepthOf(m, program[..n]), program[n]));
    if WritesFirst(m, program) {
      assert ReadsWritten(m, program, n);
      forall k | 0 <= k < n ensures ReadsWritten(m, program[..n], k) {
        assert ReadsWritten(m, program, k);
      }
    }
  }

  lemma AllWrittenInFront(m: Settings, program: seq<Operation>, n: nat, k: nat, cells: set<nat>)
    requires m.config.wordSize > 0 && k <= n <= |program|
    ensures AllWrittenTo(m, program[..n], k, cells) <==> AllWrittenTo(m, program, k, cells)
  {
    forall c ensures WrittenTo(m, program[..n], k, c) <==> WrittenTo(m, program, k, c) {
      WrittenInFront(m, program, n, k, c);
    }
  }

  /** Every slot below the depth has been written, so a pop never reads an unwritten cell. */
  lemma {:induction false} StackIsWritten(m: Settings, program: seq<Operation>, d: nat)
    requires m.config.wordSize > 0 && d < DepthOf(m, program)
    ensures AllWrittenTo(m, program, |program|, Slot(m, d))
  {
    var n := |program| - 1;
    var front := program[..n];
    if d < DepthOf(m, front) {
      StackIsWritten(m, front, d);
    }
    forall c | c in Slot(m, d) ensures WrittenTo(m, program, |program|, c) {
      WrittenOneMore(m, program, c);
    }
  }

  /** A clean run stores exactly the cells its program writes, and is clean exactly when the program writes first. */
  lemma {:induction false} RunIsClean(m: Settings, program: seq<Operation>)
    requires m.config.wordSize > 0
    ensures var s := Run(m, EMPTY, program).0;
      && InStep(s) && s.depth == DepthOf(m, program)
      && (Clean(s) <==> WritesFirst(m, program)) && (Clean(s) ==> StoredAre(m, s, program))
    decreases |program|
  {
    if program != [] {
      var n := |program| - 1;
      var before := Run(m, EMPTY, program[..n]).0;
      RunIsClean(m, program[..n]);
      StepLeaves(m, before, program[n]);
      WritesFirstOneMore(m, program);
      if Clean(before) {
        StepReadsWritten(m, program, before);
      }
    }
  }

  /** On a clean front the last instruction's reads are clean exactly when they were written. */
  lemma StepReadsWritten(m: Settings, program: seq<Operation>, before: State)
    requires m.config.wordSize > 0 && program != []
    requires before.depth == DepthOf(m, program[..|program| - 1]) && StoredAre(m, before, program[..|program| - 1])
    ensures var n := |program| - 1;
      && StackReads(m, before.depth, program[n]) <= before.memory.Keys
      && (OtherReads(m, before.depth, program[n]) <= before.memory.Keys
          <==> AllWrittenTo(m, program[..n], n, OtherReads(m, before.depth, program[n])))
      && forall c :: c in before.memory.Keys + StepWrites(m, before.depth, program[n]) <==> WrittenTo(m, program, n + 1, c)
  {
    hide StepWrites, OtherReads, DepthOf, WrittenTo, CellsOf;
    var n := |program| - 1;
    if before.depth > 0 {
      StackIsWritten(m, program[..n], before.depth - 1);
    }
    forall c ensures c in before.memory.Keys + StepWrites(m, before.depth, program[n]) <==> WrittenTo(m, program, n + 1, c) {
      WrittenOneMore(m, program, c);
    }
  }

  /**
   Whether a run from a fresh machine reads a cell before writing it can be read off the program,
   in any layout.
   */
  lemma CleanRuns(m: Settings, program: seq<Operation>)
    requires m.config.wordSize > 0
    ensures NoReadBeforeWrite(Run(m, EMPTY, program).0.trace) <==> WritesFirst(m, program)
  {
    RunIsClean(m, program);
  }
}
