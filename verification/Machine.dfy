/**
 The RAM, stack and register machine: byte-addressed cell memory with a time-stamped trace, a
 stack that grows from address 0, registers and the instruction set. The methods compute the
 steps of MachineSteps, in either layout.
 */
module Machine {
  import opened Powers
  import opened Limbs
  import opened Records
  import opened ByteMemory
  import opened MachineTraces
  import opened MachineSteps
  import opened Config

  datatype MachineResult<+T> = Ok(value: T) | Err(error: Error)

  datatype CellInteraction =
    | SingleCell(instruction: MemoryInstruction, address: nat, value: nat)
    | DoubleCell(instruction: MemoryInstruction, address: nat, value: nat,
                 addressLo: nat, valueLo: nat, addressHi: nat, valueHi: nat)

  /** What a read reports: the cell, or the joined value and the two cells it came from. */
  function ReadInteraction(sp: AddressSpace, memory: Cells, address: nat): CellInteraction
    requires sp.word > 0
  {
    var lo := CellStart(sp.word, address);
    if address % sp.word == 0 then SingleCell(MemoryInstruction.Read, address, CellAt(memory, address))
    else DoubleCell(MemoryInstruction.Read, address, ReadValue(memory, sp, address),
                    lo, CellAt(memory, lo), sp.NextCell(lo), CellAt(memory, sp.NextCell(lo)))
  }

  /** What a write reports: the cell, or the value and the two cells it went to, as they are afterwards. */
  function WriteInteraction(sp: AddressSpace, memory: Cells, address: nat, value: nat): CellInteraction
    requires sp.word > 0
  {
    var lo, after := CellStart(sp.word, address), WriteValue(memory, sp, address, value);
    if address % sp.word == 0 then SingleCell(MemoryInstruction.Write, address, value)
    else DoubleCell(MemoryInstruction.Write, address, value,
                    lo, CellAt(after, lo), sp.NextCell(lo), CellAt(after, sp.NextCell(lo)))
  }

  /** Splicing the value into the two cells is what an unaligned write does to the state, and what it reports. */
  lemma SplicedWrite(sp: AddressSpace, s: State, address: nat, lo: nat, value: nat, valLo: nat, valHi: nat)
    requires sp.Valid() && address < sp.limit && lo == CellStart(sp.word, address) && address % sp.word != 0
    requires valLo == FromBytes(ToBytes(CellAt(s.memory, lo), sp.word)[..address - lo]
                                + ToBytes(value, sp.word)[..sp.word - (address - lo)])
    requires valHi == FromBytes(ToBytes(value, sp.word)[sp.word - (address - lo)..]
                                + ToBytes(CellAt(s.memory, sp.NextCell(lo)), sp.word)[address - lo..])
    ensures valLo < Pow256(sp.word) && valHi < Pow256(sp.word)
    ensures sp.NextCell(lo) % sp.word == 0 && sp.NextCell(lo) < sp.limit
    ensures AfterWrite(sp, s, address, value) == StoreCell(StoreCell(s, lo, valLo), sp.NextCell(lo), valHi)
    ensures WriteInteraction(sp, s.memory, address, value)
      == DoubleCell(MemoryInstruction.Write, address, value, lo, valLo, sp.NextCell(lo), valHi)
  {
    hide FromBytes, ToBytes, Pow256, CellAt;
    NextCellFits(sp, lo);
    StoredAreRead(s.memory, lo, valLo, sp.NextCell(lo), valHi);
  }

  lemma StoredAreRead(memory: Cells, a: nat, x: nat, b: nat, y: nat)
    requires a != b
    ensures CellAt(memory[a := x][b := y], a) == x && CellAt(memory[a := x][b := y], b) == y
  {
  }

  /** The access's records: one for each cell it reports, at the clock's time, with the stack depth in force. */
  predicate Recorded(was: seq<TraceRecord>, now: seq<TraceRecord>, depth: nat, i: CellInteraction) {
    match i
    case SingleCell(kind, a, x) => now == was + [TraceRecord(|was|, depth, kind, a, x)]
    case DoubleCell(kind, _, _, lo, x, hi, y) =>
      now == was + [TraceRecord(|was|, depth, kind, lo, x), TraceRecord(|was| + 1, depth, kind, hi, y)]
  }

  /** The reported cells are the memory's, and those of the bytes from the address on. */
  predicate Describes(sp: AddressSpace, memory: Cells, address: nat, i: CellInteraction)
    requires sp.word > 0
  {
    match i
    case SingleCell(_, a, x) => a == address && address % sp.word == 0 && CellAt(memory, address) == x
    case DoubleCell(_, a, _, lo, x, hi, y) =>
      && a == address && lo % sp.word == 0 && lo < address < lo + sp.word
      && hi == (if lo + sp.word < sp.limit then lo + sp.word else 0)
      && CellAt(memory, lo) == x && CellAt(memory, hi) == y
  }

  /** Inserts a record into a trace ordered by time. */
  function InsertByTime(trace: seq<TraceRecord>, r: TraceRecord): seq<TraceRecord> {
    if trace == [] then [r]
    else if r.timeLog < trace[0].timeLog then [r] + trace
    else [trace[0]] + InsertByTime(trace[1..], r)
  }

  lemma {:induction false} InsertAdds(trace: seq<TraceRecord>, r: TraceRecord)
    ensures multiset(InsertByTime(trace, r)) == multiset(trace) + multiset{r}
  {
    if trace != [] {
      assert trace == [trace[0]] + trace[1..];
      InsertAdds(trace[1..], r);
    }
  }

  lemma {:induction false} InsertedFrom(trace: seq<TraceRecord>, r: TraceRecord, i: nat)
    requires i < |InsertByTime(trace, r)|
    ensures InsertByTime(trace, r)[i] == r || InsertByTime(trace, r)[i] in trace
  {
    if trace != [] && trace[0].timeLog <= r.timeLog && i > 0 {
      InsertedFrom(trace[1..], r, i - 1);
    }
  }

  /** Insertion keeps a time-ordered trace ordered. */
  lemma {:induction false} InsertKeepsOrder(trace: seq<TraceRecord>, r: TraceRecord)
    requires TimesIncrease(trace) && forall i :: 0 <= i < |trace| ==> trace[i].timeLog != r.timeLog
    ensures TimesIncrease(InsertByTime(trace, r))
  {
    if trace != [] && trace[0].timeLog < r.timeLog {
      var rest := InsertByTime(trace[1..], r);
      InsertKeepsOrder(trace[1..], r);
      forall i | 0 <= i < |rest| ensures trace[0].timeLog < rest[i].timeLog {
        InsertedFrom(trace[1..], r, i);
      }
      InFrontIsOrdered(trace[0], rest);
    }
  }

  lemma InFrontIsOrdered(first: TraceRecord, rest: seq<TraceRecord>)
    requires TimesIncrease(rest) && forall i :: 0 <= i < |rest| ==> first.timeLog < rest[i].timeLog
    ensures TimesIncrease([first] + rest)
  {
  }

  lemma {:induction false} LatestIsAppended(trace: seq<TraceRecord>, r: TraceRecord)
    requires forall i :: 0 <= i < |trace| ==> trace[i].timeLog < r.timeLog
    ensures InsertByTime(trace, r) == trace + [r]
  {
    if trace != [] {
      LatestIsAppended(trace[1..], r);
    }
  }

  /** The next record of a clocked trace meets no equal time and goes to the end. */
  lemma NextIsAppended(trace: seq<TraceRecord>, r: TraceRecord)
    requires IsMachineTrace(trace) && r.timeLog == |trace|
    ensures TimesIncrease(trace) && forall i :: 0 <= i < |trace| ==> trace[i].timeLog != r.timeLog
    ensures InsertByTime(trace, r) == trace + [r]
  {
    ClockOf(trace);
    LatestIsAppended(trace, r);
  }

  /** The value that starts partLo bytes into the low cell. */
  method JoinCells(valLo: nat, valHi: nat, word: nat, partLo: nat) returns (value: nat)
    requires 0 < partLo < word
    ensures value == FromBytes(ToBytes(valLo, word)[partLo..] + ToBytes(valHi, word)[..partLo])
  {
    var partHi := word - partLo;
    var bytesLo, bytesHi := ToBytes(valLo, word), ToBytes(valHi, word);
    var buf := new Byte[word](_ => 0);
    forall k | 0 <= k < partLo {
      buf[partHi + k] := bytesHi[k];
    }
    forall k | 0 <= k < partHi {
      buf[k] := bytesLo[partLo + k];
    }
    assert buf[..] == bytesLo[partLo..] + bytesHi[..partLo];
    value := FromBytes(buf[..]);
  }

  /** The two cells after a value has been written partLo bytes into the low one. */
  method SplitIntoCells(oldLo: nat, oldHi: nat, value: nat, word: nat, partLo: nat) returns (valLo: nat, valHi: nat)
    requires 0 < partLo < word
    ensures valLo == FromBytes(ToBytes(oldLo, word)[..partLo] + ToBytes(value, word)[..word - partLo])
    ensures valHi == FromBytes(ToBytes(value, word)[word - partLo..] + ToBytes(oldHi, word)[partLo..])
  {
    var partHi := word - partLo;
    var val, bytesLo, bytesHi := ToBytes(value, word), ToBytes(oldLo, word), ToBytes(oldHi, word);
    var buf := new Byte[word](k requires 0 <= k < word => bytesLo[k]);
    forall k | partLo <= k < word {
      buf[k] := val[k - partLo];
    }
    assert buf[..] == bytesLo[..partLo] + val[..partHi];
    valLo := FromBytes(buf[..]);
    buf := new Byte[word](k requires 0 <= k < word => bytesHi[k]);
    forall k | 0 <= k < partLo {
      buf[k] := val[partHi + k];
    }
    assert buf[..] == val[partHi..] + bytesHi[partLo..];
    valHi := FromBytes(buf[..]);
  }

  lemma PoppedDepth(sp: AddressSpace, s: State)
    requires sp.word > 0 && s.depth > 0
    ensures AfterPop(sp, s).depth == s.depth - 1
  {
    AccessMemory(sp, s.(depth := s.depth - 1), (s.depth - 1) * sp.word, 0);
  }

  class StateMachine {
    const settings: Settings
    var memory: Cells
    var timeLog: nat
    var stackDepth: nat
    var stackPtr: nat
    var executionTrace: seq<TraceRecord>

    ghost function Now(): State
      reads this
    {
      State(memory, stackDepth, executionTrace)
    }

    /**
     The memory is the replay of the trace, the trace is clocked without gaps, and the stack
     pointer is the depth in words. The layout of the sections does not matter.
     */
    ghost predicate Valid()
      reads this
    {
      && StackFits(settings) && Good(settings, Now())
      && timeLog == |executionTrace|
      && stackPtr == stackDepth * settings.config.wordSize
    }

    constructor (config: Config, args: ConfigArgs, max: nat, wraps: bool)
      requires Separated(config, args, max) && AddressSpace(config.wordSize, max + 1).Valid()
      ensures Valid() && Now() == EMPTY
      ensures settings == Settings(config, max + 1, wraps)
    {
      settings := Settings(config, max + 1, wraps);
      memory := map[];
      timeLog := 0;
      stackDepth := 0;
      stackPtr := 0;
      executionTrace := [];
      new;
      EmptyIsGood(settings);
    }

    /** Adds a record to the ordered trace; the order panics on equal times. */
    method TrackRecord(r: TraceRecord)
      requires TimesIncrease(executionTrace)
      requires forall i :: 0 <= i < |executionTrace| ==> executionTrace[i].timeLog != r.timeLog
      modifies this`executionTrace
      ensures TimesIncrease(executionTrace) && multiset(executionTrace) == multiset(old(executionTrace)) + multiset{r}
      ensures executionTrace == InsertByTime(old(executionTrace), r)
    {
      InsertKeepsOrder(executionTrace, r);
      InsertAdds(executionTrace, r);
      executionTrace := InsertByTime(executionTrace, r);
    }

    function DummyRead(address: nat): nat
      reads this
    {
      CellAt(memory, address)
    }

    /** The two cells of an unaligned access, unless the addition panics. */
    function ComputeAddress(address: nat, remain: nat): Option<(nat, nat)>
      requires remain <= address && settings.limit > 0
    {
      var base := address - remain;
      if base + settings.config.wordSize < settings.limit then Some((base, base + settings.config.wordSize))
      else if settings.wraps then Some((base, (base + settings.config.wordSize) % settings.limit))
      else None
    }

    /** Either both cells, or the overflow of a checking build. */
    lemma ComputedCells(address: nat)
      requires StackFits(settings) && address < settings.limit && address % settings.config.wordSize != 0
      ensures var word, lo := settings.config.wordSize, CellStart(settings.config.wordSize, address);
        && address - address % word == lo
        && ComputeAddress(address, address % word)
           == if Overflows(settings, address) then None else Some((lo, settings.Space().NextCell(lo)))
    {
      var lo := CellStart(settings.config.wordSize, address);
      NextCellFits(settings.Space(), lo);
      if lo + settings.config.wordSize == settings.limit {
        DivisionIsUnique(settings.limit, settings.limit, 1, 0);
      }
    }

    /** Tracks the read of one cell at the given time. */
    method RecordRead(time: nat, cell: nat, value: nat)
      requires Good(settings, Now()) && cell < settings.limit && time == |executionTrace| && value == CellAt(memory, cell)
      modifies this`executionTrace
      ensures Good(settings, Now()) && Now() == TrackRead(old(Now()), cell)
    {
      var r := TraceRecord(time, stackDepth, MemoryInstruction.Read, cell, value);
      NextIsAppended(executionTrace, r);
      TrackReadKeepsGood(settings, Now(), cell);
      TrackRecord(r);
    }

    method ReadTwoCells(address: nat) returns (r: MachineResult<CellInteraction>)
      requires Valid() && address < settings.limit && address % settings.config.wordSize != 0
      modifies this`timeLog, this`executionTrace
      ensures Valid() && ReadOutcome(old(Now()), address, r)
    {
      hide Good, CellAt, FromBytes;
      ComputedCells(address);
      NextCellFits(settings.Space(), CellStart(settings.config.wordSize, address));
      var cells := ComputeAddress(address, address % settings.config.wordSize);
      if cells.None? {
        return Err(AddressOverflow);
      }
      var (addrLo, addrHi) := cells.value;
      var valLo, valHi := DummyRead(addrLo), DummyRead(addrHi);
      var value := JoinCells(valLo, valHi, settings.config.wordSize, address - addrLo);
      RecordRead(timeLog, addrLo, valLo);
      RecordRead(timeLog + 1, addrHi, valHi);
      timeLog := timeLog + 2;
      r := Ok(DoubleCell(MemoryInstruction.Read, address, value, addrLo, valLo, addrHi, valHi));
    }

    /** A read of the state s: the overflow with nothing changed, or the access, its value and its records. */
    ghost predicate ReadOutcome(s: State, address: nat, r: MachineResult<CellInteraction>)
      requires StackFits(settings)
      reads this
    {
      if Overflows(settings, address) then r == Err(AddressOverflow) && Now() == s
      else
        && Now() == AfterRead(settings.Space(), s, address)
        && r == Ok(ReadInteraction(settings.Space(), s.memory, address))
        && Recorded(s.trace, executionTrace, stackDepth, r.value) && Describes(settings.Space(), memory, address, r.value)
    }

    /** A write to the state s: the overflow with nothing changed, or the access and its records. */
    ghost predicate WriteOutcome(s: State, address: nat, value: nat, r: MachineResult<CellInteraction>)
      requires StackFits(settings)
      reads this
    {
      if Overflows(settings, address) then r == Err(AddressOverflow) && Now() == s
      else
        && Now() == AfterWrite(settings.Space(), s, address, value)
        && r == Ok(WriteInteraction(settings.Space(), s.memory, address, value))
        && Recorded(s.trace, executionTrace, stackDepth, r.value) && Describes(settings.Space(), memory, address, r.value)
    }

    /** Reads `word` bytes from any address and records the cells it read. */
    method Read(address: nat) returns (r: MachineResult<CellInteraction>)
      requires Valid() && address < settings.limit
      modifies this`timeLog, this`executionTrace
      ensures Valid() && ReadOutcome(old(Now()), address, r)
      ensures r.Ok? ==> r.value.value == ReadValue(memory, settings.Space(), address)
    {
      if address % settings.config.wordSize == 0 {
        var result := DummyRead(address);
        RecordRead(timeLog, address, result);
        timeLog := timeLog + 1;
        r := Ok(SingleCell(MemoryInstruction.Read, address, result));
      } else {
        r := ReadTwoCells(address);
      }
    }

    /** Stores one cell and tracks the write at the given time. */
    method RecordWrite(time: nat, cell: nat, value: nat)
      requires Good(settings, Now()) && cell < settings.limit && cell % settings.config.wordSize == 0
      requires value < Pow256(settings.config.wordSize) && time == |executionTrace|
      modifies this`memory, this`executionTrace
      ensures Good(settings, Now()) && Now() == StoreCell(old(Now()), cell, value)
    {
      var r := TraceRecord(time, stackDepth, MemoryInstruction.Write, cell, value);
      NextIsAppended(executionTrace, r);
      StoreCellKeepsGood(settings, Now(), cell, value);
      memory := memory[cell := value];
      TrackRecord(r);
    }

    /** Stores and records two aligned cells, one clock tick after the other. */
    method StoreTwoCells(addrLo: nat, valLo: nat, addrHi: nat, valHi: nat)
      requires Valid() && addrLo < settings.limit && addrHi < settings.limit
      requires addrLo % settings.config.wordSize == 0 && addrHi % settings.config.wordSize == 0
      requires valLo < Pow256(settings.config.wordSize) && valHi < Pow256(settings.config.wordSize)
      modifies this`memory, this`timeLog, this`executionTrace
      ensures Valid() && Now() == StoreCell(StoreCell(old(Now()), addrLo, valLo), addrHi, valHi)
    {
      RecordWrite(timeLog, addrLo, valLo);
      RecordWrite(timeLog + 1, addrHi, valHi);
      timeLog := timeLog + 2;
    }

    method WriteTwoCells(address: nat, value: nat) returns (r: MachineResult<CellInteraction>)
      requires Valid() && address < settings.limit && address % settings.config.wordSize != 0
      requires value < Pow256(settings.config.wordSize)
      modifies this`memory, this`timeLog, this`executionTrace
      ensures Valid() && WriteOutcome(old(Now()), address, value, r)
    {
      hide Good, CellAt, FromBytes, Pow256;
      var word := settings.config.wordSize;
      ComputedCells(address);
      var cells := ComputeAddress(address, address % word);
      if cells.None? {
        return Err(AddressOverflow);
      }
      var (addrLo, addrHi) := cells.value;
      var valLo, valHi := SplitIntoCells(DummyRead(addrLo), DummyRead(addrHi), value, word, address - addrLo);
      SplicedWrite(settings.Space(), Now(), address, addrLo, value, valLo, valHi);
      StoreTwoCells(addrLo, valLo, addrHi, valHi);
      r := Ok(DoubleCell(MemoryInstruction.Write, address, value, addrLo, valLo, addrHi, valHi));
    }

    /** Writes `word` bytes at any address and records the cells it wrote. */
    method Write(address: nat, value: nat) returns (r: MachineResult<CellInteraction>)
      requires Valid() && address < settings.limit && value < Pow256(settings.config.wordSize)
      modifies this`memory, this`timeLog, this`executionTrace
      ensures Valid() && WriteOutcome(old(Now()), address, value, r)
      ensures r.Ok? ==> memory == WriteValue(old(memory), settings.Space(), address, value)
    {
      AccessMemory(settings.Space(), Now(), address, value);
      if address % settings.config.wordSize == 0 {
        RecordWrite(timeLog, address, value);
        timeLog := timeLog + 1;
        r := Ok(SingleCell(MemoryInstruction.Write, address, value));
      } else {
        r := WriteTwoCells(address, value);
      }
    }

    // -------------------------------------------------------------------------------
    // Stack and registers

    method Push(value: nat) returns (r: MachineResult<(nat, CellInteraction)>)
      requires Valid() && value < Pow256(settings.config.wordSize)
      modifies this
      ensures Valid()
      ensures old(stackDepth) == settings.config.stackDepth ==> r == Err(StackOverflow) && unchanged(this)
      ensures old(stackDepth) < settings.config.stackDepth ==>
        && Now() == AfterPush(settings.Space(), old(Now()), value)
        && r == Ok((old(stackDepth) + 1, SingleCell(MemoryInstruction.Write, old(stackPtr), value)))
        && Recorded(old(executionTrace), executionTrace, old(stackDepth) + 1, r.value.1)
        && stackPtr == old(stackPtr) + settings.config.wordSize
    {
      if stackDepth == settings.config.stackDepth {
        return Err(StackOverflow);
      }
      SlotInSpace(settings, stackDepth);
      stackDepth := stackDepth + 1;
      var address := stackPtr;
      stackPtr := address + settings.config.wordSize;
      var v := Write(address, value);
      match v
      case Ok(interaction) => r := Ok((stackDepth, interaction));
      case Err(e) => r := Err(e);
    }

    method Pop() returns (r: MachineResult<(nat, CellInteraction)>)
      requires Valid()
      modifies this`timeLog, this`executionTrace, this`stackDepth, this`stackPtr
      ensures Valid()
      ensures old(stackDepth) == 0 ==> r == Err(StackUnderflow) && unchanged(this)
      ensures old(stackDepth) > 0 ==>
        && Now() == AfterPop(settings.Space(), old(Now()))
        && r == Ok((old(stackDepth) - 1, SingleCell(MemoryInstruction.Read, stackPtr, Top(settings.Space(), old(Now())))))
        && Recorded(old(executionTrace), executionTrace, old(stackDepth) - 1, r.value.1)
        && stackPtr == old(stackPtr) - settings.config.wordSize
    {
      if stackDepth == 0 {
        return Err(StackUnderflow);
      }
      SlotInSpace(settings, stackDepth - 1);
      stackDepth := stackDepth - 1;
      var address := stackPtr - settings.config.wordSize;
      stackPtr := address;
      var v := Read(address);
      match v
      case Ok(interaction) => r := Ok((stackDepth, interaction));
      case Err(e) => r := Err(e);
    }

    /** Writes at the register's address, whatever index and address it carries. */
    method Set(register: Register, value: nat) returns (r: MachineResult<CellInteraction>)
      requires Valid() && register.address < settings.limit && value < Pow256(settings.config.wordSize)
      modifies this`memory, this`timeLog, this`executionTrace
      ensures Valid() && WriteOutcome(old(Now()), register.address, value, r)
    {
      r := Write(register.address, value);
    }

    method Get(register: Register) returns (r: MachineResult<CellInteraction>)
      requires Valid() && register.address < settings.limit
      modifies this`timeLog, this`executionTrace
      ensures Valid() && ReadOutcome(old(Now()), register.address, r)
      ensures r.Ok? ==> r.value.value == ReadValue(memory, settings.Space(), register.address)
    {
      r := Read(register.address);
    }

    // -------------------------------------------------------------------------------
    // Instructions

    /** A write as an instruction's last step. */
    method Put(address: nat, value: nat) returns (output: Output)
      requires Valid() && address < settings.limit && value < Pow256(settings.config.wordSize)
      modifies this
      ensures Valid() && (Now(), output) == PutTo(settings, old(Now()), address, value)
    {
      var r := Write(address, value);
      output := match r case Ok(_) => Done case Err(e) => Failed(e);
    }

    method ExecMemory(op: Operation) returns (output: Output)
      requires Valid() && Legal(settings, op) && (op.ReadOp? || op.WriteOp?)
      modifies this
      ensures Valid() && (Now(), output) == Step(settings, old(Now()), op)
    {
      if !settings.config.memory.Contain(op.address) {
        return Failed(MemoryAccessDenied);
      }
      match op
      case ReadOp(a) =>
        var r := Read(a);
        output := match r case Ok(v) => Value(v.value) case Err(e) => Failed(e);
      case WriteOp(a, x) => output := Put(a, x);
    }

    method ExecStack(op: Operation) returns (output: Output)
      requires Valid() && Legal(settings, op) && (op.PushOp? || op.PopOp?)
      modifies this
      ensures Valid() && (Now(), output) == Step(settings, old(Now()), op)
    {
      match op
      case PushOp(x) =>
        var r := Push(x);
        output := match r case Ok(_) => Done case Err(e) => Failed(e);
      case PopOp =>
        var r := Pop();
        output := match r case Ok(v) => Value(v.1.value) case Err(e) => Failed(e);
    }

    method ExecMov(to: Register, from: Register) returns (output: Output)
      requires Valid() && to.address < settings.limit && from.address < settings.limit
      modifies this
      ensures Valid() && (Now(), output) == StepMov(settings, old(Now()), to, from)
    {
      ValueFits(settings, Now(), from.address);
      var r := Get(from);
      match r
      case Ok(SingleCell(_, _, value)) => output := Put(to.address, value);
      case Ok(_) => output := Failed(RegisterInTwoCells);
      case Err(e) => output := Failed(e);
    }

    method ExecSwap(register: Register) returns (output: Output)
      requires Valid() && register.address < settings.limit
      modifies this
      ensures Valid() && (Now(), output) == StepSwap(settings, old(Now()), register)
    {
      hide AfterPop, SwapWith, Top, WellFormed, TakenFrom;
      if stackDepth > 0 {
        TopFits(settings, Now());
        PoppedDepth(settings.Space(), Now());
      }
      var popped := Pop();
      match popped
      case Ok((_, interaction)) => output := ExchangeTop(register, interaction.value);
      case Err(e) => output := Failed(e);
    }

    /** A swap once the top has been popped. */
    method ExchangeTop(register: Register, top: nat) returns (output: Output)
      requires Valid() && stackDepth < settings.config.stackDepth
      requires register.address < settings.limit && top < Pow256(settings.config.wordSize)
      modifies this
      ensures Valid() && (Now(), output) == SwapWith(settings, old(Now()), register, top)
    {
      hide AfterWrite, WellFormed, TakenFrom;
      AccessMemory(settings.Space(), Now(), register.address, 0);
      ValueFits(settings, Now(), register.address);
      var r := Get(register);
      match r
      case Ok(SingleCell(_, _, value)) =>
        var _ := Push(value);
        var _ := Set(register, top);
        output := Done;
      case Ok(_) => output := Done;
      case Err(e) => output := Failed(e);
    }

    method ExecLoad(register: Register, address: nat) returns (output: Output)
      requires Valid() && register.address < settings.limit && address < settings.limit
      modifies this
      ensures Valid() && (Now(), output) == StepLoad(settings, old(Now()), register, address)
    {
      ValueFits(settings, Now(), address);
      var r := Read(address);
      match r
      case Ok(SingleCell(_, _, value)) => output := Put(register.address, value);
      case Ok(DoubleCell(_, _, value, _, _, _, _)) => output := Put(register.address, value);
      case Err(e) => output := Failed(e);
    }

    method ExecSave(address: nat, register: Register) returns (output: Output)
      requires Valid() && register.address < settings.limit && address < settings.limit
      modifies this
      ensures Valid() && (Now(), output) == StepSave(settings, old(Now()), address, register)
    {
      ValueFits(settings, Now(), register.address);
      var r := Get(register);
      match r
      case Ok(SingleCell(_, _, value)) => output := Put(address, value);
      case Ok(_) => output := Failed(RegisterInTwoCells);
      case Err(e) => output := Failed(e);
    }

    method ExecAdd(register: Register, other: Register) returns (output: Output)
      requires Valid() && register.address < settings.limit && other.address < settings.limit
      modifies this
      ensures Valid() && (Now(), output) == StepAdd(settings, old(Now()), register, other)
    {
      var first := Get(register);
      match first
      case Err(e) => output := Failed(e);
      case Ok(SingleCell(_, _, value1)) =>
        var second := Get(other);
        match second {
          case Err(e) => output := Failed(e);
          case Ok(SingleCell(_, _, value2)) => output := PutSum(register, value1, value2);
          case Ok(_) => output := Failed(RegisterInTwoCells);
        }
      case Ok(_) => output := Failed(RegisterInTwoCells);
    }

    method PutSum(register: Register, value1: nat, value2: nat) returns (output: Output)
      requires Valid() && register.address < settings.limit
      modifies this
      ensures Valid() && (Now(), output) == AddTo(settings, old(Now()), register.address, value1, value2)
    {
      var sum := Sum(settings, value1, value2);
      if sum.None? {
        return Failed(AdditionOverflow);
      }
      output := Put(register.address, sum.value);
    }

    /** One instruction of the test instruction set. */
    method Exec(op: Operation) returns (output: Output)
      requires Valid() && Legal(settings, op)
      modifies this
      ensures Valid() && (Now(), output) == Step(settings, old(Now()), op)
    {
      match op
      case ReadOp(_) => output := ExecMemory(op);
      case WriteOp(_, _) => output := ExecMemory(op);
      case PushOp(_) => output := ExecStack(op);
      case PopOp => output := ExecStack(op);
      case MovOp(to, from) => output := ExecMov(to, from);
      case SwapOp(r) => output := ExecSwap(r);
      case LoadOp(r, a) => output := ExecLoad(r, a);
      case SaveOp(a, r) => output := ExecSave(a, r);
      case InvalidOp => output := Failed(InvalidInstruction);
      case AddOp(r, o) => output := ExecAdd(r, o);
    }

    /**
     Any program, in any layout and with any addresses, steps as the model does and keeps
     the machine valid: its trace stays clocked and replays to its memory.
     */
    method Execute(program: seq<Operation>) returns (outputs: seq<Output>)
      requires Valid() && AllLegal(settings, program)
      modifies this
      ensures Valid() && (Now(), outputs) == Run(settings, old(Now()), program)
    {
      outputs := [];
      for n := 0 to |program|
        invariant Valid() && (Now(), outputs) == Run(settings, old(Now()), program[..n])
      {
        RunOneMore(settings, old(Now()), program, n);
        var output := Exec(program[n]);
        outputs := outputs + [output];
      }
      assert program[..|program|] == program;
    }
  }
}
