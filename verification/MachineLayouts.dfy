/**
 Which configurations keep the stack, the register file and the memory section apart. The head
 layout does, unless additions wrap around: then an access at the end of the memory section
 reaches cell 0. In the tail layout the stack still grows from address 0, over the memory section,
 so only a machine without a stack can act as on separate stores.
 */
module MachineLayouts {
  import opened Powers
  import opened Limbs
  import opened ByteMemory
  import opened MachineSections
  import opened MachineSteps
  import opened MachineStores
  import opened Config

  /** What the arguments, the word size and the build must say for the sections to share no cell. */
  predicate KeepsApart(word: nat, args: ConfigArgs, wraps: bool) {
    || (args.stackDepth == 0 && (args.noBuffer > 0 || args.noRegister == 0))
    || (args.headLayout && (!wraps || word == 1))
  }

  /** Every program shows the outputs it would show on separate stores. */
  ghost predicate ActsAsStores(m: Settings, noRegister: nat)
    requires m.config.wordSize > 0
  {
    forall program :: AllLegal(m, program) && AllSectioned(m, noRegister, program) ==>
      Run(m, EMPTY, program).1 == RunStores(m, noRegister, program).1
  }

  lemma HeadIsApart(config: Config, args: ConfigArgs, max: nat, wraps: bool)
    requires Separated(config, args, max) && AddressSpace(config.wordSize, max + 1).Valid()
    requires args.headLayout && KeepsApart(config.wordSize, args, wraps)
    ensures SectionsApart(Settings(config, max + 1, wraps), args.noRegister)
  {
    var word := config.wordSize;
    var d, b, r := args.stackDepth, args.noBuffer, args.noRegister;
    SumOfCells(word, d, b);
    SumOfCells(word, d + b, r);
    SumOfCells(word, d + b + r, b);
    DivisionIsUnique(config.register.low, word, d + b, 0);
    DivisionIsUnique(config.memory.low, word, d + b + r + b, 0);
    ScaledOrder(0, b, word);
    ScaledOrder(0, r, word);
    if b > 0 {
      ScaledOrder(1, b, word);
    }
  }

  lemma SumOfCells(word: nat, a: int, b: int)
    ensures (a + b) * word == a * word + b * word
  {
  }

  /** The memory section of the tail layout ends on a word boundary. */
  lemma TailMemoryEnds(config: Config, args: ConfigArgs, max: nat)
    requires Separated(config, args, max) && !args.headLayout
    ensures config.memory.high % config.wordSize == 0 && config.memory.high < max + 1
  {
    var q := config.stack.low / config.wordSize;
    SumOfCells(config.wordSize, q - args.noBuffer, args.noBuffer);
    DivisionIsUnique(config.memory.high, config.wordSize, q - args.noBuffer, 0);
    ScaledOrder(0, args.noBuffer, config.wordSize);
    ScaledOrder(0, args.stackDepth, config.wordSize);
    ScaledOrder(0, args.noRegister, config.wordSize);
  }

  lemma TailIsApart(config: Config, args: ConfigArgs, max: nat, wraps: bool)
    requires Separated(config, args, max) && AddressSpace(config.wordSize, max + 1).Valid()
    requires !args.headLayout && KeepsApart(config.wordSize, args, wraps)
    ensures SectionsApart(Settings(config, max + 1, wraps), args.noRegister)
  {
    var word := config.wordSize;
    TailMemoryEnds(config, args, max);
    var q := config.stack.low / word;
    SumOfCells(word, q, args.noBuffer);
    DivisionIsUnique(config.register.low, word, q + args.noBuffer, 0);
    DivisionIsUnique(0, word, 0, 0);
    if args.noBuffer > 0 {
      ScaledOrder(1, args.noBuffer, word);
    }
  }

  // ---------------------------------------------------------------------------------
  // Where the sections meet

  lemma RunAppend(m: Settings, s: State, program: seq<Operation>, op: Operation)
    requires m.config.wordSize > 0
    ensures var (before, outputs) := Run(m, s, program);
      var (after, output) := Step(m, before, op);
      Run(m, s, program + [op]) == (after, outputs + [output])
  {
    assert (program + [op])[..|program|] == program;
  }

  lemma StoresAppend(m: Settings, n: nat, program: seq<Operation>, op: Operation)
    requires m.config.wordSize > 0 && AllSectioned(m, n, program) && Sectioned(m, n, op)
    ensures AllSectioned(m, n, program + [op])
    ensures var (before, outputs) := RunStores(m, n, program);
      var (after, output) := StepStores(m, before, op);
      RunStores(m, n, program + [op]) == (after, outputs + [output])
  {
    assert (program + [op])[..|program|] == program;
  }

  lemma UnwrittenIsZero(sp: AddressSpace, a: nat)
    ensures FlatValue([], sp, a) == 0
  {
    forall k | 0 <= k < sp.word ensures FlatBytes([], sp, a)[k] == ToBytes(0, sp.word)[k] {
      ZeroBytes(sp.word, k);
    }
    assert FlatBytes([], sp, a) == ToBytes(0, sp.word);
    BytesRoundTrip(0, sp.word);
  }

  lemma LastWriteIsRead(writes: seq<(nat, nat)>, sp: AddressSpace, a: nat, x: nat)
    requires sp.Valid() && a < sp.limit && x < Pow256(sp.word)
    ensures FlatValue(writes + [(a, x)], sp, a) == x
  {
    hide ToBytes, Pow256;
    assert (writes + [(a, x)])[..|writes|] == writes;
    assert FlatBytes(writes + [(a, x)], sp, a) == ToBytes(x, sp.word);
    BytesRoundTrip(x, sp.word);
  }

  lemma OneFits(word: nat)
    requires word > 0
    ensures 1 < Pow256(word)
  {
  }

  lemma NothingRun(m: Settings)
    requires m.config.wordSize > 0
    ensures Run(m, EMPTY, []) == (EMPTY, [])
  {
  }

  lemma NothingRunOnStores(m: Settings, n: nat)
    requires m.config.wordSize > 0
    ensures RunStores(m, n, []) == (Stores([], seq(n, _ => 0), []), [])
  {
  }

  lemma OutputsOfThree(a: Output, b: Output, c: Output)
    ensures [] + [a] == [a] && [a] + [b] == [a, b] && [a, b] + [c] == [a, b, c]
  {
  }

  /** Three instructions one after the other. */
  lemma RunThree(m: Settings, a: Operation, b: Operation, c: Operation)
    requires m.config.wordSize > 0
    ensures var (s1, o1) := Step(m, EMPTY, a);
      var (s2, o2) := Step(m, s1, b);
      var (s3, o3) := Step(m, s2, c);
      Run(m, EMPTY, [a, b] + [c]) == (s3, [o1, o2, o3])
  {
    hide Step, Run;
    NothingRun(m);
    RunAppend(m, EMPTY, [], a);
    RunAppend(m, EMPTY, [a], b);
    RunAppend(m, EMPTY, [a, b], c);
    assert [] + [a] == [a] && [a] + [b] == [a, b];
    var (s1, o1) := Step(m, EMPTY, a);
    var (s2, o2) := Step(m, s1, b);
    var (_, o3) := Step(m, s2, c);
    OutputsOfThree(o1, o2, o3);
  }

  lemma StoresRunThree(m: Settings, n: nat, a: Operation, b: Operation, c: Operation)
    requires m.config.wordSize > 0 && Sectioned(m, n, a) && Sectioned(m, n, b) && Sectioned(m, n, c)
    ensures AllSectioned(m, n, [a, b] + [c])
    ensures var st := Stores([], seq(n, _ => 0), []);
      var (s1, o1) := StepStores(m, st, a);
      |s1.registers| == n &&
      var (s2, o2) := StepStores(m, s1, b);
      |s2.registers| == n &&
      var (s3, o3) := StepStores(m, s2, c);
      RunStores(m, n, [a, b] + [c]) == (s3, [o1, o2, o3])
  {
    hide StepStores, RunStores, Sectioned;
    NothingRunOnStores(m, n);
    StoresAppend(m, n, [], a);
    StoresAppend(m, n, [a], b);
    StoresAppend(m, n, [a, b], c);
    assert [] + [a] == [a] && [a] + [b] == [a, b];
    StepKeepsFile(m, Stores([], seq(n, _ => 0), []), a);
    var (s1, o1) := StepStores(m, Stores([], seq(n, _ => 0), []), a);
    StepKeepsFile(m, s1, b);
    var (s2, o2) := StepStores(m, s1, b);
    var (_, o3) := StepStores(m, s2, c);
    OutputsOfThree(o1, o2, o3);
  }

  /** A write to an aligned address is seen by a read of it. */
  lemma StoredIsShown(m: Settings, s: State, a: nat, x: nat)
    requires m.config.wordSize > 0 && a % m.config.wordSize == 0 && m.config.memory.Contain(a)
    ensures PutTo(m, s, a, x).1 == Done && StepRead(m, PutTo(m, s, a, x).0, a).1 == Value(x)
    ensures CellAt(PutTo(m, s, a, x).0.memory, a) == x
  {
    hide AfterRead, AfterWrite, ReadValue, WriteValue;
    AccessMemory(m.Space(), s, a, x);
    AlignedAccess(s.memory, m.Space(), a, x);
    AlignedAccess(PutTo(m, s, a, x).0.memory, m.Space(), a, x);
  }

  /** Saving an aligned register puts its value at the address. */
  lemma SavedIsShown(m: Settings, s: State, a: nat, r: Register)
    requires m.config.wordSize > 0 && r.address % m.config.wordSize == 0
    requires a % m.config.wordSize == 0 && m.config.memory.Contain(a)
    ensures StepSave(m, s, a, r).1 == Done
    ensures StepRead(m, StepSave(m, s, a, r).0, a).1 == Value(CellAt(s.memory, r.address))
  {
    hide AfterRead, PutTo, ReadValue, StepRead;
    AlignedAccess(s.memory, m.Space(), r.address, 0);
    StoredIsShown(m, AfterRead(m.Space(), s, r.address), a, CellAt(s.memory, r.address));
  }

  // ---------------------------------------------------------------------------------
  // The stack over the memory section

  /** A stack that starts where the memory section starts: a pushed value is read back from memory. */
  lemma StackOverMemory(m: Settings, n: nat)
    requires m.config.wordSize > 0 && m.config.stackDepth > 0 && m.config.memory.low == 0 && m.limit > 0
    ensures !ActsAsStores(m, n)
  {
    hide StepStores, StepPush, StepRead, FlatValue, Pow256;
    var program := [PushOp(1), InvalidOp] + [ReadOp(0)];
    RunThree(m, PushOp(1), InvalidOp, ReadOp(0));
    StoresRunThree(m, n, PushOp(1), InvalidOp, ReadOp(0));
    OneFits(m.config.wordSize);
    assert AllLegal(m, program);
    PushedIsShown(m);
    UnwrittenStays(m, n);
    assert Run(m, EMPTY, program).1[2] == Value(1);
    assert RunStores(m, n, program).1[2] == Value(0);
  }

  lemma PushedIsShown(m: Settings)
    requires m.config.wordSize > 0 && m.config.stackDepth > 0 && m.config.memory.low == 0
    ensures StepRead(m, StepPush(m, EMPTY, 1).0, 0).1 == Value(1)
  {
    hide AfterWrite, StepRead;
    DivisionIsUnique(0, m.config.wordSize, 0, 0);
    StoredIsShown(m, EMPTY.(depth := 1), 0, 1);
  }

  lemma UnwrittenStays(m: Settings, n: nat)
    requires m.config.wordSize > 0 && m.config.stackDepth > 0 && m.config.memory.low == 0
    ensures var st := StepStores(m, Stores([], seq(n, _ => 0), []), PushOp(1)).0;
      StepStores(m, StepStores(m, st, InvalidOp).0, ReadOp(0)).1 == Value(0)
  {
    hide FlatValue;
    DivisionIsUnique(0, m.config.wordSize, 0, 0);
    UnwrittenIsZero(m.Space(), 0);
  }

  // ---------------------------------------------------------------------------------
  // The register file over the memory section

  /** On the stores, a register is saved that no instruction has set. */
  lemma SavedOnStores(m: Settings, n: nat, a: nat, x: nat, b: nat)
    requires m.Space().Valid() && n > 0 && m.config.memory.Contain(a) && m.config.memory.Contain(b)
    requires b < m.limit && b % m.config.wordSize == 0
    ensures AllSectioned(m, n, [WriteOp(a, x), SaveOp(b, FirstRegister(m))] + [ReadOp(b)])
    ensures var outputs := RunStores(m, n, [WriteOp(a, x), SaveOp(b, FirstRegister(m))] + [ReadOp(b)]).1;
      |outputs| == 3 && outputs[2] == Value(0)
  {
    hide FlatValue, Pow256;
    StoresRunThree(m, n, WriteOp(a, x), SaveOp(b, FirstRegister(m)), ReadOp(b));
    var st := StepStores(m, Stores([], seq(n, _ => 0), []), WriteOp(a, x)).0;
    assert st.registers[0] == 0;
    LastWriteIsRead(st.written, m.Space(), b, 0);
  }

  function FirstRegister(m: Settings): Register {
    Register(0, m.config.register.low)
  }

  /** A register at the last address of the memory section: a write there changes what is saved from it. */
  lemma FileOverMemory(m: Settings, n: nat)
    requires m.Space().Valid() && n > 0 && m.config.register.low == m.config.memory.high < m.limit
    requires m.config.memory.high % m.config.wordSize == 0 && m.config.memory.low == 0
    ensures !ActsAsStores(m, n)
  {
    hide StepWrite, StepSave, StepRead, RunStores, Sectioned, Pow256;
    var a, r := m.config.memory.high, FirstRegister(m);
    var program := [WriteOp(a, 1), SaveOp(a, r)] + [ReadOp(a)];
    RunThree(m, WriteOp(a, 1), SaveOp(a, r), ReadOp(a));
    SavedOnStores(m, n, a, 1, a);
    OneFits(m.config.wordSize);
    assert AllLegal(m, program);
    WrittenCell(m, a);
    SavedIsShown(m, StepWrite(m, EMPTY, a, 1).0, a, r);
    assert Run(m, EMPTY, program).1[2] == Value(1);
  }

  lemma WrittenCell(m: Settings, a: nat)
    requires m.config.wordSize > 0 && a % m.config.wordSize == 0 && m.config.memory.Contain(a)
    ensures CellAt(StepWrite(m, EMPTY, a, 1).0.memory, a) == 1
  {
    hide PutTo;
    StoredIsShown(m, EMPTY, a, 1);
  }

  // ---------------------------------------------------------------------------------
  // The end of the space over cell 0

  lemma LastByteOfOne(n: nat)
    requires n > 0
    ensures ToBytes(1, n)[n - 1] == 1
  {
  }

  /** In a wrapping build, writing 1 at the last address reaches the first cell. */
  lemma EndReachesFirstCell(m: Settings, s: State)
    requires StackFits(m) && Good(m, s) && m.wraps && m.config.wordSize > 1 && m.config.memory.Contain(m.limit - 1)
    ensures CellAt(StepWrite(m, s, m.limit - 1, 1).0.memory, 0) != 0
    ensures StepWrite(m, s, m.limit - 1, 1).1 == Done && StepWrite(m, s, m.limit - 1, 1).0.depth == s.depth
    ensures Good(m, StepWrite(m, s, m.limit - 1, 1).0)
  {
    hide AfterRead, AfterWrite, ReadValue, WriteValue, ByteAt, ToBytes, Good, Pow256;
    var sp, word, a := m.Space(), m.config.wordSize, m.limit - 1;
    var after := WriteValue(s.memory, sp, a, 1);
    OneFits(word);
    AccessMemory(sp, s, a, 1);
    PutKeepsGood(m, s, a, 1);
    WriteReplacesBytes(s.memory, sp, a, 1, word - 2);
    LastByteOfOne(word);
    assert ByteAt(after, word, word - 2) == 1;
    DivisionIsUnique(0, word, 0, 0);
    ByteInCell(after, word, 0, word - 2);
    ZeroBytes(word, word - 2);
  }

  /** ... which is a stack slot: a value popped is not the value pushed. */
  lemma EndOverStack(m: Settings, n: nat)
    requires StackFits(m) && m.wraps && m.config.wordSize > 1 && m.config.stackDepth > 0
    requires m.config.memory.Contain(m.limit - 1)
    ensures !ActsAsStores(m, n)
  {
    hide StepPush, StepPop, StepWrite, StepStores, Good, Pow256;
    var a := m.limit - 1;
    var program := [PushOp(0), WriteOp(a, 1)] + [PopOp];
    RunThree(m, PushOp(0), WriteOp(a, 1), PopOp);
    StoresRunThree(m, n, PushOp(0), WriteOp(a, 1), PopOp);
    OneFits(m.config.wordSize);
    assert AllLegal(m, program);
    EmptyIsGood(m);
    StepKeepsGood(m, EMPTY, PushOp(0));
    PushedDepth(m, EMPTY, 0);
    var pushed := StepPush(m, EMPTY, 0).0;
    EndReachesFirstCell(m, pushed);
    FirstSlotIsPopped(m, StepWrite(m, pushed, a, 1).0);
    PoppedOnStores(m, n, a);
    assert Run(m, EMPTY, program).1[2] != Value(0);
    assert RunStores(m, n, program).1[2] == Value(0);
  }

  lemma PushedDepth(m: Settings, s: State, value: nat)
    requires m.config.wordSize > 0 && s.depth < m.config.stackDepth
    ensures StepPush(m, s, value).0.depth == s.depth + 1
  {
    hide AfterWrite;
    AccessMemory(m.Space(), s.(depth := s.depth + 1), s.depth * m.config.wordSize, value);
  }

  lemma FirstSlotIsPopped(m: Settings, s: State)
    requires m.config.wordSize > 0 && s.depth == 1
    ensures StepPop(m, s).1 == Value(CellAt(s.memory, 0))
  {
    hide AfterRead, ReadValue;
    DivisionIsUnique(0, m.config.wordSize, 0, 0);
    AlignedAccess(s.memory, m.Space(), 0, 0);
  }

  lemma PoppedOnStores(m: Settings, n: nat, a: nat)
    requires m.config.wordSize > 0 && m.config.stackDepth > 0
    ensures var st := StepStores(m, Stores([], seq(n, _ => 0), []), PushOp(0)).0;
      StepStores(m, StepStores(m, st, WriteOp(a, 1)).0, PopOp).1 == Value(0)
  {
  }

  /** ... or a register: what is saved from it was never put there. */
  lemma EndOverFile(m: Settings, n: nat)
    requires StackFits(m) && m.wraps && m.config.wordSize > 1 && n > 0 && m.config.register.low == 0
    requires m.config.memory.Contain(m.limit - 1) && m.config.memory.low % m.config.wordSize == 0
    ensures !ActsAsStores(m, n)
  {
    hide StepWrite, StepSave, StepRead, RunStores, Sectioned, Good, Pow256;
    var a, b, r := m.limit - 1, m.config.memory.low, FirstRegister(m);
    var program := [WriteOp(a, 1), SaveOp(b, r)] + [ReadOp(b)];
    RunThree(m, WriteOp(a, 1), SaveOp(b, r), ReadOp(b));
    SavedOnStores(m, n, a, 1, b);
    OneFits(m.config.wordSize);
    assert AllLegal(m, program);
    EmptyIsGood(m);
    EndReachesFirstCell(m, EMPTY);
    DivisionIsUnique(0, m.config.wordSize, 0, 0);
    SavedIsShown(m, StepWrite(m, EMPTY, a, 1).0, b, r);
    assert Run(m, EMPTY, program).1[2] != Value(0);
  }

  // ---------------------------------------------------------------------------------
  // The exact condition

  /** Where the arguments keep the sections apart, every program acts as on separate stores. */
  lemma ApartActsAsStores(config: Config, args: ConfigArgs, max: nat, wraps: bool)
    requires Separated(config, args, max) && AddressSpace(config.wordSize, max + 1).Valid()
    requires KeepsApart(config.wordSize, args, wraps)
    ensures ActsAsStores(Settings(config, max + 1, wraps), args.noRegister)
  {
    hide SectionsApart, Separated, Run, RunStores;
    var m, n := Settings(config, max + 1, wraps), args.noRegister;
    if args.headLayout {
      HeadIsApart(config, args, max, wraps);
    } else {
      TailIsApart(config, args, max, wraps);
    }
    forall program | AllLegal(m, program) && AllSectioned(m, n, program)
      ensures Run(m, EMPTY, program).1 == RunStores(m, n, program).1
    {
      RunInSections(m, n, program);
    }
  }

  lemma SharedCellShows(config: Config, args: ConfigArgs, max: nat, wraps: bool)
    requires Separated(config, args, max) && AddressSpace(config.wordSize, max + 1).Valid()
    requires !KeepsApart(config.wordSize, args, wraps)
    ensures !ActsAsStores(Settings(config, max + 1, wraps), args.noRegister)
  {
    hide ActsAsStores;
    var m, n := Settings(config, max + 1, wraps), args.noRegister;
    if args.headLayout {
      HeadMemory(config, args, max);
      if args.stackDepth > 0 { EndOverStack(m, n); } else { EndOverFile(m, n); }
    } else if args.stackDepth > 0 {
      StackOverMemory(m, n);
    } else {
      TailMemoryEnds(config, args, max);
      FileOverMemory(m, n);
    }
  }

  /** The head layout's memory section goes from a word boundary to the end, past the stack. */
  lemma HeadMemory(config: Config, args: ConfigArgs, max: nat)
    requires Separated(config, args, max) && args.headLayout
    ensures config.memory.low % config.wordSize == 0 && config.memory.Contain(max)
    ensures config.stackDepth * config.wordSize < max + 1
  {
    var word := config.wordSize;
    var d, b, r := args.stackDepth, args.noBuffer, args.noRegister;
    SumOfCells(word, d, b);
    SumOfCells(word, d + b, r);
    SumOfCells(word, d + b + r, b);
    DivisionIsUnique(config.memory.low, word, d + b + r + b, 0);
    ScaledOrder(0, b, word);
    ScaledOrder(0, r, word);
  }

  /**
   The machine of a configuration acts as on separate stores, for every program that keeps to its
   sections, exactly when the arguments keep the sections apart.
   */
  lemma LayoutIsExact(config: Config, args: ConfigArgs, max: nat, wraps: bool)
    requires Separated(config, args, max) && AddressSpace(config.wordSize, max + 1).Valid()
    ensures ActsAsStores(Settings(config, max + 1, wraps), args.noRegister) <==> KeepsApart(config.wordSize, args, wraps)
  {
    hide ActsAsStores, KeepsApart, Separated;
    if KeepsApart(config.wordSize, args, wraps) {
      ApartActsAsStores(config, args, max, wraps);
    } else {
      SharedCellShows(config, args, max, wraps);
    }
  }
}
