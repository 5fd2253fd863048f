/** What the arithmetic and the stack instructions do, in cells, numbers and whole records. */
module MachineEffects {
  import opened Powers
  import opened Limbs
  import opened Records
  import opened ByteMemory
  import opened MachineSections
  import opened MachineSteps

  /** The sum of two cell values; in a wrapping build less 256^word when it does not fit, else refused. */
  lemma SumIsExact(m: Settings, a: nat, b: nat)
    requires a < Pow256(m.config.wordSize) && b < Pow256(m.config.wordSize)
    ensures var sum, size := Sum(m, a, b), Pow256(m.config.wordSize);
      if a + b < size then sum == Some(a + b) else if m.wraps then sum == Some(a + b - size) else sum == None
  {
    hide Pow256;
    var size := Pow256(m.config.wordSize);
    if a + b >= size {
      DivisionIsUnique(a + b, size, 1, a + b - size);
    }
  }

  /** An addition of aligned registers puts the sum of their words in the first, and leaves all other cells. */
  lemma AddPutsSum(m: Settings, s: State, r: Register, o: Register)
    requires StackFits(m) && Good(m, s)
    requires r.address % m.config.wordSize == 0 && o.address % m.config.wordSize == 0
    ensures var a, b, size := CellAt(s.memory, r.address), CellAt(s.memory, o.address), Pow256(m.config.wordSize);
      var (after, output) := Step(m, s, AddOp(r, o));
      if a + b < size then output == Done && after.memory == s.memory[r.address := a + b]
      else if m.wraps then output == Done && after.memory == s.memory[r.address := a + b - size]
      else output == Failed(AdditionOverflow) && after.memory == s.memory
  {
    hide AfterRead, AfterWrite, ReadValue, WriteValue, Sum, CellAt, Pow256;
    var a, b := CellAt(s.memory, r.address), CellAt(s.memory, o.address);
    CellsAreWords(m, s, r.address);
    CellsAreWords(m, s, o.address);
    SumIsExact(m, a, b);
    AlignedAccess(s.memory, m.Space(), o.address, 0);
    AlignedAccess(s.memory, m.Space(), r.address, if Sum(m, a, b).Some? then Sum(m, a, b).value else 0);
    var first := AfterRead(m.Space(), s, r.address);
    AccessMemory(m.Space(), s, r.address, 0);
    AccessMemory(m.Space(), first, o.address, 0);
    AccessMemory(m.Space(), AfterRead(m.Space(), first, o.address), r.address,
                 if Sum(m, a, b).Some? then Sum(m, a, b).value else 0);
  }

  lemma CellsAreWords(m: Settings, s: State, cell: nat)
    requires Good(m, s)
    ensures CellAt(s.memory, cell) < Pow256(m.config.wordSize)
  {
    hide Pow256;
  }

  /** A push stores the value in the slot at the old depth and records the write under the new depth. */
  lemma PushIsRecorded(m: Settings, s: State, x: nat)
    requires m.config.wordSize > 0 && s.depth < m.config.stackDepth
    ensures var slot := s.depth * m.config.wordSize;
      Step(m, s, PushOp(x))
        == (State(s.memory[slot := x], s.depth + 1,
                  s.trace + [TraceRecord(|s.trace|, s.depth + 1, MemoryInstruction.Write, slot, x)]), Done)
  {
    SlotStart(m.config.wordSize, s.depth);
  }

  /** A pop returns the word in the slot at the new depth and records the read under the new depth. */
  lemma PopIsRecorded(m: Settings, s: State)
    requires m.config.wordSize > 0 && s.depth > 0
    ensures var slot := (s.depth - 1) * m.config.wordSize;
      var x := CellAt(s.memory, slot);
      Step(m, s, PopOp)
        == (State(s.memory, s.depth - 1,
                  s.trace + [TraceRecord(|s.trace|, s.depth - 1, MemoryInstruction.Read, slot, x)]), Value(x))
  {
    SlotStart(m.config.wordSize, s.depth - 1);
  }

  lemma SlotStart(word: nat, d: nat)
    requires word > 0
    ensures (d * word) % word == 0 && CellStart(word, d * word) == d * word
  {
    DivisionIsUnique(d * word, word, d, 0);
  }

  /** A checking build refuses exactly the accesses that reach past the end of the space. */
  lemma OverflowIsPastEnd(m: Settings, address: nat)
    requires StackFits(m) && address < m.limit
    ensures Overflows(m, address) <==> !m.wraps && address + m.config.wordSize > m.limit
  {
    hide CellStart;
    var word, lo := m.config.wordSize, CellStart(m.config.wordSize, address);
    CellFits(m.Space(), lo);
    NextCellFits(m.Space(), lo);
    if lo + word < m.limit {
      CellFits(m.Space(), lo + word);
    }
    StartOfAligned(word, address);
  }

  lemma StartOfAligned(word: nat, address: nat)
    requires word > 0
    ensures address % word == 0 <==> CellStart(word, address) == address
  {
  }
}
