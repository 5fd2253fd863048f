/** Address-space configuration of the machine: the stack, register and memory sections. */
module Config {
  import opened Powers

  /** An inclusive address range. */
  datatype Section = Section(low: nat, high: nat) {
    predicate Contain(address: nat) {
      low <= address <= high
    }
  }

  datatype ConfigArgs = ConfigArgs(headLayout: bool, stackDepth: nat, noRegister: nat, noBuffer: nat)

  datatype Config = Config(
    wordSize: nat, stackDepth: nat, bufferSize: nat, memory: Section, stack: Section, register: Section)
  {
    function RegisterAddress(index: nat): nat {
      register.low + index * wordSize
    }
  }

  /** Sections allocated one after the other, separated by the buffer. */
  class MemoryAllocation {
    var section: seq<Section>
    const wordSize: nat
    const bufferSize: nat

    constructor (wordSize: nat, noBuffer: nat)
      ensures section == [] && this.wordSize == wordSize && bufferSize == noBuffer * wordSize
    {
      section := [];
      this.wordSize := wordSize;
      this.bufferSize := noBuffer * wordSize;
    }

    function LastOffset(): nat
      reads this
    {
      if section == [] then 0 else section[|section| - 1].high + bufferSize
    }

    method AddFixedSection(size: nat)
      modifies this
      ensures section == old(section) + [Section(old(LastOffset()), old(LastOffset()) + size * wordSize)]
    {
      var last := LastOffset();
      section := section + [Section(last, last + size * wordSize)];
    }

    method AddSection(end: nat)
      modifies this
      ensures section == old(section) + [Section(old(LastOffset()), end)]
    {
      section := section + [Section(LastOffset(), end)];
    }

    method SetOffset(offset: nat)
      modifies this
      ensures |section| == |old(section)|
      ensures forall i :: 0 <= i < |section| ==>
        section[i] == Section(old(section[i].low) + offset, old(section[i].high) + offset)
    {
      var shifted := [];
      for i := 0 to |section|
        invariant section == old(section) && |shifted| == i
        invariant forall j :: 0 <= j < i ==>
          shifted[j] == Section(old(section[j].low) + offset, old(section[j].high) + offset)
      {
        shifted := shifted + [Section(section[i].low + offset, section[i].high + offset)];
      }
      section := shifted;
    }
  }

  /** The sections follow each other, a buffer apart, and start on word boundaries. */
  predicate Separated(c: Config, args: ConfigArgs, max: nat) {
    && c.wordSize > 0
    && c.bufferSize == args.noBuffer * c.wordSize
    && c.stackDepth == args.stackDepth
    && c.stack.high == c.stack.low + args.stackDepth * c.wordSize
    && c.register.low == c.stack.high + c.bufferSize
    && c.register.high == c.register.low + args.noRegister * c.wordSize
    && c.register.high + c.bufferSize <= max
    && c.stack.low % c.wordSize == 0
    && (if args.headLayout then
          c.stack.low == 0 && c.memory.low == c.register.high + c.bufferSize && c.memory.high == max
        else
          c.memory.low == 0 && c.memory.high + c.bufferSize == c.stack.low)
  }

  /** The space that the fixed sections and their buffers take. */
  function FixedSize(wordSize: nat, args: ConfigArgs): nat {
    args.stackDepth * wordSize + args.noBuffer * wordSize + args.noRegister * wordSize + args.noBuffer * wordSize
  }

  /**
   Lays the sections out; the address type must be wide enough for them. Both layouts use the whole
   space: less than a word is left after the last section of the tail layout and its buffer.
   */
  method NewConfig(wordSize: nat, args: ConfigArgs, max: nat) returns (c: Config)
    requires wordSize > 0
    requires FixedSize(wordSize, args) <= max
    requires !args.headLayout ==> FixedSize(wordSize, args) + args.noBuffer * wordSize <= max
    ensures c.wordSize == wordSize && Separated(c, args, max)
    ensures !args.headLayout ==> max < c.register.high + c.bufferSize + wordSize
  {
    var alloc := new MemoryAllocation(wordSize, args.noBuffer);
    alloc.AddFixedSection(args.stackDepth);
    alloc.AddFixedSection(args.noRegister);
    if args.headLayout {
      alloc.AddSection(max);
      DivisionIsUnique(0, wordSize, 0, 0);
      c := Config(wordSize, args.stackDepth, alloc.bufferSize, alloc.section[2], alloc.section[0], alloc.section[1]);
    } else {
      var begin := max - alloc.LastOffset();
      AlignDown(begin, wordSize);
      MultipleSurvives(args.noBuffer, begin, wordSize);
      begin := begin - begin % wordSize;
      alloc.SetOffset(begin);
      c := Config(wordSize, args.stackDepth, alloc.bufferSize,
                  Section(0, begin - alloc.bufferSize), alloc.section[0], alloc.section[1]);
    }
  }

  /** Aligning down does not fall below a multiple of the word. */
  lemma MultipleSurvives(n: nat, x: nat, word: nat)
    requires word > 0 && n * word <= x
    ensures n * word <= x - x % word
  {
    var q := x / word;
    assert x == q * word + x % word;
    assert (q + 1) * word == q * word + word;
    if q < n {
      ScaledOrder(q + 1, n, word);
    } else {
      ScaledOrder(n, q, word);
    }
  }

  lemma AlignDown(x: nat, word: nat)
    requires word > 0
    ensures 0 <= x % word < word && x % word <= x && (x - x % word) % word == 0
  {
    var q := x / word;
    assert x == q * word + x % word;
    ScaledOrder(0, q, word);
    DivisionIsUnique(x - x % word, word, q, 0);
  }
}
