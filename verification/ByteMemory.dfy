/**
 The cell memory of the machine, as a value: what an aligned or unaligned access does to the
 cells, and its refinement of a flat byte array. The array is circular: where address arithmetic
 wraps around, the cell after the last one is the first one.
 */
module ByteMemory {
  import opened Powers
  import opened Limbs

  type Cells = map<nat, nat>

  /** An address space of `limit` bytes in cells of `word` bytes. */
  datatype AddressSpace = AddressSpace(word: nat, limit: nat) {
    /** Whole cells, and at least two of them. */
    predicate Valid() {
      0 < word && 2 * word <= limit && limit % word == 0
    }

    function NextCell(lo: nat): (next: nat) {
      if lo + word < limit then lo + word else 0
    }

    /** Byte k of an access at the address. */
    function ByteOf(address: nat, k: nat): (b: nat) {
      if address + k < limit then address + k else address + k - limit
    }

    /** Byte b belongs to an access at the address. */
    predicate Covers(address: nat, b: nat) {
      address <= b < address + word || address <= b + limit < address + word
    }

    /** The place in the access of a byte that it covers. */
    function PlaceOf(address: nat, b: nat): (k: nat)
      requires Covers(address, b)
      ensures Valid() && address < limit && b < limit ==> k < word && ByteOf(address, k) == b
    {
      if address <= b then b - address else b + limit - address
    }
  }

  /** A missing cell reads as zero. */
  function CellAt(memory: Cells, address: nat): nat {
    if address in memory then memory[address] else 0
  }

  /** Keys are word-aligned and values fit a cell. */
  predicate WellFormed(memory: Cells, word: nat) {
    && word > 0
    && forall a :: a in memory ==> a % word == 0 && memory[a] < Pow256(word)
  }

  function CellBytes(memory: Cells, word: nat, address: nat): (bytes: seq<Byte>)
    ensures |bytes| == word
  {
    ToBytes(CellAt(memory, address), word)
  }

  /** The byte of the flat address space that the cells represent. */
  function ByteAt(memory: Cells, word: nat, b: nat): Byte
    requires word > 0
  {
    CellBytes(memory, word, CellStart(word, b))[b % word]
  }

  /** The bytes of an access that starts `remain` bytes into cell lo: the end of one cell, the start of the next. */
  function Joined(memory: Cells, sp: AddressSpace, lo: nat, remain: nat): (bytes: seq<Byte>)
    requires remain < sp.word
    ensures |bytes| == sp.word
  {
    CellBytes(memory, sp.word, lo)[remain..] + CellBytes(memory, sp.word, sp.NextCell(lo))[..remain]
  }

  function ReadParts(memory: Cells, sp: AddressSpace, lo: nat, remain: nat): nat
    requires remain < sp.word
  {
    if remain == 0 then CellAt(memory, lo) else FromBytes(Joined(memory, sp, lo, remain))
  }

  /** The bytes of the low cell after an unaligned write: the first `remain` stay. */
  function LowBytes(memory: Cells, sp: AddressSpace, lo: nat, remain: nat, value: nat): (bytes: seq<Byte>)
    requires remain < sp.word
    ensures |bytes| == sp.word
  {
    CellBytes(memory, sp.word, lo)[..remain] + ToBytes(value, sp.word)[..sp.word - remain]
  }

  /** The bytes of the high cell after an unaligned write: those from `remain` on stay. */
  function HighBytes(memory: Cells, sp: AddressSpace, lo: nat, remain: nat, value: nat): (bytes: seq<Byte>)
    requires remain < sp.word
    ensures |bytes| == sp.word
  {
    ToBytes(value, sp.word)[sp.word - remain..] + CellBytes(memory, sp.word, sp.NextCell(lo))[remain..]
  }

  function WriteParts(memory: Cells, sp: AddressSpace, lo: nat, remain: nat, value: nat): (after: Cells)
    requires remain < sp.word
  {
    if remain == 0 then memory[lo := value]
    else
      memory[lo := FromBytes(LowBytes(memory, sp, lo, remain, value))]
            [sp.NextCell(lo) := FromBytes(HighBytes(memory, sp, lo, remain, value))]
  }

  /** The first byte of the cell that holds the address. */
  function CellStart(word: nat, address: nat): (lo: nat)
    requires word > 0
    ensures lo <= address < lo + word && lo % word == 0
  {
    BlockStart(word, address);
    address - address % word
  }

  function ReadValue(memory: Cells, sp: AddressSpace, address: nat): nat
    requires sp.word > 0
  {
    ReadParts(memory, sp, CellStart(sp.word, address), address % sp.word)
  }

  function WriteValue(memory: Cells, sp: AddressSpace, address: nat, value: nat): (after: Cells)
    requires sp.word > 0
  {
    WriteParts(memory, sp, CellStart(sp.word, address), address % sp.word, value)
  }

  /** The one or two cells of an access. */
  function CellsOf(sp: AddressSpace, address: nat): (cells: set<nat>)
    requires sp.word > 0
    ensures CellStart(sp.word, address) in cells
  {
    var lo := CellStart(sp.word, address);
    if address % sp.word == 0 then {lo} else {lo, sp.NextCell(lo)}
  }

  // ---------------------------------------------------------------------------------
  // Cells

  lemma BlocksApart(word: nat, a: nat, b: nat)
    requires word > 0 && a % word == 0 && b % word == 0 && a < b
    ensures a + word <= b
  {
    var p, q := a / word, b / word;
    assert a == p * word && b == q * word;
    if q <= p {
      ScaledOrder(q, p, word);
      assert false;
    }
    ScaledOrder(p + 1, q, word);
  }

  lemma NextBlock(word: nat, lo: nat)
    requires word > 0 && lo % word == 0
    ensures (lo + word) % word == 0
  {
    var q := lo / word;
    assert (q + 1) * word == q * word + word;
    DivisionIsUnique(lo + word, word, q + 1, 0);
  }

  /** The cell and offset of a byte. */
  lemma PlaceInBlock(word: nat, lo: nat, k: nat)
    requires word > 0 && lo % word == 0 && k < word
    ensures (lo + k) % word == k
  {
    DivisionIsUnique(lo + k, word, lo / word, k);
  }

  lemma BlockStart(word: nat, address: nat)
    requires word > 0
    ensures address % word <= address && (address - address % word) % word == 0
  {
    var q := address / word;
    assert address == q * word + address % word;
    ScaledOrder(0, q, word);
    DivisionIsUnique(address - address % word, word, q, 0);
  }

  /** A cell that starts in the space also ends in it. */
  lemma CellFits(sp: AddressSpace, lo: nat)
    requires sp.Valid() && lo % sp.word == 0 && lo < sp.limit
    ensures lo + sp.word <= sp.limit
  {
    BlocksApart(sp.word, lo, sp.limit);
  }

  /** The next cell is another cell of the space. */
  lemma NextCellFits(sp: AddressSpace, lo: nat)
    requires sp.Valid() && lo % sp.word == 0 && lo < sp.limit
    ensures sp.NextCell(lo) % sp.word == 0 && sp.NextCell(lo) != lo && sp.NextCell(lo) + sp.word <= sp.limit
    ensures sp.NextCell(lo) == lo + sp.word || (sp.NextCell(lo) == 0 && lo + sp.word == sp.limit)
  {
    CellFits(sp, lo);
    NextBlock(sp.word, lo);
    if lo + sp.word < sp.limit {
      CellFits(sp, lo + sp.word);
    } else {
      DivisionIsUnique(0, sp.word, 0, 0);
    }
  }

  /** Every cell of an access lies in the space. */
  lemma StoredFits(memory: Cells, word: nat, cell: nat, value: nat)
    requires WellFormed(memory, word) && cell % word == 0 && value < Pow256(word)
    ensures WellFormed(memory[cell := value], word)
  {
    hide Pow256;
  }

  lemma PartsKeepWellFormed(memory: Cells, sp: AddressSpace, lo: nat, remain: nat, value: nat)
    requires WellFormed(memory, sp.word) && value < Pow256(sp.word) && remain < sp.word
    requires lo % sp.word == 0 && sp.NextCell(lo) % sp.word == 0
    ensures WellFormed(WriteParts(memory, sp, lo, remain, value), sp.word)
  {
    hide WellFormed, Pow256, LowBytes, HighBytes, FromBytes;
    if remain == 0 {
      StoredFits(memory, sp.word, lo, value);
    } else {
      var valLo := FromBytes(LowBytes(memory, sp, lo, remain, value));
      StoredFits(memory, sp.word, lo, valLo);
      StoredFits(memory[lo := valLo], sp.word, sp.NextCell(lo), FromBytes(HighBytes(memory, sp, lo, remain, value)));
    }
  }

  lemma WriteKeepsWellFormed(memory: Cells, sp: AddressSpace, address: nat, value: nat)
    requires sp.Valid() && address < sp.limit && WellFormed(memory, sp.word) && value < Pow256(sp.word)
    ensures WellFormed(WriteValue(memory, sp, address, value), sp.word)
  {
    hide WellFormed, Pow256, WriteParts;
    NextCellFits(sp, CellStart(sp.word, address));
    PartsKeepWellFormed(memory, sp, CellStart(sp.word, address), address % sp.word, value);
  }

  /** A write changes the cells of its access only. */
  lemma OtherCellsStay(memory: Cells, sp: AddressSpace, address: nat, value: nat, c: nat)
    requires sp.word > 0 && c !in CellsOf(sp, address)
    ensures CellAt(WriteValue(memory, sp, address, value), c) == CellAt(memory, c)
  {
    hide LowBytes, HighBytes, FromBytes;
  }

  // ---------------------------------------------------------------------------------
  // Bytes

  lemma ByteInCell(memory: Cells, word: nat, lo: nat, k: nat)
    requires k < word && lo % word == 0
    ensures ByteAt(memory, word, lo + k) == CellBytes(memory, word, lo)[k]
  {
    PlaceInBlock(word, lo, k);
  }

  /** A joined read returns the bytes from lo + remain on. */
  lemma JoinedBytes(memory: Cells, sp: AddressSpace, lo: nat, remain: nat, k: nat)
    requires sp.Valid() && remain < sp.word && k < sp.word && lo % sp.word == 0 && lo < sp.limit
    ensures Joined(memory, sp, lo, remain)[k] == ByteAt(memory, sp.word, sp.ByteOf(lo + remain, k))
  {
    hide CellBytes, ByteAt;
    NextCellFits(sp, lo);
    CellFits(sp, lo);
    if remain + k < sp.word {
      ByteInCell(memory, sp.word, lo, remain + k);
    } else {
      ByteInCell(memory, sp.word, sp.NextCell(lo), remain + k - sp.word);
    }
  }

  lemma PartsReturn(memory: Cells, sp: AddressSpace, lo: nat, remain: nat, address: nat, k: nat)
    requires sp.Valid() && WellFormed(memory, sp.word) && remain < sp.word && k < sp.word
    requires lo % sp.word == 0 && lo < sp.limit && address == lo + remain
    ensures ReadParts(memory, sp, lo, remain) < Pow256(sp.word)
    ensures ToBytes(ReadParts(memory, sp, lo, remain), sp.word)[k] == ByteAt(memory, sp.word, sp.ByteOf(address, k))
  {
    if remain == 0 {
      CellFits(sp, lo);
      ByteInCell(memory, sp.word, lo, k);
    } else {
      NumberRoundTrip(Joined(memory, sp, lo, remain));
      JoinedBytes(memory, sp, lo, remain, k);
    }
  }

  /** Reading returns the `word` bytes from the address on. */
  lemma ReadReturnsBytes(memory: Cells, sp: AddressSpace, address: nat, k: nat)
    requires sp.Valid() && WellFormed(memory, sp.word) && k < sp.word && address < sp.limit
    ensures ReadValue(memory, sp, address) < Pow256(sp.word)
    ensures ToBytes(ReadValue(memory, sp, address), sp.word)[k] == ByteAt(memory, sp.word, sp.ByteOf(address, k))
  {
    hide ReadParts, ByteAt, ToBytes, Pow256, WellFormed;
    PartsReturn(memory, sp, CellStart(sp.word, address), address % sp.word, address, k);
  }

  lemma SameCellSameByte(before: Cells, after: Cells, word: nat, b: nat)
    requires word > 0 && CellAt(before, CellStart(word, b)) == CellAt(after, CellStart(word, b))
    ensures ByteAt(before, word, b) == ByteAt(after, word, b)
  {
  }

  lemma {:induction false} CellsDoNotOverlap(word: nat, lo: nat, b: nat)
    requires word > 0 && lo % word == 0 && !(lo <= b < lo + word)
    ensures CellStart(word, b) != lo
  {
  }

  /** The byte at b after an access of `word` bytes at `address` has been replaced by `bytes`. */
  function Replaced(memory: Cells, sp: AddressSpace, address: nat, bytes: seq<Byte>, b: nat): Byte
    requires sp.Valid() && |bytes| == sp.word && address < sp.limit && b < sp.limit
  {
    if sp.Covers(address, b) then bytes[sp.PlaceOf(address, b)] else ByteAt(memory, sp.word, b)
  }

  lemma AlignedWrite(memory: Cells, sp: AddressSpace, lo: nat, value: nat, b: nat)
    requires sp.Valid() && lo % sp.word == 0 && lo < sp.limit && b < sp.limit
    ensures ByteAt(WriteParts(memory, sp, lo, 0, value), sp.word, b)
      == Replaced(memory, sp, lo, ToBytes(value, sp.word), b)
  {
    CellFits(sp, lo);
    if lo <= b < lo + sp.word {
      ByteInCell(WriteParts(memory, sp, lo, 0, value), sp.word, lo, b - lo);
    } else {
      CellsDoNotOverlap(sp.word, lo, b);
      SameCellSameByte(memory, WriteParts(memory, sp, lo, 0, value), sp.word, b);
    }
  }

  lemma UnalignedCells(memory: Cells, sp: AddressSpace, lo: nat, remain: nat, value: nat)
    requires 0 < remain < sp.word && sp.NextCell(lo) != lo
    ensures var after := WriteParts(memory, sp, lo, remain, value);
      && CellBytes(after, sp.word, lo) == LowBytes(memory, sp, lo, remain, value)
      && CellBytes(after, sp.word, sp.NextCell(lo)) == HighBytes(memory, sp, lo, remain, value)
  {
    hide LowBytes, HighBytes, Pow256;
    NumberRoundTrip(LowBytes(memory, sp, lo, remain, value));
    NumberRoundTrip(HighBytes(memory, sp, lo, remain, value));
  }

  lemma UnalignedLowBytes(memory: Cells, sp: AddressSpace, lo: nat, remain: nat, value: nat, k: nat)
    requires sp.Valid() && 0 < remain < sp.word && k < sp.word && lo % sp.word == 0 && lo + sp.word <= sp.limit
    ensures ByteAt(WriteParts(memory, sp, lo, remain, value), sp.word, lo + k)
      == Replaced(memory, sp, lo + remain, ToBytes(value, sp.word), lo + k)
  {
    hide WriteParts, CellBytes, ByteAt, ToBytes;
    NextCellFits(sp, lo);
    UnalignedCells(memory, sp, lo, remain, value);
    ByteInCell(WriteParts(memory, sp, lo, remain, value), sp.word, lo, k);
    ByteInCell(memory, sp.word, lo, k);
  }

  lemma UnalignedHighBytes(memory: Cells, sp: AddressSpace, lo: nat, remain: nat, value: nat, k: nat)
    requires sp.Valid() && 0 < remain < sp.word && k < sp.word && lo % sp.word == 0 && lo + sp.word <= sp.limit
    requires sp.NextCell(lo) + sp.word <= sp.limit
    ensures ByteAt(WriteParts(memory, sp, lo, remain, value), sp.word, sp.NextCell(lo) + k)
      == Replaced(memory, sp, lo + remain, ToBytes(value, sp.word), sp.NextCell(lo) + k)
  {
    hide WriteParts, CellBytes, ByteAt, ToBytes;
    NextCellFits(sp, lo);
    UnalignedCells(memory, sp, lo, remain, value);
    ByteInCell(WriteParts(memory, sp, lo, remain, value), sp.word, sp.NextCell(lo), k);
    ByteInCell(memory, sp.word, sp.NextCell(lo), k);
  }

  lemma UnalignedElsewhere(memory: Cells, sp: AddressSpace, lo: nat, remain: nat, value: nat, b: nat)
    requires sp.Valid() && 0 < remain < sp.word && lo % sp.word == 0 && lo < sp.limit
    requires !(lo <= b < lo + sp.word) && !(sp.NextCell(lo) <= b < sp.NextCell(lo) + sp.word)
    ensures ByteAt(WriteParts(memory, sp, lo, remain, value), sp.word, b) == ByteAt(memory, sp.word, b)
  {
    hide LowBytes, HighBytes, FromBytes, ByteAt;
    NextCellFits(sp, lo);
    CellsDoNotOverlap(sp.word, lo, b);
    CellsDoNotOverlap(sp.word, sp.NextCell(lo), b);
    SameCellSameByte(memory, WriteParts(memory, sp, lo, remain, value), sp.word, b);
  }

  lemma UnalignedWrite(memory: Cells, sp: AddressSpace, lo: nat, remain: nat, value: nat, b: nat)
    requires sp.Valid() && 0 < remain < sp.word && lo % sp.word == 0 && lo + remain < sp.limit && b < sp.limit
    ensures ByteAt(WriteParts(memory, sp, lo, remain, value), sp.word, b)
      == Replaced(memory, sp, lo + remain, ToBytes(value, sp.word), b)
  {
    hide WriteParts, ByteAt, ToBytes;
    var next := sp.NextCell(lo);
    CellFits(sp, lo);
    NextCellFits(sp, lo);
    if lo <= b < lo + sp.word {
      UnalignedLowBytes(memory, sp, lo, remain, value, b - lo);
    } else if next <= b < next + sp.word {
      UnalignedHighBytes(memory, sp, lo, remain, value, b - next);
    } else {
      UnalignedElsewhere(memory, sp, lo, remain, value, b);
    }
  }

  lemma PartsReplace(memory: Cells, sp: AddressSpace, lo: nat, remain: nat, address: nat, value: nat, b: nat)
    requires sp.Valid() && remain < sp.word && lo % sp.word == 0 && address == lo + remain < sp.limit && b < sp.limit
    ensures ByteAt(WriteParts(memory, sp, lo, remain, value), sp.word, b)
      == Replaced(memory, sp, address, ToBytes(value, sp.word), b)
  {
    if remain == 0 {
      AlignedWrite(memory, sp, lo, value, b);
    } else {
      UnalignedWrite(memory, sp, lo, remain, value, b);
    }
  }

  /** Writing replaces exactly the `word` bytes from the address on. */
  lemma WriteReplacesBytes(memory: Cells, sp: AddressSpace, address: nat, value: nat, b: nat)
    requires sp.Valid() && address < sp.limit && b < sp.limit
    ensures ByteAt(WriteValue(memory, sp, address, value), sp.word, b)
      == Replaced(memory, sp, address, ToBytes(value, sp.word), b)
  {
    hide WriteParts, ByteAt, ToBytes, Replaced;
    PartsReplace(memory, sp, CellStart(sp.word, address), address % sp.word, address, value, b);
  }

  // ---------------------------------------------------------------------------------
  // A flat byte array, as the history of its writes

  /** The last write that covers byte b decides it; an untouched byte is zero. */
  function FlatByte(writes: seq<(nat, nat)>, sp: AddressSpace, b: nat): Byte {
    if writes == [] then 0
    else
      var (address, value) := writes[|writes| - 1];
      if sp.Covers(address, b) && sp.PlaceOf(address, b) < sp.word then ToBytes(value, sp.word)[sp.PlaceOf(address, b)]
      else FlatByte(writes[..|writes| - 1], sp, b)
  }

  function FlatBytes(writes: seq<(nat, nat)>, sp: AddressSpace, address: nat): (bytes: seq<Byte>)
    ensures |bytes| == sp.word && forall k :: 0 <= k < sp.word ==> bytes[k] == FlatByte(writes, sp, sp.ByteOf(address, k))
  {
    seq<Byte>(sp.word, k requires 0 <= k < sp.word => FlatByte(writes, sp, sp.ByteOf(address, k)))
  }

  function FlatValue(writes: seq<(nat, nat)>, sp: AddressSpace, address: nat): nat {
    FromBytes(FlatBytes(writes, sp, address))
  }

  /** The bytes from `low` on, but for a gap. */
  datatype Window = Window(low: nat, gapLow: nat, gapHigh: nat) {
    predicate Shows(b: nat) {
      low <= b && !(gapLow <= b < gapHigh)
    }

    predicate ShowsAll(sp: AddressSpace, address: nat) {
      forall k :: 0 <= k < sp.word ==> Shows(sp.ByteOf(address, k))
    }

    predicate ShowsNone(sp: AddressSpace, address: nat) {
      forall b :: 0 <= b < sp.limit && sp.Covers(address, b) ==> !Shows(b)
    }
  }

  const ALL_BYTES: Window := Window(0, 0, 0)

  /** Through the window, the cells represent the flat array. */
  ghost predicate Represents(memory: Cells, sp: AddressSpace, w: Window, writes: seq<(nat, nat)>)
    requires sp.word > 0
  {
    forall b: nat :: b < sp.limit && w.Shows(b) ==> ByteAt(memory, sp.word, b) == FlatByte(writes, sp, b)
  }

  lemma WriteRefines(memory: Cells, sp: AddressSpace, w: Window, writes: seq<(nat, nat)>, address: nat, value: nat)
    requires sp.Valid() && address < sp.limit && Represents(memory, sp, w, writes)
    ensures Represents(WriteValue(memory, sp, address, value), sp, w, writes + [(address, value)])
  {
    hide WriteValue, ByteAt, ToBytes;
    var history := writes + [(address, value)];
    assert history[..|writes|] == writes;
    forall b: nat | b < sp.limit && w.Shows(b)
      ensures ByteAt(WriteValue(memory, sp, address, value), sp.word, b) == FlatByte(history, sp, b)
    {
      WriteReplacesBytes(memory, sp, address, value, b);
    }
  }

  lemma ReadRefines(memory: Cells, sp: AddressSpace, w: Window, writes: seq<(nat, nat)>, address: nat)
    requires sp.Valid() && address < sp.limit && WellFormed(memory, sp.word)
    requires Represents(memory, sp, w, writes) && w.ShowsAll(sp, address)
    ensures ReadValue(memory, sp, address) == FlatValue(writes, sp, address)
  {
    hide ReadValue, ByteAt, ToBytes, FlatByte, WellFormed, Pow256;
    var bytes := FlatBytes(writes, sp, address);
    var value := ReadValue(memory, sp, address);
    ReadReturnsBytes(memory, sp, address, 0);
    forall k | 0 <= k < sp.word ensures ToBytes(value, sp.word)[k] == bytes[k] {
      ReadReturnsBytes(memory, sp, address, k);
      assert w.Shows(sp.ByteOf(address, k));
    }
    BytesRoundTrip(value, sp.word);
    assert ToBytes(value, sp.word) == bytes;
  }

  /** A write whose bytes lie elsewhere leaves what the window shows alone. */
  lemma WriteElsewhere(memory: Cells, sp: AddressSpace, w: Window, writes: seq<(nat, nat)>, address: nat, value: nat)
    requires sp.Valid() && address < sp.limit && Represents(memory, sp, w, writes) && w.ShowsNone(sp, address)
    ensures Represents(WriteValue(memory, sp, address, value), sp, w, writes)
  {
    hide WriteValue, ByteAt, ToBytes, FlatByte;
    forall b: nat | b < sp.limit && w.Shows(b)
      ensures ByteAt(WriteValue(memory, sp, address, value), sp.word, b) == FlatByte(writes, sp, b)
    {
      WriteReplacesBytes(memory, sp, address, value, b);
    }
  }

  /** Accesses of a program: reads and writes at byte addresses. */
  datatype Access = ReadAt(address: nat) | WriteAt(address: nat, value: nat)

  /** The cells after a program and the values its reads return. */
  function RunCells(memory: Cells, sp: AddressSpace, program: seq<Access>): (Cells, seq<nat>)
    requires sp.word > 0
  {
    if program == [] then (memory, [])
    else
      var (before, out) := RunCells(memory, sp, program[..|program| - 1]);
      match program[|program| - 1]
      case ReadAt(a) => (before, out + [ReadValue(before, sp, a)])
      case WriteAt(a, x) => (WriteValue(before, sp, a, x), out)
  }

  function RunFlat(sp: AddressSpace, program: seq<Access>): (seq<(nat, nat)>, seq<nat>) {
    if program == [] then ([], [])
    else
      var (writes, out) := RunFlat(sp, program[..|program| - 1]);
      match program[|program| - 1]
      case ReadAt(a) => (writes, out + [FlatValue(writes, sp, a)])
      case WriteAt(a, x) => (writes + [(a, x)], out)
  }

  /**
   Any program of aligned and unaligned, possibly overlapping accesses behaves on the cells as
   on a zero-initialised circular byte array, and all keys stay aligned.
   */
  lemma {:induction false} CellsRefineBytes(sp: AddressSpace, program: seq<Access>)
    requires sp.Valid() && forall i :: 0 <= i < |program| ==> program[i].address < sp.limit
    requires forall i :: 0 <= i < |program| && program[i].WriteAt? ==> program[i].value < Pow256(sp.word)
    ensures var (memory, out) := RunCells(map[], sp, program);
      var (writes, flatOut) := RunFlat(sp, program);
      out == flatOut && WellFormed(memory, sp.word) && Represents(memory, sp, ALL_BYTES, writes)
  {
    if program == [] {
      NothingStored(sp, ALL_BYTES);
    } else {
      hide WellFormed, ReadValue, WriteValue, FlatValue, Represents, Pow256;
      var front := program[..|program| - 1];
      CellsRefineBytes(sp, front);
      var (memory, _) := RunCells(map[], sp, front);
      var (writes, _) := RunFlat(sp, front);
      match program[|program| - 1]
      case ReadAt(a) => ReadRefines(memory, sp, ALL_BYTES, writes, a);
      case WriteAt(a, x) =>
        WriteRefines(memory, sp, ALL_BYTES, writes, a, x);
        WriteKeepsWellFormed(memory, sp, a, x);
    }
  }

  lemma NothingStored(sp: AddressSpace, w: Window)
    requires sp.word > 0
    ensures Represents(map[], sp, w, [])
  {
    forall b: nat ensures ByteAt(map[], sp.word, b) == 0 {
      ZeroBytes(sp.word, b % sp.word);
    }
  }

  lemma {:induction false} ZeroBytes(n: nat, k: nat)
    requires k < n
    ensures ToBytes(0, n)[k] == 0
  {
    if k < n - 1 {
      ZeroBytes(n - 1, k);
    }
  }
}
