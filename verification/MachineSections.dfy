/** Rows of aligned cells, and which of them an access can reach. */
module MachineSections {
  import opened Powers
  import opened ByteMemory

  /** The n cells from address `low` on. */
  function CellRow(memory: Cells, word: nat, low: nat, n: nat): (row: seq<nat>)
    ensures |row| == n
    ensures forall i :: 0 <= i < n ==> row[i] == CellAt(memory, low + i * word)
  {
    seq(n, i requires 0 <= i < n => CellAt(memory, low + i * word))
  }

  lemma MultipleIsAligned(word: nat, low: nat, i: nat)
    requires word > 0 && low % word == 0
    ensures (low + i * word) % word == 0
  {
    var q := low / word;
    assert low + i * word == (q + i) * word;
    DivisionIsUnique(low + i * word, word, q + i, 0);
  }

  /** Stack slot d lies inside the section of `max` slots. */
  lemma StackSlot(word: nat, d: nat, max: nat)
    requires word > 0 && d < max
    ensures (d * word) % word == 0 && d * word + word == (d + 1) * word <= max * word
  {
    DivisionIsUnique(d * word, word, d, 0);
    ScaledOrder(d + 1, max, word);
  }

  lemma RegisterSlot(word: nat, low: nat, i: nat, n: nat)
    requires word > 0 && low % word == 0 && i < n
    ensures (low + i * word) % word == 0 && low <= low + i * word && low + i * word + word <= low + n * word
  {
    MultipleIsAligned(word, low, i);
    ScaledOrder(0, i, word);
    ScaledOrder(i + 1, n, word);
  }

  lemma SlotsDiffer(word: nat, i: nat, j: nat)
    requires word > 0 && i < j
    ensures i * word + word <= j * word
  {
    ScaledOrder(i + 1, j, word);
  }

  /** An aligned access is an access to one cell. */
  lemma AlignedAccess(memory: Cells, sp: AddressSpace, cell: nat, value: nat)
    requires sp.word > 0 && cell % sp.word == 0
    ensures ReadValue(memory, sp, cell) == CellAt(memory, cell)
    ensures WriteValue(memory, sp, cell, value) == memory[cell := value]
    ensures CellsOf(sp, cell) == {cell}
  {
  }

  /** Storing one aligned cell changes its slot of a row and no other. */
  lemma RowAfterStore(memory: Cells, word: nat, low: nat, n: nat, k: nat, value: nat)
    requires word > 0 && k < n
    ensures CellRow(memory[low + k * word := value], word, low, n) == CellRow(memory, word, low, n)[k := value]
  {
    forall i | 0 <= i < n && i != k ensures low + i * word != low + k * word {
      SlotsDiffer(word, if i < k then i else k, if i < k then k else i);
    }
  }

  /** None of the row's cells belongs to the access. */
  ghost predicate RowMissed(sp: AddressSpace, low: nat, n: nat, address: nat)
    requires sp.word > 0
  {
    forall i :: 0 <= i < n ==> low + i * sp.word !in CellsOf(sp, address)
  }

  /** A row that an access misses keeps its cells. */
  lemma MissedRowStays(memory: Cells, sp: AddressSpace, low: nat, n: nat, address: nat, value: nat)
    requires sp.word > 0 && RowMissed(sp, low, n, address)
    ensures CellRow(WriteValue(memory, sp, address, value), sp.word, low, n) == CellRow(memory, sp.word, low, n)
  {
    hide CellAt, WriteValue, CellsOf;
    var after := WriteValue(memory, sp, address, value);
    forall i | 0 <= i < n ensures CellAt(after, low + i * sp.word) == CellAt(memory, low + i * sp.word) {
      OtherCellsStay(memory, sp, address, value, low + i * sp.word);
    }
  }

  /** Reading the slot below the pointer returns the top of the stack. */
  lemma StackPopped(memory: Cells, sp: AddressSpace, d: nat)
    requires sp.word > 0
    ensures CellRow(memory, sp.word, 0, d + 1) == CellRow(memory, sp.word, 0, d) + [ReadValue(memory, sp, d * sp.word)]
  {
    DivisionIsUnique(d * sp.word, sp.word, d, 0);
    AlignedAccess(memory, sp, d * sp.word, 0);
  }

  lemma StackPushed(memory: Cells, sp: AddressSpace, d: nat, value: nat)
    requires sp.word > 0
    ensures CellRow(WriteValue(memory, sp, d * sp.word, value), sp.word, 0, d + 1) == CellRow(memory, sp.word, 0, d) + [value]
  {
    hide CellAt, WriteValue;
    DivisionIsUnique(d * sp.word, sp.word, d, 0);
    AlignedAccess(memory, sp, d * sp.word, value);
    RowAfterStore(memory, sp.word, 0, d + 1, d, value);
  }

  lemma RegisterSet(memory: Cells, sp: AddressSpace, low: nat, n: nat, i: nat, value: nat)
    requires sp.word > 0 && low % sp.word == 0 && i < n
    ensures CellRow(WriteValue(memory, sp, low + i * sp.word, value), sp.word, low, n)
      == CellRow(memory, sp.word, low, n)[i := value]
  {
    hide CellAt, WriteValue, CellRow;
    MultipleIsAligned(sp.word, low, i);
    AlignedAccess(memory, sp, low + i * sp.word, value);
    RowAfterStore(memory, sp.word, low, n, i, value);
  }

  /** An access at or above an aligned boundary starts in a cell at or above it. */
  lemma CellAboveBoundary(word: nat, low: nat, address: nat)
    requires word > 0 && low % word == 0 && low <= address
    ensures low <= CellStart(word, address)
  {
    var lo := CellStart(word, address);
    if lo < low {
      BlocksApart(word, lo, low);
      assert false;
    }
  }

  /** The last cell of an access that starts at or below an aligned address is at most that address. */
  lemma CellsUpTo(word: nat, high: nat, address: nat)
    requires word > 0 && high % word == 0 && address <= high
    ensures CellStart(word, address) + (if address % word == 0 then 0 else word) <= high
  {
    if address % word != 0 {
      BlocksApart(word, CellStart(word, address), high);
    }
  }

  /** Every byte of an access lies in one of its cells. */
  lemma ByteInAccess(sp: AddressSpace, address: nat, k: nat) returns (c: nat)
    requires sp.Valid() && address < sp.limit && k < sp.word
    ensures c in CellsOf(sp, address) && c <= sp.ByteOf(address, k) < c + sp.word
  {
    var lo := CellStart(sp.word, address);
    NextCellFits(sp, lo);
    CellFits(sp, lo);
    c := if address + k < lo + sp.word then lo else sp.NextCell(lo);
  }
}
