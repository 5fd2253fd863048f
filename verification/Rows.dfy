/** One trace record as the 21 cells that the permutation network routes. */
module Rows {
  import opened Limbs
  import opened Records
  import opened NetLayout

  datatype RowLimbs = RowLimbs(addr: seq<nat>, time: seq<nat>, stackDepth: seq<nat>, value: seq<nat>, instr: nat)

  predicate ValidRow(row: RowLimbs) {
    && |row.addr| == NUM_ADDR_LIMBS && AllLimbs(row.addr)
    && |row.time| == NUM_TIME_LIMBS && AllLimbs(row.time)
    && |row.stackDepth| == NUM_STACK_DEPTH_LIMBS && AllLimbs(row.stackDepth)
    && |row.value| == NUM_VALUE_LIMBS && AllLimbs(row.value)
    && row.instr <= 1
  }

  function FromRecord(r: TraceRecord): (row: RowLimbs)
    requires Fits(r)
    ensures ValidRow(row)
    ensures Decoded(row) == r
  {
    RowLimbs(U256Limbs(r.address), U64Limbs(r.timeLog), U64Limbs(r.stackDepth), U256Limbs(r.value),
             match r.instruction case Write => 1 case Read => 0)
  }

  /** The record that a row of limbs denotes. */
  function Decoded(row: RowLimbs): TraceRecord {
    TraceRecord(Number(row.time), Number(row.stackDepth), if row.instr == 1 then Write else Read,
                Number(row.addr), Number(row.value))
  }

  function Payload(row: RowLimbs, p: nat): (cell: nat)
    requires ValidRow(row) && p < PAYLOAD_CELLS
    ensures cell < LIMB
  {
    if p < PL_TIME then row.addr[p - PL_ADDR]
    else if p < PL_STACK_DEPTH then row.time[p - PL_TIME]
    else if p < PL_VALUE then row.stackDepth[p - PL_STACK_DEPTH]
    else if p < PL_INSTR then row.value[p - PL_VALUE]
    else row.instr
  }

  function LexLimb(row: RowLimbs, j: nat): nat
    requires ValidRow(row) && j < NUM_LEX_LIMBS
  {
    Payload(row, PL_ADDR + j)
  }

  /** The 21 cells of a row, in payload order. */
  function RowCells(row: RowLimbs): (cells: seq<nat>)
    requires ValidRow(row)
    ensures |cells| == PAYLOAD_CELLS && forall p :: 0 <= p < PAYLOAD_CELLS ==> cells[p] == Payload(row, p)
  {
    seq(PAYLOAD_CELLS, p requires 0 <= p < PAYLOAD_CELLS => Payload(row, p))
  }

  /** The row that 21 cells spell out. */
  function RowOf(cells: seq<nat>): (row: RowLimbs)
    requires |cells| == PAYLOAD_CELLS
  {
    RowLimbs(cells[PL_ADDR..PL_TIME], cells[PL_TIME..PL_STACK_DEPTH], cells[PL_STACK_DEPTH..PL_VALUE],
             cells[PL_VALUE..PL_INSTR], cells[PL_INSTR])
  }

  lemma CellOrder(row: RowLimbs)
    requires ValidRow(row)
    ensures |row.addr| == 8 && |row.time| == 2 && |row.stackDepth| == 2 && |row.value| == 8
    ensures RowCells(row) == row.addr + row.time + row.stackDepth + row.value + [row.instr]
  {
  }

  lemma RowOfCells(row: RowLimbs)
    requires ValidRow(row)
    ensures RowOf(RowCells(row)) == row
  {
    var cells := RowCells(row);
    assert cells[PL_ADDR..PL_TIME] == row.addr;
    assert cells[PL_TIME..PL_STACK_DEPTH] == row.time;
    assert cells[PL_STACK_DEPTH..PL_VALUE] == row.stackDepth;
    assert cells[PL_VALUE..PL_INSTR] == row.value;
  }

  lemma PayloadOfRow(cells: seq<nat>, p: nat)
    requires |cells| == PAYLOAD_CELLS && p < PAYLOAD_CELLS && ValidRow(RowOf(cells))
    ensures Payload(RowOf(cells), p) == cells[p]
  {
  }

  /** The lexicographic comparison of address and time limbs is the order of the keys. */
  lemma LexOrder(a: RowLimbs, b: RowLimbs, k: nat)
    requires ValidRow(a) && ValidRow(b) && k < NUM_LEX_LIMBS
    requires forall j :: 0 <= j < k ==> LexLimb(a, j) == LexLimb(b, j)
    requires LexLimb(a, k) != LexLimb(b, k)
    ensures LexLimb(a, k) < LexLimb(b, k) <==> KeyBefore(Decoded(a), Decoded(b))
    ensures k >= NUM_ADDR_LIMBS <==> Decoded(a).address == Decoded(b).address
    ensures Decoded(a).address == Decoded(b).address ==> Decoded(a).timeLog != Decoded(b).timeLog
  {
    if k < NUM_ADDR_LIMBS {
      forall j | 0 <= j < k ensures a.addr[j] == b.addr[j] {
        assert LexLimb(a, j) == LexLimb(b, j);
      }
      FirstDifferenceDecides(a.addr, b.addr, k);
    } else {
      forall j | 0 <= j < NUM_ADDR_LIMBS ensures a.addr[j] == b.addr[j] {
        assert LexLimb(a, j) == LexLimb(b, j);
      }
      assert a.addr == b.addr;
      assert k == 9 ==> LexLimb(a, 8) == LexLimb(b, 8);
      FirstDifferenceDecides(a.time, b.time, k - NUM_ADDR_LIMBS);
    }
  }
}
