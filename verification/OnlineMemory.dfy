/**
 The online memory check that the folding circuits state: a memory vector with its commitment,
 replayed record by record. Also the gadgets both circuit families assign their witness with.
 */
module OnlineMemory {
  import opened Fields

  datatype OnlineRecord<F> = OnlineRecord(address: F, instruction: F, value: F)

  // ---------------------------------------------------------------------------------
  // Replay

  /** The address is the image of a cell index below n. */
  ghost predicate IsCell<F(!new)>(f: Field<F>, n: nat, address: F) {
    exists i :: 0 <= i < n && f.FromNat(i) == address
  }

  /** The cell with this address holds x. */
  ghost predicate HoldsAt<F(!new)>(f: Field<F>, memory: seq<F>, address: F, x: F) {
    exists i :: 0 <= i < |memory| && f.FromNat(i) == address && memory[i] == x
  }

  /** The memory with the addressed cell replaced; an address of no cell changes nothing. */
  ghost function Overwrite<F(!new)>(f: Field<F>, memory: seq<F>, address: F, x: F): (after: seq<F>)
    ensures |after| == |memory|
    ensures forall i :: 0 <= i < |memory| ==> after[i] == if f.FromNat(i) == address then x else memory[i]
  {
    seq(|memory|, i requires 0 <= i < |memory| => if f.FromNat(i) == address then x else memory[i])
  }

  ghost predicate RecordOk<F(!new)>(f: Field<F>, memory: seq<F>, r: OnlineRecord<F>) {
    && IsCell(f, |memory|, r.address)
    && (r.instruction == f.zero || r.instruction == f.one)
    && (r.instruction == f.zero ==> HoldsAt(f, memory, r.address, r.value))
  }

  ghost predicate Accepts<F(!new)>(f: Field<F>, memory: seq<F>, records: seq<OnlineRecord<F>>)
    decreases records
  {
    records == [] ||
    (RecordOk(f, memory, records[0])
     && Accepts(f, Overwrite(f, memory, records[0].address, records[0].value), records[1..]))
  }

  ghost function Final<F(!new)>(f: Field<F>, memory: seq<F>, records: seq<OnlineRecord<F>>): (after: seq<F>)
    ensures |after| == |memory|
    decreases records
  {
    if records == [] then memory
    else Final(f, Overwrite(f, memory, records[0].address, records[0].value), records[1..])
  }

  /** Replaying two traces in a row is replaying their concatenation. */
  lemma {:induction false} ReplayConcatenates<F(!new)>(f: Field<F>, memory: seq<F>, a: seq<OnlineRecord<F>>,
                                                       b: seq<OnlineRecord<F>>)
    ensures Accepts(f, memory, a + b) <==> Accepts(f, memory, a) && Accepts(f, Final(f, memory, a), b)
    ensures Final(f, memory, a + b) == Final(f, Final(f, memory, a), b)
    decreases a
  {
    if a == [] {
      assert a + b == b;
    } else {
      assert (a + b)[1..] == a[1..] + b;
      ReplayConcatenates(f, Overwrite(f, memory, a[0].address, a[0].value), a[1..], b);
    }
  }

  lemma SameIndex<F(!new)>(f: Field<F>, n: nat, i: nat, j: nat)
    requires Distinct(f, n) && i < n && j < n && f.FromNat(i) == f.FromNat(j)
    ensures i == j
  {
  }

  /** At most one cell has the address. */
  lemma CellIsUnique<F(!new)>(f: Field<F>, memory: seq<F>, address: F, x: F, y: F)
    requires Distinct(f, |memory|) && HoldsAt(f, memory, address, x) && HoldsAt(f, memory, address, y)
    ensures x == y
  {
    var i :| 0 <= i < |memory| && f.FromNat(i) == address && memory[i] == x;
    var j :| 0 <= j < |memory| && f.FromNat(j) == address && memory[j] == y;
    SameIndex(f, |memory|, i, j);
  }

  /** Looking at one more cell. */
  lemma NextCell<F(!new)>(f: Field<F>, n: nat, i: nat, address: F)
    requires Distinct(f, n) && i < n
    ensures IsCell(f, i + 1, address) <==> IsCell(f, i, address) || f.FromNat(i) == address
    ensures f.FromNat(i) == address ==> !IsCell(f, i, address)
  {
    if IsCell(f, i, address) {
      var j :| 0 <= j < i && f.FromNat(j) == address;
      assert 0 <= j < i + 1;
    }
  }

  /** An accepted read leaves the memory as it was. */
  lemma AcceptedReadKeepsMemory<F(!new)>(f: Field<F>, memory: seq<F>, r: OnlineRecord<F>)
    requires Distinct(f, |memory|) && RecordOk(f, memory, r) && r.instruction == f.zero
    ensures Overwrite(f, memory, r.address, r.value) == memory
  {
    var i :| 0 <= i < |memory| && f.FromNat(i) == r.address && memory[i] == r.value;
    forall j | 0 <= j < |memory| && f.FromNat(j) == r.address ensures j == i {
      SameIndex(f, |memory|, i, j);
    }
  }

  // ---------------------------------------------------------------------------------
  // Constraints

  /** a * b = c on the assigned values. */
  datatype Constraint<F> = Constraint(a: F, b: F, c: F)

  ghost predicate AllHold<F(!new)>(f: Field<F>, constraints: seq<Constraint<F>>) {
    forall i :: 0 <= i < |constraints| ==> f.mul(constraints[i].a, constraints[i].b) == constraints[i].c
  }

  lemma AllHoldAppend<F(!new)>(f: Field<F>, constraints: seq<Constraint<F>>, c: Constraint<F>)
    ensures AllHold(f, constraints + [c]) <==> AllHold(f, constraints) && f.mul(c.a, c.b) == c.c
  {
    var longer := constraints + [c];
    assert longer[|constraints|] == c;
    assert forall i :: 0 <= i < |constraints| ==> longer[i] == constraints[i];
  }

  class ConstraintSystem<F(!new)> {
    var constraints: seq<Constraint<F>>

    constructor ()
      ensures constraints == []
    {
      constraints := [];
    }

    method Enforce(ghost f: Field<F>, a: F, b: F, c: F)
      modifies this
      ensures constraints == old(constraints) + [Constraint(a, b, c)]
      ensures AllHold(f, constraints) <==> AllHold(f, old(constraints)) && f.mul(a, b) == c
    {
      AllHoldAppend(f, constraints, Constraint(a, b, c));
      constraints := constraints + [Constraint(a, b, c)];
    }
  }

  // ---------------------------------------------------------------------------------
  // Gadgets

  /** Counts the cell indices equal to the address. */
  method LookupResult<F(==, !new)>(f: Field<F>, n: nat, address: F) returns (count: nat)
    requires IsDomain(f) && Distinct(f, n)
    ensures count <= 1 && (count == 1 <==> IsCell(f, n, address))
  {
    count := 0;
    for i := 0 to n
      invariant count <= 1 && (count == 1 <==> IsCell(f, i, address))
    {
      SubZero(f, f.FromNat(i), address);
      NextCell(f, n, i, address);
      if f.Sub(f.FromNat(i), address) == f.zero {
        count := count + 1;
      }
    }
  }

  /** The lookup constraint holds exactly when the count is one. */
  lemma LookupConstraint<F(!new)>(f: Field<F>, count: nat)
    requires IsDomain(f) && count <= 1
    ensures f.mul(f.FromNat(count), f.one) == f.one <==> count == 1
  {
    assert Obeys(f, OneIsNotZero);
    MulLeftOne(f, f.FromNat(count));
    AddLeftZero(f, f.one);
  }

  /** Sums the cells weighted by whether their index is the address. */
  method GetMemoryAddress<F(==, !new)>(f: Field<F>, memory: seq<F>, address: F) returns (sum: F)
    requires IsDomain(f) && Distinct(f, |memory|)
    ensures IsCell(f, |memory|, address) ==> HoldsAt(f, memory, address, sum)
    ensures !IsCell(f, |memory|, address) ==> sum == f.zero
  {
    sum := f.zero;
    for i := 0 to |memory|
      invariant !IsCell(f, i, address) ==> sum == f.zero
      invariant IsCell(f, i, address) ==> HoldsAt(f, memory[..i], address, sum)
    {
      SubZero(f, f.FromNat(i), address);
      NextCell(f, |memory|, i, address);
      var isHit := if f.Sub(f.FromNat(i), address) == f.zero then 1 else 0;
      WeightedTerm(f, sum, memory[i], isHit);
      ghost var before := sum;
      sum := f.add(sum, f.mul(f.FromNat(isHit), memory[i]));
      if isHit == 1 {
        assert memory[..i + 1][i] == sum && f.FromNat(i) == address;
      } else if IsCell(f, i, address) {
        var j :| 0 <= j < i && f.FromNat(j) == address && memory[..i][j] == before;
        assert memory[..i + 1][j] == sum;
      }
    }
    assert memory[..|memory|] == memory;
  }

  lemma WeightedTerm<F(!new)>(f: Field<F>, sum: F, x: F, weight: nat)
    requires IsDomain(f) && weight <= 1
    ensures f.add(sum, f.mul(f.FromNat(weight), x)) == if weight == 0 then sum else f.add(sum, x)
    ensures sum == f.zero ==> f.add(sum, x) == x
  {
    MulZero(f, x);
    MulLeftOne(f, x);
    AddLeftZero(f, sum);
    AddLeftZero(f, x);
    AddLeftZero(f, f.one);
  }

  /** (1 - d) * item + d * value, with d telling whether the index is the address. */
  function NewMemoryCell<F(==, !new)>(f: Field<F>, item: F, value: F, i: F, address: F): F {
    var d := if f.Sub(i, address) == f.zero then 1 else 0;
    f.add(f.mul(f.FromNat(1 - d), item), f.mul(f.FromNat(d), value))
  }

  lemma NewMemoryCellChooses<F(!new)>(f: Field<F>, item: F, value: F, i: F, address: F)
    requires IsDomain(f)
    ensures NewMemoryCell(f, item, value, i, address) == if i == address then value else item
  {
    SubZero(f, i, address);
    AddLeftZero(f, f.one);
    MulZero(f, item);
    MulZero(f, value);
    MulLeftOne(f, item);
    MulLeftOne(f, value);
    AddLeftZero(f, item);
    AddLeftZero(f, value);
  }

  /** The memory after the record: one new cell after the other. */
  method NewMemory<F(==, !new)>(f: Field<F>, memory: seq<F>, address: F, value: F) returns (after: seq<F>)
    requires IsDomain(f)
    ensures after == Overwrite(f, memory, address, value)
  {
    after := memory;
    for i := 0 to |memory|
      invariant |after| == |memory| && after[i..] == memory[i..]
      invariant after[..i] == Overwrite(f, memory, address, value)[..i]
    {
      NewMemoryCellChooses(f, memory[i], value, f.FromNat(i), address);
      after := after[i := NewMemoryCell(f, memory[i], value, f.FromNat(i), address)];
    }
  }
}
