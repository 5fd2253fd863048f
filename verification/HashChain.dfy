/** The memory commitment: a chain of pair hashes over the cells, last cell first. */
module HashChain {

  /** h(...h(h(x[n-1], x[n-2]), x[n-3])..., x[0]). */
  function Chain<F>(h: (F, F) -> F, cells: seq<F>): F
    requires cells != []
  {
    if |cells| == 1 then cells[0] else h(Chain(h, cells[1..]), cells[0])
  }

  /** Folding the two last cells into one does not change the chain. */
  lemma {:induction false} FoldLastTwo<F>(h: (F, F) -> F, cells: seq<F>)
    requires |cells| >= 2
    ensures var n := |cells|; Chain(h, cells[..n - 2] + [h(cells[n - 1], cells[n - 2])]) == Chain(h, cells)
    decreases |cells|
  {
    var n := |cells|;
    var folded := cells[..n - 2] + [h(cells[n - 1], cells[n - 2])];
    if n > 2 {
      FoldLastTwo(h, cells[1..]);
      assert folded[1..] == cells[1..][..n - 3] + [h(cells[1..][n - 2], cells[1..][n - 3])];
    }
  }

  /**
   The commitment of a memory. The two nested loops pop the last two entries and push their
   hash until one entry is left; the vector is never empty when it is popped.
   */
  method MerkleTreeCommit<F>(h: (F, F) -> F, memory: seq<F>) returns (commitment: F)
    requires memory != []
    ensures commitment == Chain(h, memory)
  {
    var root := memory;
    var size := |root|;
    while size > 1
      invariant size == |root| >= 1 && Chain(h, root) == Chain(h, memory)
    {
      var rootSize := size;
      ghost var pops := 0;
      while rootSize > 1
        invariant pops >= 0 && rootSize == size - 2 * pops >= 0 && |root| == size - pops >= 1
        invariant Chain(h, root) == Chain(h, memory)
      {
        ghost var before, n := root, |root|;
        assert n >= 2;
        FoldLastTwo(h, before);
        var left := root[|root| - 1];
        root := root[..|root| - 1];
        var right := root[|root| - 1];
        root := root[..|root| - 1];
        root := root + [h(left, right)];
        assert root == before[..n - 2] + [h(before[n - 1], before[n - 2])];
        rootSize := rootSize - 2;
        pops := pops + 1;
      }
      size := |root|;
    }
    commitment := root[0];
  }

  /** Two inputs of the pair hash with one output. */
  ghost predicate IsCollision<F(!new)>(h: (F, F) -> F, p: (F, F), q: (F, F)) {
    p != q && h(p.0, p.1) == h(q.0, q.1)
  }

  /** Different memories of one size with one commitment exhibit a collision of the pair hash. */
  lemma {:induction false} CommitmentBinds<F(!new)>(h: (F, F) -> F, x: seq<F>, y: seq<F>) returns (p: (F, F), q: (F, F))
    requires x != y && x != [] && |x| == |y| && Chain(h, x) == Chain(h, y)
    ensures IsCollision(h, p, q)
  {
    p, q := (Chain(h, x[1..]), x[0]), (Chain(h, y[1..]), y[0]);
    if p == q {
      assert x == [x[0]] + x[1..] && y == [y[0]] + y[1..];
      p, q := CommitmentBinds(h, x[1..], y[1..]);
    }
  }
}
