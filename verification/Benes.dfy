/**
 Routing of the Benes network: the alternating two-colouring of the wires, the split into
 two half-size networks, and the proof that every permutation is realized.
 */
module Benes {
  import opened Powers
  import opened Permutations
  import opened BenesNetwork

  const UNCOLORED: nat := 255

  // ---------------------------------------------------------------------------------
  // Mates

  predicate Inverts(inv: seq<nat>, perm: seq<nat>) {
    && |inv| == |perm|
    && (forall j :: 0 <= j < |perm| ==> perm[j] < |perm| && inv[perm[j]] == j)
    && (forall i :: 0 <= i < |perm| ==> inv[i] < |perm| && perm[inv[i]] == i)
  }

  method Invert(perm: seq<nat>) returns (inv: array<nat>)
    requires IsPermutation(perm)
    ensures fresh(inv) && Inverts(inv[..], perm)
  {
    inv := new nat[|perm|](_ => 0);
    for j := 0 to |perm|
      invariant forall i :: 0 <= i < j ==> inv[perm[i]] == i
    {
      inv[perm[j]] := j;
    }
    forall i | 0 <= i < |perm| ensures inv[i] < |perm| && perm[inv[i]] == i {
      PermutationIsOnto(perm, i);
      var j :| 0 <= j < |perm| && perm[j] == i;
      assert inv[perm[j]] == j;
    }
  }

  /** The other input of i's entry switch. */
  function EntryMate(m: nat, i: nat): (mate: nat)
    requires m % 2 == 0 && i < m
    ensures mate == if i < m / 2 then i + m / 2 else i - m / 2
  {
    DivisionIsUnique(i + m / 2, m, if i < m / 2 then 0 else 1, if i < m / 2 then i + m / 2 else i - m / 2);
    (i + m / 2) % m
  }

  /** The input delivered to the other output of the exit switch that i leaves through. */
  function ExitMate(perm: seq<nat>, inv: seq<nat>, i: nat): (mate: nat)
    requires |perm| % 2 == 0 && Inverts(inv, perm) && i < |perm|
    ensures mate == perm[EntryMate(|perm|, inv[i])]
  {
    perm[(inv[i] + |perm| / 2) % |perm|]
  }

  /** A perfect matching of 0..|mate|, as the partner of each element. */
  predicate Matching(mate: seq<nat>) {
    forall i :: 0 <= i < |mate| ==> mate[i] < |mate| && mate[i] != i && mate[mate[i]] == i
  }

  function EntryMates(m: nat): (mates: seq<nat>)
    requires m % 2 == 0
    ensures |mates| == m && Matching(mates)
    ensures forall i :: 0 <= i < m ==> mates[i] == EntryMate(m, i)
  {
    seq(m, i requires 0 <= i < m => EntryMate(m, i))
  }

  function ExitMates(perm: seq<nat>, inv: seq<nat>): (mates: seq<nat>)
    requires |perm| % 2 == 0 && Inverts(inv, perm)
    ensures |mates| == |perm| && Matching(mates)
    ensures forall i :: 0 <= i < |perm| ==> mates[i] == ExitMate(perm, inv, i)
  {
    seq(|perm|, i requires 0 <= i < |perm| => ExitMate(perm, inv, i))
  }

  // ---------------------------------------------------------------------------------
  // The colouring walk

  function Opposite(c: nat): nat {
    if c == 0 then 1 else 0
  }

  predicate ValidColors(color: seq<nat>) {
    forall u :: 0 <= u < |color| ==> color[u] == 0 || color[u] == 1 || color[u] == UNCOLORED
  }

  /** Coloured wires have coloured mates, of the other colour. */
  predicate Proper(color: seq<nat>, mate: seq<nat>) {
    && |color| == |mate| && Matching(mate)
    && forall u :: 0 <= u < |color| && color[u] != UNCOLORED ==> color[mate[u]] == Opposite(color[u])
  }

  /**
   The walk is about to colour wire i. The only coloured wires whose mate may still be
   uncoloured are the end the walk started from and the wire it has just left.
   */
  predicate Walking(color: seq<nat>, entry: seq<nat>, exit: seq<nat>, start: nat, i: nat, viaEntry: bool) {
    && |color| == |entry| == |exit| && Matching(entry) && Matching(exit) && ValidColors(color)
    && start < |color| && i < |color| && color[i] == UNCOLORED
    && (forall u :: 0 <= u < |color| && color[u] != UNCOLORED ==>
          color[entry[u]] == Opposite(color[u]) || (!viaEntry && u == entry[i]))
    && (forall u :: 0 <= u < |color| && color[u] != UNCOLORED ==>
          color[exit[u]] == Opposite(color[u]) || u == start || (viaEntry && i != start && u == exit[i]))
    && (if i == start then viaEntry else color[start] == 0)
    && (i != start ==> if viaEntry then color[exit[i]] == 1 else color[entry[i]] == 0)
  }

  lemma WalkAlongEntry(color: seq<nat>, entry: seq<nat>, exit: seq<nat>, start: nat, i: nat)
    requires Walking(color, entry, exit, start, i, true)
    ensures entry[i] != start && color[entry[i]] == UNCOLORED
    ensures Walking(color[i := 0], entry, exit, start, entry[i], false)
  {
    assert entry[entry[i]] == i;
  }

  lemma WalkAlongExit(color: seq<nat>, entry: seq<nat>, exit: seq<nat>, start: nat, i: nat)
    requires Walking(color, entry, exit, start, i, false)
    ensures exit[i] == start ==> Proper(color[i := 1], entry) && Proper(color[i := 1], exit)
    ensures exit[i] != start ==> color[exit[i]] == UNCOLORED
    ensures exit[i] != start ==> Walking(color[i := 1], entry, exit, start, exit[i], true)
  {
    assert exit[exit[i]] == i;
  }

  function Uncolored(color: seq<nat>): set<nat> {
    set u | 0 <= u < |color| && color[u] == UNCOLORED
  }

  lemma ColoringShrinks(color: seq<nat>, i: nat, c: nat)
    requires i < |color| && color[i] == UNCOLORED && c != UNCOLORED
    ensures Uncolored(color[i := c]) < Uncolored(color)
  {
    assert i in Uncolored(color);
  }

  /** One step of the walk: where it goes, and what colouring wire i establishes. */
  lemma WalkStep(color: seq<nat>, entry: seq<nat>, exit: seq<nat>, start: nat, i: nat, viaEntry: bool)
    requires Walking(color, entry, exit, start, i, viaEntry)
    ensures var next, after := if viaEntry then entry[i] else exit[i], color[i := if viaEntry then 0 else 1];
      if next == start then
        ValidColors(after) && Proper(after, entry) && Proper(after, exit)
      else
        color[next] == UNCOLORED && Walking(after, entry, exit, start, next, !viaEntry)
  {
    if viaEntry {
      WalkAlongEntry(color, entry, exit, start, i);
    } else {
      WalkAlongExit(color, entry, exit, start, i);
    }
  }

  // ---------------------------------------------------------------------------------
  // Which wire of a cycle gets which colour

  /** A union of whole cycles. */
  predicate IsClosed(wires: set<nat>, entry: seq<nat>, exit: seq<nat>)
    requires |entry| == |exit|
  {
    forall u :: u in wires ==> u < |entry| && entry[u] in wires && exit[u] in wires
  }

  /** Colours are kept, and new ones given only to the wires. */
  predicate ColorsOnly(was: seq<nat>, now: seq<nat>, wires: set<nat>) {
    && |now| == |was|
    && forall u :: 0 <= u < |was| && now[u] != was[u] ==> was[u] == UNCOLORED && u in wires
  }

  /** From start to wire i, a walk has coloured nothing outside the cycles through start. */
  ghost predicate WalksWithin(was: seq<nat>, now: seq<nat>, entry: seq<nat>, exit: seq<nat>, start: nat, i: nat)
    requires |entry| == |exit|
  {
    forall wires: set<nat> :: IsClosed(wires, entry, exit) && start in wires ==> i in wires && ColorsOnly(was, now, wires)
  }

  lemma WalkStaysWithin(was: seq<nat>, now: seq<nat>, entry: seq<nat>, exit: seq<nat>, start: nat, i: nat, c: nat, next: nat)
    requires |entry| == |exit| == |now| && i < |now| && WalksWithin(was, now, entry, exit, start, i)
    requires now[i] == UNCOLORED && (next == entry[i] || next == exit[i])
    ensures WalksWithin(was, now[i := c], entry, exit, start, next)
  {
  }

  /** Of the wires of whole cycles, the smallest has colour 0 once the wires below `bound` are done. */
  ghost predicate LeastAreZero(color: seq<nat>, entry: seq<nat>, exit: seq<nat>, bound: nat)
    requires |entry| == |exit| == |color|
  {
    forall wires: set<nat>, u: nat :: IsClosed(wires, entry, exit) && IsLeast(wires, u) && u < bound && u < |color| ==>
      color[u] == 0
  }

  predicate IsLeast(wires: set<nat>, u: nat) {
    u in wires && forall w :: w in wires ==> u <= w
  }

  /** A coloured wire shares all its unions of cycles with a wire below `bound`. */
  ghost predicate ReachedFromBelow(color: seq<nat>, entry: seq<nat>, exit: seq<nat>, bound: nat)
    requires |entry| == |exit| == |color|
  {
    forall wires: set<nat>, u: nat :: IsClosed(wires, entry, exit) && u in wires && u < |color| && color[u] != UNCOLORED ==>
      MeetsBelow(wires, bound)
  }

  predicate MeetsBelow(wires: set<nat>, bound: nat) {
    exists w :: w in wires && w < bound
  }

  lemma ComplementIsClosed(wires: set<nat>, entry: seq<nat>, exit: seq<nat>) returns (others: set<nat>)
    requires |entry| == |exit| && Matching(entry) && Matching(exit) && IsClosed(wires, entry, exit)
    ensures IsClosed(others, entry, exit) && forall u :: u in others <==> 0 <= u < |entry| && u !in wires
  {
    others := set u | 0 <= u < |entry| && u !in wires;
    forall u | u in others ensures entry[u] in others && exit[u] in others {
      assert entry[entry[u]] == u && exit[exit[u]] == u;
    }
  }

  lemma KeepsColors(was: seq<nat>, now: seq<nat>, entry: seq<nat>, exit: seq<nat>, start: nat)
    requires |entry| == |exit| == |was| && start < |was| && Matching(entry) && Matching(exit)
    requires WalksWithin(was, now, entry, exit, start, start)
    ensures ColorsOnly(was, now, Below(|was|))
  {
    assert IsClosed(Below(|was|), entry, exit);
  }

  lemma CycleReached(was: seq<nat>, now: seq<nat>, entry: seq<nat>, exit: seq<nat>, start: nat)
    requires |entry| == |exit| == |was| == |now| && start < |was| && Matching(entry) && Matching(exit)
    requires ReachedFromBelow(was, entry, exit, start) && WalksWithin(was, now, entry, exit, start, start)
    ensures ReachedFromBelow(now, entry, exit, start + 1)
  {
    forall wires: set<nat>, u: nat | IsClosed(wires, entry, exit) && u in wires && u < |now| && now[u] != UNCOLORED
      ensures MeetsBelow(wires, start + 1)
    {
      if start !in wires {
        var others := ComplementIsClosed(wires, entry, exit);
        assert ColorsOnly(was, now, others);
        assert MeetsBelow(wires, start);
      }
    }
  }

  lemma CycleDone(was: seq<nat>, now: seq<nat>, entry: seq<nat>, exit: seq<nat>, start: nat)
    requires |entry| == |exit| == |was| == |now| && start < |was|
    requires LeastAreZero(was, entry, exit, start) && ColorsOnly(was, now, Below(|was|)) && now[start] == 0
    ensures LeastAreZero(now, entry, exit, start + 1)
  {
    hide IsClosed;
    forall wires: set<nat>, u: nat | IsClosed(wires, entry, exit) && IsLeast(wires, u) && u < start + 1
      ensures now[u] == 0
    {
      if u < start {
        assert was[u] == 0;
      }
    }
  }

  /** What a walk from `start` adds to the two facts. */
  lemma CycleAdded(was: seq<nat>, now: seq<nat>, entry: seq<nat>, exit: seq<nat>, start: nat)
    requires |entry| == |exit| == |was| == |now| && start < |was| && Matching(entry) && Matching(exit) && now[start] == 0
    requires LeastAreZero(was, entry, exit, start) && ReachedFromBelow(was, entry, exit, start)
    requires WalksWithin(was, now, entry, exit, start, start)
    ensures LeastAreZero(now, entry, exit, start + 1) && ReachedFromBelow(now, entry, exit, start + 1)
  {
    hide LeastAreZero, ReachedFromBelow, WalksWithin, ColorsOnly;
    KeepsColors(was, now, entry, exit, start);
    CycleReached(was, now, entry, exit, start);
    CycleDone(was, now, entry, exit, start);
  }

  /** A coloured wire is not the smallest of its cycle. */
  lemma CycleSkipped(color: seq<nat>, entry: seq<nat>, exit: seq<nat>, start: nat)
    requires |entry| == |exit| == |color| && start < |color| && color[start] != UNCOLORED
    requires LeastAreZero(color, entry, exit, start) && ReachedFromBelow(color, entry, exit, start)
    ensures LeastAreZero(color, entry, exit, start + 1) && ReachedFromBelow(color, entry, exit, start + 1)
  {
    hide IsClosed;
    forall wires: set<nat>, u: nat | IsClosed(wires, entry, exit) && u in wires && u < |color| && color[u] != UNCOLORED
      ensures MeetsBelow(wires, start + 1)
    {
      assert MeetsBelow(wires, start);
    }
    forall wires: set<nat>, u: nat | IsClosed(wires, entry, exit) && IsLeast(wires, u) && u < start + 1
      ensures color[u] == 0
    {
      assert !MeetsBelow(wires, u);
    }
  }

  lemma NothingIsProper(color: seq<nat>, mate: seq<nat>)
    requires |color| == |mate| && Matching(mate) && forall u :: 0 <= u < |color| ==> color[u] == UNCOLORED
    ensures Proper(color, mate)
  {
  }

  lemma NothingDone(color: seq<nat>, entry: seq<nat>, exit: seq<nat>)
    requires |entry| == |exit| == |color| && forall u :: 0 <= u < |color| ==> color[u] == UNCOLORED
    ensures LeastAreZero(color, entry, exit, 0) && ReachedFromBelow(color, entry, exit, 0)
  {
  }

  /** Colours the whole alternating cycle through start. */
  method ColorCycle(perm: seq<nat>, inv: seq<nat>, color: array<nat>, start: nat)
    requires |perm| % 2 == 0 && Inverts(inv, perm) && color.Length == |perm|
    requires start < |perm| && color[start] == UNCOLORED && ValidColors(color[..])
    requires Proper(color[..], EntryMates(|perm|)) && Proper(color[..], ExitMates(perm, inv))
    modifies color
    ensures ValidColors(color[..])
    ensures Proper(color[..], EntryMates(|perm|)) && Proper(color[..], ExitMates(perm, inv))
    ensures Uncolored(color[..]) < Uncolored(old(color[..]))
    ensures color[start] == 0
    ensures WalksWithin(old(color[..]), color[..], EntryMates(|perm|), ExitMates(perm, inv), start, start)
  {
    var m := |perm|;
    ghost var entry, exit := EntryMates(m), ExitMates(perm, inv);
    var i: nat, c: nat, viaEntry := start, 0, true;
    while true
      invariant Walking(color[..], entry, exit, start, i, viaEntry)
      invariant c == if viaEntry then 0 else 1
      invariant Uncolored(color[..]) <= Uncolored(old(color[..]))
      invariant WalksWithin(old(color[..]), color[..], entry, exit, start, i)
      decreases Uncolored(color[..])
    {
      ghost var before := color[..];
      WalkStep(before, entry, exit, start, i, viaEntry);
      ColoringShrinks(before, i, c);
      color[i] := c;
      assert color[..] == before[i := c];
      var next := if viaEntry then EntryMate(m, i) else ExitMate(perm, inv, i);
      WalkStaysWithin(old(color[..]), before, entry, exit, start, i, c, next);
      viaEntry := !viaEntry;
      c := 1 - c;
      if next == start {
        break;
      }
      assert color[next] == UNCOLORED;
      i := next;
    }
  }

  /**
   Two-colours the inputs so that both mates of every wire get the other colour, starting each
   cycle with colour 0 at its smallest wire.
   */
  method ColorInputs(perm: seq<nat>, inv: seq<nat>) returns (color: array<nat>)
    requires |perm| % 2 == 0 && Inverts(inv, perm)
    ensures fresh(color) && color.Length == |perm|
    ensures ValidColors(color[..]) && Uncolored(color[..]) == {}
    ensures Proper(color[..], EntryMates(|perm|)) && Proper(color[..], ExitMates(perm, inv))
    ensures LeastAreZero(color[..], EntryMates(|perm|), ExitMates(perm, inv), |perm|)
  {
    hide LeastAreZero, ReachedFromBelow, WalksWithin, Proper;
    ghost var entry, exit := EntryMates(|perm|), ExitMates(perm, inv);
    color := new nat[|perm|](_ => UNCOLORED);
    NothingDone(color[..], entry, exit);
    NothingIsProper(color[..], entry);
    NothingIsProper(color[..], exit);
    for start := 0 to |perm|
      invariant ValidColors(color[..])
      invariant forall u :: u in Uncolored(color[..]) ==> start <= u
      invariant Proper(color[..], EntryMates(|perm|)) && Proper(color[..], ExitMates(perm, inv))
      invariant LeastAreZero(color[..], entry, exit, start) && ReachedFromBelow(color[..], entry, exit, start)
    {
      if color[start] != UNCOLORED {
        CycleSkipped(color[..], entry, exit, start);
        continue;
      }
      ghost var before := color[..];
      ColorCycle(perm, inv, color, start);
      CycleAdded(before, color[..], entry, exit, start);
    }
  }

  // ---------------------------------------------------------------------------------
  // Blocks: the wires base .. base + 2^w that one level of the recursion routes

  predicate Aligned(base: nat, w: nat) {
    base % Pow2(w) == 0
  }

  lemma HalvesAreAligned(base: nat, w: nat)
    requires w >= 1 && Aligned(base, w)
    ensures Aligned(base, w - 1) && Aligned(base + Pow2(w - 1), w - 1)
  {
    var q, h := base / Pow2(w), Pow2(w - 1);
    assert base == q * (2 * h) == (2 * q) * h;
    DivisionIsUnique(base, h, 2 * q, 0);
    assert base + h == (2 * q + 1) * h;
    DivisionIsUnique(base + h, h, 2 * q + 1, 0);
  }

  /** Inside an aligned block, low index bits do not see the base. */
  lemma BitInBlock(base: nat, w: nat, k: nat, j: nat)
    requires k < w && Aligned(base, w) && j < Pow2(w)
    ensures BitClear(base + j, k) <==> BitClear(j, k)
  {
    var c := Pow2Splits(w, k + 1);
    var q, r := Locate(j, k);
    var b, rest := BlockOf(base, Pow2(w));
    DivisionIsUnique(base, Pow2(w), b, rest);
    BitPastBlocks(b, c, q, r, k);
  }

  lemma BitPastBlocks(b: nat, c: nat, q: nat, r: nat, k: nat)
    requires r < Pow2(k + 1)
    ensures BitClear(b * (c * Pow2(k + 1)) + (q * Pow2(k + 1) + r), k) <==> r < Pow2(k)
  {
    var P := Pow2(k + 1);
    assert b * (c * P) == (b * c) * P;
    assert (b * c + q) * P == (b * c) * P + q * P;
    BitFromBlock(b * c + q, r, k);
  }

  lemma FeedStaysInBlock(v: nat, bits: seq<bool>, base: nat, w: nat, k: nat, j: nat)
    requires w <= v && k < w && |bits| == Pow2(v)
    requires Aligned(base, w) && base + Pow2(w) <= Pow2(v) && j < Pow2(w)
    ensures base <= Feed(v, k, bits, base + j) < base + Pow2(w)
  {
    BitInBlock(base, w, k, j);
    SwitchPair(w, k, j);
  }

  /** The two settings have the same switches on the block's wires in layers lo .. hi. */
  predicate AgreeOnBlock(a: seq<seq<bool>>, b: seq<seq<bool>>, v: nat, lo: nat, hi: nat, base: nat, w: nat)
    requires ValidLayers(a, v) && ValidLayers(b, v) && hi <= NumLayers(v) && base + Pow2(w) <= Pow2(v)
  {
    forall l, i :: lo <= l < hi && base <= i < base + Pow2(w) ==> a[l][i] == b[l][i]
  }

  /** A block is routed by its own switches alone. */
  lemma {:induction false} SourceReadsBlock(a: seq<seq<bool>>, b: seq<seq<bool>>, v: nat, lo: nat, hi: nat,
                                            base: nat, w: nat, j: nat)
    requires ValidLayers(a, v) && ValidLayers(b, v) && lo <= hi <= NumLayers(v)
    requires w <= v && Aligned(base, w) && base + Pow2(w) <= Pow2(v) && j < Pow2(w)
    requires forall l :: lo <= l < hi ==> StrideBit(v, l) < w
    requires AgreeOnBlock(a, b, v, lo, hi, base, w)
    ensures Source(a, v, lo, hi, base + j) == Source(b, v, lo, hi, base + j)
    decreases hi
  {
    hide BitClear, Aligned, Pow2;
    if lo < hi {
      var k := StrideBit(v, hi - 1);
      FeedStaysInBlock(v, a[hi - 1], base, w, k, j);
      BitInBlock(base, w, k, j);
      SwitchPair(w, k, j);
      assert a[hi - 1][base + j] == b[hi - 1][base + j];
      var next := Feed(v, k, a[hi - 1], base + j);
      assert next == Feed(v, k, b[hi - 1], base + j);
      SourceReadsBlock(a, b, v, lo, hi - 1, base, w, next - base);
    }
  }

  /** The block's wires leave layer 2v - 2 - depth carrying the permuted inputs of layer depth. */
  predicate Routes(layers: seq<seq<bool>>, v: nat, depth: nat, base: nat, perm: seq<nat>)
    requires ValidLayers(layers, v) && depth < v && |perm| == Pow2(v - depth) && base + |perm| <= Pow2(v)
  {
    forall j :: 0 <= j < |perm| ==> Source(layers, v, depth, 2 * v - 1 - depth, base + j) == base + perm[j]
  }

  /** Only switches of the block's upper wires in layers depth .. 2v - 1 - depth differ. */
  predicate OnlyBlockSet(was: seq<seq<bool>>, now: seq<seq<bool>>, v: nat, depth: nat, base: nat, size: nat)
    requires ValidLayers(was, v) && ValidLayers(now, v)
  {
    forall l, i :: 0 <= l < NumLayers(v) && 0 <= i < Pow2(v) && now[l][i] != was[l][i] ==>
      depth <= l < 2 * v - 1 - depth && base <= i < base + size && BitClear(i, StrideBit(v, l))
  }

  // ---------------------------------------------------------------------------------
  // The split into two half-size blocks

  function Identity(n: nat): (p: seq<nat>)
    ensures |p| == n && IsPermutation(p) && forall i :: 0 <= i < n ==> p[i] == i
  {
    seq(n, i requires 0 <= i < n => i)
  }

  /** Upper wire j of layer l swaps exactly when input source[j] is coloured bottom. */
  predicate LayerFollows(bits: seq<bool>, base: nat, source: seq<nat>, color: seq<nat>)
    requires |source| == |color| && base + |source| <= |bits|
  {
    forall j :: 0 <= j < |source| / 2 ==> source[j] < |color| && bits[base + j] == (color[source[j]] == 1)
  }

  /** The entry switches follow the colours of the inputs, the exit switches those of the sources. */
  predicate OuterSwitches(layers: seq<seq<bool>>, v: nat, depth: nat, base: nat, perm: seq<nat>, color: seq<nat>)
    requires ValidLayers(layers, v) && depth + 1 < v && |color| == |perm| && base + |perm| <= Pow2(v)
  {
    && LayerFollows(layers[depth], base, Identity(|perm|), color)
    && LayerFollows(layers[2 * v - 2 - depth], base, perm, color)
  }

  predicate IndicesInRange(perm: seq<nat>) {
    forall j :: 0 <= j < |perm| ==> perm[j] < |perm|
  }

  /** A complete colouring in which both pairs of every switch differ. */
  predicate Colored(perm: seq<nat>, color: seq<nat>) {
    && IndicesInRange(perm) && |perm| % 2 == 0 && |color| == |perm|
    && (forall u :: 0 <= u < |perm| ==> color[u] == 0 || color[u] == 1)
    && (forall a, b :: 0 <= a < |perm| / 2 && b == a + |perm| / 2 ==> color[a] != color[b])
    && (forall i, j :: 0 <= i < |perm| / 2 && j == i + |perm| / 2 ==> color[perm[i]] != color[perm[j]])
  }

  lemma ColoringSeparatesPairs(perm: seq<nat>, inv: seq<nat>, color: seq<nat>)
    requires |perm| % 2 == 0 && IsPermutation(perm) && Inverts(inv, perm)
    requires |color| == |perm| && ValidColors(color) && Uncolored(color) == {}
    requires Proper(color, EntryMates(|perm|)) && Proper(color, ExitMates(perm, inv))
    ensures Colored(perm, color)
  {
    var m := |perm|;
    forall u | 0 <= u < m ensures color[u] == 0 || color[u] == 1 {
      assert u !in Uncolored(color);
    }
    forall a, b | 0 <= a < m / 2 && b == a + m / 2 ensures color[a] != color[b] {
      EntryPairDiffers(m, color, a);
    }
    forall i, j | 0 <= i < m / 2 && j == i + m / 2 ensures color[perm[i]] != color[perm[j]] {
      ExitPairDiffers(perm, inv, color, i);
    }
  }

  lemma EntryPairDiffers(m: nat, color: seq<nat>, a: nat)
    requires m % 2 == 0 && |color| == m && a < m / 2
    requires Proper(color, EntryMates(m)) && color[a] != UNCOLORED
    ensures color[a] != color[a + m / 2]
  {
    assert EntryMates(m)[a] == a + m / 2;
  }

  lemma ExitPairDiffers(perm: seq<nat>, inv: seq<nat>, color: seq<nat>, j: nat)
    requires |perm| % 2 == 0 && Inverts(inv, perm) && |color| == |perm| && j < |perm| / 2
    requires Proper(color, ExitMates(perm, inv)) && color[perm[j]] != UNCOLORED
    ensures color[perm[j]] != color[perm[j + |perm| / 2]]
  {
    assert ExitMates(perm, inv)[perm[j]] == perm[j + |perm| / 2];
  }

  /** Output pair j is fed by wire j of both halves; this is the source of one of them. */
  function HalfSource(perm: seq<nat>, color: seq<nat>, c: nat, j: nat): (i: nat)
    requires Colored(perm, color) && j < |perm| / 2 && c <= 1
    ensures i < |perm| && color[i] == c && (i == perm[j] || i == perm[j + |perm| / 2])
  {
    if color[perm[j]] == c then perm[j] else perm[j + |perm| / 2]
  }

  function HalfPermutation(perm: seq<nat>, color: seq<nat>, c: nat): (half: seq<nat>)
    requires Colored(perm, color) && c <= 1
    ensures |half| == |perm| / 2
  {
    var h := |perm| / 2;
    seq(h, j requires 0 <= j < h => HalfSource(perm, color, c, j) % h)
  }

  lemma HalfIsPermutation(perm: seq<nat>, color: seq<nat>, c: nat)
    requires IsPermutation(perm) && Colored(perm, color) && c <= 1
    ensures IsPermutation(HalfPermutation(perm, color, c))
  {
    var half := HalfPermutation(perm, color, c);
    forall i, j | 0 <= i < j < |perm| / 2 ensures half[i] != half[j] {
      SameColorDiffers(perm, color, HalfSource(perm, color, c, i), HalfSource(perm, color, c, j));
    }
  }

  lemma PlaceInHalf(a: nat, h: nat)
    requires a < 2 * h
    ensures a % h == if a < h then a else a - h
  {
    if a < h {
      DivisionIsUnique(a, h, 0, a);
    } else {
      DivisionIsUnique(a, h, 1, a - h);
    }
  }

  /** Two inputs of one colour are at different places of their half. */
  lemma SameColorDiffers(perm: seq<nat>, color: seq<nat>, a: nat, b: nat)
    requires Colored(perm, color) && a < |perm| && b < |perm| && a != b && color[a] == color[b]
    ensures a % (|perm| / 2) != b % (|perm| / 2)
  {
    PlaceInHalf(a, |perm| / 2);
    PlaceInHalf(b, |perm| / 2);
  }

  /** What the block's outermost layer feeds to the block's wire j. */
  lemma FeedAcrossBlock(v: nat, bits: seq<bool>, base: nat, w: nat, j: nat)
    requires 1 <= w <= v && |bits| == Pow2(v)
    requires Aligned(base, w) && base + Pow2(w) <= Pow2(v) && j < Pow2(w)
    ensures var h := Pow2(w - 1);
      Feed(v, w - 1, bits, base + j) ==
        if j < h then (if bits[base + j] then base + j + h else base + j)
        else (if bits[base + j - h] then base + j - h else base + j)
  {
    BitInBlock(base, w, w - 1, j);
    BitFromBlock(0, j, w - 1);
  }

  /** First wire of the top (colour 0) or bottom (colour 1) half of a block. */
  function HalfBase(base: nat, h: nat, c: nat): nat {
    if c == 0 then base else base + h
  }

  /** The place of wire i in its half. */
  function Place(h: nat, i: nat): nat {
    if i < h then i else i - h
  }

  /** The exit switch hands output wire j to the half that its source was coloured for. */
  lemma ExitChoosesHalf(layers: seq<seq<bool>>, v: nat, depth: nat, base: nat, perm: seq<nat>, color: seq<nat>, j: nat)
    requires ValidLayers(layers, v) && depth + 1 < v && |perm| == Pow2(v - depth) && Colored(perm, color)
    requires Aligned(base, v - depth) && base + |perm| <= Pow2(v) && j < |perm|
    requires OuterSwitches(layers, v, depth, base, perm, color)
    ensures Feed(v, v - 1 - depth, layers[2 * v - 2 - depth], base + j)
      == HalfBase(base, |perm| / 2, color[perm[j]]) + Place(|perm| / 2, j)
  {
    hide Aligned, Feed, BitClear;
    var h := |perm| / 2;
    FeedAcrossBlock(v, layers[2 * v - 2 - depth], base, v - depth, j);
    var p := Place(h, j);
    assert color[perm[p]] != color[perm[p + h]];
    assert layers[2 * v - 2 - depth][base + p] == (color[perm[p]] == 1);
  }

  /** The entry switch put input i at place i mod h of the half it was coloured for. */
  lemma EntryHoldsInput(layers: seq<seq<bool>>, v: nat, depth: nat, base: nat, perm: seq<nat>, color: seq<nat>, i: nat)
    requires ValidLayers(layers, v) && depth + 1 < v && |perm| == Pow2(v - depth) && Colored(perm, color)
    requires Aligned(base, v - depth) && base + |perm| <= Pow2(v) && i < |perm|
    requires OuterSwitches(layers, v, depth, base, perm, color)
    ensures Feed(v, v - 1 - depth, layers[depth], HalfBase(base, |perm| / 2, color[i]) + Place(|perm| / 2, i)) == base + i
  {
    hide Aligned, Feed, BitClear;
    var h := |perm| / 2;
    var r := Place(h, i);
    assert color[r] != color[r + h];
    assert Identity(|perm|)[r] == r && layers[depth][base + r] == (color[r] == 1);
    FeedAcrossBlock(v, layers[depth], base, v - depth, HalfBase(0, h, color[i]) + r);
  }

  lemma HalfCarries(perm: seq<nat>, color: seq<nat>, j: nat)
    requires Colored(perm, color) && j < |perm|
    ensures HalfPermutation(perm, color, color[perm[j]])[Place(|perm| / 2, j)] == Place(|perm| / 2, perm[j])
  {
    PlaceInHalf(perm[j], |perm| / 2);
  }

  /** Between the outer layers, a wire is routed by the half it is in. */
  lemma InsideHalf(layers: seq<seq<bool>>, v: nat, depth: nat, base: nat, perm: seq<nat>, color: seq<nat>, j: nat)
    requires ValidLayers(layers, v) && depth + 1 < v && |perm| == Pow2(v - depth) && Colored(perm, color)
    requires base + |perm| <= Pow2(v) && j < |perm|
    requires Routes(layers, v, depth + 1, base, HalfPermutation(perm, color, 0))
    requires Routes(layers, v, depth + 1, base + |perm| / 2, HalfPermutation(perm, color, 1))
    ensures var h, c := |perm| / 2, color[perm[j]];
      Source(layers, v, depth + 1, 2 * v - 2 - depth, HalfBase(base, h, c) + Place(h, j))
      == HalfBase(base, h, c) + Place(h, perm[j])
  {
    hide HalfPermutation, Source, ValidLayers;
    var h, c := |perm| / 2, color[perm[j]];
    HalfCarries(perm, color, j);
    assert Routes(layers, v, depth + 1, HalfBase(base, h, c), HalfPermutation(perm, color, c));
  }

  lemma SplitRoutesWire(layers: seq<seq<bool>>, v: nat, depth: nat, base: nat, perm: seq<nat>, color: seq<nat>, j: nat)
    requires ValidLayers(layers, v) && depth + 1 < v && |perm| == Pow2(v - depth) && Colored(perm, color)
    requires Aligned(base, v - depth) && base + |perm| <= Pow2(v) && j < |perm|
    requires OuterSwitches(layers, v, depth, base, perm, color)
    requires Routes(layers, v, depth + 1, base, HalfPermutation(perm, color, 0))
    requires Routes(layers, v, depth + 1, base + |perm| / 2, HalfPermutation(perm, color, 1))
    ensures Source(layers, v, depth, 2 * v - 1 - depth, base + j) == base + perm[j]
  {
    hide OuterSwitches, Routes, Aligned, HalfPermutation, Feed, Source, BitClear;
    var half := HalfBase(base, |perm| / 2, color[perm[j]]);
    var wire, inner := half + Place(|perm| / 2, j), half + Place(|perm| / 2, perm[j]);
    var exitLayer := 2 * v - 2 - depth;
    ExitChoosesHalf(layers, v, depth, base, perm, color, j);
    InsideHalf(layers, v, depth, base, perm, color, j);
    EntryHoldsInput(layers, v, depth, base, perm, color, perm[j]);
    ThroughBothOuterLayers(layers, v, depth, base + j, wire, inner);
  }

  /** A wire's way through a block: exit layer, inner layers, entry layer. */
  lemma ThroughBothOuterLayers(layers: seq<seq<bool>>, v: nat, depth: nat, j: nat, wire: nat, inner: nat)
    requires ValidLayers(layers, v) && depth + 1 < v && j < Pow2(v)
    requires wire == Feed(v, v - 1 - depth, layers[2 * v - 2 - depth], j)
    requires inner == Source(layers, v, depth + 1, 2 * v - 2 - depth, wire)
    ensures Source(layers, v, depth, 2 * v - 1 - depth, j) == Feed(v, v - 1 - depth, layers[depth], inner)
  {
    SourceEntersFirst(layers, v, depth, 2 * v - 2 - depth, wire);
  }

  /** Colour-driven outer switches around two routed halves route the whole block. */
  lemma SplitRoutes(layers: seq<seq<bool>>, v: nat, depth: nat, base: nat, perm: seq<nat>, color: seq<nat>)
    requires ValidLayers(layers, v) && depth + 1 < v && |perm| == Pow2(v - depth) && Colored(perm, color)
    requires Aligned(base, v - depth) && base + |perm| <= Pow2(v)
    requires OuterSwitches(layers, v, depth, base, perm, color)
    requires Routes(layers, v, depth + 1, base, HalfPermutation(perm, color, 0))
    requires Routes(layers, v, depth + 1, base + |perm| / 2, HalfPermutation(perm, color, 1))
    ensures Routes(layers, v, depth, base, perm)
  {
    hide OuterSwitches, HalfPermutation, Source, Feed, Aligned, Colored;
    forall j | 0 <= j < |perm| ensures Source(layers, v, depth, 2 * v - 1 - depth, base + j) == base + perm[j] {
      SplitRoutesWire(layers, v, depth, base, perm, color, j);
    }
  }

  /** Setting switches outside a block does not change how it routes. */
  lemma RoutesKept(was: seq<seq<bool>>, now: seq<seq<bool>>, v: nat, depth: nat, base: nat, perm: seq<nat>)
    requires ValidLayers(was, v) && ValidLayers(now, v) && depth < v && |perm| == Pow2(v - depth)
    requires IsPermutation(perm) && Aligned(base, v - depth) && base + |perm| <= Pow2(v)
    requires AgreeOnBlock(was, now, v, depth, 2 * v - 1 - depth, base, v - depth)
    requires Routes(was, v, depth, base, perm)
    ensures Routes(now, v, depth, base, perm)
  {
    forall j | 0 <= j < |perm| ensures Source(now, v, depth, 2 * v - 1 - depth, base + j) == base + perm[j] {
      SourceReadsBlock(was, now, v, depth, 2 * v - 1 - depth, base, v - depth, j);
    }
  }

  // ---------------------------------------------------------------------------------
  // The router

  /** The first n upper switches of the block follow the colours, and only upper wires of the block have changed. */
  predicate LayerSetUpTo(was: seq<bool>, now: seq<bool>, base: nat, source: seq<nat>, color: seq<nat>, n: nat, k: nat)
    requires |now| == |was| && |source| == |color| && IndicesInRange(source)
    requires n <= |source| / 2 && base + |source| <= |was|
  {
    && (forall i :: 0 <= i < n ==> now[base + i] == (color[source[i]] == 1))
    && (forall i :: 0 <= i < |was| && now[i] != was[i] ==> base <= i < base + |source| && BitClear(i, k))
  }

  lemma LayerSetOneMore(was: seq<bool>, now: seq<bool>, base: nat, source: seq<nat>, color: seq<nat>, n: nat, k: nat)
    requires |now| == |was| && |source| == |color| && IndicesInRange(source)
    requires n < |source| / 2 && base + |source| <= |was| && BitClear(base + n, k)
    requires LayerSetUpTo(was, now, base, source, color, n, k)
    ensures LayerSetUpTo(was, now[base + n := color[source[n]] == 1], base, source, color, n + 1, k)
  {
    hide BitClear;
  }

  /** Sets the switches of one outer layer: the source of wire j is j on entry, perm[j] on exit. */
  method SetOuterLayer(layers: array<seq<bool>>, v: nat, depth: nat, l: nat, base: nat, source: seq<nat>, color: seq<nat>)
    requires ValidLayers(layers[..], v) && depth + 1 < v && (l == depth || l == 2 * v - 2 - depth)
    requires |source| == |color| == Pow2(v - depth) && Aligned(base, v - depth) && base + |source| <= Pow2(v)
    requires IndicesInRange(source)
    modifies layers
    ensures ValidLayers(layers[..], v) && LayerFollows(layers[l], base, source, color)
    ensures layers[..] == old(layers[..])[l := layers[l]]
    ensures OnlyBlockSet(old(layers[..]), layers[..], v, depth, base, |source|)
  {
    hide Aligned, BitClear;
    ghost var was := layers[..];
    for j := 0 to |source| / 2
      invariant |layers[l]| == Pow2(v) && layers[..] == was[l := layers[l]]
      invariant LayerSetUpTo(was[l], layers[l], base, source, color, j, StrideBit(v, l))
    {
      FirstHalfIsUpper(base, v - depth, j);
      LayerSetOneMore(was[l], layers[l], base, source, color, j, StrideBit(v, l));
      layers[l] := layers[l][base + j := color[source[j]] == 1];
    }
  }

  method SetOuterLayers(layers: array<seq<bool>>, v: nat, depth: nat, base: nat, perm: seq<nat>, color: seq<nat>)
    requires ValidLayers(layers[..], v) && depth + 1 < v && |perm| == |color| == Pow2(v - depth)
    requires IndicesInRange(perm) && Aligned(base, v - depth) && base + |perm| <= Pow2(v)
    modifies layers
    ensures ValidLayers(layers[..], v) && OuterSwitches(layers[..], v, depth, base, perm, color)
    ensures OnlyBlockSet(old(layers[..]), layers[..], v, depth, base, |perm|)
  {
    SetOuterLayer(layers, v, depth, depth, base, Identity(|perm|), color);
    SetOuterLayer(layers, v, depth, 2 * v - 2 - depth, base, perm, color);
  }

  lemma HalfSize(v: nat, depth: nat, size: nat)
    requires depth < v && size == Pow2(v - depth) && size != 2
    ensures depth + 1 < v && size % 2 == 0 && size / 2 == Pow2(v - depth - 1)
  {
    assert depth + 1 < v;
  }

  /** A colouring that separates the pairs of both outer layers. */
  method ColorPairs(perm: seq<nat>) returns (color: seq<nat>)
    requires IsPermutation(perm) && |perm| % 2 == 0
    ensures Colored(perm, color)
  {
    var inv := Invert(perm);
    var colors := ColorInputs(perm, inv[..]);
    color := colors[..];
    ColoringSeparatesPairs(perm, inv[..], color);
  }

  /** Colours the inputs, sets the outer layers and finds what the two halves must realize. */
  method SplitBlock(perm: seq<nat>, base: nat, depth: nat, v: nat, layers: array<seq<bool>>)
    returns (color: seq<nat>, top: seq<nat>, bot: seq<nat>)
    requires ValidLayers(layers[..], v) && depth < v && |perm| == Pow2(v - depth) && |perm| != 2
    requires IsPermutation(perm) && Aligned(base, v - depth) && base + |perm| <= Pow2(v)
    modifies layers
    ensures ValidLayers(layers[..], v) && Colored(perm, color) && depth + 1 < v
    ensures |top| == |bot| == |perm| / 2 == Pow2(v - depth - 1)
    ensures Aligned(base, v - depth - 1) && Aligned(base + |perm| / 2, v - depth - 1)
    ensures top == HalfPermutation(perm, color, 0) && IsPermutation(top)
    ensures bot == HalfPermutation(perm, color, 1) && IsPermutation(bot)
    ensures OuterSwitches(layers[..], v, depth, base, perm, color)
    ensures OnlyBlockSet(old(layers[..]), layers[..], v, depth, base, |perm|)
  {
    hide Aligned, OuterSwitches, OnlyBlockSet, HalfPermutation, ValidLayers, Pow2;
    HalfSize(v, depth, |perm|);
    HalvesAreAligned(base, v - depth);
    color := ColorPairs(perm);
    SetOuterLayers(layers, v, depth, base, perm, color);
    var topArray, botArray := SubPermutations(perm, color);
    top, bot := topArray[..], botArray[..];
    HalfIsPermutation(perm, color, 0);
    HalfIsPermutation(perm, color, 1);
  }

  lemma FirstHalfIsUpper(base: nat, w: nat, j: nat)
    requires w >= 1 && Aligned(base, w) && j < Pow2(w - 1)
    ensures BitClear(base + j, w - 1)
  {
    BitInBlock(base, w, w - 1, j);
    BitFromBlock(0, j, w - 1);
  }

  lemma HalfByPlace(perm: seq<nat>, color: seq<nat>, c: nat, half: seq<nat>)
    requires Colored(perm, color) && c <= 1 && |half| == |perm| / 2
    requires forall j :: 0 <= j < |half| ==> half[j] == HalfSource(perm, color, c, j) % |half|
    ensures half == HalfPermutation(perm, color, c)
  {
  }

  /** The permutations that the two half-size networks must realize. */
  method SubPermutations(perm: seq<nat>, color: seq<nat>) returns (top: array<nat>, bot: array<nat>)
    requires Colored(perm, color)
    ensures fresh(top) && fresh(bot)
    ensures top[..] == HalfPermutation(perm, color, 0) && bot[..] == HalfPermutation(perm, color, 1)
  {
    hide HalfPermutation;
    var h := |perm| / 2;
    top := new nat[h](_ => 0);
    bot := new nat[h](_ => 0);
    for j := 0 to h
      invariant forall i :: 0 <= i < j ==> top[i] == HalfSource(perm, color, 0, i) % h
      invariant forall i :: 0 <= i < j ==> bot[i] == HalfSource(perm, color, 1, i) % h
    {
      var i0, i1 := perm[j], perm[j + h];
      var topSource, botSource := i0, i1;
      if color[i0] != 0 {
        topSource, botSource := i1, i0;
      }
      top[j] := topSource % h;
      bot[j] := botSource % h;
    }
    HalfByPlace(perm, color, 0, top[..]);
    HalfByPlace(perm, color, 1, bot[..]);
  }

  /**
   Routes one block of the recursion: the entry layer is `depth`, the exit layer
   2v - 2 - depth, and the two half-size blocks share the same buffer.
   */
  method RouteBlock(perm: seq<nat>, base: nat, depth: nat, v: nat, layers: array<seq<bool>>)
    requires ValidLayers(layers[..], v) && depth < v && |perm| == Pow2(v - depth)
    requires IsPermutation(perm) && Aligned(base, v - depth) && base + |perm| <= Pow2(v)
    modifies layers
    ensures ValidLayers(layers[..], v)
    ensures Routes(layers[..], v, depth, base, perm)
    ensures OnlyBlockSet(old(layers[..]), layers[..], v, depth, base, |perm|)
    decreases v - depth
  {
    hide Routes, OnlyBlockSet, OuterSwitches, Colored, HalfPermutation, IsPermutation, Aligned, ValidLayers, Pow2;
    if |perm| == 2 {
      SetMiddleSwitch(perm, base, depth, v, layers);
      return;
    }
    var color, top, bot := SplitBlock(perm, base, depth, v, layers);
    ghost var outer := layers[..];
    RouteBlock(top, base, depth + 1, v, layers);
    ghost var topDone := layers[..];
    RouteBlock(bot, base + |perm| / 2, depth + 1, v, layers);
    HalvesCompleteBlock(old(layers[..]), outer, topDone, layers[..], v, depth, base, perm, color);
  }

  /** The innermost block: one switch, in the middle layer. */
  method SetMiddleSwitch(perm: seq<nat>, base: nat, depth: nat, v: nat, layers: array<seq<bool>>)
    requires ValidLayers(layers[..], v) && depth < v && |perm| == Pow2(v - depth) == 2
    requires IsPermutation(perm) && Aligned(base, v - depth) && base + 2 <= Pow2(v)
    modifies layers
    ensures ValidLayers(layers[..], v)
    ensures Routes(layers[..], v, depth, base, perm)
    ensures OnlyBlockSet(old(layers[..]), layers[..], v, depth, base, 2)
  {
    hide BitClear, Routes, Aligned, IsPermutation;
    assert depth == v - 1;
    var middle := v - 1;
    FirstHalfIsUpper(base, 1, 0);
    layers[middle] := layers[middle][base := perm[0] == 1];
    MiddleRoutes(layers[..], v, base, perm);
  }

  /** The two recursive calls write to disjoint wires, and neither touches the outer layers. */
  lemma HalvesKeepApart(was: seq<seq<bool>>, outer: seq<seq<bool>>, topDone: seq<seq<bool>>, now: seq<seq<bool>>,
                        v: nat, depth: nat, base: nat, perm: seq<nat>, color: seq<nat>)
    requires ValidLayers(was, v) && ValidLayers(outer, v) && ValidLayers(topDone, v) && ValidLayers(now, v)
    requires depth + 1 < v && |perm| == Pow2(v - depth) && Colored(perm, color) && base + |perm| <= Pow2(v)
    requires OnlyBlockSet(was, outer, v, depth, base, |perm|)
    requires OnlyBlockSet(outer, topDone, v, depth + 1, base, |perm| / 2)
    requires OnlyBlockSet(topDone, now, v, depth + 1, base + |perm| / 2, |perm| / 2)
    requires OuterSwitches(outer, v, depth, base, perm, color)
    ensures OnlyBlockSet(was, now, v, depth, base, |perm|)
    ensures OuterSwitches(now, v, depth, base, perm, color)
    ensures AgreeOnBlock(topDone, now, v, depth + 1, 2 * v - 2 - depth, base, v - depth - 1)
  {
  }

  /** The outer switches and the two routed halves together route the block. */
  lemma HalvesCompleteBlock(was: seq<seq<bool>>, outer: seq<seq<bool>>, topDone: seq<seq<bool>>, now: seq<seq<bool>>,
                            v: nat, depth: nat, base: nat, perm: seq<nat>, color: seq<nat>)
    requires ValidLayers(was, v) && ValidLayers(outer, v) && ValidLayers(topDone, v) && ValidLayers(now, v)
    requires depth + 1 < v && |perm| == Pow2(v - depth) && IsPermutation(perm) && Colored(perm, color)
    requires base + |perm| <= Pow2(v) && Aligned(base, v - depth)
    requires OnlyBlockSet(was, outer, v, depth, base, |perm|)
    requires OnlyBlockSet(outer, topDone, v, depth + 1, base, |perm| / 2)
    requires OnlyBlockSet(topDone, now, v, depth + 1, base + |perm| / 2, |perm| / 2)
    requires OuterSwitches(outer, v, depth, base, perm, color)
    requires Routes(topDone, v, depth + 1, base, HalfPermutation(perm, color, 0))
    requires Routes(now, v, depth + 1, base + |perm| / 2, HalfPermutation(perm, color, 1))
    ensures OnlyBlockSet(was, now, v, depth, base, |perm|)
    ensures Routes(now, v, depth, base, perm)
  {
    hide Routes, OnlyBlockSet, OuterSwitches, AgreeOnBlock, Colored, HalfPermutation, IsPermutation, Aligned, ValidLayers;
    assert |perm| / 2 == Pow2(v - depth - 1);
    HalvesKeepApart(was, outer, topDone, now, v, depth, base, perm, color);
    HalvesAreAligned(base, v - depth);
    HalfIsPermutation(perm, color, 0);
    RoutesKept(topDone, now, v, depth + 1, base, HalfPermutation(perm, color, 0));
    SplitRoutes(now, v, depth, base, perm, color);
  }

  lemma MiddleRoutes(layers: seq<seq<bool>>, v: nat, base: nat, perm: seq<nat>)
    requires ValidLayers(layers, v) && |perm| == 2 && IsPermutation(perm)
    requires Aligned(base, 1) && base + 2 <= Pow2(v) && layers[v - 1][base] == (perm[0] == 1)
    ensures Routes(layers, v, v - 1, base, perm)
  {
    FeedAcrossBlock(v, layers[v - 1], base, 1, 0);
    FeedAcrossBlock(v, layers[v - 1], base, 1, 1);
  }

  /** Switches of lower wires are never set. */
  predicate OnlyUpperSet(layers: seq<seq<bool>>, v: nat)
    requires ValidLayers(layers, v)
  {
    forall l, i :: 0 <= l < NumLayers(v) && 0 <= i < Pow2(v) && layers[l][i] ==> BitClear(i, StrideBit(v, l))
  }

  /** Computes switches for which output wire j of the network carries input wire perm[j]. */
  method Route(perm: seq<nat>, v: nat) returns (layers: seq<seq<bool>>)
    requires v >= 1 && |perm| == Pow2(v) && IsPermutation(perm)
    ensures ValidLayers(layers, v) && Realized(layers, v) == perm && OnlyUpperSet(layers, v)
  {
    var buffer := new seq<bool>[NumLayers(v)](_ => seq(Pow2(v), _ => false));
    DivisionIsUnique(0, Pow2(v), 0, 0);
    RouteBlock(perm, 0, 0, v, buffer);
    layers := buffer[..];
    forall j | 0 <= j < Pow2(v) ensures Realized(layers, v)[j] == perm[j] {
      assert Source(layers, v, 0, 2 * v - 1 - 0, 0 + j) == 0 + perm[j];
    }
  }

  /** Routed switches deliver any input permuted: out[j] = in[perm[j]]. */
  lemma NetworkPermutes<T>(input: seq<T>, v: nat, layers: seq<seq<bool>>, j: nat)
    requires ValidLayers(layers, v) && |input| == Pow2(v) && j < Pow2(v)
    ensures StateAfter(input, v, layers, NumLayers(v))[j] == input[Realized(layers, v)[j]]
  {
    StateAfterReadsSource(input, v, layers, NumLayers(v), j);
  }
}
