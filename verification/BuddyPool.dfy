/** The buddy allocator's public interface on values, its runs, and the ledger
    of a client that frees only what it was given. */
module BuddyPool {
  import opened Bits
  import opened NextPowerOfTwo
  import opened BuddyTree

  /** Sizes share their word with two type bits and get_size keeps 60 bits. */
  const MAX_K: nat := 47

  /** The tree and m_node_index. */
  datatype Pool = Pool(tree: Tree, next: nat)

  function Fresh(base: nat, k: nat): Pool {
    Pool(Tip(0, Unused, base, BlockSize(k)), 1)
  }

  ghost predicate Valid(p: Pool, base: nat, k: nat) {
    && k <= MAX_K && 0 < base && base + BlockSize(k) < WORD
    && p.tree.id == 0 && p.tree.ptr == base
    && Shape(p.tree, k) && Consistent(p.tree)
    && p.next == Count(p.tree)
  }

  /** The least number of halvings that still hold size bytes. */
  function LevelFor(size: nat): (n: nat)
    ensures size <= BlockSize(n)
    ensures n > 0 ==> BlockSize(n - 1) < size
  {
    if size <= PAGE_SIZE then 0 else 1 + LevelFor((size + 1) / 2)
  }

  function AtLeastPage(size: nat): nat {
    if size < PAGE_SIZE then PAGE_SIZE else size
  }

  lemma BlockSizeIsPow2(n: nat)
    ensures BlockSize(n) == Pow2(12 + n)
  {
    Pow2Values();
  }

  lemma Pow2Squeeze(m: nat, j: nat)
    requires j > 0 && Pow2(j - 1) < Pow2(m) <= Pow2(j)
    ensures m == j
  {
    if m < j {
      Pow2Monotone(m, j - 1);
    } else if m > j {
      Pow2Monotone(j + 1, m);
    }
  }

  /** The largest buffer is 2^59 bytes, and no buffer has more nodes than the
      source allots: node_tree_size(k) = ((2 << k) - 1) * sizeof(node_t). */
  lemma SizeLimits(k: nat)
    requires k <= MAX_K
    ensures BlockSize(k) <= 0x0800_0000_0000_0000
    ensures NodeBudget(k) == Pow2(k + 1) - 1
  {
    BlockSizeIsPow2(k);
    Pow2Monotone(12 + k, 59);
    Pow2Values();
    assert Pow2(63) == 2 * Pow2(62) && Pow2(62) == 2 * Pow2(61) && Pow2(61) == 2 * Pow2(60) && Pow2(60) == 2 * Pow2(59);
    BudgetIsPow2(k);
  }

  lemma BudgetIsPow2(k: nat)
    ensures NodeBudget(k) == Pow2(k + 1) - 1
  {
  }

  lemma {:induction false} LevelWithin(size: nat, k: nat)
    requires size <= BlockSize(k)
    ensures LevelFor(size) <= k
  {
    var n := LevelFor(size);
    if n > k { LevelMonotone(k, n - 1); }
  }

  lemma LevelBounds(size: nat)
    ensures AtLeastPage(size) <= Pow2(12 + LevelFor(size))
    ensures Pow2(12 + LevelFor(size) - 1) < AtLeastPage(size)
  {
    var n := LevelFor(size);
    BlockSizeIsPow2(n);
    if n > 0 {
      BlockSizeIsPow2(n - 1);
      LevelMonotone(0, n);
    } else {
      assert Pow2(12) == 2 * Pow2(11);
    }
  }

  lemma {:induction false} PaddedBounds(size: nat, k: nat)
    requires 1 <= size <= BlockSize(k) && k <= MAX_K
    ensures PAGE_SIZE <= AtLeastPage(size) <= HALF_WORD
    ensures LevelFor(size) <= k
    ensures AtLeastPage(size) <= Pow2(12 + LevelFor(size))
    ensures Pow2(12 + LevelFor(size) - 1) < AtLeastPage(size)
  {
    LevelWithin(size, k);
    SizeLimits(k);
    LevelBounds(size);
  }

  /** The bit-smearing rounding picks the smallest block that fits. */
  lemma {:induction false} RoundingPicksLevel(size: nat, k: nat)
    requires 1 <= size <= BlockSize(k) && k <= MAX_K
    ensures AtLeastPage(size) < WORD
    ensures NextPower2(AtLeastPage(size)) == BlockSize(LevelFor(size))
    ensures LevelFor(size) <= k
  {
    PaddedBounds(size, k);
    BlockSizeIsPow2(LevelFor(size));
    var m := NextPower2IsLeast(AtLeastPage(size));
    Pow2Squeeze(m, 12 + LevelFor(size));
  }

  lemma LevelMonotone(m: nat, n: nat)
    requires m <= n
    ensures BlockSize(m) <= BlockSize(n)
  {
    if m < n { BlockSizeStrict(m, n); }
  }

  /** allocate; 0 stands for the thrown bad_alloc. */
  function Allocate(p: Pool, ghost base: nat, k: nat, size: nat): (r: (Pool, nat))
    requires Valid(p, base, k)
    ensures Valid(r.0, base, k)
  {
    if size > BlockSize(k) || size == 0 then (p, 0)
    else
      RoundingPicksLevel(size, k);
      var a := Alloc(p.tree, NextPower2(AtLeastPage(size)), p.next, k, LevelFor(size));
      AllocAddsBlock(p.tree, NextPower2(AtLeastPage(size)), p.next, k, LevelFor(size));
      AllocCountsNodes(p.tree, NextPower2(AtLeastPage(size)), p.next, k, LevelFor(size));
      (Pool(a.tree, a.next), a.ptr)
  }

  /** deallocate */
  function Deallocate(p: Pool, ghost base: nat, ghost k: nat, ptr: nat): (r: Pool)
    requires Valid(p, base, k)
    ensures Valid(r, base, k)
  {
    if ptr == 0 then p
    else
      FreeKeepsShape(p.tree, ptr, k);
      p.(tree := Free(p.tree, ptr).0)
  }

  /** size */
  function Size(p: Pool, ptr: nat): nat {
    if ptr == 0 then 0 else SizeOf(p.tree, ptr)
  }

  /** contains */
  predicate Contains(base: nat, k: nat, ptr: nat) {
    base <= ptr < base + BlockSize(k)
  }

  // ---------------------------------------------------------------------------
  // One call against the set of live blocks
  // ---------------------------------------------------------------------------

  /** A successful request of size bytes adds one block of at least that many
      bytes, disjoint from every live one, at the returned address. */
  lemma AllocateAdds(p: Pool, base: nat, k: nat, size: nat)
    requires Valid(p, base, k)
    ensures var (p', ptr) := Allocate(p, base, k, size);
            if ptr == 0 then p' == p
            else
              var b := Block(ptr, BlockSize(LevelFor(size)));
              && size <= b.size && Contains(base, k, ptr) && b !in Blocks(p.tree)
              && Blocks(p'.tree) == Blocks(p.tree) + {b}
              && forall c :: c in Blocks(p.tree) ==> Disjoint(b, c)
  {
    if 0 < size <= BlockSize(k) {
      RoundingPicksLevel(size, k);
      AllocAddsBlock(p.tree, BlockSize(LevelFor(size)), p.next, k, LevelFor(size));
      var (p', ptr) := Allocate(p, base, k, size);
      var b := Block(ptr, BlockSize(LevelFor(size)));
      if ptr != 0 {
        BlockOnGrid(p'.tree, k, b);
        forall c | c in Blocks(p.tree) ensures Disjoint(b, c) {
          BlocksDisjoint(p'.tree, k, b, c);
        }
      }
    }
  }

  /** A request fails iff every aligned block of the rounded size overlaps a
      live block; beyond the buffer size there is no such block at all. */
  lemma AllocateFailsIffCovered(p: Pool, base: nat, k: nat, size: nat)
    requires Valid(p, base, k) && size >= 1
    ensures Allocate(p, base, k, size).1 == 0 <==> Covered(Blocks(p.tree), base, k, LevelFor(size))
  {
    if size <= BlockSize(k) {
      RoundingPicksLevel(size, k);
      AllocComplete(p.tree, BlockSize(LevelFor(size)), p.next, k, LevelFor(size));
    }
  }

  /** No page is left in the pool. */
  ghost predicate Exhausted(p: Pool, base: nat, k: nat) {
    Covered(Blocks(p.tree), base, k, 0)
  }

  /** Freeing a live block removes exactly it. */
  lemma DeallocateRemoves(p: Pool, base: nat, k: nat, b: Block)
    requires Valid(p, base, k) && b in Blocks(p.tree)
    ensures b.ptr != 0 && Contains(base, k, b.ptr)
    ensures Blocks(Deallocate(p, base, k, b.ptr).tree) == Blocks(p.tree) - {b}
    ensures Size(p, b.ptr) == b.size
  {
    BlockOnGrid(p.tree, k, b);
    FreeRemovesBlock(p.tree, b.ptr, k, b);
  }

  // ---------------------------------------------------------------------------
  // Single pages
  // ---------------------------------------------------------------------------

  ghost function PageBlocks(pages: seq<nat>): set<Block> {
    set i | 0 <= i < |pages| :: Block(pages[i], PAGE_SIZE)
  }

  /** The record of pages taken grew from was to now by distinct new pages, and
      the live blocks grew by exactly those. */
  ghost predicate Took(before: set<Block>, after: set<Block>, was: seq<nat>, now: seq<nat>) {
    && was <= now
    && after == before + PageBlocks(now[|was|..])
    && (forall i :: |was| <= i < |now| ==> now[i] != 0 && Block(now[i], PAGE_SIZE) !in before)
    && (forall i, j :: |was| <= i < j < |now| ==> now[i] != now[j])
  }

  lemma TookNothing(blocks: set<Block>, was: seq<nat>)
    ensures Took(blocks, blocks, was, was)
  {
    assert PageBlocks(was[|was|..]) == {};
  }

  /** One successful request for a page. */
  lemma TookOne(p: Pool, base: nat, k: nat, size: nat, was: seq<nat>)
    requires Valid(p, base, k) && size == PAGE_SIZE && Allocate(p, base, k, size).1 != 0
    ensures var (p', x) := Allocate(p, base, k, size); Took(Blocks(p.tree), Blocks(p'.tree), was, was + [x])
  {
    var (p', x) := Allocate(p, base, k, size);
    AllocateAdds(p, base, k, size);
    assert LevelFor(size) == 0 && BlockSize(0) == size;
    var now := was + [x];
    assert now[|was|..] == [x];
    assert PageBlocks([x]) == {Block(x, PAGE_SIZE)} by { assert [x][0] == x; }
  }

  lemma TookTransitive(a: set<Block>, b: set<Block>, c: set<Block>, x: seq<nat>, y: seq<nat>, z: seq<nat>)
    requires Took(a, b, x, y) && Took(b, c, y, z)
    ensures Took(a, c, x, z)
  {
    assert z[|x|..] == y[|x|..] + z[|y|..];
    PageBlocksAppend(y[|x|..], z[|y|..]);
    forall i | |x| <= i < |y| ensures z[i] == y[i] && Block(z[i], PAGE_SIZE) in b {
      assert y[|x|..][i - |x|] == z[i];
    }
  }

  lemma PageBlocksAppend(xs: seq<nat>, ys: seq<nat>)
    ensures PageBlocks(xs + ys) == PageBlocks(xs) + PageBlocks(ys)
  {
    var zs := xs + ys;
    forall b | b in PageBlocks(xs) + PageBlocks(ys) ensures b in PageBlocks(zs) {
      if b in PageBlocks(xs) {
        var i :| 0 <= i < |xs| && b == Block(xs[i], PAGE_SIZE);
        assert zs[i] == xs[i];
      } else {
        var i :| 0 <= i < |ys| && b == Block(ys[i], PAGE_SIZE);
        assert zs[|xs| + i] == ys[i];
      }
    }
    forall b | b in PageBlocks(zs) ensures b in PageBlocks(xs) + PageBlocks(ys) {
      var i :| 0 <= i < |zs| && b == Block(zs[i], PAGE_SIZE);
      if i < |xs| { assert xs[i] == zs[i]; } else { assert ys[i - |xs|] == zs[i]; }
    }
  }

  // ---------------------------------------------------------------------------
  // Runs
  // ---------------------------------------------------------------------------

  datatype Call = CallAllocate(size: nat) | CallDeallocate(ptr: nat)

  /** The allocator and the client's record of what it was given and has not
      yet freed: address to size of the block. */
  datatype World = World(pool: Pool, ledger: map<nat, nat>)

  ghost function Step(w: World, base: nat, k: nat, c: Call): (w': World)
    requires Valid(w.pool, base, k)
    ensures Valid(w'.pool, base, k)
  {
    match c
    case CallAllocate(size) =>
      var (p, ptr) := Allocate(w.pool, base, k, size);
      World(p, if ptr == 0 then w.ledger else w.ledger[ptr := BlockSize(LevelFor(size))])
    case CallDeallocate(ptr) =>
      World(Deallocate(w.pool, base, k, ptr), w.ledger - {ptr})
  }

  ghost function Run(base: nat, k: nat, calls: seq<Call>): (w: World)
    requires Valid(Fresh(base, k), base, k)
    ensures Valid(w.pool, base, k)
  {
    if calls == [] then World(Fresh(base, k), map[])
    else Step(Run(base, k, calls[..|calls| - 1]), base, k, calls[|calls| - 1])
  }

  /** The client frees null or what it holds. */
  ghost predicate Legal(base: nat, k: nat, calls: seq<Call>)
    requires Valid(Fresh(base, k), base, k)
  {
    forall i :: 0 <= i < |calls| && calls[i].CallDeallocate? ==>
      calls[i].ptr == 0 || calls[i].ptr in Run(base, k, calls[..i]).ledger
  }

  ghost function LedgerBlocks(m: map<nat, nat>): set<Block> {
    set p | p in m :: Block(p, m[p])
  }

  lemma FreshIsValid(base: nat, k: nat)
    requires k <= MAX_K && 0 < base && base + BlockSize(k) < WORD
    ensures Valid(Fresh(base, k), base, k)
  {
  }

  lemma AllocateTracksLedger(w: World, base: nat, k: nat, size: nat)
    requires Valid(w.pool, base, k) && Blocks(w.pool.tree) == LedgerBlocks(w.ledger)
    ensures var w' := Step(w, base, k, CallAllocate(size)); Blocks(w'.pool.tree) == LedgerBlocks(w'.ledger)
  {
    AllocateAdds(w.pool, base, k, size);
    var w' := Step(w, base, k, CallAllocate(size));
    var ptr := Allocate(w.pool, base, k, size).1;
    if ptr != 0 {
      var b := Block(ptr, BlockSize(LevelFor(size)));
      if ptr in w.ledger {
        assert Block(ptr, w.ledger[ptr]) in Blocks(w.pool.tree);
        BlockOnGrid(w.pool.tree, k, Block(ptr, w.ledger[ptr]));
      }
      LedgerAdd(w.ledger, ptr, b.size);
    }
  }

  lemma LedgerAdd(m: map<nat, nat>, p: nat, size: nat)
    requires p !in m
    ensures LedgerBlocks(m[p := size]) == LedgerBlocks(m) + {Block(p, size)}
  {
    var m' := m[p := size];
    forall b | b in LedgerBlocks(m) + {Block(p, size)} ensures b in LedgerBlocks(m') {
      assert b.ptr in m' && m'[b.ptr] == b.size;
    }
  }

  lemma LedgerRemove(m: map<nat, nat>, p: nat)
    requires p in m
    ensures LedgerBlocks(m - {p}) == LedgerBlocks(m) - {Block(p, m[p])}
  {
    var m' := m - {p};
    forall b | b in LedgerBlocks(m) - {Block(p, m[p])} ensures b in LedgerBlocks(m') {
      assert b.ptr in m' && m'[b.ptr] == b.size;
    }
  }

  lemma StepTracksLedger(w: World, base: nat, k: nat, c: Call)
    requires Valid(w.pool, base, k) && Blocks(w.pool.tree) == LedgerBlocks(w.ledger)
    requires c.CallDeallocate? ==> c.ptr == 0 || c.ptr in w.ledger
    ensures var w' := Step(w, base, k, c); Blocks(w'.pool.tree) == LedgerBlocks(w'.ledger)
  {
    match c
    case CallAllocate(size) =>
      AllocateTracksLedger(w, base, k, size);
    case CallDeallocate(ptr) =>
      if ptr in w.ledger {
        var b := Block(ptr, w.ledger[ptr]);
        assert b in Blocks(w.pool.tree);
        DeallocateRemoves(w.pool, base, k, b);
        LedgerRemove(w.ledger, ptr);
      } else {
        assert w.ledger - {ptr} == w.ledger;
      }
  }

  /** In every legal run the live leaves are exactly the client's ledger. */
  lemma {:induction false} RunTracksLedger(base: nat, k: nat, calls: seq<Call>)
    requires Valid(Fresh(base, k), base, k) && Legal(base, k, calls)
    ensures var w := Run(base, k, calls); Blocks(w.pool.tree) == LedgerBlocks(w.ledger)
  {
    if calls != [] {
      var init := calls[..|calls| - 1];
      forall i | 0 <= i < |init| ensures init[..i] == calls[..i] {}
      RunTracksLedger(base, k, init);
      StepTracksLedger(Run(base, k, init), base, k, calls[|calls| - 1]);
    }
  }

  /** Safety of every legal run: what the client holds is inside the buffer,
      aligned to its size and pairwise disjoint; once it holds nothing every
      node is unused again; and the node array never overflows. */
  lemma RunIsSafe(base: nat, k: nat, calls: seq<Call>)
    requires Valid(Fresh(base, k), base, k) && Legal(base, k, calls)
    ensures var w := Run(base, k, calls);
            && (forall p :: p in w.ledger ==> OnGrid(Block(p, w.ledger[p]), base, k))
            && (forall p, q :: p in w.ledger && q in w.ledger && p != q ==>
                  Disjoint(Block(p, w.ledger[p]), Block(q, w.ledger[q])))
            && (w.ledger == map[] <==> AllUnused(w.pool.tree))
            && w.pool.next <= NodeBudget(k)
  {
    var w := Run(base, k, calls);
    RunTracksLedger(base, k, calls);
    forall p | p in w.ledger ensures Block(p, w.ledger[p]) in Blocks(w.pool.tree) {}
    forall p | p in w.ledger ensures OnGrid(Block(p, w.ledger[p]), base, k) {
      BlockOnGrid(w.pool.tree, k, Block(p, w.ledger[p]));
    }
    forall p, q | p in w.ledger && q in w.ledger && p != q
      ensures Disjoint(Block(p, w.ledger[p]), Block(q, w.ledger[q]))
    {
      BlocksDisjoint(w.pool.tree, k, Block(p, w.ledger[p]), Block(q, w.ledger[q]));
    }
    UnusedIffEmpty(w.pool.tree);
    if w.ledger != map[] {
      var p :| p in w.ledger;
      assert Block(p, w.ledger[p]) in LedgerBlocks(w.ledger);
    }
    CountWithinBudget(w.pool.tree, k);
  }

  /** In any run, legal or not, a node gets children at most once: a longer run
      only adds to the tree of a shorter one. */
  lemma {:induction false} RunOnlyGrows(base: nat, k: nat, calls: seq<Call>, i: nat)
    requires Valid(Fresh(base, k), base, k) && i <= |calls|
    ensures Grows(Run(base, k, calls[..i]).pool.tree, Run(base, k, calls).pool.tree)
    ensures Run(base, k, calls).pool.next <= NodeBudget(k)
  {
    CountWithinBudget(Run(base, k, calls).pool.tree, k);
    if i == |calls| {
      assert calls[..i] == calls;
      GrowsReflexive(Run(base, k, calls).pool.tree);
    } else {
      var init := calls[..|calls| - 1];
      var w := Run(base, k, init);
      RunOnlyGrows(base, k, init, i);
      assert init[..i] == calls[..i];
      StepGrows(w, base, k, calls[|calls| - 1]);
      GrowsTransitive(Run(base, k, calls[..i]).pool.tree, w.pool.tree, Run(base, k, calls).pool.tree);
    }
  }

  lemma StepGrows(w: World, base: nat, k: nat, c: Call)
    requires Valid(w.pool, base, k)
    ensures Grows(w.pool.tree, Step(w, base, k, c).pool.tree)
  {
    GrowsReflexive(w.pool.tree);
    match c
    case CallAllocate(size) =>
      if 0 < size <= BlockSize(k) {
        RoundingPicksLevel(size, k);
        AllocCountsNodes(w.pool.tree, BlockSize(LevelFor(size)), w.pool.next, k, LevelFor(size));
      }
    case CallDeallocate(ptr) =>
      FreeKeepsShape(w.pool.tree, ptr, k);
  }

  lemma GrowsTransitive(a: Tree, b: Tree, c: Tree)
    requires Grows(a, b) && Grows(b, c)
    ensures Grows(a, c)
  {
  }
}
