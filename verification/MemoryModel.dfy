/** The memory manager on values: nine slabs fed by a page pool, beside a huge
    pool, and what their joint state keeps. */
module MemoryModel {
  import opened BuddyTree
  import opened SlabModel
  import Pool = BuddyPool

  /** slab010 ... slab800 */
  const SLAB_SIZES: seq<nat> := [0x010, 0x020, 0x030, 0x040, 0x080, 0x100, 0x200, 0x400, 0x800]

  /** The two static buffers. */
  datatype Config = Config(pageBase: nat, pageK: nat, hugeBase: nat, hugeK: nat)

  /** taken lists the pages each slab has taken from the page pool, live the
      objects its clients hold, pages the pages handed out directly. */
  datatype State = State(page: Pool.Pool, huge: Pool.Pool,
                         models: seq<Slab>, taken: seq<seq<nat>>, live: seq<set<nat>>, pages: set<nat>)

  ghost predicate Indices(s: State) {
    |s.models| == |s.taken| == |s.live| == |SLAB_SIZES|
  }

  /** A slab has the size of its class, its live and free slots partition its
      pages, and its pages were taken from the pool. */
  ghost predicate SlabInv(s: State, i: nat)
    requires Indices(s) && i < |SLAB_SIZES|
  {
    && s.models[i].size == SLAB_SIZES[i] && Partition(s.models[i], s.live[i])
    && forall p :: p in s.models[i].pages ==> p in s.taken[i]
  }

  ghost predicate TakenBySlab(s: State, p: nat)
    requires Indices(s)
  {
    exists i :: 0 <= i < |SLAB_SIZES| && p in s.taken[i]
  }

  /** No page serves two purposes, and the live blocks of the page pool are
      exactly the pages in use. */
  ghost predicate PagesInv(s: State)
    requires Indices(s)
  {
    && (forall i :: 0 <= i < |SLAB_SIZES| ==> NoDuplicates(s.taken[i]))
    && (forall i, j, p :: 0 <= i < j < |SLAB_SIZES| && p in s.taken[i] ==> p !in s.taken[j])
    && (forall p :: p in s.pages ==> !TakenBySlab(s, p))
    && (forall b :: b in Blocks(s.page.tree) <==>
                    b.size == PAGE_SIZE && (b.ptr in s.pages || TakenBySlab(s, b.ptr)))
  }

  ghost predicate PoolsInv(c: Config, s: State) {
    && Pool.Valid(s.page, c.pageBase, c.pageK) && Pool.Valid(s.huge, c.hugeBase, c.hugeK)
    && Disjoint(Block(c.pageBase, BlockSize(c.pageK)), Block(c.hugeBase, BlockSize(c.hugeK)))
    && LargeOnly(Blocks(s.huge.tree))
  }

  /** The huge pool serves only requests of more than a page. */
  ghost predicate LargeOnly(blocks: set<Block>) {
    forall b :: b in blocks ==> b.size > PAGE_SIZE
  }

  ghost predicate Inv(c: Config, s: State) {
    && Indices(s) && PoolsInv(c, s) && PagesInv(s)
    && forall i :: 0 <= i < |SLAB_SIZES| ==> SlabInv(s, i)
  }

  // ---------------------------------------------------------------------------
  // Live regions
  // ---------------------------------------------------------------------------

  ghost function SlabRegions(s: State): set<Block>
    requires Indices(s)
  {
    set i, a | 0 <= i < |SLAB_SIZES| && a in s.live[i] :: Block(a, SLAB_SIZES[i])
  }

  ghost function PageRegions(s: State): set<Block> {
    set p | p in s.pages :: Block(p, PAGE_SIZE)
  }

  /** Everything clients hold, whoever served it. */
  ghost function Regions(s: State): set<Block>
    requires Indices(s)
  {
    SlabRegions(s) + Blocks(s.huge.tree) + PageRegions(s)
  }

  /** A live slab object lies in one backing page of its slab, which is a live
      block of the page pool. */
  lemma ObjectInPage(c: Config, s: State, i: nat, a: nat) returns (p: nat)
    requires Inv(c, s) && i < |SLAB_SIZES| && a in s.live[i]
    ensures p in s.models[i].pages && p in s.taken[i] && SlotOf(a, p, SLAB_SIZES[i])
    ensures Block(p, PAGE_SIZE) in Blocks(s.page.tree)
  {
    assert SlabInv(s, i);
    assert Slot(s.models[i], a);
    var k :| 0 <= k < |s.models[i].pages| && SlotOf(a, s.models[i].pages[k], s.models[i].size);
    p := s.models[i].pages[k];
    assert p in s.models[i].pages && p in s.taken[i];
    assert TakenBySlab(s, p);
  }

  /** Every region lies inside a block of one of the two pools. */
  lemma RegionInPool(c: Config, s: State, b: Block) returns (outer: Block)
    requires Inv(c, s) && b in Regions(s)
    ensures outer.ptr <= b.ptr && b.ptr + b.size <= outer.ptr + outer.size
    ensures
      || (outer == b && b in Blocks(s.huge.tree))
      || (outer == b && b.ptr in s.pages && outer in Blocks(s.page.tree))
      || (b in SlabRegions(s) && TakenBySlab(s, outer.ptr) && outer in Blocks(s.page.tree))
  {
    if b in Blocks(s.huge.tree) {
      outer := b;
    } else if b in SlabRegions(s) {
      var i, a :| 0 <= i < |SLAB_SIZES| && a in s.live[i] && b == Block(a, SLAB_SIZES[i]);
      var p := ObjectInPage(c, s, i, a);
      outer := Block(p, PAGE_SIZE);
    } else {
      outer := b;
      assert b.ptr in s.pages;
    }
  }

  /** Blocks of the two pools never meet. */
  lemma PoolsApart(c: Config, s: State, x: Block, y: Block)
    requires Inv(c, s) && x in Blocks(s.page.tree) && y in Blocks(s.huge.tree)
    ensures Disjoint(x, y) && x.size > 0 && y.size > 0
  {
    BlockOnGrid(s.page.tree, c.pageK, x);
    BlockOnGrid(s.huge.tree, c.hugeK, y);
  }

  /** Two objects of slabs i and j, possibly the same slab. */
  lemma SlabObjectsDisjoint(c: Config, s: State, i: nat, a: nat, j: nat, b: nat)
    requires Inv(c, s) && i < |SLAB_SIZES| && j < |SLAB_SIZES| && a in s.live[i] && b in s.live[j]
    requires i != j || a != b
    ensures Disjoint(Block(a, SLAB_SIZES[i]), Block(b, SLAB_SIZES[j]))
  {
    assert SlabInv(s, i) && SlabInv(s, j);
    if i == j {
      LiveDisjoint(s.models[i], s.live[i], a, b);
    } else {
      var p := ObjectInPage(c, s, i, a);
      var q := ObjectInPage(c, s, j, b);
      BlocksDisjoint(s.page.tree, c.pageK, Block(p, PAGE_SIZE), Block(q, PAGE_SIZE));
    }
  }

  /** All live regions, over slabs, huge pool and page pool, are pairwise
      disjoint. */
  lemma RegionsDisjoint(c: Config, s: State, a: Block, b: Block)
    requires Inv(c, s) && a in Regions(s) && b in Regions(s) && a != b
    ensures Disjoint(a, b)
  {
    if a in SlabRegions(s) && b in SlabRegions(s) {
      var i, x :| 0 <= i < |SLAB_SIZES| && x in s.live[i] && a == Block(x, SLAB_SIZES[i]);
      var j, y :| 0 <= j < |SLAB_SIZES| && y in s.live[j] && b == Block(y, SLAB_SIZES[j]);
      SlabObjectsDisjoint(c, s, i, x, j, y);
    } else {
      OutersDisjoint(c, s, a, b);
    }
  }

  lemma OutersDisjoint(c: Config, s: State, a: Block, b: Block)
    requires Inv(c, s) && a in Regions(s) && b in Regions(s) && a != b
    requires a !in SlabRegions(s) || b !in SlabRegions(s)
    ensures Disjoint(a, b)
  {
    var x := RegionInPool(c, s, a);
    var y := RegionInPool(c, s, b);
    if x in Blocks(s.page.tree) && y in Blocks(s.huge.tree) {
      PoolsApart(c, s, x, y);
    } else if y in Blocks(s.page.tree) && x in Blocks(s.huge.tree) {
      PoolsApart(c, s, y, x);
    } else if x in Blocks(s.huge.tree) {
      BlocksDisjoint(s.huge.tree, c.hugeK, a, b);
    } else {
      assert x != y;
      BlocksDisjoint(s.page.tree, c.pageK, x, y);
    }
  }

  // ---------------------------------------------------------------------------
  // Start
  // ---------------------------------------------------------------------------

  ghost function Initial(page: Pool.Pool, huge: Pool.Pool): State {
    State(page, huge, seq(|SLAB_SIZES|, i requires 0 <= i < |SLAB_SIZES| => Slab(SLAB_SIZES[i], [], [], [])),
          seq(|SLAB_SIZES|, _ => []), seq(|SLAB_SIZES|, _ => {}), {})
  }

  lemma InitialInv(c: Config, page: Pool.Pool, huge: Pool.Pool)
    requires page == Pool.Fresh(c.pageBase, c.pageK) && huge == Pool.Fresh(c.hugeBase, c.hugeK)
    requires PoolsInv(c, Initial(page, huge))
    ensures Inv(c, Initial(page, huge)) && Regions(Initial(page, huge)) == {}
  {
    var s := Initial(page, huge);
    forall i | 0 <= i < |SLAB_SIZES| ensures SlabInv(s, i) {
      EmptySlab(SLAB_SIZES[i]);
    }
  }

  lemma EmptySlab(size: nat)
    requires 0 < size <= PAGE_SIZE
    ensures Partition(Slab(size, [], [], []), {})
  {
  }

  // ---------------------------------------------------------------------------
  // Routing by address
  // ---------------------------------------------------------------------------

  /** An address inside a block of the page pool is inside a backing page of
      slab j only if that block is one. */
  lemma ContainsOnlyOwn(c: Config, s: State, outer: Block, p: nat, j: nat)
    requires Inv(c, s) && j < |SLAB_SIZES| && outer in Blocks(s.page.tree) && Covers(outer, p)
    ensures Contains(s.models[j], p) <==> outer.ptr in s.models[j].pages
  {
    assert SlabInv(s, j);
    if Contains(s.models[j], p) {
      var k :| 0 <= k < |s.models[j].pages| && s.models[j].pages[k] <= p < s.models[j].pages[k] + PAGE_SIZE;
      var q := s.models[j].pages[k];
      assert q in s.models[j].pages;
      assert TakenBySlab(s, q);
      if q != outer.ptr {
        BlocksDisjoint(s.page.tree, c.pageK, outer, Block(q, PAGE_SIZE));
      }
    }
    if outer.ptr in s.models[j].pages {
      var k :| 0 <= k < |s.models[j].pages| && s.models[j].pages[k] == outer.ptr;
    }
  }

  /** What a slab contains is in the page pool's buffer. */
  lemma SlabInPagePool(c: Config, s: State, i: nat, p: nat)
    requires Inv(c, s) && i < |SLAB_SIZES| && Contains(s.models[i], p)
    ensures Pool.Contains(c.pageBase, c.pageK, p)
  {
    assert SlabInv(s, i);
    var k :| 0 <= k < |s.models[i].pages| && s.models[i].pages[k] <= p < s.models[i].pages[k] + PAGE_SIZE;
    var q := s.models[i].pages[k];
    assert q in s.models[i].pages;
    assert TakenBySlab(s, q);
    BlockOnGrid(s.page.tree, c.pageK, Block(q, PAGE_SIZE));
  }

  /** A live slab object is contained in its own slab and in no other. */
  lemma SlabObjectRoutes(c: Config, s: State, i: nat, a: nat, j: nat)
    requires Inv(c, s) && i < |SLAB_SIZES| && j < |SLAB_SIZES| && a in s.live[i]
    ensures Contains(s.models[j], a) <==> i == j
  {
    var p := ObjectInPage(c, s, i, a);
    ContainsOnlyOwn(c, s, Block(p, PAGE_SIZE), a, j);
    assert SlabInv(s, j);
  }

  /** A live huge block is contained in no slab, but in the huge pool. */
  lemma HugeBlockRoutes(c: Config, s: State, b: Block, j: nat)
    requires Inv(c, s) && b in Blocks(s.huge.tree) && j < |SLAB_SIZES|
    ensures !Contains(s.models[j], b.ptr) && Pool.Contains(c.hugeBase, c.hugeK, b.ptr)
  {
    BlockOnGrid(s.huge.tree, c.hugeK, b);
    assert SlabInv(s, j);
    forall k | 0 <= k < |s.models[j].pages|
      ensures !(s.models[j].pages[k] <= b.ptr < s.models[j].pages[k] + PAGE_SIZE)
    {
      var q := s.models[j].pages[k];
      assert q in s.models[j].pages;
      assert TakenBySlab(s, q);
      PoolsApart(c, s, Block(q, PAGE_SIZE), b);
    }
  }

  /** A page handed out directly is contained in no slab and not in the huge
      pool. */
  lemma DirectPageRoutes(c: Config, s: State, p: nat, j: nat)
    requires Inv(c, s) && p in s.pages && j < |SLAB_SIZES|
    ensures Block(p, PAGE_SIZE) in Blocks(s.page.tree)
    ensures !Contains(s.models[j], p) && !Pool.Contains(c.hugeBase, c.hugeK, p)
  {
    var b := Block(p, PAGE_SIZE);
    assert b in Blocks(s.page.tree);
    BlockOnGrid(s.page.tree, c.pageK, b);
    assert SlabInv(s, j);
    ContainsOnlyOwn(c, s, b, p, j);
  }

  /** The null pointer is in no slab and not in the huge pool. */
  lemma NullRoutes(c: Config, s: State, j: nat)
    requires Inv(c, s) && j < |SLAB_SIZES|
    ensures !Contains(s.models[j], 0) && !Pool.Contains(c.hugeBase, c.hugeK, 0)
  {
    assert SlabInv(s, j);
    forall k | 0 <= k < |s.models[j].pages| ensures s.models[j].pages[k] > 0 {
      var q := s.models[j].pages[k];
      assert q in s.models[j].pages;
      assert TakenBySlab(s, q);
      BlockOnGrid(s.page.tree, c.pageK, Block(q, PAGE_SIZE));
    }
  }

  /** Who answers for an address: a slab index, then the huge pool, then the
      page pool, in the order free and size ask. */
  datatype Server = BySlab(i: nat) | ByHuge | ByPage

  ghost predicate Answers(c: Config, s: State, ptr: nat, who: Server)
    requires Indices(s)
  {
    match who
    case BySlab(i) =>
      && i < |SLAB_SIZES| && Contains(s.models[i], ptr)
      && forall j :: 0 <= j < i ==> !Contains(s.models[j], ptr)
    case ByHuge =>
      && Pool.Contains(c.hugeBase, c.hugeK, ptr)
      && forall j :: 0 <= j < |SLAB_SIZES| ==> !Contains(s.models[j], ptr)
    case ByPage =>
      && !Pool.Contains(c.hugeBase, c.hugeK, ptr)
      && forall j :: 0 <= j < |SLAB_SIZES| ==> !Contains(s.models[j], ptr)
  }

  /** The server that answers for a live region is the one that holds it. */
  lemma AnswersIsOwner(c: Config, s: State, b: Block, who: Server)
    requires Inv(c, s) && b in Regions(s) && Answers(c, s, b.ptr, who)
    ensures match who
            case BySlab(i) => b.size == SLAB_SIZES[i] && b.ptr in s.live[i]
            case ByHuge => b in Blocks(s.huge.tree)
            case ByPage => b.size == PAGE_SIZE && b.ptr in s.pages && b in Blocks(s.page.tree)
  {
    if b in SlabRegions(s) {
      var i, a :| 0 <= i < |SLAB_SIZES| && a in s.live[i] && b == Block(a, SLAB_SIZES[i]);
      forall j | 0 <= j < |SLAB_SIZES| ensures Contains(s.models[j], a) <==> i == j {
        SlabObjectRoutes(c, s, i, a, j);
      }
      assert Contains(s.models[i], a);
    } else if b in Blocks(s.huge.tree) {
      forall j | 0 <= j < |SLAB_SIZES| ensures !Contains(s.models[j], b.ptr) {
        HugeBlockRoutes(c, s, b, j);
      }
      HugeBlockRoutes(c, s, b, 0);
    } else {
      forall j | 0 <= j < |SLAB_SIZES| ensures !Contains(s.models[j], b.ptr) {
        DirectPageRoutes(c, s, b.ptr, j);
      }
      DirectPageRoutes(c, s, b.ptr, 0);
    }
  }

  /** A live region of one page was handed out by the page pool. */
  lemma PageRegionIsPage(c: Config, s: State, ptr: nat)
    requires Inv(c, s) && Block(ptr, PAGE_SIZE) in Regions(s)
    ensures ptr in s.pages
  {
    LargeIsNotSlab(s, Block(ptr, PAGE_SIZE));
  }

  ghost function SizeBy(c: Config, s: State, ptr: nat, who: Server): nat
    requires who.BySlab? ==> who.i < |SLAB_SIZES|
  {
    match who
    case BySlab(i) => SLAB_SIZES[i]
    case ByHuge => Pool.Size(s.huge, ptr)
    case ByPage => if Pool.Contains(c.pageBase, c.pageK, ptr) then Pool.Size(s.page, ptr) else 0
  }

  lemma OwnerKnowsSize(c: Config, s: State, b: Block, who: Server)
    requires Inv(c, s) && b in Regions(s) && Answers(c, s, b.ptr, who)
    ensures SizeBy(c, s, b.ptr, who) == b.size
  {
    AnswersIsOwner(c, s, b, who);
    if who.ByHuge? {
      Pool.DeallocateRemoves(s.huge, c.hugeBase, c.hugeK, b);
    } else if who.ByPage? {
      Pool.DeallocateRemoves(s.page, c.pageBase, c.pageK, b);
    }
  }

  // ---------------------------------------------------------------------------
  // Steps
  // ---------------------------------------------------------------------------

  ghost function WithSlab(s: State, i: nat, page: Pool.Pool, m: Slab, taken: seq<nat>, live: set<nat>): State
    requires Indices(s) && i < |SLAB_SIZES|
  {
    s.(page := page, models := s.models[i := m], taken := s.taken[i := taken], live := s.live[i := live])
  }

  /** A page newly taken was taken by nobody. */
  lemma TakenDistinct(s: State, i: nat, page: Pool.Pool, taken: seq<nat>)
    requires Indices(s) && PagesInv(s) && i < |SLAB_SIZES|
    requires Pool.Took(Blocks(s.page.tree), Blocks(page.tree), s.taken[i], taken)
    ensures NoDuplicates(taken)
  {
    var n := |s.taken[i]|;
    assert NoDuplicates(s.taken[i]);
    forall x, y | 0 <= x < y < |taken| ensures taken[x] != taken[y] {
      if x < n {
        assert taken[x] == s.taken[i][x];
        assert TakenBySlab(s, taken[x]);
        if y < n { assert taken[y] == s.taken[i][y]; }
      }
    }
  }

  /** Slab i has taken pages from the pool; nothing else moved. */
  lemma TakingKeepsPages(c: Config, s: State, i: nat, page: Pool.Pool, m: Slab, taken: seq<nat>, live: set<nat>)
    requires Inv(c, s) && i < |SLAB_SIZES| && Pool.Valid(page, c.pageBase, c.pageK)
    requires Pool.Took(Blocks(s.page.tree), Blocks(page.tree), s.taken[i], taken)
    ensures PagesInv(WithSlab(s, i, page, m, taken, live))
  {
    var s' := WithSlab(s, i, page, m, taken, live);
    var added := taken[|s.taken[i]|..];
    assert taken == s.taken[i] + added;
    forall p ensures p in added ==> !TakenBySlab(s, p) && p !in s.pages {
      if p in added {
        var k :| 0 <= k < |added| && added[k] == p;
        assert taken[|s.taken[i]| + k] == p;
        assert Block(p, PAGE_SIZE) !in Blocks(s.page.tree);
      }
    }
    forall p: nat ensures TakenBySlab(s', p) <==> TakenBySlab(s, p) || p in added {
      if TakenBySlab(s, p) {
        var j :| 0 <= j < |SLAB_SIZES| && p in s.taken[j];
        assert p in s'.taken[j];
      }
      if p in added { assert p in s'.taken[i]; }
    }
    forall b ensures b in Pool.PageBlocks(added) <==> b.size == PAGE_SIZE && b.ptr in added {
      if b.ptr in added {
        var k :| 0 <= k < |added| && added[k] == b.ptr;
      }
    }
    forall j | 0 <= j < |SLAB_SIZES| ensures NoDuplicates(s'.taken[j]) {
      if j == i { TakenDistinct(s, i, page, taken); }
    }
    forall j, k, p | 0 <= j < k < |SLAB_SIZES| && p in s'.taken[j] ensures p !in s'.taken[k] {
      assert p in s.taken[j] ==> TakenBySlab(s, p);
    }
  }

  /** A new backing page is apart from the slab's other pages. */
  lemma FreshPageApart(c: Config, s: State, i: nat, page: Pool.Pool, taken: seq<nat>, added: nat)
    requires Inv(c, s) && i < |SLAB_SIZES| && Pool.Valid(page, c.pageBase, c.pageK)
    requires Pool.Took(Blocks(s.page.tree), Blocks(page.tree), s.taken[i], taken)
    requires added in taken[|s.taken[i]|..]
    ensures added > 0
    ensures forall k :: 0 <= k < |s.models[i].pages| ==>
              Disjoint(Block(s.models[i].pages[k], PAGE_SIZE), Block(added, PAGE_SIZE))
  {
    var k :| |s.taken[i]| <= k < |taken| && taken[k] == added;
    var b := Block(added, PAGE_SIZE);
    assert taken[|s.taken[i]|..][k - |s.taken[i]|] == added;
    assert b in Pool.PageBlocks(taken[|s.taken[i]|..]);
    assert SlabInv(s, i);
    forall k | 0 <= k < |s.models[i].pages|
      ensures Disjoint(Block(s.models[i].pages[k], PAGE_SIZE), b)
    {
      var q := s.models[i].pages[k];
      assert q in s.models[i].pages;
      assert TakenBySlab(s, q);
      BlocksDisjoint(page.tree, c.pageK, Block(q, PAGE_SIZE), b);
    }
  }

  /** What Slab.Allocate gives, given the pages it took. */
  ghost predicate SlabAllocated(s: State, i: nat, m: Slab, taken: seq<nat>, page: nat, ptr: nat)
    requires Indices(s) && i < |SLAB_SIZES|
  {
    if s.models[i].free != [] then taken == s.taken[i] && (m, ptr) == Take(s.models[i])
    else
      && s.models[i].size > 0 && |s.taken[i]| <= |taken| && page in taken[|s.taken[i]|..]
      && Refill(s.models[i], page).free != [] && (m, ptr) == Take(Refill(s.models[i], page))
  }

  /** Serving a request from slab i. */
  lemma SlabAllocKeeps(c: Config, s: State, i: nat, pool: Pool.Pool, m: Slab, taken: seq<nat>, page: nat, ptr: nat)
    requires Inv(c, s) && i < |SLAB_SIZES| && Pool.Valid(pool, c.pageBase, c.pageK)
    requires Pool.Took(Blocks(s.page.tree), Blocks(pool.tree), s.taken[i], taken)
    requires SlabAllocated(s, i, m, taken, page, ptr)
    ensures ptr > 0 && ptr !in s.live[i]
    ensures Inv(c, WithSlab(s, i, pool, m, taken, s.live[i] + {ptr}))
  {
    var s' := WithSlab(s, i, pool, m, taken, s.live[i] + {ptr});
    assert SlabInv(s, i);
    TakingKeepsPages(c, s, i, pool, m, taken, s.live[i] + {ptr});
    var filled := s.models[i];
    if s.models[i].free == [] {
      FreshPageApart(c, s, i, pool, taken, page);
      filled := Refill(s.models[i], page);
      RefillKeepsPartition(s.models[i], s.live[i], page);
      assert page in taken;
    }
    TakeKeepsPartition(filled, s.live[i]);
    assert forall p :: p in s.taken[i] ==> p in taken;
    assert SlabInv(s', i);
    forall j | 0 <= j < |SLAB_SIZES| ensures SlabInv(s', j) {
      if j != i { assert SlabInv(s, j); }
    }
    var p := ObjectInPage(c, s', i, ptr);
    BlockOnGrid(pool.tree, c.pageK, Block(p, PAGE_SIZE));
  }

  lemma SlabRegionsAdd(s: State, s': State, i: nat, a: nat)
    requires Indices(s) && Indices(s') && i < |SLAB_SIZES| && s'.live == s.live[i := s.live[i] + {a}]
    ensures SlabRegions(s') == SlabRegions(s) + {Block(a, SLAB_SIZES[i])}
  {
    forall b | b in SlabRegions(s') ensures b in SlabRegions(s) + {Block(a, SLAB_SIZES[i])} {
      var j, x :| 0 <= j < |SLAB_SIZES| && x in s'.live[j] && b == Block(x, SLAB_SIZES[j]);
    }
    forall b | b in SlabRegions(s) ensures b in SlabRegions(s') {
      var j, x :| 0 <= j < |SLAB_SIZES| && x in s.live[j] && b == Block(x, SLAB_SIZES[j]);
      assert x in s'.live[j];
    }
    assert a in s'.live[i];
  }

  lemma SlabSizesDistinct(i: nat, j: nat)
    requires i < |SLAB_SIZES| && j < |SLAB_SIZES| && SLAB_SIZES[i] == SLAB_SIZES[j]
    ensures i == j
  {
  }

  lemma SlabRegionsRemove(s: State, s': State, i: nat, a: nat)
    requires Indices(s) && Indices(s') && i < |SLAB_SIZES| && s'.live == s.live[i := s.live[i] - {a}]
    ensures SlabRegions(s') == SlabRegions(s) - {Block(a, SLAB_SIZES[i])}
  {
    var gone := Block(a, SLAB_SIZES[i]);
    forall b | b in SlabRegions(s') ensures b in SlabRegions(s) && b != gone {
      var j, x :| 0 <= j < |SLAB_SIZES| && x in s'.live[j] && b == Block(x, SLAB_SIZES[j]);
      assert x in s.live[j];
      if b == gone { SlabSizesDistinct(i, j); }
    }
    forall b | b in SlabRegions(s) && b != gone ensures b in SlabRegions(s') {
      var j, x :| 0 <= j < |SLAB_SIZES| && x in s.live[j] && b == Block(x, SLAB_SIZES[j]);
      assert x in s'.live[j];
    }
  }

  /** A slab region is neither a huge nor a direct-page region. */
  lemma SlabRegionsApart(c: Config, s: State, i: nat, a: nat)
    requires Inv(c, s) && i < |SLAB_SIZES|
    ensures Block(a, SLAB_SIZES[i]) !in Blocks(s.huge.tree) + PageRegions(s)
    ensures Block(a, SLAB_SIZES[i]) in SlabRegions(s) ==> a in s.live[i]
  {
    var b := Block(a, SLAB_SIZES[i]);
    if b in Blocks(s.huge.tree) { BlockOnGrid(s.huge.tree, c.hugeK, b); }
    if b in SlabRegions(s) {
      var j, x :| 0 <= j < |SLAB_SIZES| && x in s.live[j] && b == Block(x, SLAB_SIZES[j]);
      SlabSizesDistinct(i, j);
    }
  }

  /** Returning a live object to its slab. */
  lemma SlabFreeKeeps(c: Config, s: State, i: nat, a: nat)
    requires Inv(c, s) && i < |SLAB_SIZES| && a in s.live[i]
    ensures s.models[i].used != []
    ensures Inv(c, WithSlab(s, i, s.page, Give(s.models[i], a), s.taken[i], s.live[i] - {a}))
  {
    var s' := WithSlab(s, i, s.page, Give(s.models[i], a), s.taken[i], s.live[i] - {a});
    assert SlabInv(s, i);
    GiveKeepsPartition(s.models[i], s.live[i], a);
    assert s'.taken == s.taken;
    forall p: nat ensures TakenBySlab(s', p) <==> TakenBySlab(s, p) {}
    forall j | 0 <= j < |SLAB_SIZES| ensures SlabInv(s', j) {
      if j != i { assert SlabInv(s, j); }
    }
  }

  /** Handing out one page directly. */
  lemma PageAllocKeeps(c: Config, s: State, page: Pool.Pool, p: nat)
    requires Inv(c, s) && Pool.Valid(page, c.pageBase, c.pageK)
    requires Pool.Took(Blocks(s.page.tree), Blocks(page.tree), [], [p])
    ensures Inv(c, s.(page := page, pages := s.pages + {p})) && p !in s.pages
  {
    var s' := s.(page := page, pages := s.pages + {p});
    assert [p][0..] == [p] && [p][0] == p;
    assert Pool.PageBlocks([p]) == {Block(p, PAGE_SIZE)};
    assert Block(p, PAGE_SIZE) !in Blocks(s.page.tree);
    forall q: nat ensures TakenBySlab(s', q) <==> TakenBySlab(s, q) {}
    forall i | 0 <= i < |SLAB_SIZES| ensures SlabInv(s', i) {
      assert SlabInv(s, i);
    }
  }

  /** Taking a directly handed out page back. */
  lemma PageFreeKeeps(c: Config, s: State, page: Pool.Pool, p: nat)
    requires Inv(c, s) && p in s.pages && Pool.Valid(page, c.pageBase, c.pageK)
    requires Blocks(page.tree) == Blocks(s.page.tree) - {Block(p, PAGE_SIZE)}
    ensures Inv(c, s.(page := page, pages := s.pages - {p}))
  {
    var s' := s.(page := page, pages := s.pages - {p});
    forall q: nat ensures TakenBySlab(s', q) <==> TakenBySlab(s, q) {}
    forall i | 0 <= i < |SLAB_SIZES| ensures SlabInv(s', i) {
      assert SlabInv(s, i);
    }
  }

  /** The huge pool changes on its own. */
  lemma HugeKeeps(c: Config, s: State, huge: Pool.Pool)
    requires Inv(c, s) && Pool.Valid(huge, c.hugeBase, c.hugeK) && LargeOnly(Blocks(huge.tree))
    ensures Inv(c, s.(huge := huge))
  {
    var s' := s.(huge := huge);
    forall q: nat ensures TakenBySlab(s', q) <==> TakenBySlab(s, q) {}
    forall i | 0 <= i < |SLAB_SIZES| ensures SlabInv(s', i) {
      assert SlabInv(s, i);
    }
  }

  // ---------------------------------------------------------------------------
  // Size classes
  // ---------------------------------------------------------------------------

  /** The cascade of size tests in front of the slabs. */
  function SlabIndex(size: nat): (i: nat)
    requires 0 < size <= 0x800
    ensures i < |SLAB_SIZES| && size <= SLAB_SIZES[i]
    ensures i > 0 ==> SLAB_SIZES[i - 1] < size
  {
    if size <= 0x010 then 0
    else if size <= 0x020 then 1
    else if size <= 0x030 then 2
    else if size <= 0x040 then 3
    else if size <= 0x080 then 4
    else if size <= 0x100 then 5
    else if size <= 0x200 then 6
    else if size <= 0x400 then 7
    else 8
  }

  /** How many bytes a request of this size is given. */
  function ServedSize(size: nat): (r: nat)
    requires size > 0
    ensures r >= size
  {
    if size <= 0x800 then SLAB_SIZES[SlabIndex(size)]
    else if size > PAGE_SIZE then BlockSize(Pool.LevelFor(size))
    else PAGE_SIZE
  }

  /** A request that is refused: nothing, a page when none is left, or more than a
      page when no aligned block of the rounded size is free. */
  ghost predicate Refused(c: Config, s: State, size: nat) {
    || size == 0
    || (0x800 < size <= PAGE_SIZE && Pool.Exhausted(s.page, c.pageBase, c.pageK))
    || (size > PAGE_SIZE && Covered(Blocks(s.huge.tree), c.hugeBase, c.hugeK, Pool.LevelFor(size)))
  }

  /** Regions gained or lost one block. */
  lemma RegionsAfterSlabAlloc(c: Config, s: State, s': State, i: nat, a: nat)
    requires Inv(c, s) && i < |SLAB_SIZES| && a !in s.live[i]
    requires Indices(s') && s'.live == s.live[i := s.live[i] + {a}] && s'.huge == s.huge && s'.pages == s.pages
    ensures Block(a, SLAB_SIZES[i]) !in Regions(s)
    ensures Regions(s') == Regions(s) + {Block(a, SLAB_SIZES[i])}
  {
    SlabRegionsAdd(s, s', i, a);
    SlabRegionsApart(c, s, i, a);
  }

  /** A slab allocation keeps the invariant and adds one region. */
  lemma SlabAllocServes(c: Config, s: State, i: nat, pool: Pool.Pool, m: Slab, taken: seq<nat>, page: nat, ptr: nat)
    requires Inv(c, s) && i < |SLAB_SIZES| && Pool.Valid(pool, c.pageBase, c.pageK)
    requires Pool.Took(Blocks(s.page.tree), Blocks(pool.tree), s.taken[i], taken)
    requires SlabAllocated(s, i, m, taken, page, ptr)
    ensures var s' := WithSlab(s, i, pool, m, taken, s.live[i] + {ptr});
            && Inv(c, s') && ptr > 0 && Block(ptr, SLAB_SIZES[i]) !in Regions(s)
            && Regions(s') == Regions(s) + {Block(ptr, SLAB_SIZES[i])}
  {
    SlabAllocKeeps(c, s, i, pool, m, taken, page, ptr);
    RegionsAfterSlabAlloc(c, s, WithSlab(s, i, pool, m, taken, s.live[i] + {ptr}), i, ptr);
  }

  lemma RegionsAfterSlabFree(c: Config, s: State, s': State, i: nat, a: nat)
    requires Inv(c, s) && i < |SLAB_SIZES| && a in s.live[i]
    requires Indices(s') && s'.live == s.live[i := s.live[i] - {a}] && s'.huge == s.huge && s'.pages == s.pages
    ensures Regions(s') == Regions(s) - {Block(a, SLAB_SIZES[i])}
  {
    SlabRegionsRemove(s, s', i, a);
    SlabRegionsApart(c, s, i, a);
  }

  /** A block of a whole page or more is not a slab region. */
  lemma LargeIsNotSlab(s: State, b: Block)
    requires Indices(s) && b.size >= PAGE_SIZE
    ensures b !in SlabRegions(s)
  {
  }

  lemma RegionsAfterPageAlloc(c: Config, s: State, s': State, p: nat)
    requires Inv(c, s) && Inv(c, s') && p !in s.pages
    requires s' == s.(page := s'.page, pages := s.pages + {p})
    ensures Block(p, PAGE_SIZE) !in Regions(s)
    ensures Regions(s') == Regions(s) + {Block(p, PAGE_SIZE)}
  {
    var b := Block(p, PAGE_SIZE);
    LargeIsNotSlab(s, b);
    assert PageRegions(s') == PageRegions(s) + {b};
    assert SlabRegions(s') == SlabRegions(s);
    assert p in s'.pages;
  }

  lemma RegionsAfterHugeAlloc(c: Config, s: State, s': State, b: Block)
    requires Inv(c, s) && Inv(c, s') && s' == s.(huge := s'.huge)
    requires b !in Blocks(s.huge.tree) && Blocks(s'.huge.tree) == Blocks(s.huge.tree) + {b}
    ensures b !in Regions(s)
    ensures Regions(s') == Regions(s) + {b}
  {
    BlockOnGrid(s'.huge.tree, c.hugeK, b);
    LargeIsNotSlab(s, b);
    assert SlabRegions(s') == SlabRegions(s);
  }

  lemma RegionsAfterPageFree(c: Config, s: State, s': State, p: nat)
    requires Inv(c, s) && p in s.pages && s' == s.(page := s'.page, pages := s.pages - {p})
    ensures Regions(s') == Regions(s) - {Block(p, PAGE_SIZE)}
  {
    var b := Block(p, PAGE_SIZE);
    LargeIsNotSlab(s, b);
    assert PageRegions(s') == PageRegions(s) - {b};
    assert SlabRegions(s') == SlabRegions(s);
    assert b in Blocks(s.page.tree);
  }

  lemma RegionsAfterHugeFree(c: Config, s: State, s': State, b: Block)
    requires Inv(c, s) && s' == s.(huge := s'.huge)
    requires b in Blocks(s.huge.tree) && Blocks(s'.huge.tree) == Blocks(s.huge.tree) - {b}
    ensures Regions(s') == Regions(s) - {b}
  {
    BlockOnGrid(s.huge.tree, c.hugeK, b);
    LargeIsNotSlab(s, b);
    assert SlabRegions(s') == SlabRegions(s);
  }
}
