/** The lazily grown binary tree behind the buddy allocator, as a value: what
    allocate, deallocate and size compute, and what every call keeps. */
module BuddyTree {

  const PAGE_SIZE: nat := 0x1000

  /** (1 << k) * BAREFLANK_PAGE_SIZE */
  function BlockSize(level: nat): (r: nat)
    ensures r >= PAGE_SIZE
  {
    if level == 0 then PAGE_SIZE else 2 * BlockSize(level - 1)
  }

  datatype Tag = Unused | Leaf | Parent | Full

  /** A node with its array index. A Tip has never been given children. */
  datatype Tree =
    | Tip(id: nat, tag: Tag, ptr: nat, size: nat)
    | Fork(id: nat, tag: Tag, ptr: nat, size: nat, left: Tree, right: Tree)

  /** An allocated region. */
  datatype Block = Block(ptr: nat, size: nat)

  // ---------------------------------------------------------------------------
  // Invariants
  // ---------------------------------------------------------------------------

  /** t covers BlockSize(level) bytes and every fork halves its range; a
      page-sized node is never forked. */
  ghost predicate Shape(t: Tree, level: nat)
    decreases level
  {
    && t.size == BlockSize(level)
    && (t.Fork? ==>
          && level > 0
          && t.left.ptr == t.ptr
          && t.right.ptr == t.ptr + BlockSize(level - 1)
          && Shape(t.left, level - 1)
          && Shape(t.right, level - 1))
  }

  predicate Blocked(t: Tree) {
    t.tag == Leaf || t.tag == Full
  }

  predicate AllUnused(t: Tree) {
    t.tag == Unused && (t.Fork? ==> AllUnused(t.left) && AllUnused(t.right))
  }

  /** A node is full iff both children are leaf or full, everything below an
      unused or leaf node is unused, and a parent has something below it. */
  predicate Consistent(t: Tree) {
    match t
    case Tip(_, tag, _, _) => tag == Unused || tag == Leaf
    case Fork(_, tag, _, _, l, r) =>
      && Consistent(l) && Consistent(r)
      && (tag == Full <==> Blocked(l) && Blocked(r))
      && (tag == Unused || tag == Leaf <==> AllUnused(l) && AllUnused(r))
  }

  /** The live allocations: the leaf nodes. */
  ghost function Blocks(t: Tree): set<Block> {
    if t.tag == Leaf then {Block(t.ptr, t.size)}
    else if t.Fork? then Blocks(t.left) + Blocks(t.right)
    else {}
  }

  predicate Disjoint(a: Block, b: Block) {
    a.ptr + a.size <= b.ptr || b.ptr + b.size <= a.ptr
  }

  predicate Covers(b: Block, p: nat) {
    b.ptr <= p < b.ptr + b.size
  }

  // ---------------------------------------------------------------------------
  // Operations
  // ---------------------------------------------------------------------------

  datatype AllocResult = AllocResult(tree: Tree, ptr: nat, next: nat)

  /** get_nodes, when t has no children yet: two fresh nodes that halve it. */
  function Grown(t: Tree, next: nat, ghost level: nat): (f: Tree)
    requires Shape(t, level) && level > 0
    ensures f.Fork? && Shape(f, level) && f.ptr == t.ptr && f.id == t.id && f.tag == t.tag
    ensures Shape(f.left, level - 1) && Shape(f.right, level - 1)
  {
    if t.Fork? then t
    else
      Fork(t.id, t.tag, t.ptr, t.size,
           Tip(next, Unused, t.ptr, t.size / 2),
           Tip(next + 1, Unused, t.ptr + t.size / 2, t.size / 2))
  }

  /** The guard in front of each of the two child calls. */
  predicate Tries(child: Tree, size: nat) {
    if size == child.size then child.tag == Unused else !Blocked(child)
  }

  function TagAfterAlloc(l: Tree, r: Tree): Tag {
    if Blocked(l) && Blocked(r) then Full else Parent
  }

  function TagAfterFree(l: Tree, r: Tree): Tag {
    if l.tag == Unused && r.tag == Unused then Unused else Parent
  }

  /** private_allocate; next is the first unused index of the node array, and a
      null pointer means that nothing was found. */
  function Alloc(t: Tree, size: nat, next: nat, ghost level: nat, ghost n: nat): (r: AllocResult)
    requires Shape(t, level)
    requires size == BlockSize(n) && n <= level
    ensures Shape(r.tree, level) && r.tree.id == t.id && r.tree.ptr == t.ptr
    decreases level
  {
    if Blocked(t) then
      AllocResult(t, 0, next)
    else if size == t.size then
      if t.tag == Unused then AllocResult(t.(tag := Leaf), t.ptr, next) else AllocResult(t, 0, next)
    else
      var f := Grown(t, next, level);
      var next := if t.Tip? then next + 2 else next;
      var a := if Tries(f.left, size) then Alloc(f.left, size, next, level - 1, n)
               else AllocResult(f.left, 0, next);
      if a.ptr != 0 then
        AllocResult(f.(left := a.tree, tag := TagAfterAlloc(a.tree, f.right)), a.ptr, a.next)
      else
        var b := if Tries(f.right, size) then Alloc(f.right, size, a.next, level - 1, n)
                 else AllocResult(f.right, 0, a.next);
        AllocResult(f.(left := a.tree, right := b.tree,
                       tag := if b.ptr != 0 then TagAfterAlloc(a.tree, b.tree) else f.tag),
                    b.ptr, b.next)
  }

  /** private_deallocate: descends towards p and releases the first leaf met. */
  function Free(t: Tree, p: nat): (r: (Tree, bool)) {
    if t.tag == Leaf then (t.(tag := Unused), true)
    else if t.Tip? then (t, false)
    else if p < t.left.ptr + t.left.size then
      var (l, ok) := Free(t.left, p);
      (t.(left := l, tag := if ok then TagAfterFree(l, t.right) else t.tag), ok)
    else
      var (r, ok) := Free(t.right, p);
      (t.(right := r, tag := if ok then TagAfterFree(t.left, r) else t.tag), ok)
  }

  /** private_size */
  function SizeOf(t: Tree, p: nat): nat {
    if t.tag == Leaf then t.size
    else if t.Tip? then 0
    else if p < t.left.ptr + t.left.size then SizeOf(t.left, p)
    else SizeOf(t.right, p)
  }

  // ---------------------------------------------------------------------------
  // Live blocks
  // ---------------------------------------------------------------------------

  lemma BlockSizeStrict(m: nat, n: nat)
    requires m < n
    ensures BlockSize(m) < BlockSize(n)
  {
    if m < n - 1 {
      BlockSizeStrict(m, n - 1);
    }
  }

  lemma UnusedHasNoBlocks(t: Tree)
    requires AllUnused(t)
    ensures Blocks(t) == {}
  {
  }

  /** Coalescing: the tag of a consistent tree is Unused exactly when nothing
      is live in it, so the root is unused again once every block is freed. */
  lemma {:induction false} UnusedIffEmpty(t: Tree)
    requires Consistent(t)
    ensures t.tag == Unused <==> Blocks(t) == {}
    ensures t.tag == Unused <==> AllUnused(t)
  {
    if t.Fork? {
      UnusedIffEmpty(t.left);
      UnusedIffEmpty(t.right);
    }
  }

  /** b is one of the blocks of a buffer of 2^level pages at base: a power-of-two
      number of pages at a multiple of its own size. */
  ghost predicate OnGrid(b: Block, base: nat, level: nat) {
    && base <= b.ptr && b.ptr + b.size <= base + BlockSize(level)
    && exists n: nat :: n <= level && b.size == BlockSize(n) && (b.ptr - base) % BlockSize(n) == 0
  }

  lemma {:induction false} HalfMultiple(level: nat, n: nat)
    requires n < level
    ensures BlockSize(level - 1) % BlockSize(n) == 0
  {
    var d := BlockSize(n);
    if n == level - 1 {
      ModUnique(d, d, 1, 0);
    } else {
      HalfMultiple(level - 1, n);
      DoubleMultiple(BlockSize(level - 2), d);
    }
  }

  lemma DoubleMultiple(h: nat, d: nat)
    requires d > 0 && h % d == 0
    ensures (2 * h) % d == 0
  {
    AddMultiples(h, h, d);
    assert 2 * h == h + h;
  }

  lemma {:induction false} AddMultiples(a: nat, b: nat, d: nat)
    requires d > 0 && a % d == 0
    ensures (a + b) % d == b % d
  {
    var q := a / d;
    var r := b / d;
    assert a + b == d * (q + r) + b % d by { assert d * (q + r) == d * q + d * r; }
    ModUnique(a + b, d, q + r, b % d);
  }

  lemma ModUnique(a: int, d: nat, q: int, r: nat)
    requires d > 0 && a == d * q + r && r < d
    ensures a % d == r
  {
    var z := q - a / d;
    assert a == d * (a / d) + a % d;
    assert d * z == a % d - r by { assert d * z == d * q - d * (a / d); }
    MulSign(d, z);
  }

  lemma MulSign(d: nat, z: int)
    ensures z >= 1 ==> d * z >= d
    ensures z <= -1 ==> d * z + d <= 0
  {
  }

  /** Every live block lies in the buffer, is a power-of-two number of pages,
      and is aligned to its own size relative to the start of the buffer. */
  lemma {:induction false} BlockOnGrid(t: Tree, level: nat, b: Block)
    requires Shape(t, level) && b in Blocks(t)
    ensures OnGrid(b, t.ptr, level)
    decreases level
  {
    if t.tag == Leaf {
      WholeOnGrid(t.ptr, level);
    } else {
      var low := b in Blocks(t.left);
      BlockOnGrid(if low then t.left else t.right, level - 1, b);
      HalfOnGrid(b, t.ptr, level, low);
    }
  }

  lemma WholeOnGrid(base: nat, level: nat)
    ensures OnGrid(Block(base, BlockSize(level)), base, level)
  {
    assert 0 % BlockSize(level) == 0;
  }

  /** What is on the grid of a half of the buffer is on the grid of the buffer. */
  lemma HalfOnGrid(b: Block, base: nat, level: nat, low: bool)
    requires level > 0 && OnGrid(b, if low then base else base + BlockSize(level - 1), level - 1)
    ensures OnGrid(b, base, level)
  {
    var half := BlockSize(level - 1);
    var start := if low then base else base + half;
    var n: nat :| n <= level - 1 && b.size == BlockSize(n) && (b.ptr - start) % BlockSize(n) == 0;
    if !low {
      HalfMultiple(level, n);
      AddMultiples(half, b.ptr - start, BlockSize(n));
      assert b.ptr - base == half + (b.ptr - start);
    }
  }

  /** Live blocks are pairwise disjoint. */
  lemma {:induction false} BlocksDisjoint(t: Tree, level: nat, a: Block, b: Block)
    requires Shape(t, level) && a in Blocks(t) && b in Blocks(t) && a != b
    ensures Disjoint(a, b)
    decreases level
  {
    var x := if a in Blocks(t.left) then t.left else t.right;
    var y := if b in Blocks(t.left) then t.left else t.right;
    BlockOnGrid(x, level - 1, a);
    BlockOnGrid(y, level - 1, b);
    if x == y {
      BlocksDisjoint(x, level - 1, a, b);
    }
  }

  // ---------------------------------------------------------------------------
  // Allocation
  // ---------------------------------------------------------------------------

  lemma GrownKeepsBlocks(t: Tree, next: nat, level: nat)
    requires Shape(t, level) && level > 0 && Consistent(t) && !Blocked(t)
    ensures Consistent(Grown(t, next, level)) && Blocks(Grown(t, next, level)) == Blocks(t)
  {
    if t.Tip? {
      var f := Grown(t, next, level);
      assert Consistent(f.left) && Consistent(f.right) && AllUnused(f.left) && AllUnused(f.right);
      UnusedHasNoBlocks(f.left);
      UnusedHasNoBlocks(f.right);
    }
  }

  /** Whatever is found is a block that was not live and is live afterwards, and
      nothing else changes; a consistent tree that yields nothing is unchanged,
      and an unused one always yields something. */
  lemma {:induction false} AllocAddsBlock(t: Tree, size: nat, next: nat, level: nat, n: nat)
    requires Shape(t, level) && Consistent(t) && t.ptr > 0
    requires size == BlockSize(n) && n <= level
    ensures var r := Alloc(t, size, next, level, n);
            && Consistent(r.tree)
            && (r.ptr == 0 ==> r.tree == t && r.next == next)
            && (r.ptr != 0 ==> r.tree.tag != Unused
                               && Blocks(r.tree) == Blocks(t) + {Block(r.ptr, size)}
                               && Block(r.ptr, size) !in Blocks(t))
            && (t.tag == Unused ==> r.ptr != 0)
    decreases level
  {
    UnusedIffEmpty(t);
    if !Blocked(t) && size != t.size {
      var f := Grown(t, next, level);
      var next' := if t.Tip? then next + 2 else next;
      GrownKeepsBlocks(t, next, level);
      UnusedIffEmpty(f.left);
      UnusedIffEmpty(f.right);
      var a := AllocResult(f.left, 0, next');
      if Tries(f.left, size) {
        AllocAddsBlock(f.left, size, next', level - 1, n);
        a := Alloc(f.left, size, next', level - 1, n);
      }
      if a.ptr != 0 {
        FoundBelow(f, a.tree, f.right, Block(a.ptr, size), level);
      } else if Tries(f.right, size) {
        AllocAddsBlock(f.right, size, next', level - 1, n);
        var b := Alloc(f.right, size, next', level - 1, n);
        if b.ptr != 0 {
          FoundBelow(f, f.left, b.tree, Block(b.ptr, size), level);
        }
      }
    }
  }

  /** One child has gained a block and the other is as it was. */
  lemma {:induction false} FoundBelow(f: Tree, l: Tree, r: Tree, b: Block, level: nat)
    requires f.Fork? && Shape(f, level) && Consistent(f) && !Blocked(f)
    requires Shape(l, level - 1) && l.ptr == f.left.ptr && Consistent(l)
    requires Shape(r, level - 1) && r.ptr == f.right.ptr && Consistent(r)
    requires
      || (r == f.right && l.tag != Unused && b !in Blocks(f.left) && Blocks(l) == Blocks(f.left) + {b})
      || (l == f.left && r.tag != Unused && b !in Blocks(f.right) && Blocks(r) == Blocks(f.right) + {b})
    ensures var g := f.(left := l, right := r, tag := TagAfterAlloc(l, r));
            Consistent(g) && Blocks(g) == Blocks(f) + {b} && b !in Blocks(f)
  {
    UnusedIffEmpty(f);
    UnusedIffEmpty(l);
    UnusedIffEmpty(r);
    FoundInHalf(f, f.(left := l, right := r), b, level);
    assert Blocks(f) == Blocks(f.left) + Blocks(f.right) by {
      if f.tag == Unused { UnusedHasNoBlocks(f.left); UnusedHasNoBlocks(f.right); }
    }
  }

  /** A block new to one half of the range was not live in the other half. */
  lemma FoundInHalf(f: Tree, g: Tree, b: Block, level: nat)
    requires f.Fork? && g.Fork? && Shape(f, level) && Shape(g, level) && f.ptr == g.ptr
    requires (b !in Blocks(f.left) && b in Blocks(g.left)) || (b !in Blocks(f.right) && b in Blocks(g.right))
    ensures b !in Blocks(f.left) + Blocks(f.right)
  {
    if b in Blocks(g.left) { BlockOnGrid(g.left, level - 1, b); }
    if b in Blocks(g.right) { BlockOnGrid(g.right, level - 1, b); }
    if b in Blocks(f.left) { BlockOnGrid(f.left, level - 1, b); }
    if b in Blocks(f.right) { BlockOnGrid(f.right, level - 1, b); }
  }

  /** The aligned blocks of BlockSize(n) bytes in a buffer of 2^level pages. */
  ghost predicate Candidate(q: nat, base: nat, level: nat, n: nat) {
    base <= q && q + BlockSize(n) <= base + BlockSize(level) && (q - base) % BlockSize(n) == 0
  }

  /** No aligned block of BlockSize(n) bytes is free: each overlaps one of the
      given blocks. */
  ghost predicate Covered(blocks: set<Block>, base: nat, level: nat, n: nat) {
    forall q: nat :: Candidate(q, base, level, n) ==>
      exists b :: b in blocks && !Disjoint(b, Block(q, BlockSize(n)))
  }

  /** An aligned block smaller than the buffer lies in one of its halves. */
  lemma CandidateInHalf(q: nat, base: nat, level: nat, n: nat)
    requires Candidate(q, base, level, n) && n < level
    ensures Candidate(q, base, level - 1, n) || Candidate(q, base + BlockSize(level - 1), level - 1, n)
  {
    var d := BlockSize(n);
    var half := BlockSize(level - 1);
    HalfMultiple(level, n);
    if q - base < half {
      MultipleGap(q - base, half, d);
    } else {
      AddMultiples(half, q - base - half, d);
    }
  }

  lemma MultipleGap(a: nat, b: nat, d: nat)
    requires d > 0 && a % d == 0 && b % d == 0 && a < b
    ensures a + d <= b
  {
    var z := b / d - a / d;
    assert d * z == b - a by { assert d * z == d * (b / d) - d * (a / d); }
    MulSign(d, z);
    assert d * 0 == 0;
    MulNonPositive(d, z);
  }

  lemma MulNonPositive(d: nat, z: int)
    ensures z <= 0 ==> d * z <= 0
  {
  }

  /** When nothing is found, every aligned block of that size meets a live one. */
  lemma {:induction false} AllocFailsOnlyWhenCovered(t: Tree, size: nat, next: nat, level: nat, n: nat, q: nat)
    returns (b: Block)
    requires Shape(t, level) && Consistent(t) && t.ptr > 0
    requires size == BlockSize(n) && n <= level && Candidate(q, t.ptr, level, n)
    requires Alloc(t, size, next, level, n).ptr == 0
    ensures b in Blocks(t) && !Disjoint(b, Block(q, size))
    decreases level
  {
    AllocAddsBlock(t, size, next, level, n);
    UnusedIffEmpty(t);
    if n == level {
      b :| b in Blocks(t);
      BlockOnGrid(t, level, b);
    } else if t.tag == Leaf {
      b := Block(t.ptr, t.size);
    } else {
      BlockSizeStrict(n, level);
      CandidateInHalf(q, t.ptr, level, n);
      var child := if Candidate(q, t.ptr, level - 1, n) then t.left else t.right;
      AllocAddsBlock(t.left, size, next, level - 1, n);
      b := AllocFailsOnlyWhenCovered(child, size, next, level - 1, n, q);
    }
  }

  /** Completeness: an allocation fails iff every aligned block of its size
      overlaps a live block. */
  lemma {:induction false} AllocComplete(t: Tree, size: nat, next: nat, level: nat, n: nat)
    requires Shape(t, level) && Consistent(t) && t.ptr > 0
    requires size == BlockSize(n) && n <= level
    ensures Alloc(t, size, next, level, n).ptr == 0 <==> Covered(Blocks(t), t.ptr, level, n)
  {
    var r := Alloc(t, size, next, level, n);
    if r.ptr == 0 {
      forall q: nat | Candidate(q, t.ptr, level, n)
        ensures exists b :: b in Blocks(t) && !Disjoint(b, Block(q, size))
      {
        var b := AllocFailsOnlyWhenCovered(t, size, next, level, n, q);
      }
    } else {
      AllocAddsBlock(t, size, next, level, n);
      var found := Block(r.ptr, size);
      BlockOnGrid(r.tree, level, found);
      SameSizeSameLevel(size, n);
      assert Candidate(r.ptr, t.ptr, level, n);
      forall b | b in Blocks(t) ensures Disjoint(b, found) {
        BlocksDisjoint(r.tree, level, b, found);
      }
    }
  }

  lemma SameSizeSameLevel(size: nat, n: nat)
    requires size == BlockSize(n)
    ensures forall m: nat :: BlockSize(m) == size ==> m == n
  {
    forall m: nat | BlockSize(m) == size ensures m == n {
      if m < n { BlockSizeStrict(m, n); }
      if n < m { BlockSizeStrict(n, m); }
    }
  }

  // ---------------------------------------------------------------------------
  // Release and size
  // ---------------------------------------------------------------------------

  /** Freeing any address at all keeps the tree well formed and its nodes. */
  lemma {:induction false} FreeKeepsShape(t: Tree, p: nat, level: nat)
    requires Shape(t, level) && Consistent(t)
    ensures var (t', ok) := Free(t, p);
            && Shape(t', level) && Consistent(t') && Grows(t, t') && Count(t') == Count(t)
            && (if ok then !Blocked(t') else t' == t)
    decreases level
  {
    GrowsReflexive(t);
    if t.tag != Leaf && t.Fork? {
      GrowsReflexive(t.left);
      GrowsReflexive(t.right);
      var child := if p < t.left.ptr + t.left.size then t.left else t.right;
      FreeKeepsShape(child, p, level - 1);
      UnusedIffEmpty(t.left);
      UnusedIffEmpty(t.right);
      UnusedIffEmpty(Free(child, p).0);
    }
  }

  /** Freeing any address of a live block releases exactly that block; its size
      is what SizeOf reports. */
  lemma {:induction false} FreeRemovesBlock(t: Tree, p: nat, level: nat, b: Block)
    requires Shape(t, level) && Consistent(t)
    requires b in Blocks(t) && Covers(b, p)
    ensures Free(t, p).1 && Blocks(Free(t, p).0) == Blocks(t) - {b}
    ensures SizeOf(t, p) == b.size
    decreases level
  {
    if t.tag == Leaf {
      UnusedIffEmpty(t);
      UnusedHasNoBlocks(t.(tag := Unused));
    } else {
      var low := b in Blocks(t.left);
      var child, other := if low then t.left else t.right, if low then t.right else t.left;
      BlockOnGrid(child, level - 1, b);
      if b in Blocks(other) { BlockOnGrid(other, level - 1, b); }
      FreeRemovesBlock(child, p, level - 1, b);
      FreeKeepsShape(t, p, level);
      UnusedIffEmpty(Free(t, p).0);
    }
  }

  /** An address of the buffer that no live block covers: nothing happens. */
  lemma {:induction false} FreeMisses(t: Tree, p: nat, level: nat)
    requires Shape(t, level) && t.ptr <= p < t.ptr + t.size
    requires forall b :: b in Blocks(t) ==> !Covers(b, p)
    ensures Free(t, p) == (t, false) && SizeOf(t, p) == 0
    decreases level
  {
    if t.tag == Leaf {
      assert Covers(Block(t.ptr, t.size), p);
    } else if t.Fork? {
      var child := if p < t.left.ptr + t.left.size then t.left else t.right;
      FreeMisses(child, p, level - 1);
    }
  }

  // ---------------------------------------------------------------------------
  // Node budget
  // ---------------------------------------------------------------------------

  function Count(t: Tree): nat {
    if t.Fork? then 1 + Count(t.left) + Count(t.right) else 1
  }

  /** node_tree_size(k) / sizeof(node_t) = (2 << k) - 1 */
  function NodeBudget(level: nat): nat {
    if level == 0 then 1 else 1 + 2 * NodeBudget(level - 1)
  }

  /** t' is t with possibly more children: a node that has children keeps the
      ones it was first given. */
  predicate Grows(t: Tree, t': Tree) {
    && t.id == t'.id && t.ptr == t'.ptr && t.size == t'.size
    && (t.Fork? ==> t'.Fork? && Grows(t.left, t'.left) && Grows(t.right, t'.right))
  }

  lemma GrowsReflexive(t: Tree)
    ensures Grows(t, t)
  {
  }

  /** A tree never has more nodes than the array was sized for. */
  lemma {:induction false} CountWithinBudget(t: Tree, level: nat)
    requires Shape(t, level)
    ensures Count(t) <= NodeBudget(level)
    decreases level
  {
    if t.Fork? {
      CountWithinBudget(t.left, level - 1);
      CountWithinBudget(t.right, level - 1);
    }
  }

  lemma GrownCounts(t: Tree, next: nat, level: nat)
    requires Shape(t, level) && level > 0
    ensures var f := Grown(t, next, level);
            && Count(f) - Count(t) == (if t.Tip? then 2 else 0) && Grows(t, f)
            && Grows(f.left, f.left) && Grows(f.right, f.right)
  {
    var f := Grown(t, next, level);
    GrowsReflexive(f.left);
    GrowsReflexive(f.right);
  }

  /** Each index taken from the array becomes one node of the tree. */
  lemma {:induction false} AllocCountsNodes(t: Tree, size: nat, next: nat, level: nat, n: nat)
    requires Shape(t, level) && size == BlockSize(n) && n <= level
    ensures var r := Alloc(t, size, next, level, n);
            && r.next >= next && Count(r.tree) - Count(t) == r.next - next
            && Grows(t, r.tree)
    decreases level
  {
    if Blocked(t) || size == t.size {
      GrowsReflexive(t);
    } else {
      var f := Grown(t, next, level);
      GrownCounts(t, next, level);
      var a := AllocResult(f.left, 0, if t.Tip? then next + 2 else next);
      if Tries(f.left, size) {
        AllocCountsNodes(f.left, size, a.next, level - 1, n);
        a := Alloc(f.left, size, a.next, level - 1, n);
      }
      if a.ptr == 0 && Tries(f.right, size) {
        AllocCountsNodes(f.right, size, a.next, level - 1, n);
      }
    }
  }
}
