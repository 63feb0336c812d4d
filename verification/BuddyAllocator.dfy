/** The buddy allocator as the source has it: a tree of nodes in a fixed array,
    updated in place by recursive methods, proved against the tree of values. */
module BuddyAllocator {
  import opened Bits
  import opened NextPowerOfTwo
  import opened BuddyTree
  import Pool = BuddyPool

  // ---------------------------------------------------------------------------
  // The size word: bits 62-63 are the type, bits 0-59 the size
  // ---------------------------------------------------------------------------

  const SIZE_LIMIT: nat := 0x1000_0000_0000_0000
  const TAG_UNIT: nat := 0x4000_0000_0000_0000

  function GetSize(word: nat): nat { word % SIZE_LIMIT }

  function GetTag(word: nat): Tag {
    var bits := (word / TAG_UNIT) % 4;
    if bits == 0 then Unused else if bits == 1 then Leaf else if bits == 2 then Parent else Full
  }

  function TagBits(tag: Tag): nat {
    match tag case Unused => 0 case Leaf => 1 case Parent => 2 case Full => 3
  }

  function SetTag(word: nat, tag: Tag): (r: nat)
    ensures GetSize(r) == GetSize(word) && GetTag(r) == tag
  {
    word % TAG_UNIT + TagBits(tag) * TAG_UNIT
  }

  lemma SetTagTwice(word: nat, a: Tag, b: Tag)
    ensures SetTag(SetTag(word, a), b) == SetTag(word, b)
  {
  }

  /** The test in front of each descent into a child. */
  predicate ChildTries(word: nat, size: nat) {
    if size == GetSize(word) then GetTag(word) == Unused
    else GetTag(word) != Full && GetTag(word) != Leaf
  }

  /** node_t; a child index of 0 is the null pointer, the root being node 0. */
  datatype Node = Node(child0: nat, child1: nat, ptr: nat, word: nat)

  // ---------------------------------------------------------------------------
  // Which tree an array of nodes holds
  // ---------------------------------------------------------------------------

  /** The nodes at the ids of t are the nodes of t. */
  ghost predicate Rep(ns: seq<Node>, t: Tree) {
    && t.id < |ns|
    && ns[t.id].ptr == t.ptr && GetSize(ns[t.id].word) == t.size && GetTag(ns[t.id].word) == t.tag
    && (if t.Tip? then ns[t.id].child0 == 0
        else
          && t.left.id != 0
          && ns[t.id].child0 == t.left.id && ns[t.id].child1 == t.right.id
          && Rep(ns, t.left) && Rep(ns, t.right))
  }

  ghost function Ids(t: Tree): set<nat> {
    if t.Tip? then {t.id} else {t.id} + Ids(t.left) + Ids(t.right)
  }

  ghost predicate Distinct(t: Tree) {
    t.Fork? ==>
      && t.id !in Ids(t.left) && t.id !in Ids(t.right) && Ids(t.left) !! Ids(t.right)
      && Distinct(t.left) && Distinct(t.right)
  }

  /** t is stored in ns, without sharing, below index next. */
  ghost predicate Holds(ns: seq<Node>, next: nat, t: Tree) {
    Rep(ns, t) && Distinct(t) && forall i :: i in Ids(t) ==> i < next
  }

  /** The array from next on is still zeroed. */
  ghost predicate Zeroed(ns: seq<Node>, next: nat) {
    0 < next <= |ns| && forall i :: next <= i < |ns| ==> ns[i].child0 == 0
  }

  /** Everything in use before, other than t, is as it was. */
  ghost predicate SameOutside(was: seq<Node>, ns: seq<Node>, next: nat, t: Tree) {
    |was| == |ns| && forall i :: 0 <= i < |ns| && i < next && i !in Ids(t) ==> ns[i] == was[i]
  }

  /** From t stored in was below next to t' stored in ns below next'. */
  ghost predicate Moved(was: seq<Node>, next: nat, ns: seq<Node>, next': nat, t: Tree, t': Tree) {
    && next <= next' && t.id == t'.id
    && Holds(ns, next', t') && Zeroed(ns, next')
    && SameOutside(was, ns, next, t)
    && forall i :: i in Ids(t') ==> i in Ids(t) || i >= next
  }

  lemma RepFrame(was: seq<Node>, ns: seq<Node>, t: Tree)
    requires Rep(was, t) && |was| == |ns| && forall i :: i in Ids(t) && i < |ns| ==> ns[i] == was[i]
    ensures Rep(ns, t)
  {
  }

  lemma IdInIds(t: Tree)
    ensures t.id in Ids(t)
  {
  }

  lemma MovedTransitive(a: seq<Node>, m: nat, b: seq<Node>, n: nat, c: seq<Node>, o: nat, t: Tree, u: Tree, v: Tree)
    requires Moved(a, m, b, n, t, u) && Moved(b, n, c, o, u, v)
    ensures Moved(a, m, c, o, t, v)
  {
  }

  /** The root of a stored tree is retagged. */
  lemma {:induction false} MovedRetag(ns: seq<Node>, next: nat, t: Tree, tag: Tag)
    requires Holds(ns, next, t) && Zeroed(ns, next)
    ensures Moved(ns, next, ns[t.id := ns[t.id].(word := SetTag(ns[t.id].word, tag))], next, t, t.(tag := tag))
  {
    var ns' := ns[t.id := ns[t.id].(word := SetTag(ns[t.id].word, tag))];
    IdInIds(t);
    if t.Fork? {
      RepFrame(ns, ns', t.left);
      RepFrame(ns, ns', t.right);
      assert Ids(t) == Ids(t.(tag := tag));
    }
  }

  function Child(f: Tree, low: bool): Tree
    requires f.Fork?
  {
    if low then f.left else f.right
  }

  function WithChild(f: Tree, low: bool, c: Tree): Tree
    requires f.Fork?
  {
    if low then f.(left := c) else f.(right := c)
  }

  /** A child of a stored fork is replaced. */
  lemma {:induction false} MovedChild(was: seq<Node>, next: nat, ns: seq<Node>, next': nat, f: Tree, low: bool, c: Tree)
    requires f.Fork? && Holds(was, next, f) && Moved(was, next, ns, next', Child(f, low), c)
    ensures Moved(was, next, ns, next', f, WithChild(f, low, c))
  {
    var g := WithChild(f, low, c);
    var other := Child(f, !low);
    IdInIds(f);
    assert Ids(Child(f, low)) <= Ids(f) && Ids(other) <= Ids(f) && Ids(g) == {f.id} + Ids(c) + Ids(other);
    RepFrame(was, ns, other);
    assert ns[f.id] == was[f.id];
    assert Distinct(g);
    assert Rep(ns, g);
  }

  /** Zeroed nodes with the root filled in hold the fresh tree. */
  lemma FreshIsHeld(ns: seq<Node>, buffer: nat, k: nat)
    requires k <= Pool.MAX_K && |ns| > 0 && ns[0] == Node(0, 0, buffer, BlockSize(k))
    requires forall i :: 0 < i < |ns| ==> ns[i] == Node(0, 0, 0, 0)
    ensures Holds(ns, 1, Pool.Fresh(buffer, k).tree) && Zeroed(ns, 1)
  {
    Pool.SizeLimits(k);
  }

  class Allocator {
    const buffer: nat
    const k: nat
    const bufferSize: nat
    const nodes: array<Node>
    var nodeIndex: nat
    ghost var tree: Tree

    ghost predicate Valid()
      reads this, nodes
    {
      && bufferSize == BlockSize(k)
      && nodes.Length == NodeBudget(k)
      && Pool.Valid(Model(), buffer, k)
      && Holds(nodes[..], nodeIndex, tree)
      && Zeroed(nodes[..], nodeIndex)
    }

    ghost function Model(): Pool.Pool
      reads this
    {
      Pool.Pool(tree, nodeIndex)
    }

    /** node_tree must be zeroed and hold (2 << k) - 1 nodes: the span of the
        source takes the byte count for an element count, so its own bounds
        check would not notice an overflow; this one does. */
    constructor (buffer: nat, k: nat, nodeTree: array<Node>)
      requires k <= Pool.MAX_K && 0 < buffer && buffer + BlockSize(k) < WORD
      requires nodeTree.Length == NodeBudget(k)
      requires forall i :: 0 <= i < nodeTree.Length ==> nodeTree[i] == Node(0, 0, 0, 0)
      modifies nodeTree
      ensures Valid() && nodes == nodeTree && this.buffer == buffer && this.k == k
      ensures Model() == Pool.Fresh(buffer, k)
    {
      this.buffer := buffer;
      this.k := k;
      bufferSize := BlockSize(k);
      nodes := nodeTree;
      nodeIndex := 1;
      tree := Pool.Fresh(buffer, k).tree;
      new;
      Pool.FreshIsValid(buffer, k);
      nodes[0] := nodes[0].(ptr := buffer, word := bufferSize);
      FreshIsHeld(nodes[..], buffer, k);
    }

    /** set_unused, set_leaf, set_parent, set_full */
    method SetNode(node: nat, tag: Tag)
      requires node < nodes.Length
      modifies nodes
      ensures nodes[..] == old(nodes[..])[node := old(nodes[node]).(word := SetTag(old(nodes[node].word), tag))]
    {
      nodes[node] := nodes[node].(word := SetTag(nodes[node].word, tag));
    }

    /** get_nodes */
    method GetNodes(parent: nat, ghost t: Tree, ghost level: nat)
      requires t.Tip? && parent == t.id && Holds(nodes[..], nodeIndex, t) && Zeroed(nodes[..], nodeIndex)
      requires Shape(t, level) && level > 0 && nodeIndex + 2 <= nodes.Length
      modifies nodes, this`nodeIndex
      ensures nodeIndex == old(nodeIndex) + 2
      ensures Moved(old(nodes[..]), old(nodeIndex), nodes[..], nodeIndex, t, Grown(t, old(nodeIndex), level))
    {
      var child0 := nodeIndex;
      var child1 := nodeIndex + 1;
      IdInIds(t);
      ghost var f := Grown(t, nodeIndex, level);
      nodeIndex := nodeIndex + 2;
      var half := GetSize(nodes[parent].word) / 2;
      nodes[child0] := nodes[child0].(word := half, ptr := nodes[parent].ptr);
      nodes[child1] := nodes[child1].(word := half, ptr := nodes[parent].ptr + half);
      nodes[parent] := nodes[parent].(child0 := child0, child1 := child1);
      assert Rep(nodes[..], f.left) && Rep(nodes[..], f.right);
      assert Ids(f) == {t.id, child0, child1};
    }

    /** private_allocate */
    method PrivateAllocate(size: nat, node: nat, ghost t: Tree, ghost level: nat, ghost n: nat) returns (ptr: nat)
      requires node == t.id && Holds(nodes[..], nodeIndex, t) && Zeroed(nodes[..], nodeIndex)
      requires Shape(t, level) && size == BlockSize(n) && n <= level
      requires nodeIndex + NodeBudget(level) <= nodes.Length + Count(t)
      modifies nodes, this`nodeIndex
      ensures var r := Alloc(t, size, old(nodeIndex), level, n);
              ptr == r.ptr && nodeIndex == r.next
              && Moved(old(nodes[..]), old(nodeIndex), nodes[..], nodeIndex, t, r.tree)
      decreases level, 0
    {
      var word := nodes[node].word;
      if GetTag(word) == Leaf || GetTag(word) == Full {
        return 0;
      }
      if size == GetSize(word) {
        if GetTag(word) == Unused {
          MovedRetag(nodes[..], nodeIndex, t, Leaf);
          SetNode(node, Leaf);
          return nodes[node].ptr;
        }
        return 0;
      }
      if nodes[node].child0 == 0 {
        ptr := GrowAndAllocate(size, node, t, level, n);
      } else {
        ptr := AllocateBelow(size, node, t, level, n);
      }
    }

    /** private_allocate for a larger node that has no children yet. */
    method GrowAndAllocate(size: nat, node: nat, ghost t: Tree, ghost level: nat, ghost n: nat) returns (ptr: nat)
      requires t.Tip? && node == t.id && Holds(nodes[..], nodeIndex, t) && Zeroed(nodes[..], nodeIndex)
      requires Shape(t, level) && size == BlockSize(n) && n < level && !Blocked(t) && size != t.size
      requires nodeIndex + NodeBudget(level) <= nodes.Length + Count(t)
      modifies nodes, this`nodeIndex
      ensures var r := Alloc(t, size, old(nodeIndex), level, n);
              ptr == r.ptr && nodeIndex == r.next
              && Moved(old(nodes[..]), old(nodeIndex), nodes[..], nodeIndex, t, r.tree)
      decreases level - 1, 4
    {
      GetNodes(node, t, level);
      ghost var f := Grown(t, old(nodeIndex), level);
      ghost var mid, next := nodes[..], nodeIndex;
      ptr := AllocateBelow(size, node, f, level, n);
      MovedTransitive(old(nodes[..]), old(nodeIndex), mid, next, nodes[..], nodeIndex,
                      t, f, Alloc(f, size, next, level, n).tree);
    }

    /** private_allocate for a node that is larger than the request and has its
        children: first child0, then child1. */
    method AllocateBelow(size: nat, node: nat, ghost f: Tree, ghost level: nat, ghost n: nat) returns (ptr: nat)
      requires f.Fork? && node == f.id && Holds(nodes[..], nodeIndex, f) && Zeroed(nodes[..], nodeIndex)
      requires Shape(f, level) && size == BlockSize(n) && n < level && !Blocked(f) && size != f.size
      requires nodeIndex + NodeBudget(level) <= nodes.Length + Count(f)
      modifies nodes, this`nodeIndex
      ensures var r := Alloc(f, size, old(nodeIndex), level, n);
              ptr == r.ptr && nodeIndex == r.next
              && Moved(old(nodes[..]), old(nodeIndex), nodes[..], nodeIndex, f, r.tree)
      decreases level - 1, 3
    {
      AllocByHalves(f, size, nodeIndex, level, n);
      ptr := TryChild(size, node, true, f, level, n);
      if ptr != 0 {
        return;
      }
      ghost var g := f.(left := Tried(f.left, size, old(nodeIndex), level - 1, n).tree);
      ghost var mid, next := nodes[..], nodeIndex;
      ptr := TryChild(size, node, false, g, level, n);
      MovedTransitive(old(nodes[..]), old(nodeIndex), mid, next, nodes[..], nodeIndex,
                      f, g, Joined(g, false, Tried(g.right, size, next, level - 1, n)));
    }

    /** The guarded descent into child0 or child1. */
    method TryChild(size: nat, node: nat, low: bool, ghost f: Tree, ghost level: nat, ghost n: nat)
      returns (ptr: nat)
      requires f.Fork? && node == f.id && Holds(nodes[..], nodeIndex, f) && Zeroed(nodes[..], nodeIndex)
      requires Shape(f, level) && size == BlockSize(n) && n < level
      requires nodeIndex + NodeBudget(level) <= nodes.Length + Count(f)
      modifies nodes, this`nodeIndex
      ensures var a := Tried(Child(f, low), size, old(nodeIndex), level - 1, n);
              ptr == a.ptr && nodeIndex == a.next
              && Moved(old(nodes[..]), old(nodeIndex), nodes[..], nodeIndex, f, Joined(f, low, a))
      decreases level - 1, 2
    {
      var child := if low then nodes[node].child0 else nodes[node].child1;
      assert Rep(nodes[..], Child(f, low));
      if ChildTries(nodes[child].word, size) {
        ptr := PrivateAllocateNext(size, node, child, f, low, level, n);
      } else {
        ptr := 0;
      }
    }

    /** private_allocate_next: allocate below one child, then retag the parent. */
    method PrivateAllocateNext(size: nat, parent: nat, node: nat,
                               ghost f: Tree, ghost low: bool, ghost level: nat, ghost n: nat)
      returns (ptr: nat)
      requires f.Fork? && parent == f.id && node == Child(f, low).id
      requires Holds(nodes[..], nodeIndex, f) && Zeroed(nodes[..], nodeIndex)
      requires Shape(f, level) && size == BlockSize(n) && n < level
      requires nodeIndex + NodeBudget(level) <= nodes.Length + Count(f)
      modifies nodes, this`nodeIndex
      ensures var a := Alloc(Child(f, low), size, old(nodeIndex), level - 1, n);
              ptr == a.ptr && nodeIndex == a.next
              && Moved(old(nodes[..]), old(nodeIndex), nodes[..], nodeIndex, f, Joined(f, low, a))
      decreases level - 1, 1
    {
      CountWithinBudget(Child(f, !low), level - 1);
      ChildHeld(nodes[..], nodeIndex, f, low);
      ptr := PrivateAllocate(size, node, Child(f, low), level - 1, n);
      ghost var a := Alloc(Child(f, low), size, old(nodeIndex), level - 1, n);
      ghost var g := WithChild(f, low, a.tree);
      MovedChild(old(nodes[..]), old(nodeIndex), nodes[..], nodeIndex, f, low, a.tree);
      if ptr != 0 {
        ghost var mid := nodes[..];
        RetagAfterAllocate(parent, g);
        MovedTransitive(old(nodes[..]), old(nodeIndex), mid, nodeIndex, nodes[..], nodeIndex,
                        f, g, g.(tag := TagAfterAlloc(g.left, g.right)));
      }
    }

    /** The tag updates of private_allocate_next. */
    method RetagAfterAllocate(parent: nat, ghost g: Tree)
      requires g.Fork? && parent == g.id && Holds(nodes[..], nodeIndex, g) && Zeroed(nodes[..], nodeIndex)
      modifies nodes
      ensures Moved(old(nodes[..]), nodeIndex, nodes[..], nodeIndex, g, g.(tag := TagAfterAlloc(g.left, g.right)))
    {
      ChildHeld(nodes[..], nodeIndex, g, true);
      ChildHeld(nodes[..], nodeIndex, g, false);
      var t0, t1 := GetTag(nodes[nodes[parent].child0].word), GetTag(nodes[nodes[parent].child1].word);
      ghost var was := nodes[..];
      SetNode(parent, Parent);
      if t0 == Leaf && t1 == Leaf { SetNode(parent, Full); }
      if t0 == Leaf && t1 == Full { SetNode(parent, Full); }
      if t0 == Full && t1 == Leaf { SetNode(parent, Full); }
      if t0 == Full && t1 == Full { SetNode(parent, Full); }
      ghost var tag := TagAfterAlloc(g.left, g.right);
      MovedRetag(was, nodeIndex, g, tag);
      SetTagTwice(was[parent].word, Parent, tag);
      assert nodes[..] == was[parent := was[parent].(word := SetTag(was[parent].word, tag))];
    }

    /** private_deallocate */
    method PrivateDeallocate(ptr: nat, node: nat, ghost t: Tree, ghost level: nat) returns (ok: bool)
      requires node == t.id && Holds(nodes[..], nodeIndex, t) && Zeroed(nodes[..], nodeIndex)
      requires Shape(t, level)
      modifies nodes
      ensures var (t', freed) := Free(t, ptr);
              ok == freed && Moved(old(nodes[..]), nodeIndex, nodes[..], nodeIndex, t, t')
      decreases level, 0
    {
      if GetTag(nodes[node].word) == Leaf {
        MovedRetag(nodes[..], nodeIndex, t, Unused);
        SetNode(node, Unused);
        return true;
      }
      var child0 := nodes[node].child0;
      if child0 == 0 {
        return false;
      }
      ChildHeld(nodes[..], nodeIndex, t, true);
      if ptr < nodes[child0].ptr + GetSize(nodes[child0].word) {
        ok := PrivateDeallocateNext(ptr, node, child0, t, true, level);
      } else {
        ok := PrivateDeallocateNext(ptr, node, nodes[node].child1, t, false, level);
      }
    }

    /** private_deallocate_next */
    method PrivateDeallocateNext(ptr: nat, parent: nat, node: nat, ghost f: Tree, ghost low: bool, ghost level: nat)
      returns (ok: bool)
      requires f.Fork? && parent == f.id && node == Child(f, low).id
      requires Holds(nodes[..], nodeIndex, f) && Zeroed(nodes[..], nodeIndex) && Shape(f, level)
      modifies nodes
      ensures var (c, freed) := Free(Child(f, low), ptr);
              var g := WithChild(f, low, c);
              && ok == freed
              && Moved(old(nodes[..]), nodeIndex, nodes[..], nodeIndex, f,
                       g.(tag := if ok then TagAfterFree(g.left, g.right) else g.tag))
      decreases level - 1, 1
    {
      ChildHeld(nodes[..], nodeIndex, f, low);
      ok := PrivateDeallocate(ptr, node, Child(f, low), level - 1);
      ghost var g := WithChild(f, low, Free(Child(f, low), ptr).0);
      MovedChild(old(nodes[..]), nodeIndex, nodes[..], nodeIndex, f, low, Free(Child(f, low), ptr).0);
      if ok {
        ghost var mid := nodes[..];
        RetagAfterDeallocate(parent, g);
        MovedTransitive(old(nodes[..]), nodeIndex, mid, nodeIndex, nodes[..], nodeIndex,
                        f, g, g.(tag := TagAfterFree(g.left, g.right)));
      }
    }

    /** The tag updates of private_deallocate_next. */
    method RetagAfterDeallocate(parent: nat, ghost g: Tree)
      requires g.Fork? && parent == g.id && Holds(nodes[..], nodeIndex, g) && Zeroed(nodes[..], nodeIndex)
      modifies nodes
      ensures Moved(old(nodes[..]), nodeIndex, nodes[..], nodeIndex, g, g.(tag := TagAfterFree(g.left, g.right)))
    {
      ChildHeld(nodes[..], nodeIndex, g, true);
      ChildHeld(nodes[..], nodeIndex, g, false);
      ghost var was := nodes[..];
      SetNode(parent, Parent);
      if GetTag(nodes[nodes[parent].child0].word) == Unused && GetTag(nodes[nodes[parent].child1].word) == Unused {
        SetNode(parent, Unused);
      }
      ghost var tag := TagAfterFree(g.left, g.right);
      MovedRetag(was, nodeIndex, g, tag);
      SetTagTwice(was[parent].word, Parent, tag);
      assert nodes[..] == was[parent := was[parent].(word := SetTag(was[parent].word, tag))];
    }

    /** private_size */
    method PrivateSize(ptr: nat, node: nat, ghost t: Tree) returns (size: nat)
      requires node == t.id && Holds(nodes[..], nodeIndex, t)
      ensures size == SizeOf(t, ptr)
      decreases t
    {
      if GetTag(nodes[node].word) == Leaf {
        return GetSize(nodes[node].word);
      }
      var child0 := nodes[node].child0;
      if child0 == 0 {
        return 0;
      }
      ChildHeld(nodes[..], nodeIndex, t, true);
      ChildHeld(nodes[..], nodeIndex, t, false);
      if ptr < nodes[child0].ptr + GetSize(nodes[child0].word) {
        size := PrivateSize(ptr, child0, t.left);
      } else {
        size := PrivateSize(ptr, nodes[node].child1, t.right);
      }
    }

    /** allocate; a null result stands for the thrown bad_alloc. */
    method Allocate(size: nat) returns (ptr: nat)
      requires Valid() && size < WORD
      modifies this, nodes
      ensures Valid() && (Model(), ptr) == Pool.Allocate(old(Model()), buffer, k, size)
    {
      if size > bufferSize || size == 0 {
        return 0;
      }
      Pool.RoundingPicksLevel(size, k);
      var rounded := NextPower2(Pool.AtLeastPage(size));
      ghost var n := Pool.LevelFor(size);
      ptr := PrivateAllocate(rounded, 0, tree, k, n);
      tree := Alloc(tree, rounded, old(nodeIndex), k, n).tree;
      assert (Model(), ptr) == Pool.Allocate(old(Model()), buffer, k, size);
    }

    /** deallocate, of any address */
    method Deallocate(ptr: nat)
      requires Valid()
      modifies this, nodes
      ensures Valid() && Model() == Pool.Deallocate(old(Model()), buffer, k, ptr)
    {
      if ptr == 0 {
        return;
      }
      FreeKeepsShape(tree, ptr, k);
      var ok := PrivateDeallocate(ptr, 0, tree, k);
      tree := Free(tree, ptr).0;
    }

    /** size */
    method Size(ptr: nat) returns (size: nat)
      requires Valid()
      ensures size == Pool.Size(Model(), ptr)
    {
      if ptr == 0 {
        return 0;
      }
      size := PrivateSize(ptr, 0, tree);
    }

    /** contains */
    method Contains(ptr: nat) returns (r: bool)
      requires Valid()
      ensures r == Pool.Contains(buffer, k, ptr)
    {
      r := buffer <= ptr && ptr < buffer + bufferSize;
    }
  }

  lemma ChildHeld(ns: seq<Node>, next: nat, f: Tree, low: bool)
    requires f.Fork? && Holds(ns, next, f)
    ensures Holds(ns, next, Child(f, low))
    ensures Child(f, low).id == (if low then ns[f.id].child0 else ns[f.id].child1) != f.id
  {
    assert Ids(Child(f, low)) <= Ids(f);
    IdInIds(Child(f, low));
  }

  /** The guarded call on a child, and the parent with its result. */
  ghost function Tried(c: Tree, size: nat, next: nat, level: nat, n: nat): AllocResult
    requires Shape(c, level) && size == BlockSize(n) && n <= level
  {
    if Tries(c, size) then Alloc(c, size, next, level, n) else AllocResult(c, 0, next)
  }

  ghost function Joined(f: Tree, low: bool, a: AllocResult): Tree
    requires f.Fork?
  {
    var g := WithChild(f, low, a.tree);
    if a.ptr != 0 then g.(tag := TagAfterAlloc(g.left, g.right)) else g
  }

  lemma AllocByHalves(f: Tree, size: nat, next: nat, level: nat, n: nat)
    requires f.Fork? && Shape(f, level) && size == BlockSize(n) && n < level && !Blocked(f) && size != f.size
    ensures var a := Tried(f.left, size, next, level - 1, n);
            var r := Alloc(f, size, next, level, n);
            if a.ptr != 0 then r == AllocResult(Joined(f, true, a), a.ptr, a.next)
            else
              var g := f.(left := a.tree);
              var b := Tried(f.right, size, a.next, level - 1, n);
              && r == AllocResult(Joined(g, false, b), b.ptr, b.next)
              && Shape(g, level) && Count(g) - Count(f) == a.next - next
  {
    if Tries(f.left, size) {
      AllocCountsNodes(f.left, size, next, level - 1, n);
    }
  }
}
