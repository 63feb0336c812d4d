/** The slab (object) allocator on values: two stacks of addresses and the pages
    they were carved from. */
module SlabModel {
  import opened BuddyTree

  /** free and used list the addresses held by the records of the two stacks,
      top first; a record on the used stack may hold a stale address. */
  datatype Slab = Slab(size: nat, free: seq<nat>, used: seq<nat>, pages: seq<nat>)

  function PerPage(size: nat): nat
    requires size > 0
  {
    PAGE_SIZE / size
  }

  /** The carving loop from offset i on: each slot is pushed on the free stack. */
  function Carved(free: seq<nat>, page: nat, size: nat, i: nat): seq<nat>
    requires size > 0
    decreases PAGE_SIZE + size - i
  {
    if i + size <= PAGE_SIZE then Carved([page + i] + free, page, size, i + size) else free
  }

  /** add_to_free_stack with the page it was given */
  function Refill(s: Slab, page: nat): Slab
    requires s.size > 0
  {
    s.(free := Carved(s.free, page, s.size, 0), pages := s.pages + [page])
  }

  /** allocate with a non-empty free stack */
  function Take(s: Slab): (Slab, nat)
    requires s.free != []
  {
    (s.(free := s.free[1..], used := [s.free[0]] + s.used), s.free[0])
  }

  /** deallocate: whichever record is on top of the used stack, or a new one,
      is given the address p and moved to the free stack. */
  function Give(s: Slab, p: nat): Slab {
    s.(free := [p] + s.free, used := if s.used == [] then [] else s.used[1..])
  }

  /** contains */
  predicate Contains(s: Slab, p: nat) {
    exists i :: 0 <= i < |s.pages| && s.pages[i] <= p < s.pages[i] + PAGE_SIZE
  }

  // ---------------------------------------------------------------------------
  // Slots
  // ---------------------------------------------------------------------------

  /** a is one of the slots of page: an offset 0, size, 2 * size, ... that still
      leaves size bytes. */
  ghost predicate SlotOf(a: nat, page: nat, size: nat)
    requires size > 0
  {
    page <= a && a + size <= page + PAGE_SIZE && (a - page) % size == 0
  }

  ghost predicate Slot(s: Slab, a: nat)
    requires s.size > 0
  {
    exists i :: 0 <= i < |s.pages| && SlotOf(a, s.pages[i], s.size)
  }

  ghost predicate NoDuplicates(q: seq<nat>) {
    forall i, j :: 0 <= i < j < |q| ==> q[i] != q[j]
  }

  ghost predicate PagesDisjoint(pages: seq<nat>) {
    forall i, j :: 0 <= i < j < |pages| ==> Disjoint(Block(pages[i], PAGE_SIZE), Block(pages[j], PAGE_SIZE))
  }

  /** Free and live addresses are exactly the carved slots, each once, and the
      used stack has one record per live address. */
  ghost predicate Partition(s: Slab, live: set<nat>) {
    && 0 < s.size <= PAGE_SIZE
    && PagesDisjoint(s.pages)
    && NoDuplicates(s.free)
    && (forall a :: a in s.free ==> a !in live)
    && (forall a: nat :: Slot(s, a) <==> a in s.free || a in live)
    && |s.used| == |live|
    && |s.free| + |s.used| == |s.pages| * PerPage(s.size)
  }

  /** Distinct slots of one page do not overlap. */
  lemma SlotsApart(a: nat, b: nat, page: nat, size: nat)
    requires size > 0 && SlotOf(a, page, size) && SlotOf(b, page, size) && a < b
    ensures a + size <= b
  {
    MultipleGap(a - page, b - page, size);
  }

  /** Live objects are pairwise disjoint, and inside the slab's pages. */
  lemma LiveDisjoint(s: Slab, live: set<nat>, a: nat, b: nat)
    requires Partition(s, live) && a in live && b in live && a != b
    ensures Disjoint(Block(a, s.size), Block(b, s.size))
  {
    assert Slot(s, a) && Slot(s, b);
    var i :| 0 <= i < |s.pages| && SlotOf(a, s.pages[i], s.size);
    var j :| 0 <= j < |s.pages| && SlotOf(b, s.pages[j], s.size);
    if i == j {
      if a < b { SlotsApart(a, b, s.pages[i], s.size); } else { SlotsApart(b, a, s.pages[i], s.size); }
    } else if i < j {
      assert Disjoint(Block(s.pages[i], PAGE_SIZE), Block(s.pages[j], PAGE_SIZE));
    } else {
      assert Disjoint(Block(s.pages[j], PAGE_SIZE), Block(s.pages[i], PAGE_SIZE));
    }
  }

  lemma PushFresh(q: seq<nat>, x: nat)
    requires NoDuplicates(q) && x !in q
    ensures NoDuplicates([x] + q)
  {
    var q' := [x] + q;
    forall i, j | 0 <= i < j < |q'| ensures q'[i] != q'[j] {
      assert q'[j] == q[j - 1] && q[j - 1] in q;
    }
  }

  /** What the carving loop pushes: each remaining slot once, on top. */
  lemma {:induction false} CarvedPushesSlots(free: seq<nat>, page: nat, size: nat, i: nat)
    requires 0 < size && i % size == 0
    requires NoDuplicates(free) && forall a :: a in free ==> !(page + i <= a < page + PAGE_SIZE)
    ensures var q := Carved(free, page, size, i);
            && NoDuplicates(q)
            && (forall a :: a in q <==> a in free || (SlotOf(a, page, size) && page + i <= a))
            && |q| == |free| + (if i <= PAGE_SIZE then (PAGE_SIZE - i) / size else 0)
    decreases PAGE_SIZE + size - i
  {
    if i + size <= PAGE_SIZE {
      AddMultiples(size, i, size);
      var free' := [page + i] + free;
      PushFresh(free, page + i);
      CarvedPushesSlots(free', page, size, i + size);
      DivStep(PAGE_SIZE - i, size);
      forall a | SlotOf(a, page, size) && page + i < a ensures page + i + size <= a {
        SlotsApart(page + i, a, page, size);
      }
      assert forall a :: a in free' <==> a == page + i || a in free;
    } else if i <= PAGE_SIZE {
      DivSmall(PAGE_SIZE - i, size);
    }
  }

  lemma DivStep(a: nat, d: nat)
    requires 0 < d <= a
    ensures a / d == (a - d) / d + 1
  {
    var q := (a - d) / d;
    assert a == d * (q + 1) + (a - d) % d by { assert d * (q + 1) == d * q + d; }
    DivUnique(a, d, q + 1, (a - d) % d);
  }

  lemma DivSmall(a: nat, d: nat)
    requires a < d
    ensures a / d == 0
  {
  }

  lemma DivUnique(a: nat, d: nat, q: nat, r: nat)
    requires d > 0 && a == d * q + r && r < d
    ensures a / d == q
  {
    ModUnique(a, d, q, r);
    assert d * (a / d - q) == 0 by { assert d * (a / d - q) == d * (a / d) - d * q; }
    MulSign(d, a / d - q);
  }

  /** The slots of a refilled slab are the old ones and those of the page. */
  lemma RefillSlots(s: Slab, page: nat, a: nat)
    requires s.size > 0
    ensures Slot(Refill(s, page), a) <==> Slot(s, a) || SlotOf(a, page, s.size)
  {
    var s' := Refill(s, page);
    if Slot(s, a) {
      var i :| 0 <= i < |s.pages| && SlotOf(a, s.pages[i], s.size);
      assert s'.pages[i] == s.pages[i];
    }
    if SlotOf(a, page, s.size) {
      assert s'.pages[|s.pages|] == page;
    }
  }

  lemma MulSuccessor(n: nat, d: nat)
    ensures (n + 1) * d == n * d + d
  {
  }

  /** Refilling keeps the partition: exactly PerPage new slots, all free. */
  lemma {:induction false} RefillKeepsPartition(s: Slab, live: set<nat>, page: nat)
    requires Partition(s, live)
    requires forall i :: 0 <= i < |s.pages| ==> Disjoint(Block(s.pages[i], PAGE_SIZE), Block(page, PAGE_SIZE))
    ensures Partition(Refill(s, page), live)
    ensures |Refill(s, page).free| == |s.free| + PerPage(s.size) > |s.free|
  {
    var s' := Refill(s, page);
    forall a: nat | Slot(s, a) ensures !(page <= a < page + PAGE_SIZE) {
      var i :| 0 <= i < |s.pages| && SlotOf(a, s.pages[i], s.size);
    }
    CarvedPushesSlots(s.free, page, s.size, 0);
    DivStep(PAGE_SIZE, s.size);
    forall a: nat ensures Slot(s', a) <==> Slot(s, a) || SlotOf(a, page, s.size) {
      RefillSlots(s, page, a);
    }
    MulSuccessor(|s.pages|, PerPage(s.size));
  }

  /** Allocating hands out a slot that was not live. */
  lemma TakeKeepsPartition(s: Slab, live: set<nat>)
    requires Partition(s, live) && s.free != []
    ensures var (s', a) := Take(s); a !in live && Slot(s, a) && Partition(s', live + {a})
  {
    var (s', a) := Take(s);
    assert a == s.free[0] && a in s.free;
    forall x: nat ensures x in s.free <==> x == a || x in s'.free {
      if x in s.free {
        var i :| 0 <= i < |s.free| && s.free[i] == x;
        if i > 0 { assert s'.free[i - 1] == x; }
      }
    }
    forall x: nat ensures Slot(s', x) <==> Slot(s, x) {
      assert s'.pages == s.pages;
    }
  }

  /** Freeing a live address undoes that, whatever record carries it. */
  lemma GiveKeepsPartition(s: Slab, live: set<nat>, a: nat)
    requires Partition(s, live) && a in live
    ensures Partition(Give(s, a), live - {a})
  {
    var s' := Give(s, a);
    assert s'.free[0] == a;
    forall x: nat ensures x in s'.free <==> x == a || x in s.free {
      if x in s.free {
        var i :| 0 <= i < |s.free| && s.free[i] == x;
        assert s'.free[i + 1] == x;
      }
    }
    assert s.used != [];
    forall x: nat ensures Slot(s', x) <==> Slot(s, x) {
      assert s'.pages == s.pages;
    }
  }
}
