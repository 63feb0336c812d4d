/** The slab (object) allocator as the source has it: records linked into a free
    and a used stack, page and record blocks taken from the page pool. */
module SlabAllocator {
  import opened BuddyTree
  import opened SlabModel
  import Pool = BuddyPool
  import Buddy = BuddyAllocator

  /** pagepool_size and objtpool_size */
  const POOL_SIZE: nat := 255

  /** object_t; next is the index of a record, or NULL. */
  datatype Record = Record(addr: nat, next: int)

  const NULL: int := -1

  /** page_stack_t: the page it lives in and the backing pages listed so far. */
  datatype PageBlock = PageBlock(self: nat, pool: seq<nat>)

  /** object_stack_t: the page it lives in and how many records are handed out. */
  datatype RecordBlock = RecordBlock(self: nat, index: nat)

  /** The records reached from top along next are exactly those at idx, and
      hold the addresses addrs. */
  ghost predicate Chain(rs: seq<Record>, top: int, idx: seq<nat>, addrs: seq<nat>)
    decreases idx
  {
    && |idx| == |addrs|
    && (if idx == [] then top == NULL
        else
          && top == idx[0] && idx[0] < |rs| && rs[idx[0]].addr == addrs[0]
          && Chain(rs, rs[idx[0]].next, idx[1..], addrs[1..]))
  }

  lemma ChainFrame(rs: seq<Record>, rs': seq<Record>, top: int, idx: seq<nat>, addrs: seq<nat>)
    requires Chain(rs, top, idx, addrs) && |rs| <= |rs'|
    requires forall i :: i in idx && i < |rs| ==> rs'[i] == rs[i]
    ensures Chain(rs', top, idx, addrs)
    decreases idx
  {
    if idx != [] {
      assert idx[0] in idx && forall i :: i in idx[1..] ==> i in idx;
      ChainFrame(rs, rs', rs[idx[0]].next, idx[1..], addrs[1..]);
    }
  }

  lemma EmptyStack(rs: seq<Record>, top: int, idx: seq<nat>, addrs: seq<nat>)
    requires Chain(rs, top, idx, addrs) && top == NULL
    ensures idx == [] && addrs == []
  {
  }

  /** Two disjoint stacks of records. */
  ghost predicate Stacks(rs: seq<Record>, freeTop: int, free: seq<nat>, usedTop: int, used: seq<nat>, m: Slab) {
    && Chain(rs, freeTop, free, m.free) && Chain(rs, usedTop, used, m.used)
    && NoDuplicates(free) && NoDuplicates(used)
    && (forall i :: i in free ==> i !in used && i < |rs|) && (forall i :: i in used ==> i < |rs|)
  }

  /** A record of neither stack is given an address and pushed on the free one. */
  lemma PushOnFree(rs: seq<Record>, freeTop: int, free: seq<nat>, usedTop: int, used: seq<nat>, m: Slab,
                   r: nat, addr: nat)
    requires Stacks(rs, freeTop, free, usedTop, used, m) && r < |rs| && r !in free && r !in used
    ensures Stacks(rs[r := Record(addr, freeTop)], r, [r] + free, usedTop, used, m.(free := [addr] + m.free))
  {
    var rs' := rs[r := Record(addr, freeTop)];
    ChainFrame(rs, rs', freeTop, free, m.free);
    ChainFrame(rs, rs', usedTop, used, m.used);
    PushFresh(free, r);
    assert ([r] + free)[1..] == free && ([addr] + m.free)[1..] == m.free;
  }

  /** The free and the used stack have the same shape. */
  lemma StacksSwap(rs: seq<Record>, freeTop: int, free: seq<nat>, usedTop: int, used: seq<nat>, m: Slab)
    requires Stacks(rs, freeTop, free, usedTop, used, m)
    ensures Stacks(rs, usedTop, used, freeTop, free, m.(free := m.used, used := m.free))
  {
  }

  /** The top of the free stack is taken off. */
  lemma PopFromFree(rs: seq<Record>, freeTop: int, free: seq<nat>, usedTop: int, used: seq<nat>, m: Slab)
    requires Stacks(rs, freeTop, free, usedTop, used, m) && freeTop != NULL
    ensures 0 <= freeTop < |rs| && free != [] && freeTop == free[0] && m.free != []
    ensures var r := rs[freeTop];
            && r.addr == m.free[0] && free[0] !in free[1..] && free[0] !in used
            && Stacks(rs[freeTop := Record(r.addr, NULL)], r.next, free[1..], usedTop, used,
                      m.(free := m.free[1..]))
  {
    var r := rs[freeTop];
    var rs' := rs[freeTop := Record(r.addr, NULL)];
    ChainFrame(rs, rs', r.next, free[1..], m.free[1..]);
    ChainFrame(rs, rs', usedTop, used, m.used);
  }

  /** The backing pages in the order they were obtained. */
  ghost function Backing(stack: seq<PageBlock>): seq<nat> {
    if stack == [] then [] else Backing(stack[1..]) + stack[0].pool
  }

  /** The pages the allocator keeps its own blocks in. */
  ghost function PageBlockPages(stack: seq<PageBlock>): multiset<nat> {
    if stack == [] then multiset{} else multiset{stack[0].self} + PageBlockPages(stack[1..])
  }

  ghost function RecordBlockPages(stack: seq<RecordBlock>): multiset<nat> {
    if stack == [] then multiset{} else multiset{stack[0].self} + RecordBlockPages(stack[1..])
  }

  /** No block holds more than it has room for, and only the top one less. */
  ghost predicate PagesDense(stack: seq<PageBlock>) {
    forall b :: 0 <= b < |stack| ==>
      |stack[b].pool| <= POOL_SIZE && (b > 0 ==> |stack[b].pool| == POOL_SIZE)
  }

  ghost predicate RecordsDense(stack: seq<RecordBlock>) {
    forall b :: 0 <= b < |stack| ==>
      stack[b].index <= POOL_SIZE && (b > 0 ==> stack[b].index == POOL_SIZE)
  }

  lemma TopHasRoom(rs: seq<RecordBlock>)
    requires RecordsDense(rs) && rs != [] && rs[0].index != POOL_SIZE
    ensures rs[0].index < POOL_SIZE
  {
  }

  /** Every page taken from the pool is a backing page or holds one block, and
      pages lists the backing pages. */
  ghost predicate Accounted(ps: seq<PageBlock>, rs: seq<RecordBlock>, taken: seq<nat>, pages: seq<nat>) {
    && PagesDense(ps) && RecordsDense(rs) && pages == Backing(ps)
    && multiset(taken) == multiset(Backing(ps)) + PageBlockPages(ps) + RecordBlockPages(rs)
  }

  lemma PageBlockJoins(ps: seq<PageBlock>, rs: seq<RecordBlock>, taken: seq<nat>, pages: seq<nat>, page: nat)
    requires Accounted(ps, rs, taken, pages) && (ps != [] ==> |ps[0].pool| == POOL_SIZE)
    ensures Accounted([PageBlock(page, [])] + ps, rs, taken + [page], pages)
  {
    var ps' := [PageBlock(page, [])] + ps;
    assert ps'[1..] == ps;
    assert Backing(ps') == Backing(ps) + [];
    assert PageBlockPages(ps') == multiset{page} + PageBlockPages(ps);
    assert multiset(taken + [page]) == multiset(taken) + multiset{page};
  }

  lemma RecordBlockJoins(ps: seq<PageBlock>, rs: seq<RecordBlock>, taken: seq<nat>, pages: seq<nat>, page: nat)
    requires Accounted(ps, rs, taken, pages) && (rs != [] ==> rs[0].index == POOL_SIZE)
    ensures Accounted(ps, [RecordBlock(page, 0)] + rs, taken + [page], pages)
  {
    var rs' := [RecordBlock(page, 0)] + rs;
    assert rs'[1..] == rs;
    assert RecordBlockPages(rs') == multiset{page} + RecordBlockPages(rs);
    assert multiset(taken + [page]) == multiset(taken) + multiset{page};
  }

  lemma PageJoins(ps: seq<PageBlock>, rs: seq<RecordBlock>, taken: seq<nat>, pages: seq<nat>, page: nat)
    requires Accounted(ps, rs, taken, pages) && ps != [] && |ps[0].pool| < POOL_SIZE
    ensures Accounted([PageBlock(ps[0].self, ps[0].pool + [page])] + ps[1..], rs, taken + [page], pages + [page])
  {
    var ps' := [PageBlock(ps[0].self, ps[0].pool + [page])] + ps[1..];
    assert ps'[1..] == ps[1..];
    assert Backing(ps') == Backing(ps) + [page];
  }

  lemma RecordJoins(ps: seq<PageBlock>, rs: seq<RecordBlock>, taken: seq<nat>, pages: seq<nat>)
    requires Accounted(ps, rs, taken, pages) && rs != [] && rs[0].index < POOL_SIZE
    ensures Accounted(ps, [RecordBlock(rs[0].self, rs[0].index + 1)] + rs[1..], taken, pages)
  {
    assert ([RecordBlock(rs[0].self, rs[0].index + 1)] + rs[1..])[1..] == rs[1..];
  }

  lemma {:induction false} BackingFills(ps: seq<PageBlock>)
    requires PagesDense(ps)
    ensures |PageBlockPages(ps)| == |ps|
    ensures ps != [] ==> |Backing(ps)| == POOL_SIZE * (|ps| - 1) + |ps[0].pool|
  {
    if ps != [] {
      BackingFills(ps[1..]);
    }
  }

  lemma {:induction false} OnePageEach(rs: seq<RecordBlock>)
    ensures |RecordBlockPages(rs)| == |rs|
  {
    if rs != [] {
      OnePageEach(rs[1..]);
    }
  }

  ghost predicate Empty(pool: Buddy.Allocator)
    reads pool
  {
    Pool.Exhausted(pool.Model(), pool.buffer, pool.k)
  }

  /** alloc_page: a page of the pool, or null when there is none left. */
  method AllocPage(pool: Buddy.Allocator, ghost was: seq<nat>) returns (page: nat)
    requires pool.Valid()
    modifies pool, pool.nodes
    ensures pool.Valid()
    ensures page != 0 ==> Pool.Took(old(Blocks(pool.tree)), Blocks(pool.tree), was, was + [page])
    ensures page == 0 ==> Empty(pool)
  {
    var size := PAGE_SIZE;
    page := pool.Allocate(size);
    Pool.AllocateFailsIffCovered(old(pool.Model()), pool.buffer, pool.k, size);
    Pool.AllocateAdds(old(pool.Model()), pool.buffer, pool.k, size);
    assert Pool.LevelFor(size) == 0;
    if page != 0 {
      Pool.TookOne(old(pool.Model()), pool.buffer, pool.k, size, was);
    }
  }

  class Allocator {
    const size: nat
    var records: seq<Record>
    var freeTop: int
    var usedTop: int
    var pageStack: seq<PageBlock>
    var recordStack: seq<RecordBlock>
    ghost var free: seq<nat>
    ghost var used: seq<nat>
    ghost var taken: seq<nat>
    ghost var model: Slab

    ghost predicate Valid()
      reads this
    {
      Linked() && Paged() && Counted()
    }

    /** Every record in use was handed out by a block: all but the top block are
        used up, and the top one as far as its index. */
    ghost predicate Counted()
      reads this`recordStack, this`records
    {
      |records| == if recordStack == [] then 0 else POOL_SIZE * (|recordStack| - 1) + recordStack[0].index
    }

    ghost predicate Linked()
      reads this`records, this`freeTop, this`usedTop, this`free, this`used, this`model
    {
      Stacks(records, freeTop, free, usedTop, used, model)
    }

    ghost predicate Paged()
      reads this`pageStack, this`recordStack, this`taken, this`model
    {
      && 0 < size <= PAGE_SIZE && model.size == size
      && Accounted(pageStack, recordStack, taken, model.pages)
    }

    /** Records on neither stack; every call keeps their number. */
    ghost function Loose(): int
      reads this`records, this`model
    {
      |records| - |model.free| - |model.used|
    }

    /** Nothing taken, nothing carved. */
    ghost predicate New(size: nat)
      reads this
    {
      && this.size == size && model == Slab(size, [], [], []) && taken == []
      && records == [] && freeTop == usedTop == NULL && free == used == [] && pageStack == [] && recordStack == []
    }

    lemma NewIsValid(size: nat)
      requires New(size) && 0 < size <= PAGE_SIZE
      ensures Valid()
    {
    }

    /** Every allocator of the memory manager is unlimited (max_pages 0). */
    constructor (size: nat)
      requires size <= PAGE_SIZE
      ensures New(if size == 0 then 1 else size)
    {
      this.size := if size == 0 then 1 else size;
      freeTop, usedTop, records := NULL, NULL, [];
      pageStack, recordStack := [], [];
      free, used, taken := [], [], [];
      model := Slab(if size == 0 then 1 else size, [], [], []);
    }

    /** A block in a new page goes on the page stack. */
    method PushPageBlock(page: nat)
      requires Paged() && (pageStack != [] ==> |pageStack[0].pool| == POOL_SIZE)
      modifies this`pageStack, this`taken
      ensures Paged() && taken == old(taken) + [page] && pageStack == [PageBlock(page, [])] + old(pageStack)
    {
      PageBlockJoins(pageStack, recordStack, taken, model.pages, page);
      pageStack := [PageBlock(page, [])] + pageStack;
      taken := taken + [page];
    }

    /** A block in a new page goes on the object stack. */
    method PushRecordBlock(page: nat)
      requires Paged() && (recordStack != [] ==> recordStack[0].index == POOL_SIZE)
      modifies this`recordStack, this`taken
      ensures Paged() && taken == old(taken) + [page] && recordStack == [RecordBlock(page, 0)] + old(recordStack)
    {
      RecordBlockJoins(pageStack, recordStack, taken, model.pages, page);
      recordStack := [RecordBlock(page, 0)] + recordStack;
      taken := taken + [page];
    }

    /** expand_page_stack */
    method ExpandPageStack(pool: Buddy.Allocator) returns (fault: bool)
      requires Paged() && pool.Valid() && (pageStack != [] ==> |pageStack[0].pool| == POOL_SIZE)
      modifies this`pageStack, this`taken, pool, pool.nodes
      ensures pool.Valid()
      ensures fault ==> Empty(pool)
      ensures !fault ==>
                && Paged() && pageStack != [] && pageStack[0].pool == []
                && Pool.Took(old(Blocks(pool.tree)), Blocks(pool.tree), old(taken), taken)
    {
      var page := AllocPage(pool, taken);
      if page == 0 {
        return true;
      }
      PushPageBlock(page);
      return false;
    }

    /** expand_object_stack */
    method ExpandRecordStack(pool: Buddy.Allocator) returns (fault: bool)
      requires Paged() && pool.Valid() && (recordStack != [] ==> recordStack[0].index == POOL_SIZE)
      modifies this`recordStack, this`taken, pool, pool.nodes
      ensures pool.Valid()
      ensures fault ==> Empty(pool)
      ensures !fault ==>
                && Paged() && recordStack != [] && recordStack[0].index == 0
                && |recordStack| == |old(recordStack)| + 1
                && Pool.Took(old(Blocks(pool.tree)), Blocks(pool.tree), old(taken), taken)
    {
      var page := AllocPage(pool, taken);
      if page == 0 {
        return true;
      }
      PushRecordBlock(page);
      return false;
    }

    /** The new page goes into the top block of the page stack. */
    method ListPage(page: nat)
      requires Paged() && pageStack != [] && |pageStack[0].pool| < POOL_SIZE
      modifies this`pageStack, this`taken, this`model
      ensures Paged() && taken == old(taken) + [page]
      ensures model == old(model).(pages := old(model.pages) + [page])
    {
      PageJoins(pageStack, recordStack, taken, model.pages, page);
      pageStack := [PageBlock(pageStack[0].self, pageStack[0].pool + [page])] + pageStack[1..];
      taken := taken + [page];
      model := model.(pages := model.pages + [page]);
    }

    /** get_next_page */
    method GetNextPage(pool: Buddy.Allocator) returns (fault: bool, page: nat)
      requires Paged() && pool.Valid()
      modifies this`pageStack, this`taken, this`model, pool, pool.nodes
      ensures pool.Valid()
      ensures fault ==> Empty(pool)
      ensures !fault ==>
                && Paged() && model == old(model).(pages := old(model.pages) + [page])
                && Pool.Took(old(Blocks(pool.tree)), Blocks(pool.tree), old(taken), taken)
                && page in taken[|old(taken)|..]
    {
      page := 0;
      fault := false;
      Pool.TookNothing(Blocks(pool.tree), taken);
      if pageStack == [] || |pageStack[0].pool| == POOL_SIZE {
        fault := ExpandPageStack(pool);
        if fault {
          return;
        }
      }
      ghost var mid, blocks := taken, Blocks(pool.tree);
      page := AllocPage(pool, taken);
      if page == 0 {
        return true, 0;
      }
      ListPage(page);
      Pool.TookTransitive(old(Blocks(pool.tree)), blocks, Blocks(pool.tree), old(taken), mid, taken);
      assert taken[|mid|] == page;
    }

    /** The top block has room for a record. */
    method EnsureRecordBlock(pool: Buddy.Allocator) returns (fault: bool)
      requires Paged() && Counted() && pool.Valid()
      modifies this`recordStack, this`taken, pool, pool.nodes
      ensures pool.Valid()
      ensures fault ==> Empty(pool)
      ensures !fault ==>
                && Paged() && Counted() && recordStack != [] && recordStack[0].index < POOL_SIZE
                && Pool.Took(old(Blocks(pool.tree)), Blocks(pool.tree), old(taken), taken)
    {
      fault := false;
      if recordStack == [] || recordStack[0].index == POOL_SIZE {
        fault := ExpandRecordStack(pool);
      } else {
        TopHasRoom(recordStack);
        Pool.TookNothing(Blocks(pool.tree), taken);
      }
    }

    /** get_next_object: the index of the record at the end of the top block. */
    method GetNextObject(pool: Buddy.Allocator) returns (fault: bool, r: nat)
      requires Valid() && pool.Valid()
      modifies this`records, this`recordStack, this`taken, pool, pool.nodes
      ensures pool.Valid()
      ensures fault ==> Empty(pool)
      ensures !fault ==>
                && Valid() && |records| == |old(records)| + 1 && r < |records| && r !in free && r !in used
                && Pool.Took(old(Blocks(pool.tree)), Blocks(pool.tree), old(taken), taken)
    {
      r := |records|;
      fault := EnsureRecordBlock(pool);
      if !fault {
        TakeRecord();
      }
    }

    /** The next zeroed slot of the top block comes into use. */
    method TakeRecord()
      requires Linked() && Paged() && Counted() && recordStack != [] && recordStack[0].index < POOL_SIZE
      modifies this`records, this`recordStack
      ensures Valid() && |records| == |old(records)| + 1 && |old(records)| !in free && |old(records)| !in used
    {
      ghost var was := records;
      RecordJoins(pageStack, recordStack, taken, model.pages);
      recordStack := [RecordBlock(recordStack[0].self, recordStack[0].index + 1)] + recordStack[1..];
      records := records + [Record(0, NULL)];
      ChainFrame(was, records, freeTop, free, model.free);
      ChainFrame(was, records, usedTop, used, model.used);
    }

    /** free_stack_push, and the address written to the record. */
    method FreeStackPush(r: nat, addr: nat)
      requires Valid() && r < |records| && r !in free && r !in used
      modifies this`records, this`freeTop, this`free, this`model
      ensures Valid() && |records| == |old(records)| && model == old(model).(free := [addr] + old(model.free))
    {
      PushOnFree(records, freeTop, free, usedTop, used, model, r, addr);
      records := records[r := Record(records[r].addr, freeTop)];
      freeTop := r;
      records := records[r := records[r].(addr := addr)];
      assert records == old(records)[r := Record(addr, old(freeTop))];
      free := [r] + free;
      model := model.(free := [addr] + model.free);
    }

    /** The top of a non-empty free stack comes off. */
    method PopFree() returns (r: nat)
      requires Valid() && freeTop != NULL
      modifies this`records, this`freeTop, this`free, this`model
      ensures Valid() && |records| == |old(records)| && r < |records| && r !in free && r !in used
      ensures old(model.free) != [] && records[r].addr == old(model.free)[0]
      ensures model == old(model).(free := old(model.free)[1..])
    {
      PopFromFree(records, freeTop, free, usedTop, used, model);
      r := freeTop;
      freeTop := records[r].next;
      records := records[r := Record(records[r].addr, NULL)];
      free := free[1..];
      model := model.(free := model.free[1..]);
    }

    /** used_stack_push */
    method UsedStackPush(r: nat)
      requires Valid() && r < |records| && r !in free && r !in used
      modifies this`records, this`usedTop, this`used, this`model
      ensures Valid() && |records| == |old(records)| && usedTop == r
      ensures model == old(model).(used := [old(records[r].addr)] + old(model.used))
    {
      StacksSwap(records, freeTop, free, usedTop, used, model);
      ghost var swapped := model.(free := model.used, used := model.free);
      PushOnFree(records, usedTop, used, freeTop, free, swapped, r, records[r].addr);
      records := records[r := Record(records[r].addr, usedTop)];
      usedTop := r;
      used := [r] + used;
      model := model.(used := [records[r].addr] + model.used);
    }

    /** The top of a non-empty used stack comes off. */
    method PopUsed() returns (r: nat)
      requires Valid() && usedTop != NULL
      modifies this`records, this`usedTop, this`used, this`model
      ensures Valid() && |records| == |old(records)| && r < |records| && r !in free && r !in used
      ensures old(model.used) != [] && model == old(model).(used := old(model.used)[1..])
    {
      StacksSwap(records, freeTop, free, usedTop, used, model);
      PopFromFree(records, usedTop, used, freeTop, free, model.(free := model.used, used := model.free));
      r := usedTop;
      usedTop := records[r].next;
      records := records[r := Record(records[r].addr, NULL)];
      used := used[1..];
      model := model.(used := model.used[1..]);
    }

    /** One round of the carving loop: a new record with the slot's address is
        pushed on the free stack. */
    method CarveSlot(pool: Buddy.Allocator, addr: nat) returns (fault: bool)
      requires Valid() && pool.Valid()
      modifies this, pool, pool.nodes
      ensures pool.Valid()
      ensures fault ==> Empty(pool)
      ensures !fault ==>
                && Valid() && |records| == |old(records)| + 1 && model == old(model).(free := [addr] + old(model.free))
                && Pool.Took(old(Blocks(pool.tree)), Blocks(pool.tree), old(taken), taken)
    {
      var r: nat;
      fault, r := GetNextObject(pool);
      if fault {
        return;
      }
      FreeStackPush(r, addr);
    }

    /** The same after the pages taken since was. */
    method CarveNext(pool: Buddy.Allocator, addr: nat, ghost before: set<Block>, ghost was: seq<nat>)
      returns (fault: bool)
      requires Valid() && pool.Valid() && Pool.Took(before, Blocks(pool.tree), was, taken)
      modifies this, pool, pool.nodes
      ensures pool.Valid()
      ensures fault ==> Empty(pool)
      ensures !fault ==>
                && Valid() && Loose() == old(Loose()) && model == old(model).(free := [addr] + old(model.free))
                && Pool.Took(before, Blocks(pool.tree), was, taken)
    {
      ghost var blocks, mid := Blocks(pool.tree), taken;
      fault := CarveSlot(pool, addr);
      if !fault {
        Pool.TookTransitive(before, blocks, Blocks(pool.tree), was, mid, taken);
      }
    }

    /** The carving loop. */
    method CarvePage(pool: Buddy.Allocator, page: nat) returns (fault: bool)
      requires Valid() && pool.Valid()
      modifies this, pool, pool.nodes
      ensures pool.Valid()
      ensures fault ==> Empty(pool)
      ensures !fault ==>
                && Valid() && Loose() == old(Loose())
                && model == old(model).(free := Carved(old(model.free), page, size, 0))
                && Pool.Took(old(Blocks(pool.tree)), Blocks(pool.tree), old(taken), taken)
    {
      fault := false;
      ghost var before, was, goal := Blocks(pool.tree), taken, Carved(model.free, page, size, 0);
      Pool.TookNothing(before, was);
      var i := 0;
      while i + size <= PAGE_SIZE
        invariant Valid() && pool.Valid() && Loose() == old(Loose())
        invariant Carved(model.free, page, size, i) == goal
        invariant model == old(model).(free := model.free)
        invariant Pool.Took(before, Blocks(pool.tree), was, taken)
        decreases PAGE_SIZE - i
      {
        CarvedStep(model.free, page, size, i);
        fault := CarveNext(pool, page + i, before, was);
        if fault {
          return;
        }
        i := i + size;
      }
    }

    /** add_to_free_stack; page is the backing page obtained. */
    method AddToFreeStack(pool: Buddy.Allocator) returns (fault: bool, page: nat)
      requires Valid() && pool.Valid()
      modifies this, pool, pool.nodes
      ensures pool.Valid()
      ensures fault ==> Empty(pool)
      ensures !fault ==>
                && Valid() && Loose() == old(Loose()) && model == Refill(old(model), page)
                && Pool.Took(old(Blocks(pool.tree)), Blocks(pool.tree), old(taken), taken)
                && page in taken[|old(taken)|..]
    {
      fault, page := GetNextPage(pool);
      if fault {
        return;
      }
      ghost var blocks, mid := Blocks(pool.tree), taken;
      fault := CarvePage(pool, page);
      if fault {
        return;
      }
      Pool.TookTransitive(old(Blocks(pool.tree)), blocks, Blocks(pool.tree), old(taken), mid, taken);
      StaysListed(mid, taken, |old(taken)|, page);
    }

    /** An empty free stack is refilled; fault is the write through a null page
        that exhaustion of the pool leads to. */
    method EnsureFree(pool: Buddy.Allocator) returns (fault: bool, ghost page: nat)
      requires Valid() && pool.Valid()
      modifies this, pool, pool.nodes
      ensures pool.Valid()
      ensures fault ==> Empty(pool) && old(model.free) == []
      ensures !fault ==>
                && Valid() && freeTop != NULL && Loose() == old(Loose())
                && Pool.Took(old(Blocks(pool.tree)), Blocks(pool.tree), old(taken), taken)
                && (old(model.free) != [] ==> taken == old(taken) && model == old(model))
                && (old(model.free) == [] ==> page in taken[|old(taken)|..] && model == Refill(old(model), page))
    {
      page := 0;
      fault := false;
      if freeTop == NULL {
        EmptyStack(records, freeTop, free, model.free);
        fault, page := AddToFreeStack(pool);
        if !fault {
          RefillNonEmpty(old(model), page);
        }
      } else {
        Pool.TookNothing(Blocks(pool.tree), taken);
      }
    }

    /** free_stack_pop */
    method FreeStackPop(pool: Buddy.Allocator) returns (fault: bool, r: nat, ghost page: nat)
      requires Valid() && pool.Valid()
      modifies this, pool, pool.nodes
      ensures pool.Valid()
      ensures fault ==> Empty(pool) && old(model.free) == []
      ensures !fault ==>
                && Valid() && Loose() == old(Loose()) + 1 && r < |records| && r !in free && r !in used
                && Pool.Took(old(Blocks(pool.tree)), Blocks(pool.tree), old(taken), taken)
                && (old(model.free) != [] ==> taken == old(taken))
                && (old(model.free) == [] ==> page in taken[|old(taken)|..])
                && var s := if old(model.free) != [] then old(model) else Refill(old(model), page);
                   s.free != [] && records[r].addr == s.free[0] && model == s.(free := s.free[1..])
    {
      r := 0;
      fault, page := EnsureFree(pool);
      if !fault {
        r := PopFree();
      }
    }

    /** allocate */
    method Allocate(pool: Buddy.Allocator) returns (fault: bool, ptr: nat, ghost page: nat)
      requires Valid() && pool.Valid()
      modifies this, pool, pool.nodes
      ensures pool.Valid()
      ensures fault ==> Empty(pool) && old(model.free) == []
      ensures !fault ==>
                && Valid() && Loose() == old(Loose())
                && Pool.Took(old(Blocks(pool.tree)), Blocks(pool.tree), old(taken), taken)
                && (if old(model.free) != [] then taken == old(taken) && (model, ptr) == Take(old(model))
                    else
                      && page in taken[|old(taken)|..]
                      && Refill(old(model), page).free != []
                      && (model, ptr) == Take(Refill(old(model), page)))
    {
      ptr := 0;
      var r: nat;
      fault, r, page := FreeStackPop(pool);
      if fault {
        return;
      }
      ptr := records[r].addr;
      UsedStackPush(r);
    }

    method PushFirstUsed(r: nat)
      requires Valid() && usedTop == NULL && r < |records| && r !in free && r !in used
      modifies this`records, this`usedTop, this`used, this`model
      ensures Valid() && usedTop != NULL && |records| == |old(records)|
      ensures |model.used| == 1 && model == old(model).(used := model.used)
    {
      EmptyStack(records, usedTop, used, model.used);
      UsedStackPush(r);
    }

    /** An empty used stack is given a new record. */
    method EnsureUsed(pool: Buddy.Allocator) returns (fault: bool)
      requires Valid() && pool.Valid() && usedTop == NULL
      modifies this`records, this`usedTop, this`used, this`model, this`recordStack, this`taken, pool, pool.nodes
      ensures pool.Valid()
      ensures fault ==> Empty(pool)
      ensures !fault ==>
                && Valid() && |records| == |old(records)| + 1 && usedTop != NULL
                && |model.used| == 1 && model == old(model).(used := model.used)
                && Pool.Took(old(Blocks(pool.tree)), Blocks(pool.tree), old(taken), taken)
    {
      var r: nat;
      fault, r := GetNextObject(pool);
      if !fault {
        PushFirstUsed(r);
      }
    }

    /** used_stack_pop */
    method UsedStackPop(pool: Buddy.Allocator) returns (fault: bool, r: nat)
      requires Valid() && pool.Valid()
      modifies this, pool, pool.nodes
      ensures pool.Valid()
      ensures fault ==> Empty(pool)
      ensures !fault ==>
                && Valid() && Loose() == old(Loose()) + 1 && r < |records| && r !in free && r !in used
                && model == old(model).(used := if old(model.used) == [] then [] else old(model.used)[1..])
                && Pool.Took(old(Blocks(pool.tree)), Blocks(pool.tree), old(taken), taken)
      ensures old(model.used) != [] ==> !fault && taken == old(taken) && pool.tree == old(pool.tree)
    {
      fault := false;
      r := 0;
      if usedTop == NULL {
        fault := EnsureUsed(pool);
        if fault {
          return;
        }
      } else {
        Pool.TookNothing(Blocks(pool.tree), taken);
      }
      r := PopUsed();
    }

    /** deallocate, of any address */
    method Deallocate(pool: Buddy.Allocator, p: nat) returns (fault: bool)
      requires Valid() && pool.Valid()
      modifies this, pool, pool.nodes
      ensures pool.Valid()
      ensures fault ==> Empty(pool)
      ensures !fault ==>
                && Valid() && Loose() == old(Loose()) && model == Give(old(model), p)
                && Pool.Took(old(Blocks(pool.tree)), Blocks(pool.tree), old(taken), taken)
      ensures old(model.used) != [] ==> !fault && taken == old(taken) && pool.tree == old(pool.tree)
    {
      var r: nat;
      fault, r := UsedStackPop(pool);
      if fault {
        return;
      }
      FreeStackPush(r, p);
    }

    /** contains: the blocks of the page stack, each from its first entry. */
    method Contains(p: nat) returns (found: bool)
      requires Paged()
      ensures found == SlabModel.Contains(model, p)
    {
      var b := 0;
      while b < |pageStack|
        invariant 0 <= b <= |pageStack|
        invariant forall c, i :: 0 <= c < b && 0 <= i < |pageStack[c].pool| ==>
                    !(pageStack[c].pool[i] <= p < pageStack[c].pool[i] + PAGE_SIZE)
      {
        var i := 0;
        while i < |pageStack[b].pool|
          invariant 0 <= i <= |pageStack[b].pool|
          invariant forall j :: 0 <= j < i ==>
                      !(pageStack[b].pool[j] <= p < pageStack[b].pool[j] + PAGE_SIZE)
        {
          if pageStack[b].pool[i] <= p < pageStack[b].pool[i] + PAGE_SIZE {
            var k := BackingHas(pageStack, b, i);
            return true;
          }
          i := i + 1;
        }
        b := b + 1;
      }
      forall k | 0 <= k < |model.pages| ensures !(model.pages[k] <= p < model.pages[k] + PAGE_SIZE) {
        var c, j := BackingFrom(pageStack, k);
      }
      return false;
    }
  }

  /** The pages an allocator has taken: the backing pages, one page per block of
      the two block stacks, and a block more only when the others are full. */
  lemma PagesTaken(a: Allocator)
    requires a.Valid()
    ensures |a.taken| == |a.model.pages| + |a.pageStack| + |a.recordStack|
    ensures POOL_SIZE * (|a.pageStack| - 1) <= |a.model.pages| <= POOL_SIZE * |a.pageStack|
    ensures POOL_SIZE * (|a.recordStack| - 1) <= |a.records| <= POOL_SIZE * |a.recordStack|
  {
    BackingFills(a.pageStack);
    OnePageEach(a.recordStack);
    assert |multiset(a.taken)| == |a.taken|;
  }

  lemma CarvedStep(free: seq<nat>, page: nat, size: nat, i: nat)
    requires size > 0 && i + size <= PAGE_SIZE
    ensures Carved(free, page, size, i) == Carved([page + i] + free, page, size, i + size)
  {
  }

  lemma StaysListed(mid: seq<nat>, now: seq<nat>, n: nat, page: nat)
    requires n <= |mid| && mid <= now && page in mid[n..]
    ensures page in now[n..]
  {
    var k :| 0 <= k < |mid[n..]| && mid[n..][k] == page;
    assert now[n..][k] == page;
  }

  lemma RefillNonEmpty(s: Slab, page: nat)
    requires 0 < s.size <= PAGE_SIZE
    ensures Refill(s, page).free != []
  {
    CarvedGrows([page] + s.free, page, s.size, s.size);
    assert page + 0 == page;
  }

  lemma CarvedGrows(free: seq<nat>, page: nat, size: nat, i: nat)
    requires size > 0
    ensures |Carved(free, page, size, i)| >= |free|
    decreases PAGE_SIZE + size - i
  {
    if i + size <= PAGE_SIZE {
      CarvedGrows([page + i] + free, page, size, i + size);
    }
  }

  lemma {:induction false} BackingHas(stack: seq<PageBlock>, b: nat, i: nat) returns (k: nat)
    requires b < |stack| && i < |stack[b].pool|
    ensures k < |Backing(stack)| && Backing(stack)[k] == stack[b].pool[i]
  {
    if b == 0 {
      k := |Backing(stack[1..])| + i;
    } else {
      k := BackingHas(stack[1..], b - 1, i);
    }
  }

  lemma {:induction false} BackingFrom(stack: seq<PageBlock>, k: nat) returns (b: nat, i: nat)
    requires k < |Backing(stack)|
    ensures b < |stack| && i < |stack[b].pool| && Backing(stack)[k] == stack[b].pool[i]
  {
    var n := |Backing(stack[1..])|;
    if k >= n {
      b, i := 0, k - n;
    } else {
      var c;
      c, i := BackingFrom(stack[1..], k);
      b := c + 1;
    }
  }
}
