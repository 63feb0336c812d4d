/** Runs of one slab allocator of any size on a page pool. */
module SlabRuns {
  import opened BuddyTree
  import opened SlabModel
  import Pool = BuddyPool
  import Buddy = BuddyAllocator
  import SA = SlabAllocator

  /** What a client of the slab asks for. */
  datatype Request = Take | Return(ptr: nat)

  /** What the client holds, given the answer to each request. */
  function Held(requests: seq<Request>, answers: seq<nat>): set<nat>
    requires |requests| == |answers|
  {
    if requests == [] then {}
    else
      var n := |requests| - 1;
      HeldAfter(Held(requests[..n], answers[..n]), requests[n], answers[n])
  }

  function HeldAfter(live: set<nat>, request: Request, answer: nat): set<nat> {
    match request
    case Take => live + {answer}
    case Return(ptr) => live - {ptr}
  }

  lemma HeldStep(requests: seq<Request>, answers: seq<nat>, answer: nat)
    requires |answers| < |requests|
    ensures var n := |answers|;
            Held(requests[..n + 1], answers + [answer]) == HeldAfter(Held(requests[..n], answers), requests[n], answer)
  {
    var n := |answers|;
    assert requests[..n + 1][..n] == requests[..n] && (answers + [answer])[..n] == answers;
  }

  /** Every slot handed out was not held at the time. */
  ghost predicate TakesAreNew(requests: seq<Request>, answers: seq<nat>)
    requires |answers| <= |requests|
  {
    forall i :: 0 <= i < |answers| && requests[i].Take? ==> answers[i] !in Held(requests[..i], answers[..i])
  }

  lemma TakesStep(requests: seq<Request>, answers: seq<nat>, answer: nat)
    requires |answers| < |requests| && TakesAreNew(requests, answers)
    requires requests[|answers|].Take? ==> answer !in Held(requests[..|answers|], answers)
    ensures TakesAreNew(requests, answers + [answer])
  {
    var more := answers + [answer];
    forall i | 0 <= i < |more| && requests[i].Take? ensures more[i] !in Held(requests[..i], more[..i]) {
      assert more[..i] == answers[..i];
      if i == |answers| { assert answers[..i] == answers; }
    }
  }

  /** Every page the slab has taken is a live block of the pool. */
  ghost predicate Backed(taken: seq<nat>, blocks: set<Block>) {
    forall p :: p in taken ==> Block(p, PAGE_SIZE) in blocks
  }

  /** The backing pages are among the pages taken. */
  lemma PagesAreTaken(a: SA.Allocator)
    requires a.Paged()
    ensures forall p :: p in a.model.pages ==> p in a.taken
  {
    forall p | p in a.model.pages ensures p in a.taken {
      assert p in multiset(SA.Backing(a.pageStack));
      assert p in multiset(a.taken);
    }
  }

  lemma TookKeepsBacked(before: set<Block>, after: set<Block>, was: seq<nat>, now: seq<nat>)
    requires Backed(was, before) && Pool.Took(before, after, was, now)
    ensures Backed(now, after)
  {
    forall p | p in now ensures Block(p, PAGE_SIZE) in after {
      var k :| 0 <= k < |now| && now[k] == p;
      if k < |was| {
        assert was[k] == p;
      } else {
        assert now[|was|..][k - |was|] == p;
      }
    }
  }

  /** A backing page obtained by a refill lies apart from those the slab had. */
  lemma NewPageApart(p: Pool.Pool, base: nat, k: nat, before: set<Block>, was: seq<nat>, now: seq<nat>,
                     pages: seq<nat>, page: nat)
    requires Pool.Valid(p, base, k) && Backed(was, before) && Pool.Took(before, Blocks(p.tree), was, now)
    requires page in now[|was|..] && forall q :: q in pages ==> q in was
    ensures forall i :: 0 <= i < |pages| ==> Disjoint(Block(pages[i], PAGE_SIZE), Block(page, PAGE_SIZE))
  {
    TookKeepsBacked(before, Blocks(p.tree), was, now);
    var x :| 0 <= x < |now[|was|..]| && now[|was|..][x] == page;
    assert now[|was| + x] == page;
    forall i | 0 <= i < |pages| ensures Disjoint(Block(pages[i], PAGE_SIZE), Block(page, PAGE_SIZE)) {
      assert pages[i] in pages && pages[i] in was;
      BlocksDisjoint(p.tree, k, Block(pages[i], PAGE_SIZE), Block(page, PAGE_SIZE));
    }
  }

  /** Between two requests: the carved slots are exactly the free and the held
      ones, on pages of the pool, and no record is lost. */
  ghost predicate Settled(a: SA.Allocator, pool: Buddy.Allocator, live: set<nat>)
    reads a, pool, pool.nodes
  {
    && a.Valid() && a.Loose() == 0 && pool.Valid()
    && Partition(a.model, live) && Backed(a.taken, Blocks(pool.tree))
  }

  /** A new slot, or the page pool ran out. */
  method TakeOne(a: SA.Allocator, pool: Buddy.Allocator, ghost live: set<nat>) returns (fault: bool, ptr: nat)
    requires Settled(a, pool, live)
    modifies a, pool, pool.nodes
    ensures fault ==> SA.Empty(pool) && old(a.model.free) == []
    ensures !fault ==> ptr !in live && Settled(a, pool, live + {ptr})
  {
    ghost var page;
    ghost var before, was, m := Blocks(pool.tree), a.taken, a.model;
    PagesAreTaken(a);
    fault, ptr, page := a.Allocate(pool);
    if fault {
      return;
    }
    TookKeepsBacked(before, Blocks(pool.tree), was, a.taken);
    if m.free == [] {
      NewPageApart(pool.Model(), pool.buffer, pool.k, before, was, a.taken, m.pages, page);
      RefillKeepsPartition(m, live, page);
      TakeKeepsPartition(Refill(m, page), live);
    } else {
      TakeKeepsPartition(m, live);
    }
  }

  /** A held slot goes back; nothing else changes, and no page is needed. */
  method ReturnOne(a: SA.Allocator, pool: Buddy.Allocator, ptr: nat, ghost live: set<nat>)
    requires Settled(a, pool, live) && ptr in live
    modifies a, pool, pool.nodes
    ensures Settled(a, pool, live - {ptr})
  {
    GiveKeepsPartition(a.model, live, ptr);
    var fault := a.Deallocate(pool, ptr);
  }

  /** One request; an address that is not held is not passed on. */
  method ServeOne(a: SA.Allocator, pool: Buddy.Allocator, request: Request, live: set<nat>)
    returns (fault: bool, answer: nat)
    requires Settled(a, pool, live)
    modifies a, pool, pool.nodes
    ensures fault ==> SA.Empty(pool)
    ensures !fault ==> Settled(a, pool, HeldAfter(live, request, answer))
    ensures !fault && request.Take? ==> answer !in live
  {
    fault, answer := false, 0;
    match request
    case Take =>
      fault, answer := TakeOne(a, pool, live);
    case Return(ptr) =>
      if ptr in live {
        ReturnOne(a, pool, ptr, live);
      } else {
        assert live - {ptr} == live;
      }
  }

  /** Over every sequence of requests to a new slab of any size up to a page, on
      any page pool: free and held addresses are exactly the carved slots, each
      once, the used stack has one record per held address, free and used make up
      the slots of the pages, what is held is pairwise disjoint, and no slot is
      handed out while it is held; unless the pool ran out of pages. */
  method Run(a: SA.Allocator, pool: Buddy.Allocator, size: nat, requests: seq<Request>)
    returns (fault: bool, answers: seq<nat>)
    requires 0 < size <= PAGE_SIZE && a.New(size) && pool.Valid()
    modifies a, pool, pool.nodes
    ensures fault ==> SA.Empty(pool)
    ensures !fault ==>
              && |answers| == |requests| && a.model.size == size
              && Settled(a, pool, Held(requests, answers)) && TakesAreNew(requests, answers)
              && forall p, q :: p in Held(requests, answers) && q in Held(requests, answers) && p != q ==>
                   Disjoint(Block(p, size), Block(q, size))
  {
    a.NewIsValid(size);
    fault, answers := false, [];
    var live: set<nat> := {};
    while |answers| < |requests|
      invariant |answers| <= |requests| && !fault && TakesAreNew(requests, answers)
      invariant live == Held(requests[..|answers|], answers) && Settled(a, pool, live) && a.size == size
    {
      var n, answer := |answers|, 0;
      fault, answer := ServeOne(a, pool, requests[n], live);
      if fault {
        return;
      }
      HeldStep(requests, answers, answer);
      TakesStep(requests, answers, answer);
      live := HeldAfter(live, requests[n], answer);
      answers := answers + [answer];
    }
    assert requests[..|answers|] == requests;
    AllDisjoint(a.model, live);
  }

  lemma AllDisjoint(m: Slab, live: set<nat>)
    requires Partition(m, live)
    ensures forall p, q :: p in live && q in live && p != q ==> Disjoint(Block(p, m.size), Block(q, m.size))
  {
    forall p, q | p in live && q in live && p != q ensures Disjoint(Block(p, m.size), Block(q, m.size)) {
      LiveDisjoint(m, live, p, q);
    }
  }
}
