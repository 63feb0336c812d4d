/** The memory manager: routing of requests over nine slabs, the huge pool and
    the page pool that also feeds the slabs. */
module MemoryManager {
  import opened Bits
  import opened BuddyTree
  import opened SlabModel
  import opened MemoryModel
  import Pool = BuddyPool
  import Buddy = BuddyAllocator
  import SA = SlabAllocator

  /** One empty slab per size class. */
  method MakeSlabs(sizes: seq<nat>) returns (slabs: seq<SA.Allocator>)
    requires forall i :: 0 <= i < |sizes| ==> 0 < sizes[i] <= PAGE_SIZE
    ensures |slabs| == |sizes|
    ensures forall i :: 0 <= i < |slabs| ==> fresh(slabs[i]) && slabs[i].New(sizes[i])
  {
    slabs := [];
    while |slabs| < |sizes|
      invariant |slabs| <= |sizes|
      invariant forall i :: 0 <= i < |slabs| ==> fresh(slabs[i]) && slabs[i].New(sizes[i])
    {
      var slab := new SA.Allocator(sizes[|slabs|]);
      slabs := slabs + [slab];
    }
  }

  /** What a client asks for: memory, a page, or to give an address back, by
      free or, a page, by free_page. */
  datatype Request = Get(size: nat) | GetPage | Put(ptr: nat) | PutPage(ptr: nat)

  class Manager {
    const pagePool: Buddy.Allocator
    const hugePool: Buddy.Allocator
    const slabs: seq<SA.Allocator>
    ghost var state: State

    ghost function Setup(): Config {
      Config(pagePool.buffer, pagePool.k, hugePool.buffer, hugePool.k)
    }

    /** The parts are separate objects. */
    ghost predicate Separate() {
      && |slabs| == |SLAB_SIZES|
      && pagePool != hugePool && pagePool.nodes != hugePool.nodes
      && forall i, j :: 0 <= i < j < |slabs| ==> slabs[i] != slabs[j]
    }

    ghost function Repr(): set<object> {
      {this, pagePool, pagePool.nodes, hugePool, hugePool.nodes} + set s | s in slabs
    }

    ghost predicate Valid()
      reads Repr()
    {
      && Separate()
      && pagePool.Valid() && hugePool.Valid()
      && state.page == pagePool.Model() && state.huge == hugePool.Model()
      && Inv(Setup(), state)
      && forall i :: 0 <= i < |slabs| ==> SlabMatches(i)
    }

    ghost predicate SlabMatches(i: nat)
      requires i < |slabs|
      reads this, slabs[i]
    {
      && i < |state.models| && i < |state.taken|
      && slabs[i].Valid() && slabs[i].model == state.models[i] && slabs[i].taken == state.taken[i]
    }

    /** Two pools over disjoint static buffers, nothing allocated from them yet,
        and nine empty slabs. */
    constructor (page: Buddy.Allocator, huge: Buddy.Allocator)
      requires page.Valid() && page.Model() == Pool.Fresh(page.buffer, page.k)
      requires huge.Valid() && huge.Model() == Pool.Fresh(huge.buffer, huge.k)
      requires page != huge && page.nodes != huge.nodes
      requires Disjoint(Block(page.buffer, BlockSize(page.k)), Block(huge.buffer, BlockSize(huge.k)))
      ensures Valid() && Regions(state) == {}
      ensures pagePool == page && hugePool == huge
    {
      var made := MakeSlabs(SLAB_SIZES);
      pagePool, hugePool, slabs := page, huge, made;
      state := Initial(page.Model(), huge.Model());
      new;
      InitialInv(Setup(), state.page, state.huge);
      forall i, j | 0 <= i < j < |slabs| ensures slabs[i] != slabs[j] {
        assert slabs[i].New(SLAB_SIZES[i]) && slabs[j].New(SLAB_SIZES[j]);
        if SLAB_SIZES[i] == SLAB_SIZES[j] { SlabSizesDistinct(i, j); }
      }
      forall i | 0 <= i < |slabs| ensures SlabMatches(i) {
        slabs[i].NewIsValid(SLAB_SIZES[i]);
      }
    }

    /** slabNNN.allocate(); the other parts are not touched. */
    method TakeFromSlab(i: nat) returns (fault: bool, ptr: nat, ghost page: nat)
      requires Valid() && i < |slabs|
      modifies slabs[i], pagePool, pagePool.nodes
      ensures pagePool.Valid() && hugePool.Valid() && state.huge == hugePool.Model()
      ensures fault ==> SA.Empty(pagePool) && state.models[i].free == []
      ensures !fault ==>
                && slabs[i].Valid()
                && Pool.Took(Blocks(state.page.tree), Blocks(pagePool.tree), state.taken[i], slabs[i].taken)
                && SlabAllocated(state, i, slabs[i].model, slabs[i].taken, page, ptr)
      ensures forall j :: 0 <= j < |slabs| && j != i ==> SlabMatches(j)
    {
      assert SlabMatches(i);
      fault, ptr, page := slabs[i].Allocate(pagePool);
      forall j | 0 <= j < |slabs| && j != i ensures SlabMatches(j) {
        assert old(SlabMatches(j));
      }
    }

    /** alloc of 1 .. 0x800 bytes */
    method AllocFromSlab(i: nat) returns (fault: bool, ptr: nat)
      requires Valid() && i < |slabs|
      modifies this, slabs[i], pagePool, pagePool.nodes
      ensures fault ==> SA.Empty(pagePool) && old(state.models[i].free) == []
      ensures !fault ==>
                && Valid() && ptr > 0
                && Block(ptr, SLAB_SIZES[i]) !in old(Regions(state))
                && Regions(state) == old(Regions(state)) + {Block(ptr, SLAB_SIZES[i])}
    {
      ghost var page;
      fault, ptr, page := TakeFromSlab(i);
      if fault {
        return;
      }
      ghost var goal := WithSlab(state, i, pagePool.Model(), slabs[i].model, slabs[i].taken, state.live[i] + {ptr});
      SlabAllocServes(Setup(), state, i, pagePool.Model(), slabs[i].model, slabs[i].taken, page, ptr);
      Adopt(i, goal);
    }

    /** The record of slab i is brought up to date; the other slabs still match. */
    ghost method Adopt(i: nat, goal: State)
      requires Separate() && pagePool.Valid() && hugePool.Valid()
      requires goal.page == pagePool.Model() && goal.huge == hugePool.Model() && Inv(Setup(), goal)
      requires i < |slabs| && slabs[i].Valid()
      requires goal.models[i] == slabs[i].model && goal.taken[i] == slabs[i].taken
      requires forall j :: 0 <= j < |slabs| && j != i ==>
                 SlabMatches(j) && goal.models[j] == state.models[j] && goal.taken[j] == state.taken[j]
      modifies this
      ensures Valid() && state == goal
    {
      state := goal;
      forall j | 0 <= j < |slabs| ensures SlabMatches(j) {
        if j != i { assert old(SlabMatches(j)); }
      }
    }

    /** alloc_page; null when the pool is exhausted */
    method AllocPage() returns (ptr: nat)
      requires Valid()
      modifies Repr()
      ensures Valid()
      ensures ptr == 0 <==> old(SA.Empty(pagePool))
      ensures ptr == 0 ==> Regions(state) == old(Regions(state))
      ensures ptr != 0 ==>
                && Block(ptr, PAGE_SIZE) !in old(Regions(state))
                && Regions(state) == old(Regions(state)) + {Block(ptr, PAGE_SIZE)}
    {
      var size := PAGE_SIZE;
      ptr := pagePool.Allocate(size);
      ghost var s := state;
      Pool.AllocateAdds(s.page, pagePool.buffer, pagePool.k, size);
      Pool.AllocateFailsIffCovered(s.page, pagePool.buffer, pagePool.k, size);
      assert Pool.LevelFor(size) == 0;
      if ptr != 0 {
        Pool.TookOne(s.page, pagePool.buffer, pagePool.k, size, []);
        assert [] + [ptr] == [ptr];
        PageAllocKeeps(Setup(), s, pagePool.Model(), ptr);
        state := s.(page := pagePool.Model(), pages := s.pages + {ptr});
        RegionsAfterPageAlloc(Setup(), s, state, ptr);
      }
      forall j | 0 <= j < |slabs| ensures SlabMatches(j) {
        assert old(SlabMatches(j));
      }
    }

    /** No aligned block that a huge request needs is free. */
    ghost predicate HugeCovered(size: nat)
      reads this
    {
      Covered(Blocks(state.huge.tree), hugePool.buffer, hugePool.k, Pool.LevelFor(size))
    }

    /** alloc of more than a page: g_huge_pool.allocate(size) */
    method AllocHuge(size: nat) returns (ptr: nat)
      requires Valid() && PAGE_SIZE < size < WORD
      modifies Repr()
      ensures Valid()
      ensures ptr == 0 <==> old(HugeCovered(size))
      ensures ptr == 0 ==> Regions(state) == old(Regions(state))
      ensures ptr != 0 ==>
                && Block(ptr, BlockSize(Pool.LevelFor(size))) !in old(Regions(state))
                && Regions(state) == old(Regions(state)) + {Block(ptr, BlockSize(Pool.LevelFor(size)))}
    {
      ptr := hugePool.Allocate(size);
      ghost var s := state;
      Pool.AllocateAdds(s.huge, hugePool.buffer, hugePool.k, size);
      Pool.AllocateFailsIffCovered(s.huge, hugePool.buffer, hugePool.k, size);
      HugeKeeps(Setup(), s, hugePool.Model());
      state := s.(huge := hugePool.Model());
      if ptr != 0 {
        RegionsAfterHugeAlloc(Setup(), s, state, Block(ptr, BlockSize(Pool.LevelFor(size))));
      }
      forall j | 0 <= j < |slabs| ensures SlabMatches(j) {
        assert old(SlabMatches(j));
      }
    }

    ghost predicate Refused(size: nat)
      reads this
    {
      MemoryModel.Refused(Setup(), state, size)
    }

    /** alloc: a region that was not live, is at least size bytes long and is now
        live beside all the others. Null comes back exactly for nothing, for more
        than a page when the huge pool has no such block, and for a page when the
        page pool is exhausted. */
    method Alloc(size: nat) returns (fault: bool, ptr: nat)
      requires Valid() && size < WORD
      modifies Repr()
      ensures fault ==>
                0 < size <= 0x800 && SA.Empty(pagePool) && old(state.models[SlabIndex(size)].free) == []
      ensures !fault ==> (ptr == 0 <==> old(Refused(size)))
      ensures !fault ==> Valid()
      ensures !fault && ptr == 0 ==> Regions(state) == old(Regions(state))
      ensures !fault && ptr != 0 ==>
                && Block(ptr, ServedSize(size)) !in old(Regions(state))
                && Regions(state) == old(Regions(state)) + {Block(ptr, ServedSize(size))}
    {
      fault := false;
      if size == 0 {
        return false, 0;
      }
      if size <= 0x800 {
        fault, ptr := AllocFromSlab(SlabIndex(size));
      } else if size > PAGE_SIZE {
        ptr := AllocHuge(size);
      } else {
        ptr := AllocPage();
      }
    }

    /** The cascade of contains tests of free and size. */
    method Route(ptr: nat) returns (who: Server)
      requires Valid()
      ensures Answers(Setup(), state, ptr, who)
    {
      var i := 0;
      while i < |slabs|
        invariant 0 <= i <= |slabs|
        invariant forall j :: 0 <= j < i ==> !SlabModel.Contains(state.models[j], ptr)
      {
        assert SlabMatches(i);
        var here := slabs[i].Contains(ptr);
        if here {
          return BySlab(i);
        }
        i := i + 1;
      }
      var huge := hugePool.Contains(ptr);
      who := if huge then ByHuge else ByPage;
    }

    method FreeSlabObject(i: nat, a: nat)
      requires Valid() && i < |slabs| && a in state.live[i]
      modifies Repr()
      ensures Valid() && Regions(state) == old(Regions(state)) - {Block(a, SLAB_SIZES[i])}
    {
      ghost var s := state;
      assert SlabMatches(i);
      SlabFreeKeeps(Setup(), s, i, a);
      var fault := slabs[i].Deallocate(pagePool, a);
      state := WithSlab(s, i, s.page, slabs[i].model, slabs[i].taken, s.live[i] - {a});
      RegionsAfterSlabFree(Setup(), s, state, i, a);
      forall j | 0 <= j < |slabs| ensures SlabMatches(j) {
        if j != i { assert old(SlabMatches(j)); }
      }
    }

    method FreeHugeBlock(ghost b: Block, ptr: nat)
      requires Valid() && b in Blocks(state.huge.tree) && b.ptr == ptr
      modifies Repr()
      ensures Valid() && Regions(state) == old(Regions(state)) - {b}
    {
      ghost var s := state;
      Pool.DeallocateRemoves(s.huge, hugePool.buffer, hugePool.k, b);
      hugePool.Deallocate(ptr);
      HugeKeeps(Setup(), s, hugePool.Model());
      state := s.(huge := hugePool.Model());
      RegionsAfterHugeFree(Setup(), s, state, b);
      forall j | 0 <= j < |slabs| ensures SlabMatches(j) {
        assert old(SlabMatches(j));
      }
    }

    /** free_page of null or of a page that alloc_page handed out */
    method FreePage(ptr: nat)
      requires Valid() && (ptr == 0 || ptr in state.pages)
      modifies Repr()
      ensures Valid()
      ensures Regions(state) == old(Regions(state)) - (if ptr == 0 then {} else {Block(ptr, PAGE_SIZE)})
    {
      ghost var s := state;
      if ptr != 0 {
        DirectPageRoutes(Setup(), s, ptr, 0);
        Pool.DeallocateRemoves(s.page, pagePool.buffer, pagePool.k, Block(ptr, PAGE_SIZE));
      }
      pagePool.Deallocate(ptr);
      if ptr != 0 {
        PageFreeKeeps(Setup(), s, pagePool.Model(), ptr);
        state := s.(page := pagePool.Model(), pages := s.pages - {ptr});
        RegionsAfterPageFree(Setup(), s, state, ptr);
      }
      forall j | 0 <= j < |slabs| ensures SlabMatches(j) {
        assert old(SlabMatches(j));
      }
    }

    /** free of null or of the address of a live region b: exactly b goes. */
    method Free(ptr: nat, ghost b: Block)
      requires Valid() && (ptr != 0 ==> b in Regions(state) && b.ptr == ptr)
      modifies Repr()
      ensures Valid()
      ensures Regions(state) == old(Regions(state)) - (if ptr == 0 then {} else {b})
    {
      var who := Route(ptr);
      if ptr == 0 {
        forall j | 0 <= j < |slabs| ensures !SlabModel.Contains(state.models[j], 0) {
          NullRoutes(Setup(), state, j);
        }
        NullRoutes(Setup(), state, 0);
      } else {
        AnswersIsOwner(Setup(), state, b, who);
      }
      match who
      case BySlab(i) => FreeSlabObject(i, ptr);
      case ByHuge => FreeHugeBlock(b, ptr);
      case ByPage => FreePage(ptr);
    }

    /** size_page */
    method SizePage(ptr: nat) returns (size: nat)
      requires Valid()
      ensures size == if Pool.Contains(pagePool.buffer, pagePool.k, ptr) then Pool.Size(state.page, ptr) else 0
    {
      var here := pagePool.Contains(ptr);
      if here {
        size := pagePool.Size(ptr);
      } else {
        size := 0;
      }
    }

    /** size: of a live region its size, of null and of anything outside the
        slabs and pools 0. */
    method Size(ptr: nat) returns (size: nat)
      requires Valid()
      ensures forall b :: b in Regions(state) && b.ptr == ptr ==> size == b.size
      ensures !Pool.Contains(pagePool.buffer, pagePool.k, ptr) && !Pool.Contains(hugePool.buffer, hugePool.k, ptr) ==>
                size == 0
    {
      var who := Route(ptr);
      match who {
        case BySlab(i) =>
          assert SlabMatches(i) && SlabInv(state, i);
          size := slabs[i].size;
          SlabInPagePool(Setup(), state, i, ptr);
        case ByHuge =>
          size := hugePool.Size(ptr);
        case ByPage =>
          size := SizePage(ptr);
      }
      forall b | b in Regions(state) && b.ptr == ptr ensures size == b.size {
        OwnerKnowsSize(Setup(), state, b, who);
      }
    }
  }

  /** The regions of a client that asked for these sizes at these addresses. */
  ghost function HeldRegions(asked: map<nat, nat>): set<Block>
    requires forall p :: p in asked ==> asked[p] > 0
  {
    set p | p in asked :: Block(p, ServedSize(asked[p]))
  }

  /** The client's books agree with the live regions. */
  ghost predicate Books(regions: set<Block>, asked: map<nat, nat>) {
    0 !in asked && (forall p :: p in asked ==> asked[p] > 0) && regions == HeldRegions(asked)
  }

  /** A grant is at an address not held. */
  lemma GrantIsNew(c: Config, s: State, was: set<Block>, asked: map<nat, nat>, b: Block, size: nat)
    requires Inv(c, s) && Regions(s) == was + {b} && b !in was && 0 < size && b.size == ServedSize(size)
    requires Books(was, asked)
    ensures b.ptr !in asked
  {
    if b.ptr in asked {
      var held := Block(b.ptr, ServedSize(asked[b.ptr]));
      assert held in was;
      RegionsDisjoint(c, s, b, held);
    }
  }

  /** A grant is entered under an address that was not in the books. */
  lemma EnterGrant(was: set<Block>, asked: map<nat, nat>, b: Block, size: nat)
    requires Books(was, asked) && b.ptr !in asked && b.ptr != 0 && 0 < size && b.size == ServedSize(size)
    ensures Books(was + {b}, asked[b.ptr := size])
  {
    var more := asked[b.ptr := size];
    forall x | x in HeldRegions(asked) + {b} ensures x in HeldRegions(more) {
      assert x.ptr in more && ServedSize(more[x.ptr]) == x.size;
    }
  }

  lemma StrikeGrant(was: set<Block>, now: set<Block>, asked: map<nat, nat>, ptr: nat)
    requires Books(was, asked) && ptr in asked && now == was - {Block(ptr, ServedSize(asked[ptr]))}
    ensures Books(now, asked - {ptr})
  {
    var less := asked - {ptr};
    forall x | x in now ensures x in HeldRegions(less) {
      assert x.ptr in less && ServedSize(less[x.ptr]) == x.size;
    }
  }

  /** What is held is pairwise disjoint. */
  lemma HeldIsDisjoint(c: Config, s: State, asked: map<nat, nat>, p: nat, q: nat)
    requires Inv(c, s) && Books(Regions(s), asked) && p in asked && q in asked && p != q
    ensures Disjoint(Block(p, ServedSize(asked[p])), Block(q, ServedSize(asked[q])))
  {
    RegionsDisjoint(c, s, Block(p, ServedSize(asked[p])), Block(q, ServedSize(asked[q])));
  }

  /** The client's record of what it asked for and still holds, given the
      answer to each request. */
  function Record(requests: seq<Request>, answers: seq<nat>): map<nat, nat>
    requires |requests| == |answers|
  {
    if requests == [] then map[]
    else
      var n := |requests| - 1;
      Recorded(Record(requests[..n], answers[..n]), requests[n], answers[n])
  }

  /** A page goes back by free_page only if a page it is. */
  predicate HoldsPage(asked: map<nat, nat>, ptr: nat) {
    ptr in asked && 0x800 < asked[ptr] <= PAGE_SIZE
  }

  function Recorded(asked: map<nat, nat>, request: Request, answer: nat): map<nat, nat> {
    match request
    case Get(size) => if answer == 0 then asked else asked[answer := size]
    case GetPage => if answer == 0 then asked else asked[answer := PAGE_SIZE]
    case Put(ptr) => asked - {ptr}
    case PutPage(ptr) => if HoldsPage(asked, ptr) then asked - {ptr} else asked
  }

  /** The answer to a request: null exactly when it is refused or asks for
      nothing back, else an address that the client does not hold. */
  ghost predicate Answered(c: Config, s: State, asked: map<nat, nat>, request: Request, answer: nat) {
    match request
    case Get(size) => answer !in asked && (answer == 0 <==> MemoryModel.Refused(c, s, size))
    case GetPage => answer !in asked && (answer == 0 <==> MemoryModel.Refused(c, s, PAGE_SIZE))
    case Put(_) => answer == 0
    case PutPage(_) => answer == 0
  }

  /** A run: the states between the requests, in each of which the live regions
      are exactly what the client holds, and the answers. */
  ghost predicate Trace(c: Config, requests: seq<Request>, answers: seq<nat>, states: seq<State>)
    decreases |answers|
  {
    && |answers| <= |requests| && |states| == |answers| + 1
    && Inv(c, states[|answers|]) && Books(Regions(states[|answers|]), Record(requests[..|answers|], answers))
    && (answers != [] ==>
          var n := |answers| - 1;
          && Trace(c, requests, answers[..n], states[..n + 1])
          && Answered(c, states[n], Record(requests[..n], answers[..n]), requests[n], answers[n]))
  }

  lemma TraceStep(c: Config, requests: seq<Request>, answers: seq<nat>, states: seq<State>, answer: nat, s: State)
    requires Trace(c, requests, answers, states) && |answers| < |requests|
    requires var asked := Record(requests[..|answers|], answers);
             && Answered(c, states[|answers|], asked, requests[|answers|], answer)
             && Inv(c, s) && Books(Regions(s), Recorded(asked, requests[|answers|], answer))
    ensures Trace(c, requests, answers + [answer], states + [s])
  {
    RecordStep(requests, answers, answer);
    assert (answers + [answer])[..|answers|] == answers && (states + [s])[..|answers| + 1] == states;
  }

  /** The beginning of a run is a run. */
  lemma {:induction false} TracePrefix(c: Config, requests: seq<Request>, answers: seq<nat>, states: seq<State>, i: nat)
    requires Trace(c, requests, answers, states) && i <= |answers|
    ensures Trace(c, requests, answers[..i], states[..i + 1])
    decreases |answers|
  {
    if i == |answers| {
      assert answers[..i] == answers && states[..i + 1] == states;
    } else {
      var n := |answers| - 1;
      PrefixOfPrefix(answers, n, i);
      PrefixOfPrefix(states, n + 1, i + 1);
      TracePrefix(c, requests, answers[..n], states[..n + 1], i);
    }
  }

  lemma PrefixOfPrefix<T>(s: seq<T>, n: nat, i: nat)
    requires i <= n <= |s|
    ensures s[..n][..i] == s[..i]
  {
  }

  /** What holds in the middle of a run. */
  lemma TraceAt(c: Config, requests: seq<Request>, answers: seq<nat>, states: seq<State>, i: nat)
    requires Trace(c, requests, answers, states) && i <= |answers|
    ensures Inv(c, states[i]) && Books(Regions(states[i]), Record(requests[..i], answers[..i]))
  {
    TracePrefix(c, requests, answers, states, i);
    assert states[..i + 1][i] == states[i];
  }

  /** How a request in the middle of a run is answered. */
  lemma AnswerAt(c: Config, requests: seq<Request>, answers: seq<nat>, states: seq<State>, i: nat)
    requires Trace(c, requests, answers, states) && i < |answers|
    ensures Answered(c, states[i], Record(requests[..i], answers[..i]), requests[i], answers[i])
  {
    TracePrefix(c, requests, answers, states, i + 1);
    PrefixOfPrefix(answers, i + 1, i);
    assert states[..i + 2][i] == states[i];
  }

  lemma RecordStep(requests: seq<Request>, answers: seq<nat>, answer: nat)
    requires |answers| < |requests|
    ensures var n := |answers|;
            Record(requests[..n + 1], answers + [answer]) ==
            Recorded(Record(requests[..n], answers), requests[n], answer)
  {
    var n := |answers|;
    assert requests[..n + 1][..n] == requests[..n] && (answers + [answer])[..n] == answers;
  }

  /** A request for memory or for a page. */
  method ServeGet(m: Manager, request: Request, ghost asked: map<nat, nat>) returns (fault: bool, answer: nat)
    requires m.Valid() && Books(Regions(m.state), asked)
    requires (request.Get? && request.size < WORD) || request.GetPage?
    modifies m.Repr()
    ensures fault ==> SA.Empty(m.pagePool) && request.Get? && 0 < request.size <= 0x800
    ensures !fault ==>
              && m.Valid() && Books(Regions(m.state), Recorded(asked, request, answer))
              && Answered(m.Setup(), old(m.state), asked, request, answer)
  {
    fault := false;
    var size := if request.Get? then request.size else PAGE_SIZE;
    if request.Get? {
      fault, answer := m.Alloc(size);
    } else {
      answer := m.AllocPage();
    }
    if !fault && answer != 0 {
      ghost var was, b := old(Regions(m.state)), Block(answer, ServedSize(size));
      GrantIsNew(m.Setup(), m.state, was, asked, b, size);
      EnterGrant(was, asked, b, size);
    }
  }

  /** A return by free; an address other than null that the client does not hold
      is not passed on. */
  method ServePut(m: Manager, ptr: nat, asked: map<nat, nat>)
    requires m.Valid() && Books(Regions(m.state), asked)
    modifies m.Repr()
    ensures m.Valid() && Books(Regions(m.state), asked - {ptr})
  {
    if ptr in asked {
      m.Free(ptr, Block(ptr, ServedSize(asked[ptr])));
      StrikeGrant(old(Regions(m.state)), Regions(m.state), asked, ptr);
    } else {
      assert asked - {ptr} == asked;
      if ptr == 0 {
        m.Free(ptr, Block(0, 0));
      }
    }
  }

  /** The same by free_page. */
  method ServePutPage(m: Manager, ptr: nat, asked: map<nat, nat>)
    requires m.Valid() && Books(Regions(m.state), asked)
    modifies m.Repr()
    ensures m.Valid() && Books(Regions(m.state), if HoldsPage(asked, ptr) then asked - {ptr} else asked)
  {
    if HoldsPage(asked, ptr) {
      PageRegionIsPage(m.Setup(), m.state, ptr);
      m.FreePage(ptr);
      StrikeGrant(old(Regions(m.state)), Regions(m.state), asked, ptr);
    } else if ptr == 0 {
      m.FreePage(ptr);
    }
  }

  /** One request. */
  method ServeOne(m: Manager, request: Request, asked: map<nat, nat>) returns (fault: bool, answer: nat)
    requires m.Valid() && Books(Regions(m.state), asked) && (request.Get? ==> request.size < WORD)
    modifies m.Repr()
    ensures fault ==> SA.Empty(m.pagePool) && request.Get? && 0 < request.size <= 0x800
    ensures !fault ==>
              && m.Valid() && Books(Regions(m.state), Recorded(asked, request, answer))
              && Answered(m.Setup(), old(m.state), asked, request, answer)
  {
    fault, answer := false, 0;
    if request.Put? {
      ServePut(m, request.ptr, asked);
    } else if request.PutPage? {
      ServePutPage(m, request.ptr, asked);
    } else {
      fault, answer := ServeGet(m, request, asked);
    }
  }

  /** Over every sequence of requests from an empty manager: between any two the
      live regions are exactly those the client was given and has not given back,
      pairwise disjoint and each as large as was asked for; every grant is at an
      address not held at the time, and nothing is refused without need. The run
      is cut short only if the page pool runs out while a slab needs a page. */
  method Serve(m: Manager, requests: seq<Request>)
    returns (fault: bool, answers: seq<nat>, ghost states: seq<State>)
    requires m.Valid() && Regions(m.state) == {}
    requires forall i :: 0 <= i < |requests| && requests[i].Get? ==> requests[i].size < WORD
    modifies m.Repr()
    ensures Trace(m.Setup(), requests, answers, states) && states[0] == old(m.state)
    ensures if fault then
              && |answers| < |requests| && requests[|answers|].Get? && 0 < requests[|answers|].size <= 0x800
              && SA.Empty(m.pagePool)
            else |answers| == |requests| && m.Valid() && states[|answers|] == m.state
    ensures forall i, p, q ::
              0 <= i <= |answers| && HeldAt(requests, answers, i, p) && HeldAt(requests, answers, i, q) && p != q ==>
                Disjoint(RegionAt(requests, answers, i, p), RegionAt(requests, answers, i, q))
  {
    fault, answers, states := false, [], [m.state];
    var asked := map[];
    while |answers| < |requests|
      invariant !fault && m.Valid() && Trace(m.Setup(), requests, answers, states)
      invariant states[0] == old(m.state) && states[|answers|] == m.state
      invariant asked == Record(requests[..|answers|], answers)
    {
      var n, answer := |answers|, 0;
      assert answers[..n] == answers;
      fault, answer := ServeOne(m, requests[n], asked);
      if fault {
        break;
      }
      TraceStep(m.Setup(), requests, answers, states, answer, m.state);
      RecordStep(requests, answers, answer);
      asked := Recorded(asked, requests[n], answer);
      answers, states := answers + [answer], states + [m.state];
    }
    TraceDisjoint(m.Setup(), requests, answers, states);
  }

  /** Address p is held after i requests, and the region it is held with. */
  ghost predicate HeldAt(requests: seq<Request>, answers: seq<nat>, i: nat, p: nat)
    requires i <= |answers| <= |requests|
  {
    p in Record(requests[..i], answers[..i]) && Record(requests[..i], answers[..i])[p] > 0
  }

  ghost function RegionAt(requests: seq<Request>, answers: seq<nat>, i: nat, p: nat): Block
    requires i <= |answers| <= |requests| && HeldAt(requests, answers, i, p)
  {
    Block(p, ServedSize(Record(requests[..i], answers[..i])[p]))
  }

  lemma TraceDisjoint(c: Config, requests: seq<Request>, answers: seq<nat>, states: seq<State>)
    requires Trace(c, requests, answers, states)
    ensures forall i, p, q ::
              0 <= i <= |answers| && HeldAt(requests, answers, i, p) && HeldAt(requests, answers, i, q) && p != q ==>
                Disjoint(RegionAt(requests, answers, i, p), RegionAt(requests, answers, i, q))
  {
    forall i, p, q | 0 <= i <= |answers| && HeldAt(requests, answers, i, p) && HeldAt(requests, answers, i, q) && p != q
      ensures Disjoint(RegionAt(requests, answers, i, p), RegionAt(requests, answers, i, q))
    {
      TraceAt(c, requests, answers, states, i);
      HeldIsDisjoint(c, states[i], Record(requests[..i], answers[..i]), p, q);
    }
  }
}
