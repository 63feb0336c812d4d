/** The driver's life cycle: loading, starting, stopping and unloading the VMM,
    with every platform call free to fail. */
module Driver {

  const MAX_NUM_MODULES: nat := 75
  const STACK_SIZE: nat := 0x8000
  const TLS_SIZE: nat := 0x1000

  datatype Status = Unloaded | Loaded | Running | Corrupt

  datatype Code =
    | Success | InvalidArg | VmmCorrupted | InvalidState | MaxModulesReached | NoModulesAdded | PlatformError

  /** bfelf_binary_t: exec is 0 until the file is loaded. */
  datatype Module = Module(file: nat, fileSize: nat, exec: nat, execSize: nat)

  function Cores(n: nat): seq<nat> {
    seq(n, i => i)
  }

  // ---------------------------------------------------------------------------
  // What the driver asks of the platform
  // ---------------------------------------------------------------------------

  /** Requests other than for memory and to the VMM of one core. */
  datatype Request =
    | PlatformInit | ParseFile(file: nat) | RelocateImages
    | VmmInit | SetRsdp | AddModulesMdl | AddTssMdl | VmmFini

  /** A request and whether it was granted. */
  datatype Event =
    | Allocated(size: nat, ok: bool) | Asked(what: Request, ok: bool)
    | CoreInit(core: nat, ok: bool) | CoreFini(core: nat, ok: bool)

  ghost predicate AllOk(events: seq<Event>) {
    forall i :: 0 <= i < |events| ==> events[i].ok
  }

  /** Everything was granted but the last request. */
  ghost predicate LastFails(events: seq<Event>) {
    events != [] && AllOk(events[..|events| - 1]) && !events[|events| - 1].ok
  }

  /** What was logged since. */
  ghost function Since(was: seq<Event>, now: seq<Event>): seq<Event> {
    if was <= now then now[|was|..] else []
  }

  /** The first n cores are initialised, in order. */
  ghost function Started(n: nat): seq<Event> {
    seq(n, i requires 0 <= i < n => CoreInit(i, true))
  }

  /** Cores n - 1, n - 2, ... are finalised, m of them. */
  ghost function Stopped(n: nat, m: nat): seq<Event>
    requires m <= n
  {
    seq(m, i requires 0 <= i < m => CoreFini(n - 1 - i, true))
  }

  /** What stopping n cores asks for: all in reverse order, or up to the first
      that fails. */
  ghost predicate StopLog(n: nat, events: seq<Event>, ok: bool) {
    if ok then events == Stopped(n, n)
    else 0 < |events| <= n && events == Stopped(n, |events| - 1) + [CoreFini(n - |events|, false)]
  }

  /** What starting n cores asks for: all in order, or up to the first that
      fails, and then stopping those that came up. */
  ghost predicate StartLog(n: nat, events: seq<Event>, ok: bool, stopped: bool) {
    if ok then events == Started(n)
    else exists k: nat :: k < n && FailedStartLog(k, events, stopped)
  }

  ghost predicate FailedStartLog(k: nat, events: seq<Event>, stopped: bool) {
    k < |events| && events[..k] == Started(k) && events[k] == CoreInit(k, false)
    && StopLog(k, events[k + 1..], stopped)
  }

  ghost function ImageLog(i: nat, size: nat): seq<Event> {
    [Asked(ParseFile(i), true), Allocated(size, true)]
  }

  ghost function ImagesLog(modules: seq<Module>, n: nat): seq<Event>
    requires n <= |modules|
  {
    if n == 0 then [] else ImagesLog(modules, n - 1) + ImageLog(n - 1, modules[n - 1].execSize)
  }

  /** What a successful load asks for. */
  ghost function LoadLog(modules: seq<Module>, cpus: nat): seq<Event> {
    [Allocated(STACK_SIZE * 2, true), Allocated(TLS_SIZE * cpus, true)] + ImagesLog(modules, |modules|) +
    [Asked(RelocateImages, true), Asked(VmmInit, true), Asked(SetRsdp, true), Asked(AddModulesMdl, true),
     Asked(AddTssMdl, true)]
  }

  lemma {:induction false} ImagesLogOk(modules: seq<Module>, n: nat)
    requires n <= |modules|
    ensures AllOk(ImagesLog(modules, n))
  {
    if n > 0 {
      ImagesLogOk(modules, n - 1);
    }
  }

  lemma {:induction false} ImagesLogSame(a: seq<Module>, b: seq<Module>, n: nat)
    requires n <= |a| == |b| && forall i :: 0 <= i < n ==> a[i] == b[i]
    ensures ImagesLog(a, n) == ImagesLog(b, n)
  {
    if n > 0 {
      ImagesLogSame(a, b, n - 1);
    }
  }

  lemma {:induction false} LoadLogIs(was: seq<Event>, now: seq<Event>, modules: seq<Module>, cpus: nat)
    requires now == was + ([Allocated(STACK_SIZE * 2, true), Allocated(TLS_SIZE * cpus, true)] +
                           (ImagesLog(modules, |modules|) + [Asked(RelocateImages, true)])) +
                    [Asked(VmmInit, true), Asked(SetRsdp, true), Asked(AddModulesMdl, true), Asked(AddTssMdl, true)]
    ensures was <= now && Since(was, now) == LoadLog(modules, cpus)
  {
  }

  lemma LoadLogOk(modules: seq<Module>, cpus: nat)
    ensures AllOk(LoadLog(modules, cpus))
  {
    ImagesLogOk(modules, |modules|);
  }

  /** One more request, granted or not. */
  lemma OneMore(was: seq<Event>, now: seq<Event>, e: Event)
    requires was <= now && AllOk(Since(was, now))
    ensures was <= now + [e] && Since(was, now + [e]) == Since(was, now) + [e]
    ensures if e.ok then AllOk(Since(was, now + [e])) else LastFails(Since(was, now + [e]))
  {
    assert (Since(was, now) + [e])[..|Since(was, now)|] == Since(was, now);
  }

  lemma StoppedStep(was: seq<Event>, n: nat, m: nat, ok: bool, now: seq<Event>)
    requires m < n && now == was + Stopped(n, m) + [CoreFini(n - 1 - m, ok)]
    ensures ok ==> now == was + Stopped(n, m + 1)
    ensures !ok ==> was <= now && StopLog(n, Since(was, now), false)
  {
    if ok {
      assert Stopped(n, m) + [CoreFini(n - 1 - m, ok)] == Stopped(n, m + 1);
    } else {
      assert Since(was, now) == Stopped(n, m) + [CoreFini(n - 1 - m, false)];
    }
  }

  lemma StartedStep(was: seq<Event>, n: nat, ok: bool, now: seq<Event>)
    requires now == was + Started(n) + [CoreInit(n, ok)]
    ensures ok ==> now == was + Started(n + 1)
  {
    if ok {
      assert Started(n) + [CoreInit(n, ok)] == Started(n + 1);
    }
  }

  lemma FailedStart(was: seq<Event>, k: nat, failed: seq<Event>, now: seq<Event>, stopped: bool)
    requires failed == was + Started(k) + [CoreInit(k, false)] && failed <= now
    requires StopLog(k, Since(failed, now), stopped)
    ensures was <= now && FailedStartLog(k, Since(was, now), stopped)
  {
    var events := Since(was, now);
    assert events[..k] == Started(k);
    assert events[k] == failed[|was| + k];
    assert events[k + 1..] == Since(failed, now);
  }

  lemma StopLogOk(n: nat, events: seq<Event>, ok: bool)
    requires StopLog(n, events, ok)
    ensures ok <==> AllOk(events)
  {
    if !ok {
      assert !events[|events| - 1].ok;
    }
  }

  lemma SinceJoins(a: seq<Event>, b: seq<Event>, c: seq<Event>)
    requires a <= b <= c
    ensures a <= c && Since(a, c) == Since(a, b) + Since(b, c)
    ensures AllOk(Since(a, c)) <==> AllOk(Since(a, b)) && AllOk(Since(b, c))
  {
    var x, y := Since(a, b), Since(b, c);
    assert Since(a, c) == x + y;
    if AllOk(x + y) {
      forall i | 0 <= i < |x| ensures x[i].ok { assert (x + y)[i].ok; }
      forall i | 0 <= i < |y| ensures y[i].ok { assert (x + y)[|x| + i].ok; }
    }
  }

  /** A failure behind requests that were granted. */
  lemma FailsLater(was: seq<Event>, first: seq<Event>, now: seq<Event>)
    requires AllOk(first) && was + first <= now && LastFails(Since(was + first, now))
    ensures was <= now && LastFails(Since(was, now))
  {
    var rest := Since(was + first, now);
    assert Since(was, now) == first + rest;
    assert (first + rest)[..|first + rest| - 1] == first + rest[..|rest| - 1];
  }

  /** The first i images are loaded, or one more request failed. */
  ghost predicate ImagesTo(modules: seq<Module>, i: nat, was: seq<Event>, now: seq<Event>, ok: bool) {
    if ok then i <= |modules| && LoadedTo(modules, i) && now == was + ImagesLog(modules, i)
    else was <= now && LastFails(Since(was, now))
  }

  /** The image of module i is loaded, or that fails. */
  lemma NextImage(was: seq<Event>, a: seq<Module>, b: seq<Module>, i: nat, mid: seq<Event>, now: seq<Event>, ok: bool)
    requires i < |a| == |b| && LoadedTo(a, i) && (ok ==> b[i].exec != 0)
    requires forall j :: 0 <= j < |b| && j != i ==> b[j] == a[j]
    requires mid == was + ImagesLog(a, i)
    requires if ok then now == mid + ImageLog(i, b[i].execSize) else mid <= now && LastFails(Since(mid, now))
    ensures ImagesTo(b, if ok then i + 1 else i, was, now, ok)
  {
    ImagesLogSame(a, b, i);
    if !ok {
      ImagesLogOk(a, i);
      FailsLater(was, ImagesLog(a, i), now);
    }
  }

  /** The core that came up last. */
  predicate IsLast(up: seq<nat>, core: nat) {
    up != [] && up[|up| - 1] == core
  }

  ghost predicate Holds(heap: map<nat, nat>, p: nat, size: nat) {
    p in heap && heap[p] == size
  }

  /** The same files, whatever their images. */
  ghost predicate SameFiles(a: seq<Module>, b: seq<Module>) {
    |a| == |b| && forall i :: 0 <= i < |a| ==> a[i].file == b[i].file && a[i].fileSize == b[i].fileSize
  }

  /** The first i modules have an image, the others none. */
  ghost predicate LoadedTo(modules: seq<Module>, i: nat) {
    forall j :: 0 <= j < |modules| ==> (modules[j].exec != 0 <==> j < i)
  }

  ghost predicate HasImage(modules: seq<Module>, p: nat) {
    exists i :: 0 <= i < |modules| && modules[i].exec == p
  }

  /** Everything held is accounted for, each allocation once. */
  ghost predicate Accounted(modules: seq<Module>, stack: nat, stackSize: nat, tls: nat, tlsSize: nat,
                            heap: map<nat, nat>)
  {
    && (forall i :: 0 <= i < |modules| && modules[i].exec != 0 ==>
          Holds(heap, modules[i].exec, modules[i].execSize) && modules[i].exec != stack && modules[i].exec != tls)
    && (forall i, j :: 0 <= i < j < |modules| && modules[i].exec != 0 ==> modules[i].exec != modules[j].exec)
    && (tls != 0 ==> Holds(heap, tls, tlsSize) && tls != stack)
    && (stack != 0 ==> Holds(heap, stack, stackSize))
    && (forall p :: p in heap ==> p == stack || p == tls || HasImage(modules, p))
    && 0 !in heap
  }

  /** The image of module i joins, unless there was no memory for it. */
  lemma ImageJoins(modules: seq<Module>, stack: nat, stackSize: nat, tls: nat, tlsSize: nat, heap: map<nat, nat>,
                   i: nat, exec: nat, size: nat)
    requires Accounted(modules, stack, stackSize, tls, tlsSize, heap)
    requires i < |modules| && modules[i].exec == 0 && exec !in heap
    ensures Accounted(modules[i := modules[i].(exec := exec, execSize := size)], stack, stackSize, tls, tlsSize,
                      if exec == 0 then heap else heap[exec := size])
  {
    var modules' := modules[i := modules[i].(exec := exec, execSize := size)];
    forall p | p in heap && p != stack && p != tls ensures HasImage(modules', p) {
      var j :| 0 <= j < |modules| && modules[j].exec == p;
      assert modules'[j].exec == p;
    }
    assert modules'[i].exec == exec;
  }

  class Driver {
    const numCpus: nat
    var status: Status
    var modules: seq<Module>
    var stack: nat
    var stackSize: nat
    var tls: nat
    var tlsSize: nat
    var cpusStarted: nat

    /** Memory obtained from the platform and not yet returned, with its size. */
    var heap: map<nat, nat>
    /** Cores whose VMM was initialised and not yet finalised, oldest first. */
    ghost var up: seq<nat>
    /** Every request to initialise went to a core that was not up, and every
        request to finalise to the one that came up last. */
    ghost var orderly: bool
    /** Every request made so far. */
    ghost var log: seq<Event>

    ghost predicate Owned()
      reads this
    {
      Accounted(modules, stack, stackSize, tls, tlsSize, heap)
    }

    ghost predicate Empty()
      reads this
    {
      stack == 0 && tls == 0 && forall i :: 0 <= i < |modules| ==> modules[i].exec == 0
    }

    /** What holds between any two calls: an unloaded driver holds nothing, a
        loaded one has no core started, a running one has all. */
    ghost predicate Valid()
      reads this
    {
      && Owned() && |modules| <= MAX_NUM_MODULES
      && (status == Unloaded ==> Empty() && cpusStarted == 0)
      && (status == Loaded ==> Complete() && cpusStarted == 0)
      && (status == Running ==> Complete() && cpusStarted == numCpus)
      && cpusStarted <= numCpus
    }

    /** Stack, thread-local storage and every image are in place. */
    ghost predicate Complete()
      reads this
    {
      stack != 0 && tls != 0 && modules != [] && forall i :: 0 <= i < |modules| ==> modules[i].exec != 0
    }

    /** The counter tells which cores are up, 0 .. cpusStarted - 1, and all requests
        so far were in order. */
    ghost predicate Tracked()
      reads this
    {
      up == Cores(cpusStarted) && orderly
    }

    constructor (cpus: nat)
      ensures Valid() && Tracked() && status == Unloaded && heap == map[] && modules == [] && numCpus == cpus
      ensures log == []
    {
      numCpus := cpus;
      status, modules, cpusStarted := Unloaded, [], 0;
      stack, stackSize, tls, tlsSize := 0, 0, 0, 0;
      heap, up, orderly, log := map[], [], true, [];
    }

    /** Nothing but the log has changed. */
    twostate predicate Same()
      reads this
    {
      unchanged(`status, `modules, `stack, `stackSize, `tls, `tlsSize, `cpusStarted, `heap, `up, `orderly)
    }

    // -------------------------------------------------------------------------
    // Platform
    // -------------------------------------------------------------------------

    /** platform_alloc_rw, platform_alloc_rwe: null, or memory not in use. */
    method PlatformAlloc(size: nat) returns (p: nat)
      modifies this`heap, this`log
      ensures p != 0 ==> p !in old(heap) && heap == old(heap)[p := size]
      ensures p == 0 ==> heap == old(heap)
      ensures log == old(log) + [Allocated(size, p != 0)]
    {
      p :| p == 0 || p !in heap;
      log := log + [Allocated(size, p != 0)];
      if p != 0 {
        heap := heap[p := size];
      }
    }

    /** platform_free_rw, platform_free_rwe: only what is held, with its size. */
    method PlatformFree(p: nat, size: nat)
      requires Holds(heap, p, size)
      modifies this`heap
      ensures heap == old(heap) - {p}
    {
      heap := heap - {p};
    }

    /** Any other call into the platform or the VMM. */
    method PlatformCall(what: Request) returns (ok: bool)
      modifies this`log
      ensures log == old(log) + [Asked(what, ok)]
    {
      ok := *;
      log := log + [Asked(what, ok)];
    }

    /** BF_REQUEST_VMM_INIT */
    method CallVmmInit(core: nat) returns (ok: bool)
      modifies this`up, this`orderly, this`log
      ensures up == if ok then old(up) + [core] else old(up)
      ensures orderly == (old(orderly) && core !in old(up))
      ensures log == old(log) + [CoreInit(core, ok)]
    {
      orderly := orderly && core !in up;
      ok := *;
      log := log + [CoreInit(core, ok)];
      if ok {
        up := up + [core];
      }
    }

    /** BF_REQUEST_VMM_FINI: a core that came up last goes down; what the request
        does to any other core is left open. */
    method CallVmmFini(core: nat) returns (ok: bool)
      modifies this`up, this`orderly, this`log
      ensures orderly == (old(orderly) && IsLast(old(up), core))
      ensures IsLast(old(up), core) ==> up == if ok then old(up)[..|old(up)| - 1] else old(up)
      ensures log == old(log) + [CoreFini(core, ok)]
    {
      ghost var last := IsLast(up, core);
      orderly := orderly && last;
      ok := *;
      log := log + [CoreFini(core, ok)];
      if ok {
        up := if last then up[..|up| - 1] else up;
      }
    }

    // -------------------------------------------------------------------------
    // Reset
    // -------------------------------------------------------------------------

    /** The loop of common_reset over the images. */
    method FreeImages()
      requires Owned()
      modifies this`heap
      ensures forall p :: p in heap <==> p in old(heap) && !HasImage(modules, p)
      ensures forall p :: p in heap ==> heap[p] == old(heap)[p]
    {
      var i := 0;
      while i < |modules|
        invariant 0 <= i <= |modules|
        invariant forall p :: p in heap <==> p in old(heap) && forall j :: 0 <= j < i ==> modules[j].exec != p
        invariant forall p :: p in heap ==> heap[p] == old(heap)[p]
      {
        if modules[i].exec != 0 {
          PlatformFree(modules[i].exec, modules[i].execSize);
        }
        i := i + 1;
      }
    }

    /** common_reset: everything is returned to the platform. */
    method Reset()
      requires Owned()
      modifies this
      ensures heap == map[] && modules == [] && stack == 0 && tls == 0 && cpusStarted == 0 && status == Unloaded
      ensures Valid() && up == old(up) && orderly == old(orderly) && log == old(log)
    {
      FreeImages();
      assert tls != 0 ==> !HasImage(modules, tls);
      assert stack != 0 ==> !HasImage(modules, stack);
      modules := [];
      cpusStarted := 0;
      status := Unloaded;
      FreeWorkspace();
    }

    /** The end of common_reset: thread-local storage and stack. */
    method FreeWorkspace()
      requires forall p :: p in heap ==> p == stack || p == tls
      requires 0 !in heap && (tls != 0 ==> Holds(heap, tls, tlsSize) && tls != stack)
      requires stack != 0 ==> Holds(heap, stack, stackSize)
      modifies this`heap, this`tls, this`stack
      ensures heap == map[] && tls == 0 && stack == 0
    {
      if tls != 0 {
        PlatformFree(tls, tlsSize);
      }
      if stack != 0 {
        PlatformFree(stack, stackSize);
      }
      tls := 0;
      stack := 0;
      assert heap == map[];
    }

    /** common_init; cores that are up at that point are lost track of. */
    method Init() returns (code: Code)
      requires Valid()
      modifies this
      ensures Valid() && up == old(up) && orderly == old(orderly)
      ensures code == Success ==> status == Unloaded && heap == map[] && modules == [] && cpusStarted == 0
      ensures code != Success ==> Same()
      ensures log == old(log) + [Asked(PlatformInit, code == Success)]
    {
      var ok := PlatformCall(PlatformInit);
      if !ok {
        return PlatformError;
      }
      Reset();
      return Success;
    }

    /** common_add_module */
    method AddModule(file: nat, size: nat) returns (code: Code)
      requires Valid()
      modifies this`modules
      ensures Valid()
      ensures code == (if file == 0 || size == 0 then InvalidArg
                       else if status == Corrupt then VmmCorrupted
                       else if status != Unloaded then InvalidState
                       else if |old(modules)| >= MAX_NUM_MODULES then MaxModulesReached
                       else Success)
      ensures modules == if code == Success then old(modules) + [Module(file, size, 0, 0)] else old(modules)
    {
      if file == 0 || size == 0 {
        return InvalidArg;
      }
      match status {
        case Corrupt => return VmmCorrupted;
        case Loaded => return InvalidState;
        case Running => return InvalidState;
        case Unloaded =>
      }
      if |modules| >= MAX_NUM_MODULES {
        return MaxModulesReached;
      }
      modules := modules + [Module(file, size, 0, 0)];
      assert forall p :: p in heap ==> p == stack || p == tls;
      return Success;
    }

    // -------------------------------------------------------------------------
    // Load and unload
    // -------------------------------------------------------------------------

    /** Part way through loading: still unloaded, holding what it has so far. */
    ghost predicate Loading()
      reads this
    {
      Owned() && status == Unloaded && cpusStarted == 0 && |modules| <= MAX_NUM_MODULES
    }

    /** private_setup_stack */
    method SetupStack() returns (ok: bool)
      requires Loading() && stack == 0
      modifies this`stack, this`stackSize, this`heap, this`log
      ensures Loading() && ok == (stack != 0) && stackSize == STACK_SIZE * 2
      ensures log == old(log) + [Allocated(STACK_SIZE * 2, ok)]
    {
      stackSize := STACK_SIZE * 2;
      stack := PlatformAlloc(stackSize);
      ok := stack != 0;
    }

    /** private_setup_tls */
    method SetupTls() returns (ok: bool)
      requires Loading() && tls == 0
      modifies this`tls, this`tlsSize, this`heap, this`log
      ensures Loading() && ok == (tls != 0) && tlsSize == TLS_SIZE * numCpus
      ensures log == old(log) + [Allocated(TLS_SIZE * numCpus, ok)]
    {
      tlsSize := TLS_SIZE * numCpus;
      tls := PlatformAlloc(tlsSize);
      ok := tls != 0;
    }

    /** private_load_binary of module i */
    method LoadBinary(i: nat) returns (ok: bool)
      requires Loading() && i < |modules| && modules[i].exec == 0
      modifies this`modules, this`heap, this`log
      ensures Loading() && SameFiles(modules, old(modules))
      ensures forall j :: 0 <= j < |modules| && j != i ==> modules[j] == old(modules)[j]
      ensures modules[i] == old(modules)[i].(exec := modules[i].exec, execSize := modules[i].execSize)
      ensures ok == (modules[i].exec != 0)
      ensures if ok then log == old(log) + ImageLog(i, modules[i].execSize)
              else old(log) <= log && LastFails(Since(old(log), log))
    {
      ok := PlatformCall(ParseFile(i));
      if !ok {
        return;
      }
      var size: nat := *;
      var exec := PlatformAlloc(size);
      ImageJoins(modules, stack, stackSize, tls, tlsSize, old(heap), i, exec, size);
      modules := modules[i := modules[i].(exec := exec, execSize := size)];
      ok := exec != 0;
      assert log == old(log) + [Asked(ParseFile(i), true), Allocated(size, ok)];
    }

    /** The loop of bfelf_load over the modules. */
    method LoadImages() returns (ok: bool)
      requires Loading() && forall i :: 0 <= i < |modules| ==> modules[i].exec == 0
      modifies this`modules, this`heap, this`log
      ensures Loading() && SameFiles(modules, old(modules))
      ensures ok ==> forall i :: 0 <= i < |modules| ==> modules[i].exec != 0
      ensures if ok then log == old(log) + ImagesLog(modules, |modules|)
              else old(log) <= log && LastFails(Since(old(log), log))
    {
      ok := true;
      var i := 0;
      while ok && i < |modules|
        invariant 0 <= i <= |modules| && Loading() && SameFiles(modules, old(modules))
        invariant ImagesTo(modules, i, old(log), log, ok)
        decreases ok, |modules| - i
      {
        ghost var before, was := modules, log;
        ok := LoadBinary(i);
        NextImage(old(log), before, modules, i, was, log, ok);
        i := if ok then i + 1 else i;
      }
    }

    /** bfelf_load: the images of all modules, then their relocation. It rejects
        as many modules as common_add_module can collect. */
    method LoadBinaries() returns (ok: bool)
      requires Loading() && forall i :: 0 <= i < |modules| ==> modules[i].exec == 0
      modifies this`modules, this`heap, this`log
      ensures Loading() && SameFiles(modules, old(modules))
      ensures ok ==> 0 < |modules| < MAX_NUM_MODULES && forall i :: 0 <= i < |modules| ==> modules[i].exec != 0
      ensures |modules| == 0 || |modules| >= MAX_NUM_MODULES ==> !ok && log == old(log)
      ensures 0 < |modules| < MAX_NUM_MODULES ==>
                if ok then log == old(log) + ImagesLog(modules, |modules|) + [Asked(RelocateImages, true)]
                else old(log) <= log && LastFails(Since(old(log), log))
    {
      if |modules| == 0 || |modules| >= MAX_NUM_MODULES {
        return false;
      }
      ok := LoadImages();
      if !ok {
        return;
      }
      ok := PlatformCall(RelocateImages);
      if !ok {
        ImagesLogOk(modules, |modules|);
        FailsLater(old(log), ImagesLog(modules, |modules|), log);
      }
    }

    /** common_unload_vmm; also the roll-back of a load that failed part way. It
        succeeds iff the VMM, if there is one, does. */
    method Unload() returns (code: Code)
      requires Loading() || Valid()
      modifies this
      ensures Valid() && up == old(up) && orderly == old(orderly)
      ensures old(status) == Corrupt ==> code == VmmCorrupted && unchanged(this)
      ensures old(status) == Running ==> code == InvalidState && unchanged(this)
      ensures old(status) == Unloaded ==> code == Success && log == old(log)
      ensures old(status) == Loaded ==> log == old(log) + [Asked(VmmFini, code == Success)]
      ensures code == Success ==> status == Unloaded && heap == map[] && modules == [] && cpusStarted == 0
      ensures code != Success && old(status) == Loaded ==>
                && code == PlatformError && status == Corrupt && heap == old(heap) && modules == old(modules)
                && cpusStarted == 0
    {
      match status
      case Corrupt => return VmmCorrupted;
      case Running => return InvalidState;
      case Unloaded =>
        Reset();
        return Success;
      case Loaded =>
        var ok := PlatformCall(VmmFini);
        if !ok {
          status := Corrupt;
          return PlatformError;
        }
        Reset();
        return Success;
    }

    /** The last steps of common_load_vmm, up to the first failure. */
    method LoadCalls() returns (ok: bool)
      modifies this`log
      ensures ok ==> log == old(log) + [Asked(VmmInit, true), Asked(SetRsdp, true), Asked(AddModulesMdl, true),
                                        Asked(AddTssMdl, true)]
      ensures !ok ==> old(log) <= log && LastFails(Since(old(log), log))
    {
      ok := PlatformCall(VmmInit);
      OneMore(old(log), old(log), log[|old(log)|]);
      if !ok { return; }
      ghost var l := log;
      ok := PlatformCall(SetRsdp);
      OneMore(old(log), l, log[|l|]);
      if !ok { return; }
      l := log;
      ok := PlatformCall(AddModulesMdl);
      OneMore(old(log), l, log[|l|]);
      if !ok { return; }
      l := log;
      ok := PlatformCall(AddTssMdl);
      OneMore(old(log), l, log[|l|]);
    }

    /** The first steps: stack and thread-local storage. */
    method LoadWorkspace() returns (ok: bool)
      requires Loading() && Empty()
      modifies this`stack, this`stackSize, this`tls, this`tlsSize, this`heap, this`log
      ensures Loading() && (ok ==> stack != 0 && tls != 0)
      ensures ok ==> log == old(log) + [Allocated(STACK_SIZE * 2, true), Allocated(TLS_SIZE * numCpus, true)]
      ensures !ok ==> old(log) <= log && LastFails(Since(old(log), log))
    {
      ok := SetupStack();
      OneMore(old(log), old(log), log[|old(log)|]);
      if !ok { return; }
      ghost var l := log;
      ok := SetupTls();
      OneMore(old(log), l, log[|l|]);
    }

    /** The steps of common_load_vmm up to the first failure. */
    method LoadSteps() returns (ok: bool)
      requires Loading() && Empty() && modules != []
      modifies this`stack, this`stackSize, this`tls, this`tlsSize, this`modules, this`heap, this`log
      ensures Loading() && SameFiles(modules, old(modules)) && (ok ==> Complete() && |modules| < MAX_NUM_MODULES)
      ensures old(log) <= log
      ensures ok ==> Since(old(log), log) == LoadLog(modules, numCpus)
      ensures !ok && |modules| < MAX_NUM_MODULES ==> LastFails(Since(old(log), log))
    {
      ok := LoadWorkspace();
      if !ok { return; }
      ghost var first := log[|old(log)|..];
      assert log == old(log) + first && AllOk(first);
      ok := LoadBinaries();
      if !ok {
        if |modules| < MAX_NUM_MODULES { FailsLater(old(log), first, log); }
        return;
      }
      ghost var images := ImagesLog(modules, |modules|) + [Asked(RelocateImages, true)];
      ImagesLogOk(modules, |modules|);
      assert log == old(log) + (first + images) && AllOk(first + images);
      ok := LoadCalls();
      if ok {
        LoadLogIs(old(log), log, modules, numCpus);
      } else {
        FailsLater(old(log), first + images, log);
      }
    }

    /** common_load_vmm: all or nothing. It succeeds iff every request is granted
        and there are fewer than MAX_NUM_MODULES modules. A failure leaves an
        empty, unloaded driver, without the modules that had been added. */
    method Load() returns (code: Code)
      requires Valid()
      modifies this
      ensures Valid() && up == old(up) && orderly == old(orderly)
      ensures old(status) == Corrupt ==> code == VmmCorrupted && unchanged(this)
      ensures old(status) == Loaded ==> code == Success && unchanged(this)
      ensures old(status) == Running ==> code == InvalidState && unchanged(this)
      ensures old(status) == Unloaded && old(modules) == [] ==> code == NoModulesAdded && unchanged(this)
      ensures old(status) == Unloaded && old(modules) != [] ==>
                if code == Success then
                  status == Loaded && |modules| < MAX_NUM_MODULES && SameFiles(modules, old(modules))
                else code == PlatformError && status == Unloaded && heap == map[] && modules == []
      ensures old(log) <= log
      ensures old(status) == Unloaded && 0 < |old(modules)| < MAX_NUM_MODULES ==>
                if code == Success then Since(old(log), log) == LoadLog(modules, numCpus)
                else LastFails(Since(old(log), log))
    {
      match status {
        case Corrupt => return VmmCorrupted;
        case Loaded => return Success;
        case Running => return InvalidState;
        case Unloaded =>
      }
      if |modules| == 0 {
        return NoModulesAdded;
      }
      var ok := LoadSteps();
      if ok {
        status := Loaded;
        return Success;
      }
      var ignored := Unload();
      return PlatformError;
    }

    // -------------------------------------------------------------------------
    // Start and stop
    // -------------------------------------------------------------------------

    /** The state in which stop may find the driver: running, or part way through
        starting. */
    ghost predicate Stoppable()
      reads this
    {
      && Owned() && |modules| <= MAX_NUM_MODULES && Complete()
      && (status == Loaded || status == Running) && cpusStarted <= numCpus
    }

    /** The loop of common_stop_vmm. */
    method StopCores() returns (ok: bool)
      modifies this`cpusStarted, this`up, this`orderly, this`log
      ensures cpusStarted <= old(cpusStarted) && (old(Tracked()) ==> Tracked() && up <= old(up))
      ensures if ok then cpusStarted == 0 else 0 < cpusStarted
      ensures old(log) <= log && StopLog(old(cpusStarted), Since(old(log), log), ok)
    {
      var cpuid := cpusStarted - 1;
      while cpuid >= 0
        invariant -1 <= cpuid == cpusStarted - 1 && cpusStarted <= old(cpusStarted)
        invariant old(Tracked()) ==> Tracked() && up <= old(up)
        invariant log == old(log) + Stopped(old(cpusStarted), old(cpusStarted) - cpusStarted)
      {
        assert Tracked() ==> IsLast(up, cpuid);
        ok := CallVmmFini(cpuid);
        StoppedStep(old(log), old(cpusStarted), old(cpusStarted) - cpusStarted, ok, log);
        if !ok {
          return;
        }
        cpusStarted := cpusStarted - 1;
        assert Cores(cpusStarted + 1)[..cpusStarted] == Cores(cpusStarted);
        cpuid := cpuid - 1;
      }
      return true;
    }

    /** common_stop_vmm: the cores are finalised in reverse order; the first that
        fails leaves the driver corrupt with the remaining cores up. */
    method Stop() returns (code: Code)
      requires Stoppable() || Valid()
      modifies this`status, this`cpusStarted, this`up, this`orderly, this`log
      ensures Valid() && (old(Tracked()) ==> Tracked())
      ensures old(status) == Corrupt ==> code == VmmCorrupted && unchanged(this)
      ensures old(status) == Unloaded ==> code == InvalidState && unchanged(this)
      ensures old(status) == Loaded || old(status) == Running ==>
                if code == Success then status == Loaded
                else code == PlatformError && status == Corrupt && old(cpusStarted) > 0
      ensures old(Tracked()) && (old(status) == Loaded || old(status) == Running) ==>
                if code == Success then up == [] else 0 < |up| <= |old(up)| && up <= old(up)
      ensures old(log) <= log
      ensures old(status) == Loaded || old(status) == Running ==>
                StopLog(old(cpusStarted), Since(old(log), log), code == Success)
    {
      match status {
        case Corrupt => return VmmCorrupted;
        case Unloaded => return InvalidState;
        case _ =>
      }
      var ok := StopCores();
      if !ok {
        status := Corrupt;
        return PlatformError;
      }
      status := Loaded;
      return Success;
    }

    /** The loop of common_start_vmm: the cores up to the first that fails. */
    method StartCores() returns (ok: bool)
      modifies this`cpusStarted, this`up, this`orderly, this`log
      ensures cpusStarted <= numCpus && (old(Tracked()) && old(cpusStarted) == 0 ==> Tracked())
      ensures if ok then cpusStarted == numCpus && log == old(log) + Started(numCpus)
              else cpusStarted < numCpus && log == old(log) + Started(cpusStarted) + [CoreInit(cpusStarted, false)]
    {
      var cpuid := 0;
      cpusStarted := 0;
      while cpuid < numCpus
        invariant 0 <= cpuid == cpusStarted <= numCpus
        invariant old(Tracked()) && old(cpusStarted) == 0 ==> Tracked()
        invariant log == old(log) + Started(cpuid)
      {
        ok := CallVmmInit(cpuid);
        StartedStep(old(log), cpuid, ok, log);
        if !ok {
          return;
        }
        cpusStarted := cpusStarted + 1;
        assert Cores(cpusStarted - 1) + [cpuid] == Cores(cpusStarted);
        cpuid := cpuid + 1;
      }
      return true;
    }

    /** common_start_vmm: all cores, or a roll-back of those that came up. It
        succeeds iff every core does. */
    method Start() returns (code: Code)
      requires Valid()
      modifies this`status, this`cpusStarted, this`up, this`orderly, this`log
      ensures Valid() && (old(Tracked()) ==> Tracked())
      ensures old(status) == Corrupt ==> code == VmmCorrupted && unchanged(this)
      ensures old(status) == Running ==> code == Success && unchanged(this)
      ensures old(status) == Unloaded ==> code == InvalidState && unchanged(this)
      ensures old(status) == Loaded ==>
                if code == Success then status == Running
                else code == PlatformError && (status == Loaded || status == Corrupt)
      ensures old(Tracked()) && old(status) == Loaded ==>
                if code == Success then up == Cores(numCpus)
                else (status == Loaded && up == []) || (status == Corrupt && up != [])
      ensures old(log) <= log
      ensures old(status) == Loaded ==>
                StartLog(numCpus, Since(old(log), log), code == Success, status == Loaded)
    {
      match status {
        case Corrupt => return VmmCorrupted;
        case Running => return Success;
        case Unloaded => return InvalidState;
        case Loaded =>
      }
      var ok := StartCores();
      if !ok {
        ghost var k, failed := cpusStarted, log;
        var ignored := Stop();
        FailedStart(old(log), k, failed, log, status == Loaded);
        return PlatformError;
      }
      status := Running;
      return Success;
    }

    /** common_fini: stop, unload, reset; a corrupt VMM stays as it is. */
    method Fini() returns (code: Code)
      requires Valid()
      modifies this
      ensures Valid() && (old(Tracked()) ==> Tracked())
      ensures old(status) == Corrupt ==> unchanged(this)
      ensures old(status) == Unloaded ==> code == Success
      ensures if code == Success then status == Unloaded && heap == map[] && modules == []
              else code == VmmCorrupted && status == Corrupt
      ensures old(Tracked()) && code == Success ==> up == []
      ensures old(log) <= log && (code == Success <==> old(status) != Corrupt && AllOk(Since(old(log), log)))
    {
      if status == Running {
        var stopped := Stop();
        StopLogOk(old(cpusStarted), Since(old(log), log), stopped == Success);
      }
      ghost var mid := log;
      if status == Loaded {
        var unloaded := Unload();
        assert Since(mid, log)[0] == Asked(VmmFini, unloaded == Success);
      }
      SinceJoins(old(log), mid, log);
      if status == Corrupt {
        return VmmCorrupted;
      }
      if |modules| > 0 {
        Reset();
      }
      return Success;
    }
  }

  /** The calls into the driver. */
  datatype Call =
    | CallInit | CallAddModule(file: nat, size: nat) | CallLoad | CallUnload | CallStart | CallStop | CallFini

  /** The transitions of the life cycle. Only a successful common_init leads out
      of the corrupt state. */
  predicate Follows(before: Status, c: Call, code: Code, after: Status) {
    if c == CallInit then after == if code == Success then Unloaded else before
    else
      match before
      case Corrupt => after == Corrupt && (c.CallAddModule? || code == VmmCorrupted)
      case Unloaded => after == Unloaded || (after == Loaded && c == CallLoad && code == Success)
      case Loaded =>
        || after == Loaded
        || (after == Running && c == CallStart && code == Success)
        || (after == Unloaded && (c == CallUnload || c == CallFini) && code == Success)
        || (after == Corrupt && (c == CallUnload || c == CallFini || c == CallStart) && code != Success)
      case Running =>
        || after == Running
        || (after == Loaded && c == CallStop && code == Success)
        || (after == Unloaded && c == CallFini && code == Success)
        || (after == Corrupt && (c == CallStop || c == CallFini) && code != Success)
  }

  /** What a call does when every request is granted: the new status, the number
      of modules and the code. */
  function Ideal(s: Status, n: nat, c: Call): (Status, nat, Code) {
    match c
    case CallInit => (Unloaded, 0, Success)
    case CallAddModule(file, size) =>
      if file == 0 || size == 0 then (s, n, InvalidArg)
      else if s == Corrupt then (s, n, VmmCorrupted)
      else if s != Unloaded then (s, n, InvalidState)
      else if n >= MAX_NUM_MODULES then (s, n, MaxModulesReached)
      else (s, n + 1, Success)
    case CallLoad =>
      if s == Corrupt then (s, n, VmmCorrupted)
      else if s == Loaded then (s, n, Success)
      else if s == Running then (s, n, InvalidState)
      else if n == 0 then (s, n, NoModulesAdded)
      else if n >= MAX_NUM_MODULES then (Unloaded, 0, PlatformError)
      else (Loaded, n, Success)
    case CallUnload =>
      if s == Corrupt then (s, n, VmmCorrupted)
      else if s == Running then (s, n, InvalidState)
      else (Unloaded, 0, Success)
    case CallStart =>
      if s == Corrupt then (s, n, VmmCorrupted)
      else if s == Unloaded then (s, n, InvalidState)
      else (Running, n, Success)
    case CallStop =>
      if s == Corrupt then (s, n, VmmCorrupted)
      else if s == Unloaded then (s, n, InvalidState)
      else (Loaded, n, Success)
    case CallFini =>
      if s == Corrupt then (s, n, VmmCorrupted) else (Unloaded, 0, Success)
  }

  lemma StartLogOk(n: nat, events: seq<Event>, ok: bool, stopped: bool)
    requires StartLog(n, events, ok, stopped)
    ensures ok <==> AllOk(events)
  {
    if !ok {
      var k: nat :| k < n && FailedStartLog(k, events, stopped);
      assert !events[k].ok;
    }
  }

  lemma LastFailsNotOk(events: seq<Event>)
    requires LastFails(events)
    ensures !AllOk(events)
  {
    assert !events[|events| - 1].ok;
  }

  /** The codes of an operation that may ask the platform follow from what was
      granted. */
  method MakeAskingCall(d: Driver, c: Call) returns (code: Code)
    requires d.Valid() && (c == CallInit || c == CallLoad || c == CallUnload || c == CallStart || c == CallStop)
    modifies d
    ensures d.Valid() && Follows(old(d.status), c, code, d.status) && old(d.log) <= d.log
    ensures old(d.Tracked()) ==> (d.Tracked() <==> !(c == CallInit && code == Success && old(d.cpusStarted) > 0))
    ensures old(d.status) == Corrupt && d.status == Corrupt ==>
              d.heap == old(d.heap) && d.up == old(d.up) && d.modules == old(d.modules)
    ensures AllOk(Since(old(d.log), d.log)) ==>
              (d.status, |d.modules|, code) == Ideal(old(d.status), |old(d.modules)|, c)
  {
    assert |Cores(d.cpusStarted)| == d.cpusStarted;
    match c
    case CallInit =>
      code := d.Init();
      assert Since(old(d.log), d.log)[0] == Asked(PlatformInit, code == Success);
    case CallLoad =>
      code := d.Load();
      if old(d.status) == Unloaded && 0 < |old(d.modules)| < MAX_NUM_MODULES && code != Success {
        LastFailsNotOk(Since(old(d.log), d.log));
      }
    case CallUnload =>
      code := d.Unload();
      if old(d.status) == Loaded {
        assert Since(old(d.log), d.log)[0] == Asked(VmmFini, code == Success);
      }
    case CallStart =>
      code := d.Start();
      if old(d.status) == Loaded {
        StartLogOk(d.numCpus, Since(old(d.log), d.log), code == Success, d.status == Loaded);
      }
    case CallStop =>
      code := d.Stop();
      if old(d.status) == Loaded || old(d.status) == Running {
        StopLogOk(old(d.cpusStarted), Since(old(d.log), d.log), code == Success);
      }
  }

  /** One call, in whatever state. If every request is granted it does what it is
      for. The counter loses track of the cores exactly when common_init resets the
      driver while some are up. */
  method MakeCall(d: Driver, c: Call) returns (code: Code)
    requires d.Valid()
    modifies d
    ensures d.Valid() && Follows(old(d.status), c, code, d.status) && old(d.log) <= d.log
    ensures old(d.Tracked()) ==> (d.Tracked() <==> !(c == CallInit && code == Success && old(d.cpusStarted) > 0))
    ensures old(d.status) == Corrupt && d.status == Corrupt ==>
              d.heap == old(d.heap) && d.up == old(d.up) && d.modules == old(d.modules)
    ensures AllOk(Since(old(d.log), d.log)) ==>
              (d.status, |d.modules|, code) == Ideal(old(d.status), |old(d.modules)|, c)
  {
    match c {
      case CallAddModule(file, size) => code := d.AddModule(file, size);
      case CallFini => code := d.Fini();
      case _ => code := MakeAskingCall(d, c);
    }
  }

  /** The states and codes of a call sequence when every request is granted. */
  function IdealRun(s: Status, n: nat, calls: seq<Call>): (Status, nat, seq<Code>)
    decreases |calls|
  {
    if calls == [] then (s, n, [])
    else
      var (s', n', codes) := IdealRun(s, n, calls[..|calls| - 1]);
      var (s'', n'', code) := Ideal(s', n', calls[|calls| - 1]);
      (s'', n'', codes + [code])
  }

  lemma IdealSnoc(s: Status, n: nat, calls: seq<Call>, c: Call)
    ensures var (s', n', codes) := IdealRun(s, n, calls);
            var (s'', n'', code) := Ideal(s', n', c);
            IdealRun(s, n, calls + [c]) == (s'', n'', codes + [code])
  {
    assert (calls + [c])[..|calls|] == calls;
  }

  lemma {:induction false} IdealAdds(adds: seq<Call>)
    requires |adds| <= MAX_NUM_MODULES
    requires forall i :: 0 <= i < |adds| ==> adds[i].CallAddModule? && adds[i].file != 0 && adds[i].size != 0
    ensures IdealRun(Unloaded, 0, adds).0 == Unloaded && IdealRun(Unloaded, 0, adds).1 == |adds|
  {
    if adds != [] {
      IdealAdds(adds[..|adds| - 1]);
    }
  }

  /** In particular adding modules, loading and starting leads to a running VMM,
      if there are fewer than MAX_NUM_MODULES; otherwise the load fails and takes
      the modules with it. */
  lemma IdealLifeCycle(adds: seq<Call>)
    requires 0 < |adds| <= MAX_NUM_MODULES
    requires forall i :: 0 <= i < |adds| ==> adds[i].CallAddModule? && adds[i].file != 0 && adds[i].size != 0
    ensures var r := IdealRun(Unloaded, 0, adds + [CallLoad] + [CallStart]);
            if |adds| < MAX_NUM_MODULES then r.0 == Running && r.1 == |adds| else r.0 == Unloaded && r.1 == 0
  {
    IdealAdds(adds);
    IdealSnoc(Unloaded, 0, adds, CallLoad);
    IdealSnoc(Unloaded, 0, adds + [CallLoad], CallStart);
  }

  /** What a call sequence went through: the states, and the counter of started
      cores, before each call and at the end. */
  datatype Log = Log(codes: seq<Code>, states: seq<Status>, cores: seq<nat>)

  /** common_init never found a core started. */
  predicate InitsFindNoCores(calls: seq<Call>, log: Log)
    requires |log.codes| <= |calls| && |log.codes| <= |log.cores|
  {
    forall i :: 0 <= i < |log.codes| ==>
      !(calls[i] == CallInit && log.codes[i] == Success && log.cores[i] > 0)
  }

  /** Every call so far moved along the life cycle. */
  ghost predicate Logged(calls: seq<Call>, log: Log, start: Status, status: Status, cores: nat) {
    && |log.codes| <= |calls| && |log.states| == |log.cores| == |log.codes| + 1
    && log.states[0] == start && log.states[|log.codes|] == status && log.cores[|log.codes|] == cores
    && forall i :: 0 <= i < |log.codes| ==> Follows(log.states[i], calls[i], log.codes[i], log.states[i + 1])
  }

  lemma LoggedStep(calls: seq<Call>, was: Log, start: Status, status: Status, cores: nat,
                   code: Code, status': Status, cores': nat)
    requires Logged(calls, was, start, status, cores) && |was.codes| < |calls|
    requires Follows(status, calls[|was.codes|], code, status')
    ensures Logged(calls, Log(was.codes + [code], was.states + [status'], was.cores + [cores']), start, status', cores')
  {
  }

  /** The first calls went as they do when every request is granted. */
  ghost predicate WentIdeally(start: Status, n: nat, calls: seq<Call>, k: nat, status: Status, modules: nat,
                              codes: seq<Code>)
    requires k <= |calls|
  {
    (status, modules, codes) == IdealRun(start, n, calls[..k])
  }

  lemma IdealStep(start: Status, n: nat, calls: seq<Call>, k: nat, s: Status, m: nat, codes: seq<Code>,
                  s': Status, m': nat, code: Code)
    requires k < |calls| && WentIdeally(start, n, calls, k, s, m, codes) && (s', m', code) == Ideal(s, m, calls[k])
    ensures WentIdeally(start, n, calls, k + 1, s', m', codes + [code])
  {
    assert calls[..k + 1][..k] == calls[..k];
  }

  /** If no reset in the log found cores, none in its beginning did. */
  lemma InitsStep(calls: seq<Call>, was: Log, log: Log)
    requires |log.codes| == |was.codes| + 1 <= |calls| && |was.cores| == |log.codes| && |log.cores| == |log.codes| + 1
    requires log.codes[..|was.codes|] == was.codes && log.cores[..|was.cores|] == was.cores
    ensures InitsFindNoCores(calls, log) ==>
              && InitsFindNoCores(calls, was)
              && var n := |was.codes|; !(calls[n] == CallInit && log.codes[n] == Success && was.cores[n] > 0)
  {
    if InitsFindNoCores(calls, log) {
      forall i | 0 <= i < |was.codes|
        ensures !(calls[i] == CallInit && was.codes[i] == Success && was.cores[i] > 0)
      {
        assert log.codes[i] == log.codes[..|was.codes|][i] && log.cores[i] == log.cores[..|was.cores|][i];
      }
      assert log.cores[|was.codes|] == log.cores[..|was.cores|][|was.codes|];
    }
  }

  /** The driver between two calls, as a value. */
  datatype Snapshot = Snapshot(status: Status, modules: nat, cores: nat, tracked: bool, log: seq<Event>)

  /** How far a call sequence has come since the driver was at start. */
  ghost predicate Progress(calls: seq<Call>, log: Log, start: Snapshot, now: Snapshot) {
    && Logged(calls, log, start.status, now.status, now.cores)
    && (InitsFindNoCores(calls, log) ==> now.tracked)
    && start.log <= now.log
    && (AllOk(Since(start.log, now.log)) ==>
          WentIdeally(start.status, start.modules, calls, |log.codes|, now.status, now.modules, log.codes))
  }

  /** What one call does, as a value. */
  ghost predicate Moves(before: Snapshot, c: Call, code: Code, after: Snapshot) {
    && Follows(before.status, c, code, after.status) && before.log <= after.log
    && (before.tracked ==> (after.tracked <==> !(c == CallInit && code == Success && before.cores > 0)))
    && (AllOk(Since(before.log, after.log)) ==>
          (after.status, after.modules, code) == Ideal(before.status, before.modules, c))
  }

  lemma ProgressStep(calls: seq<Call>, was: Log, start: Snapshot, before: Snapshot, code: Code, after: Snapshot)
    requires Progress(calls, was, start, before) && |was.codes| < |calls|
    requires Moves(before, calls[|was.codes|], code, after)
    ensures Progress(calls, Log(was.codes + [code], was.states + [after.status], was.cores + [after.cores]), start,
                     after)
  {
    var log := Log(was.codes + [code], was.states + [after.status], was.cores + [after.cores]);
    LoggedStep(calls, was, start.status, before.status, before.cores, code, after.status, after.cores);
    InitsStep(calls, was, log);
    SinceJoins(start.log, before.log, after.log);
    if AllOk(Since(start.log, after.log)) {
      IdealStep(start.status, start.modules, calls, |was.codes|, before.status, before.modules, was.codes,
                after.status, after.modules, code);
    }
  }

  lemma ProgressDone(calls: seq<Call>, log: Log, start: Snapshot, now: Snapshot)
    requires Progress(calls, log, start, now) && |log.codes| == |calls|
    ensures AllOk(Since(start.log, now.log)) ==>
              (now.status, now.modules, log.codes) == IdealRun(start.status, start.modules, calls)
  {
    assert calls[..|calls|] == calls;
  }

  ghost function Snap(d: Driver): Snapshot
    reads d
  {
    Snapshot(d.status, |d.modules|, d.cpusStarted, d.Tracked(), d.log)
  }

  /** Safety of every call sequence, whichever platform calls fail: every call
      moves along the life cycle and leaves everything held accounted for, so
      nothing is held once the driver is unloaded; and as long as common_init
      finds no cores started, the counter tells exactly which cores are up, and
      cores are initialised and finalised in order. If every request is granted,
      each call does what it is for. */
  method MakeCalls(d: Driver, calls: seq<Call>) returns (log: Log)
    requires d.Valid() && d.Tracked()
    modifies d
    ensures d.Valid() && |log.codes| == |calls| && |log.states| == |log.cores| == |calls| + 1
    ensures log.states[0] == old(d.status) && log.states[|calls|] == d.status
    ensures forall i :: 0 <= i < |calls| ==> Follows(log.states[i], calls[i], log.codes[i], log.states[i + 1])
    ensures d.status == Unloaded ==> d.heap == map[]
    ensures InitsFindNoCores(calls, log) ==>
              && d.Tracked()
              && (d.status == Unloaded || d.status == Loaded ==> d.up == [])
              && (d.status == Running ==> d.up == Cores(d.numCpus))
    ensures old(d.log) <= d.log
    ensures AllOk(Since(old(d.log), d.log)) ==>
              (d.status, |d.modules|, log.codes) == IdealRun(old(d.status), |old(d.modules)|, calls)
  {
    log := Log([], [d.status], [d.cpusStarted]);
    ghost var start := Snap(d);
    while |log.codes| < |calls|
      invariant d.Valid() && Progress(calls, log, start, Snap(d))
    {
      ghost var was, before := log, Snap(d);
      var code := MakeCall(d, calls[|log.codes|]);
      log := Log(log.codes + [code], log.states + [d.status], log.cores + [d.cpusStarted]);
      ProgressStep(calls, was, start, before, code, Snap(d));
    }
    ProgressDone(calls, log, start, Snap(d));
    if d.status == Unloaded {
      assert d.heap == map[];
    }
  }
}
