/** call_once on top of the compare-and-swap mutex, as interleaved atomic steps
    of any number of threads. */
module CallOnce {

  type Thread = nat

  /** Where a thread is. A caller spins until its compare-and-swap takes the lock
      word, then tests the flag, runs the body, sets the flag and unlocks. */
  datatype Pc =
    | Outside
    | Spinning
    | Testing
    | InBody
    | SettingFlag
    | Leaving
    | LeavingThrown
    | Returned
    | Thrown

  /** The lock word (PTHREAD_MUTEX_INITIALIZER or 0), the flag m_value, how often
      the body has run to its end, and the threads. */
  datatype State = State(lockFree: bool, flag: bool, completions: nat, pc: map<Thread, Pc>)

  ghost predicate Init(s: State) {
    s.lockFree && !s.flag && s.completions == 0 && forall t :: t in s.pc ==> s.pc[t] == Outside
  }

  datatype Action = Call | CasTaken | CasFails | TestFlag | BodyReturns | BodyThrows | SetFlag | Unlock

  /** What one action of thread t makes of the state, if it is possible. */
  ghost predicate Step(s: State, t: Thread, a: Action, s': State) {
    && t in s.pc
    && match a
       case Call =>
         (s.pc[t] == Outside || s.pc[t] == Returned || s.pc[t] == Thrown) && s' == s.(pc := s.pc[t := Spinning])
       case CasTaken =>
         s.pc[t] == Spinning && s.lockFree && s' == s.(lockFree := false, pc := s.pc[t := Testing])
       case CasFails =>
         s.pc[t] == Spinning && !s.lockFree && s' == s
       case TestFlag =>
         s.pc[t] == Testing && s' == s.(pc := s.pc[t := if s.flag then Leaving else InBody])
       case BodyReturns =>
         s.pc[t] == InBody && s' == s.(completions := s.completions + 1, pc := s.pc[t := SettingFlag])
       case BodyThrows =>
         s.pc[t] == InBody && s' == s.(pc := s.pc[t := LeavingThrown])
       case SetFlag =>
         s.pc[t] == SettingFlag && s' == s.(flag := true, pc := s.pc[t := Leaving])
       case Unlock =>
         && (s.pc[t] == Leaving || s.pc[t] == LeavingThrown)
         && s' == s.(lockFree := true, pc := s.pc[t := if s.pc[t] == Leaving then Returned else Thrown])
  }

  /** Between the successful compare-and-swap and the unlock. */
  ghost predicate Holding(s: State, t: Thread) {
    t in s.pc && s.pc[t] in {Testing, InBody, SettingFlag, Leaving, LeavingThrown}
  }

  /** The lock word is taken exactly while one thread holds the lock. */
  ghost predicate LockInv(s: State) {
    && (forall t, u :: Holding(s, t) && Holding(s, u) ==> t == u)
    && (s.lockFree <==> forall t :: !Holding(s, t))
  }

  ghost predicate SomeoneAt(s: State, pc: Pc) {
    exists t :: t in s.pc && s.pc[t] == pc
  }

  /** The body has completed at most once: never, being recorded, or recorded. */
  ghost predicate OnceInv(s: State) {
    if s.flag then s.completions == 1 && !SomeoneAt(s, InBody) && !SomeoneAt(s, SettingFlag)
    else s.completions == if SomeoneAt(s, SettingFlag) then 1 else 0
  }

  /** Whoever leaves or has left normally found or set the flag. */
  ghost predicate LeftInv(s: State) {
    forall t :: t in s.pc && (s.pc[t] == Leaving || s.pc[t] == Returned) ==> s.flag
  }

  ghost predicate Inv(s: State) {
    LockInv(s) && OnceInv(s) && LeftInv(s)
  }

  lemma InitInv(s: State)
    requires Init(s)
    ensures Inv(s)
  {
  }

  /** The lock part of the invariant. */
  lemma StepKeepsLock(s: State, t: Thread, a: Action, s': State)
    requires Inv(s) && Step(s, t, a, s')
    ensures LockInv(s')
  {
    forall u: Thread ensures u != t ==> (Holding(s', u) <==> Holding(s, u)) {}
    assert Holding(s, t) <==> a in {TestFlag, BodyReturns, BodyThrows, SetFlag, Unlock};
    assert Holding(s', t) <==> a in {CasTaken, TestFlag, BodyReturns, BodyThrows, SetFlag};
    if a == CasFails {
      var u :| Holding(s, u);
      assert Holding(s', u);
    } else if a == Call && !s.lockFree {
      var u :| Holding(s, u);
      assert Holding(s', u);
    }
  }

  /** The threads other than t stay where they are. */
  lemma SomeoneElse(s: State, t: Thread, a: Action, s': State, pc: Pc)
    requires Step(s, t, a, s') && s.pc[t] != pc && s'.pc[t] != pc
    ensures SomeoneAt(s', pc) <==> SomeoneAt(s, pc)
  {
    if u :| u in s.pc && s.pc[u] == pc { assert s'.pc[u] == pc; }
    if u :| u in s'.pc && s'.pc[u] == pc { assert s.pc[u] == pc; }
  }

  /** While t holds the lock nobody else is in or behind the body. */
  lemma HolderAlone(s: State, t: Thread, pc: Pc)
    requires LockInv(s) && Holding(s, t) && (pc == InBody || pc == SettingFlag)
    ensures SomeoneAt(s, pc) <==> s.pc[t] == pc
  {
    if u :| u in s.pc && s.pc[u] == pc { assert Holding(s, u); }
  }

  lemma StepKeepsOnce(s: State, t: Thread, a: Action, s': State)
    requires Inv(s) && Step(s, t, a, s') && LockInv(s')
    ensures OnceInv(s')
  {
    if a in {TestFlag, BodyReturns, BodyThrows, SetFlag} {
      HolderAlone(s, t, InBody);
      HolderAlone(s, t, SettingFlag);
      HolderAlone(s', t, InBody);
      HolderAlone(s', t, SettingFlag);
    } else {
      SomeoneElse(s, t, a, s', InBody);
      SomeoneElse(s, t, a, s', SettingFlag);
    }
  }

  lemma StepKeepsInv(s: State, t: Thread, a: Action, s': State)
    requires Inv(s) && Step(s, t, a, s')
    ensures Inv(s')
  {
    StepKeepsLock(s, t, a, s');
    StepKeepsOnce(s, t, a, s');
  }

  /** A run: states, and between them the acting thread and its action. */
  datatype Run = Run(states: seq<State>, threads: seq<Thread>, actions: seq<Action>)

  ghost predicate IsRun(r: Run) {
    && |r.states| > 0 && |r.threads| == |r.actions| == |r.states| - 1
    && Init(r.states[0])
    && forall i :: 0 <= i < |r.actions| ==> Step(r.states[i], r.threads[i], r.actions[i], r.states[i + 1])
  }

  lemma {:induction false} RunKeepsInv(r: Run, i: nat)
    requires IsRun(r) && i < |r.states|
    ensures Inv(r.states[i])
  {
    if i == 0 {
      InitInv(r.states[0]);
    } else {
      RunKeepsInv(r, i - 1);
      StepKeepsInv(r.states[i - 1], r.threads[i - 1], r.actions[i - 1], r.states[i]);
    }
  }

  /** Mutual exclusion in every interleaving. */
  lemma MutualExclusion(r: Run, i: nat, t: Thread, u: Thread)
    requires IsRun(r) && i < |r.states| && Holding(r.states[i], t) && Holding(r.states[i], u)
    ensures t == u
  {
    RunKeepsInv(r, i);
  }

  /** Completions are counted by the actions. */
  lemma {:induction false} CompletionsCount(r: Run, i: nat, j: nat)
    requires IsRun(r) && i <= j < |r.states|
    ensures r.states[i].completions <= r.states[j].completions
    ensures (exists k :: i <= k < j && r.actions[k] == BodyReturns) ==>
              r.states[i].completions < r.states[j].completions
    ensures r.states[i].completions < r.states[j].completions ==> exists k :: i <= k < j && r.actions[k] == BodyReturns
    decreases j - i
  {
    if i < j {
      CompletionsCount(r, i, j - 1);
      assert Step(r.states[j - 1], r.threads[j - 1], r.actions[j - 1], r.states[j]);
    }
  }

  /** In every interleaving the body runs to its end at most once, also when
      earlier attempts threw. */
  lemma BodyCompletesOnce(r: Run, k: nat, l: nat)
    requires IsRun(r) && k < |r.actions| && l < |r.actions|
    requires r.actions[k] == BodyReturns && r.actions[l] == BodyReturns
    ensures k == l
  {
    var a, b := if k < l then k else l, if k < l then l else k;
    if a < b {
      CompletionsCount(r, 0, a);
      CompletionsCount(r, a, a + 1);
      CompletionsCount(r, a + 1, b);
      CompletionsCount(r, b, b + 1);
      RunKeepsInv(r, b + 1);
    }
  }

  /** Whenever a caller has returned normally, the body has already run to its
      end, exactly once, at some earlier step. */
  lemma ReturnsAfterCompletion(r: Run, i: nat, t: Thread) returns (k: nat)
    requires IsRun(r) && i < |r.states| && t in r.states[i].pc && r.states[i].pc[t] == Returned
    ensures k < i && r.actions[k] == BodyReturns && r.states[i].completions == 1
  {
    RunKeepsInv(r, i);
    CompletionsCount(r, 0, i);
    k :| 0 <= k < i && r.actions[k] == BodyReturns;
  }

  /** A thread unlocks only the lock it holds itself. */
  lemma UnlockIsByHolder(r: Run, i: nat)
    requires IsRun(r) && i < |r.actions| && r.actions[i] == Unlock
    ensures Holding(r.states[i], r.threads[i]) && !r.states[i].lockFree
    ensures var after := r.states[i + 1]; after.lockFree && forall u :: !Holding(after, u)
  {
    RunKeepsInv(r, i);
    RunKeepsInv(r, i + 1);
    assert Step(r.states[i], r.threads[i], r.actions[i], r.states[i + 1]);
    assert Holding(r.states[i], r.threads[i]);
  }

  // ---------------------------------------------------------------------------
  // Progress
  // ---------------------------------------------------------------------------

  predicate Idle(pc: Pc) {
    pc == Outside || pc == Returned || pc == Thrown
  }

  /** What a thread that holds the lock does next; its body returns. */
  function NextAction(pc: Pc): Action {
    match pc
    case Outside => Call
    case Returned => Call
    case Thrown => Call
    case Spinning => CasTaken
    case Testing => TestFlag
    case InBody => BodyReturns
    case SettingFlag => SetFlag
    case Leaving => Unlock
    case LeavingThrown => Unlock
  }

  /** In every interleaving, as long as somebody is inside call_once somebody can
      take a step that changes the state: there is no deadlock. */
  lemma NoDeadlock(r: Run, i: nat, t: Thread) returns (u: Thread, a: Action, s': State)
    requires IsRun(r) && i < |r.states| && t in r.states[i].pc && !Idle(r.states[i].pc[t])
    ensures Step(r.states[i], u, a, s') && s' != r.states[i]
  {
    RunKeepsInv(r, i);
    var s := r.states[i];
    if s.lockFree {
      u, a := t, CasTaken;
      assert !Holding(s, t);
      s' := s.(lockFree := false, pc := s.pc[t := Testing]);
      assert s'.lockFree != s.lockFree;
    } else {
      u :| Holding(s, u);
      a := NextAction(s.pc[u]);
      s' := HolderSteps(s, u);
      assert s'.pc[u] != s.pc[u];
    }
  }

  lemma HolderSteps(s: State, u: Thread) returns (s': State)
    requires Holding(s, u)
    ensures Step(s, u, NextAction(s.pc[u]), s') && s'.pc[u] != s.pc[u]
  {
    match s.pc[u]
    case Testing => s' := s.(pc := s.pc[u := if s.flag then Leaving else InBody]);
    case InBody => s' := s.(completions := s.completions + 1, pc := s.pc[u := SettingFlag]);
    case SettingFlag => s' := s.(flag := true, pc := s.pc[u := Leaving]);
    case Leaving => s' := s.(lockFree := true, pc := s.pc[u := Returned]);
    case LeavingThrown => s' := s.(lockFree := true, pc := s.pc[u := Thrown]);
  }

  /** t takes the actions, one after the other, through the states. */
  ghost predicate Takes(t: Thread, states: seq<State>, actions: seq<Action>) {
    && |states| == |actions| + 1
    && forall i :: 0 <= i < |actions| ==> Step(states[i], t, actions[i], states[i + 1])
  }

  /** A call that nobody interferes with, when the body has completed before: it
      returns without running it. */
  lemma LaterCall(s: State, t: Thread) returns (states: seq<State>)
    requires t in s.pc && Idle(s.pc[t]) && s.lockFree && s.flag
    ensures Takes(t, states, [Call, CasTaken, TestFlag, Unlock])
    ensures states[0] == s && states[4] == s.(pc := s.pc[t := Returned])
  {
    var s1 := s.(pc := s.pc[t := Spinning]);
    var s2 := s.(lockFree := false, pc := s.pc[t := Testing]);
    var s3 := s2.(pc := s.pc[t := Leaving]);
    states := [s, s1, s2, s3, s.(pc := s.pc[t := Returned])];
  }

  /** When it has not: the body runs, and the flag records that it completed. */
  lemma FirstCall(s: State, t: Thread) returns (states: seq<State>)
    requires t in s.pc && Idle(s.pc[t]) && s.lockFree && !s.flag
    ensures Takes(t, states, [Call, CasTaken, TestFlag, BodyReturns, SetFlag, Unlock])
    ensures states[0] == s
    ensures states[6] == s.(flag := true, completions := s.completions + 1, pc := s.pc[t := Returned])
  {
    var s1 := s.(pc := s.pc[t := Spinning]);
    var s2 := s.(lockFree := false, pc := s.pc[t := Testing]);
    var s3 := s2.(pc := s.pc[t := InBody]);
    var s4 := s2.(completions := s.completions + 1, pc := s.pc[t := SettingFlag]);
    var s5 := s4.(flag := true, pc := s.pc[t := Leaving]);
    states := [s, s1, s2, s3, s4, s5, s5.(lockFree := true, pc := s.pc[t := Returned])];
  }

  /** When the body throws, everything is as before, so that the next call runs it
      again. */
  lemma ThrowingCall(s: State, t: Thread) returns (states: seq<State>)
    requires t in s.pc && Idle(s.pc[t]) && s.lockFree && !s.flag
    ensures Takes(t, states, [Call, CasTaken, TestFlag, BodyThrows, Unlock])
    ensures states[0] == s && states[5] == s.(pc := s.pc[t := Thrown])
  {
    var s1 := s.(pc := s.pc[t := Spinning]);
    var s2 := s.(lockFree := false, pc := s.pc[t := Testing]);
    var s3 := s2.(pc := s.pc[t := InBody]);
    var s4 := s2.(pc := s.pc[t := LeavingThrown]);
    states := [s, s1, s2, s3, s4, s.(pc := s.pc[t := Thrown])];
  }
}
