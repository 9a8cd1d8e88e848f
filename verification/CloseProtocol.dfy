/** Closing LOBs and objects while other threads release them: reference counts, the closing flag
    and the scan of a closing connection in threaded mode (support/dpiGen.c, support/dpiConn.c,
    support/dpiLob.c and support/dpiObject.c). Every section under the mutex is one step, and so
    is every call of the Oracle client; steps of any number of threads interleave freely. */
module CloseProtocol {

  /** A LOB with its locator, an object with its own instance, an object inside another one. */
  datatype Kind = Lob | Object | DependentObject

  /** A handle. `present` says that the locator or instance pointer is set; `owned` counts the
      references of callers that are not on loan to a running call. The last two members record
      how often the locator or instance was freed and the free procedure was entered. */
  datatype Handle = Handle(
    kind: Kind, refCount: int, valid: bool, closing: bool, present: bool, hasMemory: bool, owned: int,
    freed: int, entered: int)

  /** On whose behalf a close runs: a caller who owns a reference, the scan of a closing
      connection with its temporary reference, or the free procedure. */
  datatype Purpose = ForCaller | ForScan | ForFree

  datatype Stage = Gate | Work | Clear(ok: bool) | Reset | Finished

  datatype Thread =
    | Idle
    | Looking(handle: nat)
    | Closing(handle: nat, purpose: Purpose, stage: Stage)
    | Dropping(handle: nat)

  datatype State = State(handles: seq<Handle>, threads: seq<Thread>)

  // --------------------------------------------------------------------------------------
  // The steps
  // --------------------------------------------------------------------------------------

  datatype Action =
    | Allocate(kind: Kind)
    | AddRef(handle: nat)
    | Release(handle: nat)
    | BeginClose(handle: nat)
    | Look(handle: nat)
    | Continue(ok: bool, alsoOk: bool)

  predicate Enabled(s: State, t: nat, a: Action) {
    && t < |s.threads|
    && match a
       case Allocate(_) => s.threads[t].Idle?
       case AddRef(h) => s.threads[t].Idle? && h < |s.handles| && s.handles[h].owned > 0
       case Release(h) => s.threads[t].Idle? && h < |s.handles| && s.handles[h].owned > 0
       case BeginClose(h) => s.threads[t].Idle? && h < |s.handles| && s.handles[h].owned > 0
       case Look(h) => s.threads[t].Idle? && h < |s.handles|
       case Continue(_, _) => !s.threads[t].Idle? && s.threads[t].handle < |s.handles|
  }

  function NewHandle(kind: Kind): Handle {
    Handle(kind, 1, true, false, true, true, 1, 0, 0)
  }

  /** The critical section that takes a reference away and, at zero, clears the check integer. */
  function Decrement(x: Handle): Handle {
    var n := x.refCount - 1;
    x.(refCount := n, valid := n != 0, entered := if n == 0 then x.entered + 1 else x.entered)
  }

  /** The free procedure starts by closing the handle. */
  function AfterDecrement(x: Handle, h: nat): Thread {
    if x.refCount == 1 then Closing(h, ForFree, Gate) else Idle
  }

  /** The close itself: a LOB locator is always freed, an instance when the client manages to, and
      the instance of a dependent object not at all. */
  function DoWork(x: Handle, h: nat, p: Purpose, ok: bool, alsoOk: bool): (Handle, Thread) {
    if !x.present || x.kind == DependentObject then (x, Closing(h, p, Finished))
    else if x.kind == Object && !ok then (x, Closing(h, p, Reset))
    else (x.(freed := x.freed + 1), Closing(h, p, Clear(if x.kind == Object then alsoOk else ok)))
  }

  function Conclude(x: Handle, h: nat, p: Purpose): (Handle, Thread) {
    match p
    case ForCaller => (x.(owned := x.owned + 1), Idle)
    case ForScan => (x, Dropping(h))
    case ForFree => (x.(hasMemory := false), Idle)
  }

  /** One step of a thread that is inside a call, on the handle that it works on. */
  function Advance(x: Handle, thread: Thread, ok: bool, alsoOk: bool): (Handle, Thread)
    requires !thread.Idle?
  {
    match thread
    case Looking(h) =>
      if x.valid then (x.(refCount := x.refCount + 1), Closing(h, ForScan, Gate)) else (x, Idle)
    case Closing(h, p, Gate) =>
      (x.(closing := true), Closing(h, p, if x.closing then Finished else Work))
    case Closing(h, p, Work) => DoWork(x, h, p, ok, alsoOk)
    case Closing(h, p, Clear(done)) =>
      (x.(present := false), Closing(h, p, if done then Finished else Reset))
    case Closing(h, p, Reset) => (x.(closing := false), Closing(h, p, Finished))
    case Closing(h, p, Finished) => Conclude(x, h, p)
    case Dropping(h) => (Decrement(x), AfterDecrement(x, h))
  }

  function Update(s: State, t: nat, h: nat, x: Handle, thread: Thread): State
    requires t < |s.threads| && h < |s.handles|
  {
    State(s.handles[h := x], s.threads[t := thread])
  }

  function Next(s: State, t: nat, a: Action): State
    requires Enabled(s, t, a)
  {
    match a
    case Allocate(kind) => s.(handles := s.handles + [NewHandle(kind)])
    case AddRef(h) =>
      var x := s.handles[h];
      Update(s, t, h, x.(refCount := x.refCount + 1, owned := x.owned + 1), Idle)
    case Release(h) =>
      var x := s.handles[h];
      Update(s, t, h, Decrement(x).(owned := x.owned - 1), AfterDecrement(x, h))
    case BeginClose(h) =>
      var x := s.handles[h];
      Update(s, t, h, x.(owned := x.owned - 1), Closing(h, ForCaller, Gate))
    case Look(h) => Update(s, t, h, s.handles[h], Looking(h))
    case Continue(ok, alsoOk) =>
      var h := s.threads[t].handle;
      var (x, thread) := Advance(s.handles[h], s.threads[t], ok, alsoOk);
      Update(s, t, h, x, thread)
  }

  // --------------------------------------------------------------------------------------
  // The invariant
  // --------------------------------------------------------------------------------------

  /** How many threads stand where with respect to one handle: with a reference on loan or in the
      free procedure, and of these waiting at the gate, at work (of these, about to reset the
      flag), with a freed pointer still set, done (of these, in the free procedure), and about to
      drop the temporary reference. */
  datatype Census = Census(
    holding: int, freeing: int,
    gate: int, working: int, resetting: int, clearing: int, done: int, ending: int, dropping: int)

  const NOBODY := Census(0, 0, 0, 0, 0, 0, 0, 0, 0)

  function Share(thread: Thread, h: nat): Census {
    match thread
    case Idle => NOBODY
    case Looking(_) => NOBODY
    case Dropping(g) => if g == h then NOBODY.(holding := 1, dropping := 1) else NOBODY
    case Closing(g, p, stage) =>
      if g != h then NOBODY
      else
        var c := if p == ForFree then NOBODY.(freeing := 1) else NOBODY.(holding := 1);
        match stage
        case Gate => c.(gate := 1)
        case Work => c.(working := 1)
        case Clear(_) => c.(clearing := 1)
        case Reset => c.(working := 1, resetting := 1)
        case Finished => c.(done := 1, ending := if p == ForFree then 1 else 0)
  }

  function Plus(a: Census, b: Census): Census {
    Census(a.holding + b.holding, a.freeing + b.freeing, a.gate + b.gate, a.working + b.working,
           a.resetting + b.resetting, a.clearing + b.clearing, a.done + b.done, a.ending + b.ending,
           a.dropping + b.dropping)
  }

  function Minus(a: Census, b: Census): Census {
    Census(a.holding - b.holding, a.freeing - b.freeing, a.gate - b.gate, a.working - b.working,
           a.resetting - b.resetting, a.clearing - b.clearing, a.done - b.done, a.ending - b.ending,
           a.dropping - b.dropping)
  }

  predicate AtMost(a: Census, b: Census) {
    && a.holding <= b.holding && a.freeing <= b.freeing && a.gate <= b.gate && a.working <= b.working
    && a.resetting <= b.resetting && a.clearing <= b.clearing && a.done <= b.done && a.ending <= b.ending
    && a.dropping <= b.dropping
  }

  /** The census of the first `n` threads. */
  function CountTo(threads: seq<Thread>, n: nat, h: nat): (c: Census)
    requires n <= |threads|
    ensures AtMost(NOBODY, c)
  {
    if n == 0 then NOBODY else Plus(CountTo(threads, n - 1, h), Share(threads[n - 1], h))
  }

  function Count(threads: seq<Thread>, h: nat): Census {
    CountTo(threads, |threads|, h)
  }

  lemma {:induction false} CountSame(threads: seq<Thread>, t: nat, thread: Thread, n: nat, h: nat)
    requires n <= t < |threads|
    ensures CountTo(threads[t := thread], n, h) == CountTo(threads, n, h)
  {
    if n > 0 {
      CountSame(threads, t, thread, n - 1, h);
    }
  }

  lemma Regroup(a: Census, b: Census, c: Census, d: Census)
    ensures Plus(Plus(Minus(a, b), c), d) == Plus(Minus(Plus(a, d), b), c)
    ensures AtMost(b, a) && AtMost(NOBODY, d) ==> AtMost(b, Plus(a, d))
  {
  }

  lemma Replace(a: Census, b: Census, c: Census)
    ensures Plus(a, c) == Plus(Minus(Plus(a, b), b), c)
    ensures AtMost(NOBODY, a) ==> AtMost(b, Plus(a, b))
  {
  }

  lemma ShareBounds(thread: Thread, h: nat)
    ensures AtMost(NOBODY, Share(thread, h))
  {
  }

  ghost predicate Updated(before: Census, after: Census, out: Census, into: Census) {
    after == Plus(Minus(before, out), into) && AtMost(out, before)
  }

  /** One more thread, which is not the one that changes. */
  lemma UpdatedNext(before: Census, after: Census, out: Census, into: Census, share: Census)
    requires Updated(before, after, out, into) && AtMost(NOBODY, share)
    ensures Updated(Plus(before, share), Plus(after, share), out, into)
  {
    Regroup(before, out, into, share);
  }

  lemma {:induction false} CountToUpdate(threads: seq<Thread>, t: nat, thread: Thread, n: nat, h: nat)
    requires t < n <= |threads|
    ensures Updated(CountTo(threads, n, h), CountTo(threads[t := thread], n, h), Share(threads[t], h), Share(thread, h))
  {
    var before, after := CountTo(threads, n - 1, h), CountTo(threads[t := thread], n - 1, h);
    if t == n - 1 {
      CountSame(threads, t, thread, n - 1, h);
      Replace(before, Share(threads[t], h), Share(thread, h));
    } else {
      CountToUpdate(threads, t, thread, n - 1, h);
      ShareBounds(threads[n - 1], h);
      UpdatedNext(before, after, Share(threads[t], h), Share(thread, h), Share(threads[n - 1], h));
    }
  }

  lemma CountUpdate(threads: seq<Thread>, t: nat, thread: Thread, h: nat)
    requires t < |threads|
    ensures Count(threads[t := thread], h) == Plus(Minus(Count(threads, h), Share(threads[t], h)), Share(thread, h))
    ensures AtMost(Share(threads[t], h), Count(threads, h)) && AtMost(NOBODY, Count(threads, h))
  {
    CountToUpdate(threads, t, thread, |threads|, h);
  }

  /** What holds of every handle, given where the threads stand. */
  predicate Good(x: Handle, c: Census) {
    // the count is the number of references, and the free procedure was entered when it hit zero
    && x.refCount == x.owned + c.holding && x.owned >= 0
    && (x.valid <==> x.refCount > 0)
    && x.entered == (if x.refCount == 0 then 1 else 0)
    && c.freeing + (if x.hasMemory then 0 else 1) == x.entered
    // one thread at a time is at work, behind the flag
    && c.working + c.clearing <= 1
    && (c.working + c.clearing > 0 ==> x.closing)
    && c.gate + c.working + c.clearing + c.done + c.dropping == c.holding + c.freeing
    // the locator or instance is set until it has been freed
    && x.freed + (if x.present then 1 else 0) == 1 + c.clearing && x.freed <= 1
    && (x.kind == DependentObject ==> x.freed == 0)
    && (x.closing && c.working + c.clearing == 0 && x.kind != DependentObject ==> !x.present)
    && (x.kind == Lob && (c.resetting > 0 || c.ending > 0 || !x.hasMemory) ==> !x.present)
  }

  predicate ThreadsInRange(s: State) {
    forall t :: 0 <= t < |s.threads| ==> Elsewhere(s.threads[t], |s.handles|)
  }

  predicate AllGood(handles: seq<Handle>, threads: seq<Thread>) {
    forall h :: 0 <= h < |handles| ==> Good(handles[h], Count(threads, h))
  }

  predicate Inv(s: State) {
    ThreadsInRange(s) && AllGood(s.handles, s.threads)
  }

  ghost predicate KeepsGood(x: Handle, c: Census, thread: Thread, y: Handle, next: Thread)
    requires !thread.Idle?
  {
    && (next.Idle? || next.handle == thread.handle)
    && Good(y, Plus(Minus(c, Share(thread, thread.handle)), Share(next, thread.handle)))
  }

  ghost predicate Among(thread: Thread, x: Handle, c: Census)
    requires !thread.Idle?
  {
    Good(x, c) && AtMost(NOBODY, c) && AtMost(Share(thread, thread.handle), c)
  }

  lemma GateKeepsGood(x: Handle, c: Census, h: nat, p: Purpose)
    requires Among(Closing(h, p, Gate), x, c)
    ensures var next := Closing(h, p, if x.closing then Finished else Work);
            KeepsGood(x, c, Closing(h, p, Gate), x.(closing := true), next)
  {
  }

  lemma WorkKeepsGood(x: Handle, c: Census, h: nat, p: Purpose, ok: bool, alsoOk: bool)
    requires Among(Closing(h, p, Work), x, c)
    ensures var (y, next) := DoWork(x, h, p, ok, alsoOk);
            KeepsGood(x, c, Closing(h, p, Work), y, next)
  {
  }

  lemma ClearKeepsGood(x: Handle, c: Census, h: nat, p: Purpose, done: bool)
    requires Among(Closing(h, p, Clear(done)), x, c)
    ensures var next := Closing(h, p, if done then Finished else Reset);
            KeepsGood(x, c, Closing(h, p, Clear(done)), x.(present := false), next)
  {
  }

  lemma ResetKeepsGood(x: Handle, c: Census, h: nat, p: Purpose)
    requires Among(Closing(h, p, Reset), x, c)
    ensures KeepsGood(x, c, Closing(h, p, Reset), x.(closing := false), Closing(h, p, Finished))
  {
  }

  lemma ConcludeKeepsGood(x: Handle, c: Census, h: nat, p: Purpose)
    requires Among(Closing(h, p, Finished), x, c)
    ensures var (y, next) := Conclude(x, h, p);
            KeepsGood(x, c, Closing(h, p, Finished), y, next)
  {
  }

  lemma DropKeepsGood(x: Handle, c: Census, h: nat)
    requires Among(Dropping(h), x, c)
    ensures KeepsGood(x, c, Dropping(h), Decrement(x), AfterDecrement(x, h))
  {
  }

  /** A step of a thread keeps what holds of the handle it works on. */
  lemma AdvanceKeepsGood(x: Handle, c: Census, thread: Thread, ok: bool, alsoOk: bool)
    requires !thread.Idle? && Among(thread, x, c)
    ensures var (y, next) := Advance(x, thread, ok, alsoOk);
            KeepsGood(x, c, thread, y, next)
  {
    match thread
    case Looking(h) =>
    case Closing(h, p, Gate) => GateKeepsGood(x, c, h, p);
    case Closing(h, p, Work) => WorkKeepsGood(x, c, h, p, ok, alsoOk);
    case Closing(h, p, Clear(done)) => ClearKeepsGood(x, c, h, p, done);
    case Closing(h, p, Reset) => ResetKeepsGood(x, c, h, p);
    case Closing(h, p, Finished) => ConcludeKeepsGood(x, c, h, p);
    case Dropping(h) => DropKeepsGood(x, c, h);
  }

  lemma UpdateKeepsInv(s: State, t: nat, h: nat, x: Handle, thread: Thread)
    requires Inv(s) && t < |s.threads| && h < |s.handles|
    requires s.threads[t].Idle? || s.threads[t].handle == h
    requires thread.Idle? || thread.handle == h
    requires Good(x, Plus(Minus(Count(s.threads, h), Share(s.threads[t], h)), Share(thread, h)))
    ensures Inv(Update(s, t, h, x, thread))
  {
    var after := Update(s, t, h, x, thread);
    forall k | 0 <= k < |after.handles|
      ensures Good(after.handles[k], Count(after.threads, k))
    {
      CountUpdate(s.threads, t, thread, k);
      assert Good(s.handles[k], Count(s.threads, k));
    }
  }

  predicate Elsewhere(thread: Thread, h: nat) {
    thread.Idle? || thread.handle < h
  }

  lemma ShareElsewhere(thread: Thread, h: nat)
    requires Elsewhere(thread, h)
    ensures Share(thread, h) == NOBODY
  {
  }

  lemma {:induction false} CountUnused(threads: seq<Thread>, n: nat, h: nat)
    requires n <= |threads| && forall t :: 0 <= t < |threads| ==> Elsewhere(threads[t], h)
    ensures CountTo(threads, n, h) == NOBODY
  {
    if n > 0 {
      CountUnused(threads, n - 1, h);
      ShareElsewhere(threads[n - 1], h);
    }
  }

  lemma NewIsGood(kind: Kind)
    ensures Good(NewHandle(kind), NOBODY)
  {
  }

  lemma AppendGood(handles: seq<Handle>, threads: seq<Thread>, x: Handle)
    requires AllGood(handles, threads) && Good(x, Count(threads, |handles|))
    ensures AllGood(handles + [x], threads)
  {
    var after := handles + [x];
    forall h | 0 <= h < |after|
      ensures Good(after[h], Count(threads, h))
    {
      assert h < |handles| ==> Good(handles[h], Count(threads, h));
    }
  }

  lemma RangeGrows(s: State, handles: seq<Handle>)
    requires ThreadsInRange(s) && |handles| >= |s.handles|
    ensures ThreadsInRange(s.(handles := handles))
  {
    forall t | 0 <= t < |s.threads|
      ensures Elsewhere(s.threads[t], |handles|)
    {
      assert Elsewhere(s.threads[t], |s.handles|);
    }
  }

  lemma AllocateKeepsInv(s: State, kind: Kind)
    requires Inv(s)
    ensures Inv(s.(handles := s.handles + [NewHandle(kind)]))
  {
    var x := NewHandle(kind);
    assert Good(x, Count(s.threads, |s.handles|)) by {
      CountUnused(s.threads, |s.threads|, |s.handles|);
      NewIsGood(kind);
    }
    AppendGood(s.handles, s.threads, x);
    RangeGrows(s, s.handles + [x]);
  }

  lemma ContinueKeepsInv(s: State, t: nat, ok: bool, alsoOk: bool)
    requires Inv(s) && Enabled(s, t, Continue(ok, alsoOk))
    ensures Inv(Next(s, t, Continue(ok, alsoOk)))
  {
    var thread := s.threads[t];
    var h := thread.handle;
    CountUpdate(s.threads, t, Idle, h);
    AdvanceKeepsGood(s.handles[h], Count(s.threads, h), thread, ok, alsoOk);
    var (x, next) := Advance(s.handles[h], thread, ok, alsoOk);
    UpdateKeepsInv(s, t, h, x, next);
  }

  /** A call that starts does so on a handle that its caller has a reference on, or looks at one. */
  lemma CallKeepsInv(s: State, t: nat, h: nat, x: Handle, thread: Thread)
    requires Inv(s) && t < |s.threads| && h < |s.handles| && s.threads[t].Idle?
    requires thread.Idle? || thread.handle == h
    requires Good(s.handles[h], Count(s.threads, h)) ==> Good(x, Plus(Count(s.threads, h), Share(thread, h)))
    ensures Inv(Update(s, t, h, x, thread))
  {
    assert Good(s.handles[h], Count(s.threads, h));
    UpdateKeepsInv(s, t, h, x, thread);
  }

  lemma ReferenceKeepsInv(s: State, t: nat, a: Action)
    requires Inv(s) && Enabled(s, t, a) && (a.AddRef? || a.Release?)
    ensures Inv(Next(s, t, a))
  {
    var after := Next(s, t, a);
    CallKeepsInv(s, t, a.handle, after.handles[a.handle], after.threads[t]);
  }

  lemma StartKeepsInv(s: State, t: nat, a: Action)
    requires Inv(s) && Enabled(s, t, a) && (a.BeginClose? || a.Look?)
    ensures Inv(Next(s, t, a))
  {
    var after := Next(s, t, a);
    CallKeepsInv(s, t, a.handle, after.handles[a.handle], after.threads[t]);
  }

  /** Every step of every thread keeps the invariant. */
  lemma StepKeepsInv(s: State, t: nat, a: Action)
    requires Inv(s) && Enabled(s, t, a)
    ensures Inv(Next(s, t, a))
  {
    match a
    case Allocate(kind) => AllocateKeepsInv(s, kind);
    case Continue(ok, alsoOk) => ContinueKeepsInv(s, t, ok, alsoOk);
    case AddRef(_) => ReferenceKeepsInv(s, t, a);
    case Release(_) => ReferenceKeepsInv(s, t, a);
    case BeginClose(_) => StartKeepsInv(s, t, a);
    case Look(_) => StartKeepsInv(s, t, a);
  }

  // --------------------------------------------------------------------------------------
  // Whole runs
  // --------------------------------------------------------------------------------------

  /** A run of any number of threads from the start, in any interleaving. */
  ghost predicate Execution(ss: seq<State>, ts: seq<nat>, actions: seq<Action>) {
    && |ss| == |ts| + 1 == |actions| + 1
    && ss[0].handles == [] && (forall t :: 0 <= t < |ss[0].threads| ==> ss[0].threads[t] == Idle)
    && forall i :: 0 <= i < |ts| ==> Enabled(ss[i], ts[i], actions[i]) && ss[i + 1] == Next(ss[i], ts[i], actions[i])
  }

  lemma {:induction false} ExecutionInv(ss: seq<State>, ts: seq<nat>, actions: seq<Action>, i: nat)
    requires Execution(ss, ts, actions) && i < |ss|
    ensures Inv(ss[i])
  {
    if i > 0 {
      ExecutionInv(ss, ts, actions, i - 1);
      StepKeepsInv(ss[i - 1], ts[i - 1], actions[i - 1]);
    }
  }

  /** In every reachable state the free procedure of a handle was entered once if its count is
      zero and not at all if it is not; while a caller's close or the scan holds its reference the
      free procedure has not been entered; and when the memory is gone no thread works on it. */
  lemma FreeRunsOnce(ss: seq<State>, ts: seq<nat>, actions: seq<Action>, i: nat, h: nat)
    requires Execution(ss, ts, actions) && i < |ss| && h < |ss[i].handles|
    ensures var x, c := ss[i].handles[h], Count(ss[i].threads, h);
            && x.entered == (if x.refCount == 0 then 1 else 0) && (x.valid <==> x.refCount > 0)
            && (c.holding > 0 ==> x.entered == 0 && x.hasMemory)
            && (!x.hasMemory ==> x.entered == 1 && c.holding == c.freeing == c.working == c.clearing == 0)
  {
    ExecutionInv(ss, ts, actions, i);
    assert Good(ss[i].handles[h], Count(ss[i].threads, h));
  }

  /** In every reachable state a locator or instance has been freed at most once; when the memory
      of a LOB is given back, its locator has been freed exactly once, and that of an object, its
      instance has been freed exactly if the pointer was cleared. */
  lemma FreedAtMostOnce(ss: seq<State>, ts: seq<nat>, actions: seq<Action>, i: nat, h: nat)
    requires Execution(ss, ts, actions) && i < |ss| && h < |ss[i].handles|
    ensures var x := ss[i].handles[h];
            && x.freed <= 1
            && (x.kind == Lob && !x.hasMemory ==> x.freed == 1)
            && (!x.hasMemory ==> (x.freed == 1 <==> !x.present))
  {
    ExecutionInv(ss, ts, actions, i);
    var x, c := ss[i].handles[h], Count(ss[i].threads, h);
    assert Good(x, c);
    CountNonNegative(ss[i].threads, h);
  }

  lemma CountNonNegative(threads: seq<Thread>, h: nat)
    ensures AtMost(NOBODY, Count(threads, h))
  {
  }

  /** What no step undoes: a count of zero, the entry into the free procedure, the freeing of the
      locator or instance, and giving back the memory. */
  ghost predicate Final(before: Handle, after: Handle) {
    && after.kind == before.kind
    && (before.refCount == 0 ==> after.refCount == 0 && !after.valid && after.entered == 1)
    && (before.freed == 1 ==> after.freed == 1)
    && (!before.hasMemory ==> after == before)
  }

  lemma StepIsFinal(s: State, t: nat, a: Action, h: nat)
    requires Inv(s) && Enabled(s, t, a) && h < |s.handles|
    ensures h < |Next(s, t, a).handles| && Final(s.handles[h], Next(s, t, a).handles[h])
  {
    StepKeepsInv(s, t, a);
    var x, c := s.handles[h], Count(s.threads, h);
    assert Good(x, c);
    assert Good(Next(s, t, a).handles[h], Count(Next(s, t, a).threads, h));
    CountUpdate(s.threads, t, Idle, h);
    CountNonNegative(Next(s, t, a).threads, h);
    if a.Continue? && s.threads[t].handle == h {
      AdvanceIsFinal(x, c, s.threads[t], a.ok, a.alsoOk);
    }
  }

  lemma AdvanceIsFinal(x: Handle, c: Census, thread: Thread, ok: bool, alsoOk: bool)
    requires !thread.Idle? && Among(thread, x, c)
    ensures Final(x, Advance(x, thread, ok, alsoOk).0)
  {
    AdvanceKeepsGood(x, c, thread, ok, alsoOk);
  }

  /** Once zero a count never rises again, and nothing that was freed is freed again, however the
      run goes on. */
  lemma {:induction false} NeverUndone(ss: seq<State>, ts: seq<nat>, actions: seq<Action>, i: nat, j: nat, h: nat)
    requires Execution(ss, ts, actions) && i <= j < |ss| && h < |ss[i].handles|
    ensures h < |ss[j].handles| && Final(ss[i].handles[h], ss[j].handles[h])
    decreases j - i
  {
    if i < j {
      NeverUndone(ss, ts, actions, i, j - 1, h);
      ExecutionStep(ss, ts, actions, j - 1, h);
      FinalOn(ss[i].handles[h], ss[j - 1].handles[h], ss[j].handles[h]);
    } else {
      ExecutionGood(ss, ts, actions, i, h);
    }
  }

  lemma FinalOn(a: Handle, b: Handle, c: Handle)
    requires Final(a, b) && Final(b, c)
    ensures Final(a, c)
  {
  }

  lemma ExecutionGood(ss: seq<State>, ts: seq<nat>, actions: seq<Action>, i: nat, h: nat)
    requires Execution(ss, ts, actions) && i < |ss| && h < |ss[i].handles|
    ensures Final(ss[i].handles[h], ss[i].handles[h])
  {
    ExecutionInv(ss, ts, actions, i);
    assert Good(ss[i].handles[h], Count(ss[i].threads, h));
  }

  lemma ExecutionStep(ss: seq<State>, ts: seq<nat>, actions: seq<Action>, i: nat, h: nat)
    requires Execution(ss, ts, actions) && i + 1 < |ss| && h < |ss[i].handles|
    ensures h < |ss[i + 1].handles| && Final(ss[i].handles[h], ss[i + 1].handles[h])
  {
    ExecutionInv(ss, ts, actions, i);
    StepIsFinal(ss[i], ts[i], actions[i], h);
  }

  // --------------------------------------------------------------------------------------
  // A close by itself
  // --------------------------------------------------------------------------------------

  /** At most `n` steps of one thread, until it has done the work of a close. */
  function Proceed(x: Handle, thread: Thread, ok: bool, alsoOk: bool, n: nat): (Handle, Thread)
    requires !thread.Idle?
    decreases n
  {
    if n == 0 || (thread.Closing? && thread.stage == Finished) then (x, thread)
    else
      var (y, next) := Advance(x, thread, ok, alsoOk);
      if next.Idle? then (y, next) else Proceed(y, next, ok, alsoOk, n - 1)
  }

  /** What a close does that nobody interferes with: nothing if the flag is set; for an object inside another
      one, or if there is nothing to free any more, it sets the flag; otherwise it frees the locator or
      instance once, unless the client does not free the instance, and the flag stays set exactly if the
      client reports no error, so that a close that failed can be tried again. */
  lemma CloseAlone(x: Handle, h: nat, p: Purpose, ok: bool, alsoOk: bool)
    ensures var frees := !x.closing && x.present && x.kind != DependentObject && (x.kind == Lob || ok);
            var succeeds := x.closing || !x.present || x.kind == DependentObject || (ok && (x.kind == Lob || alsoOk));
            Proceed(x, Closing(h, p, Gate), ok, alsoOk, 4)
            == (x.(closing := succeeds, present := x.present && !frees, freed := if frees then x.freed + 1 else x.freed),
                Closing(h, p, Finished))
  {
    if !x.closing {
      WorkAlone(x.(closing := true), h, p, ok, alsoOk);
    }
  }

  lemma WorkAlone(x: Handle, h: nat, p: Purpose, ok: bool, alsoOk: bool)
    ensures var (y, next) := DoWork(x, h, p, ok, alsoOk);
            Proceed(x, Closing(h, p, Work), ok, alsoOk, 3) == Proceed(y, next, ok, alsoOk, 2)
  {
    assert Advance(x, Closing(h, p, Work), ok, alsoOk) == DoWork(x, h, p, ok, alsoOk);
  }

  /** What happens to the reference that a close was done with: it goes back to the caller, or is given up, and
      the last one takes the handle along. */
  lemma ReferenceAfterClose(x: Handle, h: nat, ok: bool, alsoOk: bool)
    ensures Advance(x, Closing(h, ForCaller, Finished), ok, alsoOk) == (x.(owned := x.owned + 1), Idle)
    ensures Advance(x, Closing(h, ForFree, Finished), ok, alsoOk) == (x.(hasMemory := false), Idle)
    ensures var (y, thread) := Proceed(x, Dropping(h), ok, alsoOk, 1);
            && y == x.(refCount := x.refCount - 1, valid := x.refCount != 1,
                       entered := x.entered + if x.refCount == 1 then 1 else 0)
            && thread == if x.refCount == 1 then Closing(h, ForFree, Gate) else Idle
  {
  }
}
