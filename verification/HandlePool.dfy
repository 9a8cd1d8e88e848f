/** The circular pool of error handles (support/dpiHandlePool.c): the array code refines a
    first-in first-out queue as long as not every slot is idle at once. */
module HandlePools {
  import opened Common

  const SLOT_INCREMENT := 8

  // --------------------------------------------------------------------------------------
  // The abstract pool
  // --------------------------------------------------------------------------------------

  /** `idle` are the handles that the pool still knows, oldest first; `outstanding` counts the
      successful acquisitions that have not been matched by a release. */
  datatype Pool<H> = Pool(idle: seq<H>, outstanding: int, used: nat, slots: nat)

  ghost predicate Consistent<H>(p: Pool<H>) {
    && 0 <= p.outstanding
    && |p.idle| < p.slots
    && |p.idle| + p.outstanding <= p.slots
    && |p.idle| + p.outstanding <= p.used
  }

  ghost function Initial<H>(): Pool<H> {
    Pool([], 0, 0, SLOT_INCREMENT)
  }

  ghost function AfterAcquire<H>(p: Pool<H>, hasMemory: bool): Pool<H> {
    if p.idle != [] then p.(idle := p.idle[1..], outstanding := p.outstanding + 1)
    else if p.used + 1 <= p.slots then p.(used := p.used + 1, outstanding := p.outstanding + 1)
    else if hasMemory then p.(used := p.used + 1, outstanding := p.outstanding + 1, slots := p.slots + SLOT_INCREMENT)
    else p.(used := p.used + 1)
  }

  /** A release that makes every slot idle brings the cursors together, and the pool takes that
      for an empty queue. */
  ghost predicate FullReturn<H>(p: Pool<H>) {
    |p.idle| + 1 == p.slots
  }

  ghost function AfterRelease<H>(p: Pool<H>, h: H): Pool<H> {
    p.(idle := if FullReturn(p) then [] else p.idle + [h], outstanding := p.outstanding - 1)
  }

  // --------------------------------------------------------------------------------------
  // The code
  // --------------------------------------------------------------------------------------

  class HandlePool {
    var handles: array<Handle?>
    var numSlots: nat
    var numUsedSlots: nat
    var acquirePos: nat
    var releasePos: nat
    ghost var idle: seq<Handle>
    ghost var outstanding: int

    /** The slot that lies `i` places behind the acquire cursor. */
    ghost function Slot(i: nat): nat
      reads this
    {
      if acquirePos + i < numSlots then acquirePos + i else acquirePos + i - numSlots
    }

    /** The live window runs from the acquire cursor to the release cursor, which never
        overtakes it, and holds the idle handles in order. */
    ghost predicate Valid()
      reads this, handles
    {
      && numSlots == handles.Length
      && acquirePos < numSlots && releasePos < numSlots
      && Consistent(State())
      && releasePos == Slot(|idle|)
      && forall i :: 0 <= i < |idle| ==> handles[Slot(i)] == idle[i]
    }

    ghost function State(): Pool<Handle>
      reads this
    {
      Pool(idle, outstanding, numUsedSlots, numSlots)
    }

    constructor ()
      ensures Valid() && fresh(handles) && State() == Initial()
    {
      numSlots := SLOT_INCREMENT;
      numUsedSlots := 0;
      handles := new Handle?[SLOT_INCREMENT](_ => null);
      acquirePos := 0;
      releasePos := 0;
      idle, outstanding := [], 0;
    }

    /** Takes the oldest idle handle out of its slot. */
    method TakeOldest() returns (handle: Handle?)
      requires Valid() && idle != []
      modifies this, handles
      ensures Valid() && handles == old(handles) && handle == old(idle)[0]
      ensures State() == AfterAcquire(old(State()), true)
    {
      handle := handles[acquirePos];
      handles[acquirePos] := null;
      acquirePos := acquirePos + 1;
      if acquirePos == numSlots {
        acquirePos := 0;
      }
      idle, outstanding := idle[1..], outstanding + 1;
    }

    /** Copies the slots into a larger array; no handle is idle. */
    method Grow()
      requires numSlots == handles.Length
      modifies this`handles, this`numSlots
      ensures fresh(handles) && numSlots == handles.Length == old(numSlots) + 8
    {
      var tempHandles := new Handle?[numSlots + SLOT_INCREMENT](_ => null);
      forall i | 0 <= i < numSlots {
        tempHandles[i] := handles[i];
      }
      handles := tempHandles;
      numSlots := numSlots + SLOT_INCREMENT;
    }

    /** `hasMemory` says whether memory for more slots is to be had. */
    method Acquire(hasMemory: bool) returns (status: Status, handle: Handle?)
      requires Valid()
      modifies this, handles
      ensures Valid() && (handles == old(handles) || fresh(handles))
      ensures State() == AfterAcquire(old(State()), hasMemory)
      ensures handle == if old(idle) == [] then null else old(idle)[0]
      ensures status == Failure <==> State().outstanding == old(State()).outstanding
      ensures status == Failure <==> old(idle) == [] && old(numUsedSlots) >= old(numSlots) && !hasMemory
      ensures numSlots == old(numSlots)
                          + if old(idle) == [] && old(numUsedSlots) >= old(numSlots) && hasMemory then 8 else 0
      ensures handles != old(handles) ==> old(idle) == []
    {
      status := Success;
      if acquirePos != releasePos {
        handle := TakeOldest();
      } else {
        handle := null;
        numUsedSlots := numUsedSlots + 1;
        if numUsedSlots > numSlots {
          if !hasMemory {
            return Failure, handle;
          }
          Grow();
        }
        outstanding := outstanding + 1;
      }
    }

    /** Puts a handle back; the caller must have acquired one. */
    method Release(handle: Handle) returns (cleared: Handle?)
      requires Valid() && outstanding > 0
      modifies this, handles
      ensures Valid() && handles == old(handles)
      ensures State() == AfterRelease(old(State()), handle)
      ensures cleared == null
    {
      handles[releasePos] := handle;
      cleared := null;
      releasePos := releasePos + 1;
      if releasePos == numSlots {
        releasePos := 0;
      }
      idle, outstanding := if |idle| + 1 == numSlots then [] else idle + [handle], outstanding - 1;
    }
  }

  // --------------------------------------------------------------------------------------
  // Whole runs
  // --------------------------------------------------------------------------------------

  datatype Operation<H> = Acquiring(hasMemory: bool) | Releasing(handle: H)

  /** The pool together with its callers: the handles that callers hold, the acquisitions that
      returned nothing and for which no handle has been released yet, the handles that have gone
      in and come out so far, and how many were lost and how many allocations failed. */
  datatype World<H> = World(
    pool: Pool<H>, held: set<H>, promised: int, released: seq<H>, acquired: seq<H>, lost: nat, failures: nat)

  ghost function Start<H>(): World<H> {
    World(Initial(), {}, 0, [], [], 0, 0)
  }

  /** Callers release only what they hold, or a new handle in place of one that they were not
      given. */
  ghost predicate MayRun<H(!new)>(w: World<H>, op: Operation<H>) {
    match op
    case Acquiring(_) => true
    case Releasing(h) => h in w.held || (w.promised > 0 && h !in w.released)
  }

  ghost function Run1<H(!new)>(w: World<H>, op: Operation<H>): World<H> {
    match op
    case Acquiring(hasMemory) =>
      var p := AfterAcquire(w.pool, hasMemory);
      if w.pool.idle != [] then
        w.(pool := p, held := w.held + {w.pool.idle[0]}, acquired := w.acquired + [w.pool.idle[0]])
      else
        var gained := p.outstanding - w.pool.outstanding;
        w.(pool := p, promised := w.promised + gained, failures := if gained == 0 then w.failures + 1 else w.failures)
    case Releasing(h) =>
      w.(pool := AfterRelease(w.pool, h),
         held := w.held - {h},
         promised := if h in w.held then w.promised else w.promised - 1,
         released := w.released + [h],
         lost := if FullReturn(w.pool) then w.lost + |w.pool.idle| + 1 else w.lost)
  }

  ghost predicate Distinct<H(!new)>(s: seq<H>) {
    forall i, j :: 0 <= i < j < |s| ==> s[i] != s[j]
  }

  /** What every run keeps: the queue is consistent, no handle is idle twice or idle and held,
      and what was released is what came out again, what is idle and what was lost. */
  ghost predicate Inv<H(!new)>(w: World<H>) {
    && Consistent(w.pool)
    && w.pool.outstanding == |w.held| + w.promised && 0 <= w.promised
    && Distinct(w.pool.idle)
    && (forall h :: h in w.pool.idle ==> h !in w.held)
    && (forall h :: h in w.pool.idle || h in w.held ==> h in w.released)
    && |w.acquired| + |w.pool.idle| + w.lost == |w.released|
    && |w.pool.idle| + w.pool.outstanding + w.lost + w.failures == w.pool.used
    && (w.failures == 0 ==> w.pool.used <= w.pool.slots)
    && (w.lost == 0 ==> w.acquired + w.pool.idle == w.released)
  }

  lemma AcquireKeepsInv<H(!new)>(w: World<H>, hasMemory: bool)
    requires Inv(w)
    ensures Inv(Run1(w, Acquiring(hasMemory)))
  {
    if w.pool.idle != [] {
      var h, rest := w.pool.idle[0], w.pool.idle[1..];
      assert w.pool.idle == [h] + rest;
      assert h !in rest;
      assert (w.acquired + [h]) + rest == w.acquired + w.pool.idle;
    }
  }

  lemma ReleaseKeepsInv<H(!new)>(w: World<H>, h: H)
    requires Inv(w) && MayRun(w, Releasing(h))
    ensures Inv(Run1(w, Releasing(h)))
  {
    assert h !in w.pool.idle;
    assert w.acquired + (w.pool.idle + [h]) == (w.acquired + w.pool.idle) + [h];
    assert h !in w.held ==> w.held - {h} == w.held;
    assert h in w.held ==> |w.held - {h}| == |w.held| - 1;
  }

  lemma StepKeepsInv<H(!new)>(w: World<H>, op: Operation<H>)
    requires Inv(w) && MayRun(w, op)
    ensures Inv(Run1(w, op))
  {
    match op
    case Acquiring(hasMemory) => AcquireKeepsInv(w, hasMemory);
    case Releasing(h) => ReleaseKeepsInv(w, h);
  }

  /** A run of the pool and its callers from the start. */
  ghost predicate Execution<H(!new)>(ws: seq<World<H>>, ops: seq<Operation<H>>) {
    && |ws| == |ops| + 1
    && ws[0] == Start()
    && forall i :: 0 <= i < |ops| ==> MayRun(ws[i], ops[i]) && ws[i + 1] == Run1(ws[i], ops[i])
  }

  lemma {:induction false} ExecutionInv<H(!new)>(ws: seq<World<H>>, ops: seq<Operation<H>>, i: nat)
    requires Execution(ws, ops) && i < |ws|
    ensures Inv(ws[i])
  {
    if i > 0 {
      ExecutionInv(ws, ops, i - 1);
      StepKeepsInv(ws[i - 1], ops[i - 1]);
    }
  }

  /** Only an acquisition that is refused the memory for more slots fails. */
  lemma FailureIsRefusal<H(!new)>(w: World<H>, op: Operation<H>)
    requires MayRun(w, op)
    ensures Run1(w, op).failures == w.failures + if Refused(w, op) then 1 else 0
    ensures op.Acquiring? && !Refused(w, op) ==> Run1(w, op).pool.outstanding == w.pool.outstanding + 1
  {
  }

  ghost predicate Refused<H(!new)>(w: World<H>, op: Operation<H>) {
    op == Acquiring(false) && w.pool.idle == [] && w.pool.used >= w.pool.slots
  }

  /** Where there is memory, no acquisition of a run fails. */
  lemma {:induction false} NoFailures<H(!new)>(ws: seq<World<H>>, ops: seq<Operation<H>>, n: nat)
    requires Execution(ws, ops) && n <= |ops|
    ensures ws[n].failures > 0 <==> exists i :: 0 <= i < n && Refused(ws[i], ops[i])
  {
    if n > 0 {
      NoFailures(ws, ops, n - 1);
      FailureIsRefusal(ws[n - 1], ops[n - 1]);
    }
  }

  /** Exclusivity, in every run, also one in which the cursors meet after a full return: an
      acquired handle is held by nobody else and is not idle any more. */
  lemma Exclusive<H(!new)>(ws: seq<World<H>>, ops: seq<Operation<H>>, i: nat)
    requires Execution(ws, ops) && i < |ops| && ops[i].Acquiring? && ws[i].pool.idle != []
    ensures var h := ws[i].pool.idle[0];
            && h !in ws[i].held
            && h in ws[i + 1].held && h !in ws[i + 1].pool.idle
            && ws[i + 1].acquired == ws[i].acquired + [h]
  {
    ExecutionInv(ws, ops, i);
    ExecutionInv(ws, ops, i + 1);
  }

  ghost predicate EverFull<H(!new)>(ws: seq<World<H>>, ops: seq<Operation<H>>, n: nat)
    requires n <= |ops| <= |ws|
  {
    exists i :: 0 <= i < n && ops[i].Releasing? && FullReturn(ws[i].pool)
  }

  lemma {:induction false} LostIffFull<H(!new)>(ws: seq<World<H>>, ops: seq<Operation<H>>, n: nat)
    requires Execution(ws, ops) && n <= |ops|
    ensures ws[n].lost == 0 <==> !EverFull(ws, ops, n)
  {
    if n > 0 {
      LostIffFull(ws, ops, n - 1);
      assert ws[n] == Run1(ws[n - 1], ops[n - 1]);
      if EverFull(ws, ops, n) && !EverFull(ws, ops, n - 1) {
        assert FullReturn(ws[n - 1].pool);
      }
    }
  }

  /** First in, first out: the handles that came out, followed by those still idle, are the
      handles that went in, in that order, exactly when no release ever made all slots idle. */
  lemma FirstInFirstOut<H(!new)>(ws: seq<World<H>>, ops: seq<Operation<H>>)
    requires Execution(ws, ops)
    ensures var w := ws[|ops|];
            w.acquired + w.pool.idle == w.released <==> !EverFull(ws, ops, |ops|)
  {
    var w := ws[|ops|];
    ExecutionInv(ws, ops, |ops|);
    LostIffFull(ws, ops, |ops|);
    if w.acquired + w.pool.idle == w.released {
      assert |w.acquired| + |w.pool.idle| == |w.released|;
    }
  }

  /** Conservation: idle and outstanding handles together are the used slots exactly when no
      release made all slots idle and no allocation failed; without a failed allocation there
      are never more used slots than slots. */
  lemma Conservation<H(!new)>(ws: seq<World<H>>, ops: seq<Operation<H>>, n: nat)
    requires Execution(ws, ops) && n <= |ops|
    ensures var w := ws[n];
            && (|w.pool.idle| + w.pool.outstanding == w.pool.used <==> !EverFull(ws, ops, n) && w.failures == 0)
            && (w.failures == 0 ==> w.pool.used <= w.pool.slots)
  {
    ExecutionInv(ws, ops, n);
    LostIffFull(ws, ops, n);
  }

  /** The lost handles: one handle per slot, all acquired anew and all given back. */
  lemma FullReturnLosesAll<H(!new)>(w: World<H>, h: H)
    requires Inv(w) && MayRun(w, Releasing(h)) && FullReturn(w.pool)
    ensures var after := Run1(w, Releasing(h));
            after.pool.idle == [] && after.lost == w.lost + w.pool.slots && after.held == {} && after.promised == 0
  {
    ReleaseKeepsInv(w, h);
    assert w.pool.outstanding == 1;
    var after := Run1(w, Releasing(h));
    assert |after.held| == 0;
  }

  // --------------------------------------------------------------------------------------
  // A run that loses its handles
  // --------------------------------------------------------------------------------------

  function UpTo(n: nat): (s: seq<nat>)
    ensures |s| == n
  {
    seq(n, i => i)
  }

  /** After `n` acquisitions of a new pool, none of which got a handle. */
  ghost function Out(n: nat): World<nat> {
    World(Pool([], n, n, SLOT_INCREMENT), {}, n, [], [], 0, 0)
  }

  /** After as many acquisitions as there are slots, and `n` releases of new handles. */
  ghost function Back(n: nat): World<nat> {
    var promised := SLOT_INCREMENT - n;
    if n < SLOT_INCREMENT then World(Pool(UpTo(n), promised, SLOT_INCREMENT, SLOT_INCREMENT), {}, promised, UpTo(n), [], 0, 0)
    else World(Pool([], promised, SLOT_INCREMENT, SLOT_INCREMENT), {}, promised, UpTo(n), [], n, 0)
  }

  /** Eight handles out and eight handles back: no allocation fails, nobody holds anything, and yet all
      eight handles are lost. */
  lemma EightLost(ws: seq<World<nat>>, ops: seq<Operation<nat>>)
    requires |ops| == 2 * 8 && |ws| == |ops| + 1
    requires forall i :: 0 <= i < |ops| ==> ops[i] == if i < 8 then Acquiring(true) else Releasing(i - 8)
    requires forall i :: 0 <= i < |ws| ==> ws[i] == if i < 8 then Out(i) else Back(i - 8)
    ensures Execution(ws, ops) && EverFull(ws, ops, |ops|)
    ensures var w := ws[|ops|]; w.pool.idle == w.acquired == [] && w.pool.outstanding == 0 && w.lost == |w.released| == 8
  {
    assert UpTo(0) == [];
    forall i | 0 <= i < |ops|
      ensures MayRun(ws[i], ops[i]) && ws[i + 1] == Run1(ws[i], ops[i])
    {
      if i >= SLOT_INCREMENT {
        var n := i - SLOT_INCREMENT;
        assert UpTo(n + 1) == UpTo(n) + [n];
      }
    }
    assert ops[15].Releasing? && FullReturn(ws[15].pool);
  }

  /** The same run of the code. */
  method TakeEightAndReturn(given: seq<Handle>) returns (pool: HandlePool)
    requires |given| == 8
    ensures fresh(pool) && pool.Valid() && pool.idle == [] && pool.outstanding == 0
    ensures pool.numUsedSlots == pool.numSlots == 8
  {
    pool := new HandlePool();
    for i := 0 to SLOT_INCREMENT
      invariant pool.Valid() && fresh(pool) && fresh(pool.handles)
      invariant pool.State() == Pool([], i, i, SLOT_INCREMENT)
    {
      var status, handle := pool.Acquire(false);
      assert status == Success && handle == null;
    }
    for i := 0 to SLOT_INCREMENT
      invariant pool.Valid() && fresh(pool) && fresh(pool.handles)
      invariant pool.State()
             == Pool(if i == SLOT_INCREMENT then [] else given[..i], SLOT_INCREMENT - i, SLOT_INCREMENT, SLOT_INCREMENT)
    {
      var cleared := pool.Release(given[i]);
    }
  }
}
