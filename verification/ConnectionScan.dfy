/** The scan of a closing connection over its list of LOBs or of objects, while other threads create,
    release and close them (support/dpiConn.c, support/dpiLob.c, support/dpiObject.c). It joins the
    table of slots to the protocol of the handles: when the close reports success, which of the handles
    that were in the list have been freed? */
module ConnectionScans {
  import opened Common
  import P = CloseProtocol

  const SLOT_INCREMENT := 8

  /** After freeing a locator or an instance a thread takes the handle out of its slot, unless it finds
      that the connection is being closed. */
  datatype Duty = Duty(handle: nat, mayRemove: bool)

  /** The close of the connection: the thread that scans, the slot it has come to, the handle in that slot
      if it is at work on it, and whether closing that handle has failed. */
  datatype Scan =
    | NotClosing
    | Scanning(thread: nat, pos: nat, busy: Option<nat>, failed: bool)
    | Closed

  /** `todo` are the handles that were in the list when the last scan began. */
  datatype State = State(
    base: P.State, slots: seq<Option<nat>>, slotOf: map<nat, nat>, duties: map<nat, Duty>, scan: Scan, todo: set<nat>)

  // --------------------------------------------------------------------------------------
  // The steps
  // --------------------------------------------------------------------------------------

  datatype Action =
    | Create(kind: P.Kind, slot: nat)
    | Inner(action: P.Action)
    | CheckFlag
    | RemoveFromSlot
    | StartClose
    | Visit
    | NextSlot
    | Finish

  predicate Scans(s: State, t: nat) {
    s.scan.Scanning? && s.scan.thread == t
  }

  /** A thread removes the handle of a LOB before it clears the locator, and that of an object after it
      has cleared the instance. */
  predicate AtRemoval(s: State, t: nat) {
    && t in s.duties && t < |s.base.threads| && s.base.threads[t].Closing?
    && s.duties[t].handle < |s.base.handles|
    && if s.base.handles[s.duties[t].handle].kind == P.Lob then s.base.threads[t].stage.Clear?
       else s.base.threads[t].stage.Finished?
  }

  predicate InnerEnabled(s: State, t: nat, a: P.Action)
    requires P.Enabled(s.base, t, a)
  {
    match a
    // an object inside another one does not go into the list
    case Allocate(kind) => !Scans(s, t) && kind == P.DependentObject
    case AddRef(_) => !Scans(s, t)
    case Release(_) => !Scans(s, t)
    // there is no public call that closes an object
    case BeginClose(h) => !Scans(s, t) && s.base.handles[h].kind == P.Lob
    case Look(_) => false
    // the free procedure does not look at the answers of the client
    case Continue(ok, alsoOk) => !AtRemoval(s, t) && (FreesAtWork(s.base.threads[t]) ==> ok && alsoOk)
  }

  predicate FreesAtWork(thread: P.Thread) {
    thread.Closing? && thread.purpose == P.ForFree && thread.stage == P.Work
  }

  predicate Enabled(s: State, t: nat, a: Action) {
    && t < |s.base.threads|
    && match a
       case Create(kind, slot) =>
         && s.base.threads[t].Idle? && !Scans(s, t) && kind != P.DependentObject
         && slot <= |s.slots|
         && (if slot < |s.slots| then s.slots[slot] == None else forall i :: 0 <= i < slot ==> s.slots[i].Some?)
       case Inner(action) => P.Enabled(s.base, t, action) && InnerEnabled(s, t, action)
       case CheckFlag => AtRemoval(s, t) && !s.duties[t].mayRemove
       case RemoveFromSlot =>
         && AtRemoval(s, t) && s.duties[t].mayRemove
         && s.duties[t].handle in s.slotOf && s.slotOf[s.duties[t].handle] < |s.slots|
       case StartClose => s.base.threads[t].Idle? && s.scan.NotClosing?
       case Visit =>
         && Scans(s, t) && s.scan.busy == None && s.base.threads[t].Idle? && s.scan.pos < |s.slots|
         && (s.slots[s.scan.pos].Some? ==> s.slots[s.scan.pos].value < |s.base.handles|)
       case NextSlot => Scans(s, t) && s.scan.busy.Some? && s.base.threads[t].Idle?
       case Finish => Scans(s, t) && s.scan.busy == None && s.scan.pos == |s.slots|
  }

  /** The list with one more handle; a full list grows by eight slots. */
  function Placed(slots: seq<Option<nat>>, slot: nat, h: nat): (after: seq<Option<nat>>)
    requires slot <= |slots|
    ensures |after| == if slot < |slots| then |slots| else |slots| + 8
  {
    if slot < |slots| then slots[slot := Some(h)] else slots + [Some(h)] + seq(SLOT_INCREMENT - 1, _ => None)
  }

  function Listed(slots: seq<Option<nat>>): set<nat> {
    set i | 0 <= i < |slots| && slots[i].Some? :: slots[i].value
  }

  /** Whether a step hands a locator or instance to the client to be freed, so that the handle is then
      taken out of its slot; the object stays there if its indicator cannot be freed. */
  predicate TakesDuty(b: P.State, t: nat, a: P.Action)
    requires P.Enabled(b, t, a)
  {
    && a.Continue? && b.threads[t].Closing? && b.threads[t].stage == P.Work
    && P.Next(b, t, a).handles[b.threads[t].handle].freed > b.handles[b.threads[t].handle].freed
    && (b.handles[b.threads[t].handle].kind == P.Lob || a.alsoOk)
  }

  /** Whether a step of the scan itself closes a handle with an error. */
  predicate Fails(b: P.State, t: nat, a: P.Action)
    requires P.Enabled(b, t, a)
  {
    && a.Continue? && b.threads[t].Closing? && b.threads[t].purpose == P.ForScan && b.threads[t].stage == P.Work
    && P.Next(b, t, a).threads[t].stage in {P.Reset, P.Clear(false)}
  }

  function NextInner(s: State, t: nat, a: P.Action): State
    requires P.Enabled(s.base, t, a)
  {
    s.(base := P.Next(s.base, t, a),
       duties := if TakesDuty(s.base, t, a) then s.duties[t := Duty(s.base.threads[t].handle, false)] else s.duties,
       scan := if Fails(s.base, t, a) && s.scan.Scanning? then s.scan.(failed := true) else s.scan)
  }

  function Next(s: State, t: nat, a: Action): State
    requires Enabled(s, t, a)
  {
    match a
    case Create(kind, slot) =>
      var h := |s.base.handles|;
      s.(base := P.Next(s.base, t, P.Allocate(kind)), slots := Placed(s.slots, slot, h), slotOf := s.slotOf[h := slot])
    case Inner(action) => NextInner(s, t, action)
    case CheckFlag =>
      s.(duties := if s.scan.NotClosing? then s.duties[t := s.duties[t].(mayRemove := true)] else s.duties - {t})
    case RemoveFromSlot =>
      s.(slots := s.slots[s.slotOf[s.duties[t].handle] := None], duties := s.duties - {t})
    case StartClose => s.(scan := Scanning(t, 0, None, false), todo := Listed(s.slots))
    case Visit =>
      (match s.slots[s.scan.pos]
       case None => s.(scan := s.scan.(pos := s.scan.pos + 1))
       case Some(h) => s.(base := P.Next(s.base, t, P.Look(h)), scan := s.scan.(busy := Some(h))))
    case NextSlot =>
      s.(scan := if s.scan.failed then NotClosing else Scanning(t, s.scan.pos + 1, None, false))
    case Finish => s.(scan := Closed)
  }

  // --------------------------------------------------------------------------------------
  // The invariant
  // --------------------------------------------------------------------------------------

  /** A thread that will hand the locator or instance to the client in its next steps. */
  predicate Charged(thread: P.Thread, h: nat) {
    && thread.Closing? && thread.handle == h
    && ((thread.purpose == P.ForFree && (thread.stage == P.Gate || thread.stage == P.Work))
        || (thread.purpose == P.ForCaller && thread.stage == P.Work))
  }

  ghost predicate SomeCharged(threads: seq<P.Thread>, h: nat) {
    exists t :: 0 <= t < |threads| && Charged(threads[t], h)
  }

  /** The locator or instance has been freed, or a thread is just about to. */
  ghost predicate Covered(b: P.State, h: nat)
    requires h < |b.handles|
  {
    b.handles[h].freed == 1 || SomeCharged(b.threads, h)
  }

  /** A handle keeps its slot until it has been freed. */
  ghost predicate InItsSlot(s: State, h: nat) {
    && h in s.slotOf && h < |s.base.handles| && s.base.handles[h].kind != P.DependentObject
    && s.slotOf[h] < |s.slots| && (s.base.handles[h].freed == 0 ==> s.slots[s.slotOf[h]] == Some(h))
  }

  ghost predicate ListOk(s: State) {
    && (forall h :: h in s.slotOf ==> InItsSlot(s, h))
    && (forall h :: 0 <= h < |s.base.handles| && s.base.handles[h].kind != P.DependentObject ==> h in s.slotOf)
    && forall i :: 0 <= i < |s.slots| && s.slots[i].Some? ==>
         s.slots[i].value in s.slotOf && s.slotOf[s.slots[i].value] == i
  }

  /** A handle that is still to be removed has been freed and is in its slot. */
  ghost predicate DutyOk(s: State, t: nat)
    requires t in s.duties
  {
    var g := s.duties[t].handle;
    && t < |s.base.threads| && InItsSlot(s, g) && s.base.handles[g].freed == 1 && s.slots[s.slotOf[g]] == Some(g)
    && s.base.threads[t].Closing? && s.base.threads[t].handle == g
    && if s.base.handles[g].kind == P.Lob then s.base.threads[t].stage.Clear?
       else s.base.threads[t].stage == P.Clear(true) || s.base.threads[t].stage == P.Finished
  }

  ghost predicate DutiesOk(s: State) {
    HandlesDiffer(s.duties) && forall t :: t in s.duties ==> DutyOk(s, t)
  }

  ghost predicate HandlesDiffer(duties: map<nat, Duty>) {
    forall t, u :: t in duties && u in duties && t != u ==> duties[t].handle != duties[u].handle
  }

  predicate ScanThread(thread: P.Thread) {
    thread.Looking? || thread.Dropping? || (thread.Closing? && thread.purpose == P.ForScan)
  }

  /** Only the scan holds temporary references, only LOBs are closed by callers, and a close that is not
      the scan's does not fail before it has freed. */
  ghost predicate ThreadOk(s: State, t: nat)
    requires t < |s.base.threads|
  {
    var thread := s.base.threads[t];
    && P.Elsewhere(thread, |s.base.handles|)
    && (ScanThread(thread) ==> Scans(s, t) && s.scan.busy == Some(thread.handle))
    && (Scans(s, t) && s.scan.busy == None ==> thread.Idle?)
    && (thread.Closing? ==>
          var x := s.base.handles[thread.handle];
          && (thread.purpose == P.ForCaller ==> x.kind == P.Lob)
          && (thread.stage == P.Reset && x.freed == 0 ==> thread.purpose == P.ForScan && s.scan.Scanning? && s.scan.failed)
          && (thread.purpose == P.ForFree && thread.stage == P.Finished && x.kind != P.DependentObject ==> x.freed == 1))
  }

  /** The memory of a handle is given back only after its locator or instance. */
  ghost predicate MemoryOk(x: P.Handle) {
    x.kind != P.DependentObject && !x.hasMemory ==> x.freed == 1
  }

  ghost predicate ThreadsOk(s: State) {
    && (forall t :: 0 <= t < |s.base.threads| ==> ThreadOk(s, t))
    && (forall h :: 0 <= h < |s.base.handles| ==> MemoryOk(s.base.handles[h]))
    && (s.scan.Scanning? ==> s.scan.thread < |s.base.threads|)
  }

  /** The scan has not yet tried to close the handle that it is at work on. */
  predicate Early(thread: P.Thread) {
    thread.Looking? || (thread.Closing? && thread.purpose == P.ForScan && (thread.stage == P.Gate || thread.stage == P.Work))
  }

  /** A handle that was in the list when the scan began, as far as the scan has come. */
  ghost predicate TodoOk(s: State, h: nat) {
    && InItsSlot(s, h)
    && match s.scan
       case NotClosing => true
       case Closed => Covered(s.base, h)
       case Scanning(_, pos, busy, _) =>
         && (s.slotOf[h] < pos ==> Covered(s.base, h))
         && (busy.Some? && s.slotOf[h] == pos && busy != Some(h) ==> s.base.handles[h].freed == 1)
  }

  ghost predicate CoverageOk(s: State) {
    && (forall h :: h in s.todo ==> TodoOk(s, h))
    && (s.scan.Scanning? ==> if s.scan.busy == None then s.scan.pos <= |s.slots| else s.scan.pos < |s.slots|)
    && (s.scan.Scanning? && s.scan.busy.Some? ==>
          && s.scan.thread < |s.base.threads| && InItsSlot(s, s.scan.busy.value)
          && (!s.scan.failed && !Early(s.base.threads[s.scan.thread]) ==> Covered(s.base, s.scan.busy.value)))
  }

  ghost predicate Inv(s: State) {
    P.Inv(s.base) && ListOk(s) && DutiesOk(s) && ThreadsOk(s) && CoverageOk(s)
  }

  // --------------------------------------------------------------------------------------
  // What is known of a handle that threads are at work on
  // --------------------------------------------------------------------------------------

  lemma AtHandle(b: P.State, t: nat)
    requires P.Inv(b) && t < |b.threads| && !b.threads[t].Idle?
    ensures b.threads[t].handle < |b.handles|
    ensures P.Among(b.threads[t], b.handles[b.threads[t].handle], P.Count(b.threads, b.threads[t].handle))
  {
    var h := b.threads[t].handle;
    assert P.Elsewhere(b.threads[t], |b.handles|);
    assert P.Good(b.handles[h], P.Count(b.threads, h));
    P.CountUpdate(b.threads, t, P.Idle, h);
  }

  lemma {:induction false} SomeAtWork(threads: seq<P.Thread>, n: nat, h: nat)
    requires n <= |threads|
    ensures P.CountTo(threads, n, h).working > 0 ==>
              exists t :: 0 <= t < n && threads[t].Closing? && threads[t].handle == h
                          && (threads[t].stage == P.Work || threads[t].stage == P.Reset)
    ensures P.CountTo(threads, n, h).freeing > 0 ==>
              exists t :: 0 <= t < n && threads[t].Closing? && threads[t].handle == h && threads[t].purpose == P.ForFree
  {
    if n > 0 {
      SomeAtWork(threads, n - 1, h);
    }
  }

  /** A handle whose count is zero is covered: the free procedure is done with it, or about to be. */
  lemma InvalidIsCovered(s: State, h: nat)
    requires P.Inv(s.base) && ThreadsOk(s) && h < |s.base.handles|
    requires s.base.handles[h].kind != P.DependentObject && !s.base.handles[h].valid
    ensures Covered(s.base, h)
  {
    var b, x := s.base, s.base.handles[h];
    assert P.Good(x, P.Count(b.threads, h)) && MemoryOk(x);
    if x.hasMemory && x.freed == 0 {
      SomeAtWork(b.threads, |b.threads|, h);
      var t :| 0 <= t < |b.threads| && b.threads[t].Closing? && b.threads[t].handle == h && b.threads[t].purpose == P.ForFree;
      AtHandle(b, t);
      assert ThreadOk(s, t);
      assert Charged(b.threads[t], h);
    }
  }

  /** A handle that some other thread is closing is covered. */
  lemma ClosingIsCovered(s: State, t: nat, h: nat)
    requires P.Inv(s.base) && ThreadsOk(s) && t < |s.base.threads| && s.base.threads[t] == P.Closing(h, P.ForScan, P.Gate)
    requires h < |s.base.handles| && s.base.handles[h].kind != P.DependentObject && s.base.handles[h].closing
    ensures Covered(s.base, h)
  {
    var b, x := s.base, s.base.handles[h];
    assert P.Good(x, P.Count(b.threads, h)) && ThreadOk(s, t);
    if x.freed == 0 {
      P.CountNonNegative(b.threads, h);
      SomeAtWork(b.threads, |b.threads|, h);
      var u :| 0 <= u < |b.threads| && b.threads[u].Closing? && b.threads[u].handle == h
               && (b.threads[u].stage == P.Work || b.threads[u].stage == P.Reset);
      assert ThreadOk(s, u);
      assert Charged(b.threads[u], h);
    }
  }

  // --------------------------------------------------------------------------------------
  // What a step of the protocol changes
  // --------------------------------------------------------------------------------------

  /** A step changes one thread, and frees a locator or instance only where it is handed to the client. */
  ghost predicate Moves(b: P.State, t: nat, c: P.State) {
    && |c.threads| == |b.threads| && t < |b.threads| && |b.handles| <= |c.handles|
    && (forall u :: 0 <= u < |b.threads| && u != t ==> c.threads[u] == b.threads[u])
    && forall h :: 0 <= h < |b.handles| ==>
         && c.handles[h].kind == b.handles[h].kind
         && (c.handles[h].freed == b.handles[h].freed || c.handles[h].freed == 1)
         && (c.handles[h].freed == 0 || c.handles[h].freed == 1)
  }

  lemma StepMoves(b: P.State, t: nat, a: P.Action)
    requires P.Inv(b) && P.Enabled(b, t, a)
    ensures Moves(b, t, P.Next(b, t, a)) && P.Inv(P.Next(b, t, a))
  {
    P.StepKeepsInv(b, t, a);
    var c := P.Next(b, t, a);
    forall h | 0 <= h < |b.handles|
      ensures c.handles[h].kind == b.handles[h].kind
      ensures c.handles[h].freed == b.handles[h].freed || c.handles[h].freed == 1
      ensures c.handles[h].freed == 0 || c.handles[h].freed == 1
    {
      P.StepIsFinal(b, t, a, h);
      assert P.Good(b.handles[h], P.Count(b.threads, h));
      assert P.Good(c.handles[h], P.Count(c.threads, h));
      P.CountNonNegative(b.threads, h);
      P.CountNonNegative(c.threads, h);
    }
  }

  /** A handle that is covered stays covered. */
  lemma CoveredStays(s: State, t: nat, a: P.Action, h: nat)
    requires Inv(s) && P.Enabled(s.base, t, a) && (InnerEnabled(s, t, a) || a.Look? || a.Allocate?)
    requires h < |s.base.handles| && s.base.handles[h].kind != P.DependentObject && Covered(s.base, h)
    ensures Covered(P.Next(s.base, t, a), h)
  {
    var b, c := s.base, P.Next(s.base, t, a);
    StepMoves(b, t, a);
    if b.handles[h].freed == 0 {
      var u :| 0 <= u < |b.threads| && Charged(b.threads[u], h);
      if u == t {
        ChargedMoves(s, t, a, h);
      } else {
        assert Charged(c.threads[u], h);
      }
    }
  }

  lemma ChargedMoves(s: State, t: nat, a: P.Action, h: nat)
    requires Inv(s) && P.Enabled(s.base, t, a) && (InnerEnabled(s, t, a) || a.Look? || a.Allocate?)
    requires h < |s.base.handles| && s.base.handles[h].kind != P.DependentObject && s.base.handles[h].freed == 0
    requires Charged(s.base.threads[t], h)
    ensures Covered(P.Next(s.base, t, a), h)
  {
    AtHandle(s.base, t);
    assert ThreadOk(s, t);
    var c := P.Next(s.base, t, a);
    if s.base.threads[t].stage == P.Gate {
      assert Charged(c.threads[t], h);
    }
  }

  // --------------------------------------------------------------------------------------
  // Steps of the protocol keep the invariant
  // --------------------------------------------------------------------------------------

  lemma StaysInSlot(s: State, t: nat, c: P.State, h: nat)
    requires Moves(s.base, t, c) && InItsSlot(s, h)
    ensures InItsSlot(s.(base := c), h)
  {
  }

  /** A duty of another thread. */
  lemma DutyStays(s: State, t: nat, c: P.State, u: nat)
    requires Moves(s.base, t, c) && u in s.duties && u != t && DutyOk(s, u)
    ensures DutyOk(s.(base := c), u)
  {
  }

  /** A thread that has not come to the removal yet. */
  lemma OwnDutyStays(s: State, t: nat, a: P.Action)
    requires Inv(s) && P.Enabled(s.base, t, a) && InnerEnabled(s, t, a) && t in s.duties
    ensures DutyOk(s.(base := P.Next(s.base, t, a)), t) && !TakesDuty(s.base, t, a)
  {
    StepMoves(s.base, t, a);
    assert DutyOk(s, t);
  }

  lemma NewDuty(s: State, t: nat, a: P.Action)
    requires Inv(s) && P.Enabled(s.base, t, a) && InnerEnabled(s, t, a) && TakesDuty(s.base, t, a)
    ensures DutyOk(NextInner(s, t, a), t) && s.base.handles[s.base.threads[t].handle].freed == 0
  {
    StepMoves(s.base, t, a);
    AtHandle(s.base, t);
    var g := s.base.threads[t].handle;
    assert InItsSlot(s, g);
  }

  lemma EachDutyOk(s: State, t: nat, a: P.Action, u: nat)
    requires Inv(s) && P.Enabled(s.base, t, a) && InnerEnabled(s, t, a) && u in NextInner(s, t, a).duties
    ensures DutyOk(NextInner(s, t, a), u)
  {
    if u == t {
      if TakesDuty(s.base, t, a) {
        NewDuty(s, t, a);
      } else {
        OwnDutyStays(s, t, a);
      }
    } else {
      StepMoves(s.base, t, a);
      DutyStays(s, t, P.Next(s.base, t, a), u);
    }
  }

  /** The handle of a new duty is not that of another one, which has been freed. */
  lemma NewDutyIsOther(s: State, t: nat, a: P.Action, u: nat)
    requires Inv(s) && P.Enabled(s.base, t, a) && InnerEnabled(s, t, a) && TakesDuty(s.base, t, a)
    requires u in s.duties
    ensures s.duties[u].handle != s.base.threads[t].handle
  {
    NewDuty(s, t, a);
    assert DutyOk(s, u);
  }

  lemma InnerDuties(s: State, t: nat, a: P.Action)
    requires Inv(s) && P.Enabled(s.base, t, a) && InnerEnabled(s, t, a)
    ensures DutiesOk(NextInner(s, t, a))
  {
    forall u | u in NextInner(s, t, a).duties
      ensures DutyOk(NextInner(s, t, a), u)
    {
      EachDutyOk(s, t, a, u);
    }
    DutiesDiffer(s, t, a);
  }

  lemma DutiesDiffer(s: State, t: nat, a: P.Action)
    requires Inv(s) && P.Enabled(s.base, t, a) && InnerEnabled(s, t, a)
    ensures HandlesDiffer(NextInner(s, t, a).duties)
  {
    if TakesDuty(s.base, t, a) {
      forall u | u in s.duties
        ensures s.duties[u].handle != s.base.threads[t].handle
      {
        NewDutyIsOther(s, t, a, u);
      }
      OneMoreDiffers(s.duties, t, Duty(s.base.threads[t].handle, false));
    }
  }

  lemma OneMoreDiffers(duties: map<nat, Duty>, t: nat, d: Duty)
    requires HandlesDiffer(duties) && forall u :: u in duties ==> duties[u].handle != d.handle
    ensures HandlesDiffer(duties[t := d])
  {
  }

  lemma OtherThreadStays(s: State, t: nat, n: State, u: nat)
    requires Moves(s.base, t, n.base) && u < |s.base.threads| && u != t && ThreadOk(s, u)
    requires n.scan == s.scan || (s.scan.Scanning? && n.scan == s.scan.(failed := true))
    ensures ThreadOk(n, u)
  {
  }

  lemma StartsOk(s: State, t: nat, a: P.Action)
    requires Inv(s) && P.Enabled(s.base, t, a) && InnerEnabled(s, t, a) && !a.Continue?
    ensures ThreadOk(NextInner(s, t, a), t)
  {
    assert ThreadOk(s, t);
  }

  lemma GateOk(s: State, t: nat, a: P.Action, h: nat, p: P.Purpose)
    requires Inv(s) && P.Enabled(s.base, t, a) && InnerEnabled(s, t, a)
    requires s.base.threads[t] == P.Closing(h, p, P.Gate)
    ensures ThreadOk(NextInner(s, t, a), t)
  {
    assert ThreadOk(s, t);
    AtHandle(s.base, t);
  }

  lemma WorkOk(s: State, t: nat, a: P.Action, h: nat, p: P.Purpose)
    requires Inv(s) && P.Enabled(s.base, t, a) && InnerEnabled(s, t, a)
    requires s.base.threads[t] == P.Closing(h, p, P.Work)
    ensures ThreadOk(NextInner(s, t, a), t)
  {
    assert ThreadOk(s, t);
    AtHandle(s.base, t);
  }

  lemma ClearOk(s: State, t: nat, a: P.Action, h: nat, p: P.Purpose, done: bool)
    requires Inv(s) && P.Enabled(s.base, t, a) && InnerEnabled(s, t, a)
    requires s.base.threads[t] == P.Closing(h, p, P.Clear(done))
    ensures ThreadOk(NextInner(s, t, a), t)
  {
    assert ThreadOk(s, t);
    AtHandle(s.base, t);
  }

  lemma LateOk(s: State, t: nat, a: P.Action, h: nat, p: P.Purpose)
    requires Inv(s) && P.Enabled(s.base, t, a) && InnerEnabled(s, t, a)
    requires s.base.threads[t] == P.Closing(h, p, P.Reset) || s.base.threads[t] == P.Closing(h, p, P.Finished)
    ensures ThreadOk(NextInner(s, t, a), t)
  {
    assert ThreadOk(s, t);
    AtHandle(s.base, t);
  }

  lemma OwnThreadStays(s: State, t: nat, a: P.Action)
    requires Inv(s) && P.Enabled(s.base, t, a) && InnerEnabled(s, t, a)
    ensures ThreadOk(NextInner(s, t, a), t)
  {
    if !a.Continue? {
      StartsOk(s, t, a);
    } else {
      match s.base.threads[t]
      case Looking(_) => assert ThreadOk(s, t);
      case Dropping(_) => assert ThreadOk(s, t);
      case Closing(h, p, Gate) => GateOk(s, t, a, h, p);
      case Closing(h, p, Work) => WorkOk(s, t, a, h, p);
      case Closing(h, p, Clear(done)) => ClearOk(s, t, a, h, p, done);
      case Closing(h, p, _) => LateOk(s, t, a, h, p);
    }
  }

  /** Only the end of the free procedure gives memory back. */
  lemma MemoryGoes(b: P.State, t: nat, a: P.Action, h: nat)
    requires P.Enabled(b, t, a) && h < |b.handles|
    ensures b.handles[h].hasMemory && !P.Next(b, t, a).handles[h].hasMemory ==> b.threads[t] == P.Closing(h, P.ForFree, P.Finished)
  {
  }

  lemma MemoryStays(s: State, t: nat, a: P.Action, h: nat)
    requires Inv(s) && P.Enabled(s.base, t, a) && InnerEnabled(s, t, a) && h < |s.base.handles|
    requires Moves(s.base, t, P.Next(s.base, t, a))
    ensures MemoryOk(P.Next(s.base, t, a).handles[h])
  {
    MemoryGoes(s.base, t, a, h);
    assert MemoryOk(s.base.handles[h]) && ThreadOk(s, t);
  }

  lemma InnerThreads(s: State, t: nat, a: P.Action)
    requires Inv(s) && P.Enabled(s.base, t, a) && InnerEnabled(s, t, a)
    ensures ThreadsOk(NextInner(s, t, a))
  {
    var n := NextInner(s, t, a);
    StepMoves(s.base, t, a);
    forall u | 0 <= u < |n.base.threads|
      ensures ThreadOk(n, u)
    {
      if u == t {
        OwnThreadStays(s, t, a);
      } else {
        assert ThreadOk(s, u);
        OtherThreadStays(s, t, n, u);
      }
    }
    forall h | 0 <= h < |n.base.handles|
      ensures MemoryOk(n.base.handles[h])
    {
      if h < |s.base.handles| {
        MemoryStays(s, t, a, h);
      }
    }
  }

  lemma TodoStays(s: State, t: nat, a: P.Action, h: nat)
    requires Inv(s) && P.Enabled(s.base, t, a) && InnerEnabled(s, t, a) && h in s.todo
    ensures TodoOk(NextInner(s, t, a), h)
  {
    StepMoves(s.base, t, a);
    assert TodoOk(s, h);
    StaysInSlot(s, t, P.Next(s.base, t, a), h);
    if Covered(s.base, h) {
      CoveredStays(s, t, a, h);
    }
  }

  /** After the scan has tried to close a handle, without an error, that handle is covered. */
  lemma ScanCovers(s: State, t: nat, a: P.Action)
    requires Inv(s) && P.Enabled(s.base, t, a) && InnerEnabled(s, t, a)
    requires Scans(s, t) && s.scan.busy.Some? && Early(s.base.threads[t])
    requires !NextInner(s, t, a).scan.failed && !Early(P.Next(s.base, t, a).threads[t])
    ensures Covered(P.Next(s.base, t, a), s.scan.busy.value)
  {
    assert ThreadOk(s, t);
    AtHandle(s.base, t);
    var thread, h := s.base.threads[t], s.scan.busy.value;
    assert InItsSlot(s, h);
    match thread
    case Looking(_) =>
      InvalidIsCovered(s, h);
      CoveredStays(s, t, a, h);
    case Closing(_, _, _) =>
      if thread.stage == P.Gate {
        ClosingIsCovered(s, t, h);
        CoveredStays(s, t, a, h);
      }
  }

  lemma BusyStays(s: State, t: nat, a: P.Action)
    requires Inv(s) && P.Enabled(s.base, t, a) && InnerEnabled(s, t, a)
    requires s.scan.Scanning? && s.scan.busy.Some?
    requires !NextInner(s, t, a).scan.failed && !Early(P.Next(s.base, t, a).threads[s.scan.thread])
    ensures Covered(P.Next(s.base, t, a), s.scan.busy.value)
  {
    StepMoves(s.base, t, a);
    if Early(s.base.threads[s.scan.thread]) {
      ScanCovers(s, t, a);
    } else {
      CoveredStays(s, t, a, s.scan.busy.value);
    }
  }

  lemma InnerCoverage(s: State, t: nat, a: P.Action)
    requires Inv(s) && P.Enabled(s.base, t, a) && InnerEnabled(s, t, a)
    ensures CoverageOk(NextInner(s, t, a))
  {
    var n := NextInner(s, t, a);
    StepMoves(s.base, t, a);
    forall h | h in n.todo
      ensures TodoOk(n, h)
    {
      TodoStays(s, t, a, h);
    }
    if s.scan.Scanning? && s.scan.busy.Some? {
      StaysInSlot(s, t, n.base, s.scan.busy.value);
      if !n.scan.failed && !Early(n.base.threads[s.scan.thread]) {
        BusyStays(s, t, a);
      }
    }
  }

  lemma InnerList(s: State, t: nat, a: P.Action)
    requires Inv(s) && P.Enabled(s.base, t, a) && InnerEnabled(s, t, a)
    ensures ListOk(NextInner(s, t, a))
  {
    var n := NextInner(s, t, a);
    StepMoves(s.base, t, a);
    forall h | h in s.slotOf
      ensures InItsSlot(n, h)
    {
      StaysInSlot(s, t, n.base, h);
    }
  }

  lemma InnerKeepsInv(s: State, t: nat, a: P.Action)
    requires Inv(s) && Enabled(s, t, Inner(a))
    ensures Inv(Next(s, t, Inner(a)))
  {
    StepMoves(s.base, t, a);
    InnerList(s, t, a);
    InnerDuties(s, t, a);
    InnerThreads(s, t, a);
    InnerCoverage(s, t, a);
  }

  // --------------------------------------------------------------------------------------
  // Steps of the list and of the scan keep the invariant
  // --------------------------------------------------------------------------------------

  lemma CreateMoves(s: State, t: nat, kind: P.Kind, slot: nat)
    requires Inv(s) && Enabled(s, t, Create(kind, slot))
    ensures var n := Next(s, t, Create(kind, slot));
            && Moves(s.base, t, n.base) && P.Inv(n.base) && n.base.threads == s.base.threads
            && n.base.handles == s.base.handles + [P.NewHandle(kind)]
            && (|n.slots| == |s.slots| || (|n.slots| == |s.slots| + 8 && None !in s.slots)) && slot < |n.slots| && n.slots[slot] == Some(|s.base.handles|)
            && (forall i :: 0 <= i < |s.slots| && i != slot ==> n.slots[i] == s.slots[i])
            && forall i :: |s.slots| <= i < |n.slots| && i != slot ==> n.slots[i] == None
  {
    StepMoves(s.base, t, P.Allocate(kind));
  }

  lemma CreateSlot(s: State, t: nat, kind: P.Kind, slot: nat, h: nat)
    requires Inv(s) && Enabled(s, t, Create(kind, slot)) && h in Next(s, t, Create(kind, slot)).slotOf
    ensures InItsSlot(Next(s, t, Create(kind, slot)), h)
  {
    CreateMoves(s, t, kind, slot);
    assert h in s.slotOf ==> InItsSlot(s, h);
  }

  lemma CreateList(s: State, t: nat, kind: P.Kind, slot: nat)
    requires Inv(s) && Enabled(s, t, Create(kind, slot))
    ensures ListOk(Next(s, t, Create(kind, slot)))
  {
    var n := Next(s, t, Create(kind, slot));
    CreateMoves(s, t, kind, slot);
    forall h | h in n.slotOf
      ensures InItsSlot(n, h)
    {
      CreateSlot(s, t, kind, slot, h);
    }
    CreateEntries(s, n, slot);
  }

  lemma CreateEntries(s: State, n: State, slot: nat)
    requires ListOk(s) && slot < |n.slots| && n.slots[slot] == Some(|s.base.handles|)
    requires n.slotOf == s.slotOf[|s.base.handles| := slot]
    requires forall i :: 0 <= i < |n.slots| && i != slot && n.slots[i].Some? ==> i < |s.slots| && n.slots[i] == s.slots[i]
    ensures forall i :: 0 <= i < |n.slots| && n.slots[i].Some? ==>
              n.slots[i].value in n.slotOf && n.slotOf[n.slots[i].value] == i
  {
    forall i | 0 <= i < |n.slots| && i != slot && n.slots[i].Some?
      ensures n.slots[i].value in n.slotOf && n.slotOf[n.slots[i].value] == i
    {
      assert s.slots[i].value in s.slotOf && InItsSlot(s, s.slots[i].value);
    }
  }

  lemma CreateRest(s: State, t: nat, kind: P.Kind, slot: nat)
    requires Inv(s) && Enabled(s, t, Create(kind, slot))
    ensures var n := Next(s, t, Create(kind, slot)); DutiesOk(n) && ThreadsOk(n)
  {
    var n := Next(s, t, Create(kind, slot));
    CreateMoves(s, t, kind, slot);
    forall u | u in n.duties
      ensures DutyOk(n, u)
    {
      assert DutyOk(s, u);
    }
    forall u | 0 <= u < |n.base.threads|
      ensures ThreadOk(n, u)
    {
      assert ThreadOk(s, u);
    }
    forall h | 0 <= h < |n.base.handles|
      ensures MemoryOk(n.base.handles[h])
    {
      assert h < |s.base.handles| ==> MemoryOk(s.base.handles[h]);
    }
  }

  lemma CreateCoverage(s: State, t: nat, kind: P.Kind, slot: nat)
    requires Inv(s) && Enabled(s, t, Create(kind, slot))
    ensures CoverageOk(Next(s, t, Create(kind, slot)))
  {
    var n := Next(s, t, Create(kind, slot));
    CreateMoves(s, t, kind, slot);
    CreateList(s, t, kind, slot);
    forall h | h in n.todo
      ensures TodoOk(n, h)
    {
      assert TodoOk(s, h);
    }
  }

  /** A freed handle leaves its slot; no other handle has that slot. */
  lemma RemoveKeepsInv(s: State, t: nat)
    requires Inv(s) && Enabled(s, t, RemoveFromSlot)
    ensures Inv(Next(s, t, RemoveFromSlot))
  {
    var n, g := Next(s, t, RemoveFromSlot), s.duties[t].handle;
    assert DutyOk(s, t);
    forall h | h in n.slotOf
      ensures InItsSlot(n, h)
    {
      assert InItsSlot(s, h);
    }
    forall u | u in n.duties
      ensures DutyOk(n, u)
    {
      assert DutyOk(s, u) && s.duties[u].handle != g;
    }
    ThreadsAndTodo(s, n);
  }

  /** What does not depend on the list. */
  lemma ThreadsAndTodo(s: State, n: State)
    requires Inv(s) && n.base == s.base && n.scan == s.scan && n.todo == s.todo && n.slotOf == s.slotOf
    requires ListOk(n) && |n.slots| == |s.slots|
    ensures ThreadsOk(n) && CoverageOk(n)
  {
    forall u | 0 <= u < |n.base.threads|
      ensures ThreadOk(n, u)
    {
      assert ThreadOk(s, u);
    }
    forall h | h in n.todo
      ensures TodoOk(n, h)
    {
      assert TodoOk(s, h) && InItsSlot(n, h);
    }
    if s.scan.Scanning? && s.scan.busy.Some? {
      assert InItsSlot(s, s.scan.busy.value) && InItsSlot(n, s.scan.busy.value);
    }
  }

  lemma CheckDuties(s: State, t: nat)
    requires Inv(s) && Enabled(s, t, CheckFlag)
    ensures DutiesOk(Next(s, t, CheckFlag))
  {
    var n := Next(s, t, CheckFlag);
    forall u | u in n.duties
      ensures DutyOk(n, u)
    {
      assert DutyOk(s, u);
    }
  }

  lemma SameList(s: State, n: State)
    requires ListOk(s) && n.base == s.base && n.slots == s.slots && n.slotOf == s.slotOf
    ensures ListOk(n)
  {
    forall h | h in n.slotOf
      ensures InItsSlot(n, h)
    {
      assert InItsSlot(s, h);
    }
  }

  lemma CheckKeepsInv(s: State, t: nat)
    requires Inv(s) && Enabled(s, t, CheckFlag)
    ensures Inv(Next(s, t, CheckFlag))
  {
    var n := Next(s, t, CheckFlag);
    SameList(s, n);
    CheckDuties(s, t);
    ThreadsAndTodo(s, n);
  }

  /** What does not depend on the scan. */
  lemma ListAndDuties(s: State, n: State)
    requires Inv(s) && n.base == s.base && n.slots == s.slots && n.slotOf == s.slotOf && n.duties == s.duties
    ensures P.Inv(n.base) && ListOk(n) && DutiesOk(n)
  {
    SameList(s, n);
    forall u | u in n.duties
      ensures DutyOk(n, u)
    {
      assert DutyOk(s, u);
    }
  }

  lemma StartKeepsInv(s: State, t: nat)
    requires Inv(s) && Enabled(s, t, StartClose)
    ensures Inv(Next(s, t, StartClose))
  {
    var n := Next(s, t, StartClose);
    ListAndDuties(s, n);
    forall u | 0 <= u < |n.base.threads|
      ensures ThreadOk(n, u)
    {
      assert ThreadOk(s, u);
    }
    forall h | h in n.todo
      ensures TodoOk(n, h)
    {
      var i :| 0 <= i < |s.slots| && s.slots[i] == Some(h);
      assert s.slots[i].value in s.slotOf;
      assert InItsSlot(n, h);
    }
  }

  /** The next slot is empty: a handle of the list that was in it has been freed. */
  lemma SkipKeepsInv(s: State, t: nat)
    requires Inv(s) && Enabled(s, t, Visit) && s.slots[s.scan.pos] == None
    ensures Inv(Next(s, t, Visit))
  {
    var n := Next(s, t, Visit);
    ListAndDuties(s, n);
    forall u | 0 <= u < |n.base.threads|
      ensures ThreadOk(n, u)
    {
      assert ThreadOk(s, u);
    }
    forall h | h in n.todo
      ensures TodoOk(n, h)
    {
      assert TodoOk(s, h);
    }
  }

  lemma LookThreads(s: State, t: nat)
    requires Inv(s) && Enabled(s, t, Visit) && s.slots[s.scan.pos].Some?
    ensures ThreadsOk(Next(s, t, Visit)) && DutiesOk(Next(s, t, Visit))
  {
    var n := Next(s, t, Visit);
    StepMoves(s.base, t, P.Look(s.slots[s.scan.pos].value));
    assert n.base.handles == s.base.handles;
    forall u | 0 <= u < |n.base.threads|
      ensures ThreadOk(n, u)
    {
      assert ThreadOk(s, u) && P.Elsewhere(n.base.threads[u], |n.base.handles|);
    }
    forall u | u in n.duties
      ensures DutyOk(n, u)
    {
      assert DutyOk(s, u);
    }
  }

  /** The scan goes to work on the handle in the next slot; another handle that had that slot has been
      freed. */
  lemma LookKeepsInv(s: State, t: nat)
    requires Inv(s) && Enabled(s, t, Visit) && s.slots[s.scan.pos].Some?
    ensures Inv(Next(s, t, Visit))
  {
    var n, g := Next(s, t, Visit), s.slots[s.scan.pos].value;
    StepMoves(s.base, t, P.Look(g));
    LookThreads(s, t);
    forall h | h in n.slotOf
      ensures InItsSlot(n, h)
    {
      assert InItsSlot(s, h);
    }
    forall h | h in n.todo
      ensures TodoOk(n, h)
    {
      assert TodoOk(s, h) && InItsSlot(n, h);
      if s.slotOf[h] < s.scan.pos {
        CoveredStays(s, t, P.Look(g), h);
      }
    }
    assert InItsSlot(n, g);
  }

  lemma NextSlotKeepsInv(s: State, t: nat)
    requires Inv(s) && Enabled(s, t, NextSlot)
    ensures Inv(Next(s, t, NextSlot))
  {
    var n := Next(s, t, NextSlot);
    ListAndDuties(s, n);
    forall u | 0 <= u < |n.base.threads|
      ensures ThreadOk(n, u)
    {
      assert ThreadOk(s, u) && ThreadOk(s, t);
    }
    forall h | h in n.todo
      ensures TodoOk(n, h)
    {
      assert TodoOk(s, h);
    }
  }

  lemma FinishKeepsInv(s: State, t: nat)
    requires Inv(s) && Enabled(s, t, Finish)
    ensures Inv(Next(s, t, Finish))
  {
    var n := Next(s, t, Finish);
    ListAndDuties(s, n);
    forall u | 0 <= u < |n.base.threads|
      ensures ThreadOk(n, u)
    {
      assert ThreadOk(s, u);
    }
    forall h | h in n.todo
      ensures TodoOk(n, h)
    {
      assert TodoOk(s, h);
    }
  }

  /** Every step keeps the invariant of the list, the removals, the threads and the scan. */
  lemma StepKeepsInv(s: State, t: nat, a: Action)
    requires Inv(s) && Enabled(s, t, a)
    ensures Inv(Next(s, t, a))
  {
    match a
    case Create(kind, slot) =>
      CreateMoves(s, t, kind, slot);
      CreateList(s, t, kind, slot);
      CreateRest(s, t, kind, slot);
      CreateCoverage(s, t, kind, slot);
    case Inner(action) => InnerKeepsInv(s, t, action);
    case CheckFlag => CheckKeepsInv(s, t);
    case RemoveFromSlot => RemoveKeepsInv(s, t);
    case StartClose => StartKeepsInv(s, t);
    case Visit =>
      if s.slots[s.scan.pos] == None {
        SkipKeepsInv(s, t);
      } else {
        LookKeepsInv(s, t);
      }
    case NextSlot => NextSlotKeepsInv(s, t);
    case Finish => FinishKeepsInv(s, t);
  }

  // --------------------------------------------------------------------------------------
  // Whole runs
  // --------------------------------------------------------------------------------------

  /** A new connection with any number of threads. */
  predicate Initial(s: State) {
    && s.base.handles == [] && (forall t :: 0 <= t < |s.base.threads| ==> s.base.threads[t] == P.Idle)
    && s.slots == seq(SLOT_INCREMENT, _ => None) && s.slotOf == map[] && s.duties == map[]
    && s.scan == NotClosing && s.todo == {}
  }

  ghost predicate Execution(ss: seq<State>, ts: seq<nat>, actions: seq<Action>) {
    && |ss| == |ts| + 1 == |actions| + 1
    && Initial(ss[0])
    && forall i :: 0 <= i < |ts| ==> Enabled(ss[i], ts[i], actions[i]) && ss[i + 1] == Next(ss[i], ts[i], actions[i])
  }

  lemma {:induction false} ExecutionInv(ss: seq<State>, ts: seq<nat>, actions: seq<Action>, i: nat)
    requires Execution(ss, ts, actions) && i < |ss|
    ensures Inv(ss[i])
  {
    if i > 0 {
      ExecutionInv(ss, ts, actions, i - 1);
      StepKeepsInv(ss[i - 1], ts[i - 1], actions[i - 1]);
    }
  }

  /** No thread is at work on a handle. */
  predicate Quiet(threads: seq<P.Thread>, h: nat) {
    forall t :: 0 <= t < |threads| ==> threads[t].Idle? || threads[t].handle != h
  }

  /** A handle that has not been freed is in the list, in the slot that it got. */
  lemma ListedUntilFreed(ss: seq<State>, ts: seq<nat>, actions: seq<Action>, i: nat, h: nat)
    requires Execution(ss, ts, actions) && i < |ss| && h < |ss[i].base.handles|
    requires ss[i].base.handles[h].kind != P.DependentObject && ss[i].base.handles[h].freed == 0
    ensures h in ss[i].slotOf && ss[i].slotOf[h] < |ss[i].slots| && ss[i].slots[ss[i].slotOf[h]] == Some(h)
  {
    ExecutionInv(ss, ts, actions, i);
    assert InItsSlot(ss[i], h);
  }

  lemma FreedKept(s: State, t: nat, a: Action, h: nat)
    requires Inv(s) && Enabled(s, t, a) && h < |s.base.handles|
    ensures var c := Next(s, t, a).base;
            h < |c.handles| && c.handles[h].kind == s.base.handles[h].kind
            && (s.base.handles[h].freed == 1 ==> c.handles[h].freed == 1)
  {
    match a
    case Create(kind, _) => StepMoves(s.base, t, P.Allocate(kind));
    case Inner(action) => StepMoves(s.base, t, action);
    case Visit =>
      if s.slots[s.scan.pos].Some? {
        StepMoves(s.base, t, P.Look(s.slots[s.scan.pos].value));
      }
    case _ =>
  }

  /** A LOB or object of its own that is in the list of the scan or has been freed. */
  ghost predicate Due(s: State, h: nat) {
    && h < |s.base.handles| && s.base.handles[h].kind != P.DependentObject
    && (h in s.todo || s.base.handles[h].freed == 1)
  }

  lemma StartDue(s: State, t: nat, h: nat)
    requires Inv(s) && Enabled(s, t, StartClose)
    requires h < |s.base.handles| && s.base.handles[h].kind != P.DependentObject
    ensures Due(Next(s, t, StartClose), h)
  {
    assert P.Good(s.base.handles[h], P.Count(s.base.threads, h));
    P.CountNonNegative(s.base.threads, h);
    assert InItsSlot(s, h);
  }

  lemma StaysDue(s: State, t: nat, a: Action, h: nat)
    requires Inv(s) && Enabled(s, t, a) && a != StartClose && Due(s, h)
    ensures Due(Next(s, t, a), h)
  {
    FreedKept(s, t, a, h);
    assert Next(s, t, a).todo == s.todo;
  }

  /** One step of a run. */
  lemma StepDue(ss: seq<State>, ts: seq<nat>, actions: seq<Action>, k: nat, h: nat)
    requires Execution(ss, ts, actions) && k < |ts|
    requires if actions[k] == StartClose then h < |ss[k].base.handles| && ss[k].base.handles[h].kind != P.DependentObject
             else Due(ss[k], h)
    ensures Due(ss[k + 1], h)
  {
    ExecutionInv(ss, ts, actions, k);
    if actions[k] == StartClose {
      StartDue(ss[k], ts[k], h);
    } else {
      StaysDue(ss[k], ts[k], actions[k], h);
    }
  }

  lemma {:induction false} StaysTrue(holds: seq<bool>, i: nat, j: nat)
    requires i <= j < |holds| && holds[i]
    requires forall k :: i <= k < j && holds[k] ==> holds[k + 1]
    ensures holds[j]
  {
    if i < j {
      StaysTrue(holds, i, j - 1);
    }
  }

  /** From the beginning of a close on. */
  lemma DueSince(ss: seq<State>, ts: seq<nat>, actions: seq<Action>, i: nat, j: nat, h: nat)
    requires Execution(ss, ts, actions) && i < j < |ss| && actions[i] == StartClose
    requires forall k :: i < k < j ==> actions[k] != StartClose
    requires h < |ss[i].base.handles| && ss[i].base.handles[h].kind != P.DependentObject
    ensures Due(ss[j], h)
  {
    ghost var due := seq(|ss|, k requires 0 <= k < |ss| => Due(ss[k], h));
    StepDue(ss, ts, actions, i, h);
    forall k | i < k < j && due[k]
      ensures due[k + 1]
    {
      StepDue(ss, ts, actions, k, h);
    }
    StaysTrue(due, i + 1, j);
  }

  /** A thread that is about to free finds the pointer set exactly if nothing has been freed yet. */
  lemma ChargedExact(b: P.State, h: nat)
    requires P.Inv(b) && h < |b.handles| && Covered(b, h)
    ensures b.handles[h].freed == 0 <==> b.handles[h].present && SomeCharged(b.threads, h)
  {
    assert P.Good(b.handles[h], P.Count(b.threads, h));
    P.CountNonNegative(b.threads, h);
    if SomeCharged(b.threads, h) {
      var t :| 0 <= t < |b.threads| && Charged(b.threads[t], h);
      AtHandle(b, t);
    }
  }

  /** A close begins with action `i` and has reported success in state `j`. Then the locator or instance of
      every LOB and every object of its own that was there when it began has been freed, exactly unless it is
      set and a thread that released or closed it is just about to free it; so it has been freed once no
      thread is at work on it. */
  lemma ClosedFreesAll(ss: seq<State>, ts: seq<nat>, actions: seq<Action>, i: nat, j: nat, h: nat)
    requires Execution(ss, ts, actions) && i < j < |ss| && actions[i] == StartClose && ss[j].scan == Closed
    requires forall k :: i < k < j ==> actions[k] != StartClose
    requires h < |ss[i].base.handles| && ss[i].base.handles[h].kind != P.DependentObject
    ensures h < |ss[j].base.handles|
    ensures ss[j].base.handles[h].freed == 1
       <==> !(ss[j].base.handles[h].present && SomeCharged(ss[j].base.threads, h))
    ensures Quiet(ss[j].base.threads, h) ==> ss[j].base.handles[h].freed == 1
  {
    DueSince(ss, ts, actions, i, j, h);
    ExecutionInv(ss, ts, actions, j);
    assert Due(ss[j], h);
    if h in ss[j].todo {
      assert TodoOk(ss[j], h);
    }
    ChargedExact(ss[j].base, h);
    assert P.Good(ss[j].base.handles[h], P.Count(ss[j].base.threads, h));
    P.CountNonNegative(ss[j].base.threads, h);
  }

  // --------------------------------------------------------------------------------------
  // Nothing blocks
  // --------------------------------------------------------------------------------------

  /** A thread inside a call can always take its next step, whatever the others do. */
  lemma CallsGoOn(s: State, t: nat)
    requires Inv(s) && t < |s.base.threads| && !s.base.threads[t].Idle?
    ensures Enabled(s, t, Inner(P.Continue(true, true))) || Enabled(s, t, CheckFlag) || Enabled(s, t, RemoveFromSlot)
  {
    assert ThreadOk(s, t);
    if t in s.duties {
      assert DutyOk(s, t);
    }
  }

  /** So can the scan. */
  lemma ScanGoesOn(s: State, t: nat)
    requires Inv(s) && t < |s.base.threads| && s.base.threads[t].Idle? && Scans(s, t)
    ensures Enabled(s, t, Visit) || Enabled(s, t, NextSlot) || Enabled(s, t, Finish)
  {
    if s.scan.busy == None && s.scan.pos < |s.slots| && s.slots[s.scan.pos].Some? {
      assert s.slots[s.scan.pos].value in s.slotOf;
      assert InItsSlot(s, s.slots[s.scan.pos].value);
    }
  }

  /** A thread outside can always create a LOB or an object of its own, use and give up a reference that is owned,
      close a LOB, and begin to close the connection unless that has been done. */
  lemma CallsCanStart(s: State, t: nat, kind: P.Kind, h: nat)
    requires Inv(s) && t < |s.base.threads| && s.base.threads[t].Idle? && !Scans(s, t)
    ensures kind != P.DependentObject ==> exists slot: nat :: slot <= |s.slots| && Enabled(s, t, Create(kind, slot))
    ensures kind == P.DependentObject ==> Enabled(s, t, Inner(P.Allocate(kind)))
    ensures h < |s.base.handles| && s.base.handles[h].owned >= 1 ==>
              Enabled(s, t, Inner(P.AddRef(h))) && Enabled(s, t, Inner(P.Release(h)))
    ensures h < |s.base.handles| && s.base.handles[h].owned >= 1 && s.base.handles[h].kind == P.Lob ==>
              Enabled(s, t, Inner(P.BeginClose(h)))
    ensures s.scan == NotClosing ==> Enabled(s, t, StartClose)
  {
    if kind != P.DependentObject {
      if i :| 0 <= i < |s.slots| && s.slots[i] == None {
        assert Enabled(s, t, Create(kind, i));
      } else {
        assert Enabled(s, t, Create(kind, |s.slots|));
      }
    }
  }

  // --------------------------------------------------------------------------------------
  // The list before the first close
  // --------------------------------------------------------------------------------------

  ghost predicate DutyOn(s: State, h: nat) {
    exists t :: t in s.duties && s.duties[t].handle == h
  }

  /** A handle that has been freed has left its slot, or a thread is still going to take it out. */
  ghost predicate LeavesList(s: State) {
    && s.scan == NotClosing
    && (forall t :: t in s.duties ==> t < |s.base.threads|)
    && forall h :: h in s.slotOf && StillListed(s, h) ==> DutyOn(s, h)
  }

  ghost predicate StillListed(s: State, h: nat)
    requires h in s.slotOf
  {
    && h < |s.base.handles| && s.base.handles[h].freed == 1
    && s.slotOf[h] < |s.slots| && s.slots[s.slotOf[h]] == Some(h)
  }

  lemma InnerLeaves(s: State, t: nat, a: P.Action)
    requires Inv(s) && LeavesList(s) && P.Enabled(s.base, t, a) && InnerEnabled(s, t, a)
    ensures LeavesList(NextInner(s, t, a))
  {
    var n := NextInner(s, t, a);
    StepMoves(s.base, t, a);
    assert ThreadOk(s, t);
    forall h | h in n.slotOf && StillListed(n, h)
      ensures DutyOn(n, h)
    {
      LeavesInner(s, t, a, h);
    }
  }

  lemma LeavesInner(s: State, t: nat, a: P.Action, h: nat)
    requires Inv(s) && LeavesList(s) && P.Enabled(s.base, t, a) && InnerEnabled(s, t, a)
    requires h in s.slotOf && StillListed(NextInner(s, t, a), h)
    ensures DutyOn(NextInner(s, t, a), h)
  {
    var n := NextInner(s, t, a);
    assert InItsSlot(s, h);
    if s.base.handles[h].freed == 1 {
      assert StillListed(s, h);
      var u :| u in s.duties && s.duties[u].handle == h;
      DutyKept(s, t, a, u);
      assert n.duties[u].handle == h;
    } else {
      NeverTwice(s, h);
      FreedTakesDuty(s, t, a, h);
      assert n.duties[t].handle == h;
    }
  }

  lemma NeverTwice(s: State, h: nat)
    requires Inv(s) && h < |s.base.handles|
    ensures s.base.handles[h].freed == 0 || s.base.handles[h].freed == 1
  {
    assert P.Good(s.base.handles[h], P.Count(s.base.threads, h));
    P.CountNonNegative(s.base.threads, h);
  }

  lemma DutyKept(s: State, t: nat, a: P.Action, u: nat)
    requires Inv(s) && P.Enabled(s.base, t, a) && InnerEnabled(s, t, a) && u in s.duties
    ensures u in NextInner(s, t, a).duties && NextInner(s, t, a).duties[u] == s.duties[u]
  {
    if u == t {
      OwnDutyStays(s, t, a);
    }
  }

  /** Without a scan every step that frees is followed by a removal. */
  lemma FreedTakesDuty(s: State, t: nat, a: P.Action, h: nat)
    requires Inv(s) && s.scan == NotClosing && P.Enabled(s.base, t, a) && InnerEnabled(s, t, a)
    requires h < |s.base.handles| && s.base.handles[h].freed == 0 && P.Next(s.base, t, a).handles[h].freed == 1
    ensures TakesDuty(s.base, t, a) && s.base.threads[t].handle == h
  {
    assert ThreadOk(s, t);
  }

  lemma CreateLeaves(s: State, t: nat, kind: P.Kind, slot: nat)
    requires Inv(s) && LeavesList(s) && Enabled(s, t, Create(kind, slot))
    ensures LeavesList(Next(s, t, Create(kind, slot)))
  {
    var n := Next(s, t, Create(kind, slot));
    CreateMoves(s, t, kind, slot);
    forall h | h in n.slotOf && StillListed(n, h)
      ensures DutyOn(n, h)
    {
      assert InItsSlot(s, h) && StillListed(s, h) && DutyOn(s, h);
    }
  }

  lemma CheckLeaves(s: State, t: nat)
    requires Inv(s) && LeavesList(s) && Enabled(s, t, CheckFlag)
    ensures LeavesList(Next(s, t, CheckFlag))
  {
    var n := Next(s, t, CheckFlag);
    forall h | DutyOn(s, h)
      ensures DutyOn(n, h)
    {
      var u :| u in s.duties && s.duties[u].handle == h;
      assert u in n.duties && n.duties[u].handle == h;
    }
    forall h | h in n.slotOf && StillListed(n, h)
      ensures DutyOn(n, h)
    {
      assert StillListed(s, h);
    }
  }

  lemma StepLeaves(s: State, t: nat, a: Action)
    requires Inv(s) && LeavesList(s) && Enabled(s, t, a) && a != StartClose
    ensures LeavesList(Next(s, t, a))
  {
    match a
    case Inner(action) => InnerLeaves(s, t, action);
    case Create(kind, slot) => CreateLeaves(s, t, kind, slot);
    case CheckFlag => CheckLeaves(s, t);
    case RemoveFromSlot => RemoveLeaves(s, t);
    case _ =>
  }

  lemma RemoveLeaves(s: State, t: nat)
    requires Inv(s) && LeavesList(s) && Enabled(s, t, RemoveFromSlot)
    ensures LeavesList(Next(s, t, RemoveFromSlot))
  {
    var n, g := Next(s, t, RemoveFromSlot), s.duties[t].handle;
    forall h | h in n.slotOf && StillListed(n, h)
      ensures DutyOn(n, h)
    {
      assert h != g && s.slots[s.slotOf[h]] == Some(h);
      var u :| u in s.duties && s.duties[u].handle == h;
      assert u in n.duties && n.duties[u].handle == h;
    }
  }

  lemma {:induction false} RunLeaves(ss: seq<State>, ts: seq<nat>, actions: seq<Action>, i: nat)
    requires Execution(ss, ts, actions) && i < |ss| && forall k :: 0 <= k < i ==> actions[k] != StartClose
    ensures LeavesList(ss[i])
  {
    if i > 0 {
      RunLeaves(ss, ts, actions, i - 1);
      ExecutionInv(ss, ts, actions, i - 1);
      StepLeaves(ss[i - 1], ts[i - 1], actions[i - 1]);
    }
  }

  /** As long as nobody has begun to close the connection, the list has exactly the handles that have not been
      freed, apart from those that a thread is at work on. */
  lemma ListExact(ss: seq<State>, ts: seq<nat>, actions: seq<Action>, i: nat, h: nat)
    requires Execution(ss, ts, actions) && i < |ss| && forall k :: 0 <= k < i ==> actions[k] != StartClose
    requires h < |ss[i].base.handles| && ss[i].base.handles[h].kind != P.DependentObject && Quiet(ss[i].base.threads, h)
    ensures Some(h) in ss[i].slots <==> ss[i].base.handles[h].freed == 0
  {
    var s := ss[i];
    ExecutionInv(ss, ts, actions, i);
    RunLeaves(ss, ts, actions, i);
    assert InItsSlot(s, h) && P.Good(s.base.handles[h], P.Count(s.base.threads, h));
    P.CountNonNegative(s.base.threads, h);
    forall t | t in s.duties
      ensures s.duties[t].handle != h
    {
      assert DutyOk(s, t);
    }
    if k :| 0 <= k < |s.slots| && s.slots[k] == Some(h) {
      assert s.slots[k].value in s.slotOf && s.slotOf[h] == k;
    }
  }

  // --------------------------------------------------------------------------------------
  // A close that reports success too early
  // --------------------------------------------------------------------------------------

  /** The first thread creates a LOB and gives up its only reference; before its free procedure gets
      anywhere the second closes the connection. */
  function EarlyState(i: nat): State {
    var released := P.Decrement(P.NewHandle(P.Lob)).(owned := 0);
    var freeing := P.Closing(0, P.ForFree, P.Gate);
    var base :=
      if i == 0 then P.State([], [P.Idle, P.Idle])
      else if i == 1 then P.State([P.NewHandle(P.Lob)], [P.Idle, P.Idle])
      else if i == 4 then P.State([released], [freeing, P.Looking(0)])
      else P.State([released], [freeing, P.Idle]);
    var scan :=
      if i < 3 then NotClosing
      else if i == 3 then Scanning(1, 0, None, false)
      else if i <= 5 then Scanning(1, 0, Some(0), false)
      else if i <= 13 then Scanning(1, i - 5, None, false)
      else Closed;
    var rest := seq(SLOT_INCREMENT - 1, _ => None);
    State(base, if i == 0 then [None] + rest else [Some(0)] + rest, if i == 0 then map[] else map[0 := 0], map[], scan,
          if i < 3 then {} else {0})
  }

  function EarlyAction(i: nat): Action {
    if i == 0 then Create(P.Lob, 0)
    else if i == 1 then Inner(P.Release(0))
    else if i == 2 then StartClose
    else if i == 4 then Inner(P.Continue(true, true))
    else if i == 5 then NextSlot
    else if i <= 12 then Visit
    else Finish
  }

  lemma EarlyStep(i: nat)
    requires i < 14
    ensures var t := if i < 2 then 0 else 1;
            Enabled(EarlyState(i), t, EarlyAction(i)) && EarlyState(i + 1) == Next(EarlyState(i), t, EarlyAction(i))
  {
    var s, n := EarlyState(i), EarlyState(i + 1);
    if i == 0 {
      assert s.slots[0 := Some(0)] == n.slots;
    } else if i == 2 {
      assert s.slots[0] == Some(0);
      assert Listed(s.slots) == {0};
    }
  }

  /** So "freed" cannot be promised at the moment when the close reports success. */
  lemma SuccessBeforeFree(ss: seq<State>, ts: seq<nat>, actions: seq<Action>)
    requires |ss| == 15 && |ts| == |actions| == 14
    requires forall i :: 0 <= i < 15 ==> ss[i] == EarlyState(i)
    requires forall i :: 0 <= i < 14 ==> ts[i] == (if i < 2 then 0 else 1) && actions[i] == EarlyAction(i)
    ensures Execution(ss, ts, actions) && actions[2] == StartClose && ss[14].scan == Closed
    ensures |ss[2].base.handles| == |ss[14].base.handles| == 1
    ensures ss[2].base.handles[0].freed == ss[14].base.handles[0].freed == 0
  {
    forall i | 0 <= i < 14
      ensures Enabled(ss[i], ts[i], actions[i]) && ss[i + 1] == Next(ss[i], ts[i], actions[i])
    {
      EarlyStep(i);
    }
    assert ss[0].slots == seq(SLOT_INCREMENT, _ => None);
  }

  // --------------------------------------------------------------------------------------
  // When a close reports failure
  // --------------------------------------------------------------------------------------

  /** The thread that scans hands a locator or instance that is set to the client, and the client answers with
      an error, for an object also when it is the indicator that cannot be freed. */
  ghost predicate ClientRefuses(s: State, t: nat, a: Action) {
    && Scans(s, t) && t < |s.base.threads|
    && s.base.threads[t].Closing? && s.base.threads[t].purpose == P.ForScan && s.base.threads[t].stage == P.Work
    && s.base.threads[t].handle < |s.base.handles|
    && var x := s.base.handles[s.base.threads[t].handle];
       && x.present && x.kind != P.DependentObject
       && a.Inner? && a.action.Continue?
       && (!a.action.ok || (x.kind == P.Object && !a.action.alsoOk))
  }

  lemma FailsExact(s: State, t: nat, a: P.Action)
    requires Inv(s) && P.Enabled(s.base, t, a) && InnerEnabled(s, t, a)
    ensures Fails(s.base, t, a) <==> ClientRefuses(s, t, Inner(a))
  {
    assert ThreadOk(s, t);
    if !s.base.threads[t].Idle? {
      AtHandle(s.base, t);
      if s.base.threads[t].Closing? && s.base.threads[t].purpose == P.ForScan {
        assert InItsSlot(s, s.base.threads[t].handle);
      }
    }
  }

  /** How a scan stands of which `refused` says whether the client has answered with an error. */
  ghost predicate StandsAs(s: State, refused: bool) {
    match s.scan
    case Scanning(_, _, busy, failed) => (failed <==> refused) && (busy == None ==> !failed)
    case NotClosing => refused
    case Closed => !refused
  }

  lemma StepStands(s: State, t: nat, a: Action, refused: bool)
    requires Inv(s) && Enabled(s, t, a) && a != StartClose && StandsAs(s, refused)
    ensures StandsAs(Next(s, t, a), refused || ClientRefuses(s, t, a))
  {
    if a.Inner? {
      FailsExact(s, t, a.action);
      assert ThreadOk(s, t);
    }
  }

  ghost predicate EverRefused(ss: seq<State>, ts: seq<nat>, actions: seq<Action>, i: nat, j: nat)
    requires |ss| == |ts| + 1 == |actions| + 1 && j <= |ts|
  {
    exists k :: i < k < j && ClientRefuses(ss[k], ts[k], actions[k])
  }

  lemma RunStands(ss: seq<State>, ts: seq<nat>, actions: seq<Action>, k: nat, refused: bool)
    requires Execution(ss, ts, actions) && k < |ts| && actions[k] != StartClose && StandsAs(ss[k], refused)
    ensures StandsAs(ss[k + 1], refused || ClientRefuses(ss[k], ts[k], actions[k]))
  {
    ExecutionInv(ss, ts, actions, k);
    StepStands(ss[k], ts[k], actions[k], refused);
  }

  lemma StartStands(ss: seq<State>, ts: seq<nat>, actions: seq<Action>, i: nat)
    requires Execution(ss, ts, actions) && i < |ts| && actions[i] == StartClose
    ensures StandsAs(ss[i + 1], false)
  {
  }

  /** A close begins with action `i`, and no other before state `j`. By then it has reported failure only if,
      and success only if not, the client has answered with an error when the scan handed it a locator or
      instance; and while it goes on, it is going to fail exactly in that case. */
  lemma {:induction false} ScanOutcome(ss: seq<State>, ts: seq<nat>, actions: seq<Action>, i: nat, j: nat)
    requires Execution(ss, ts, actions) && i < j < |ss| && actions[i] == StartClose
    requires forall k :: i < k < j ==> actions[k] != StartClose
    ensures StandsAs(ss[j], EverRefused(ss, ts, actions, i, j))
    decreases j
  {
    if i == j - 1 {
      StartStands(ss, ts, actions, i);
      assert !EverRefused(ss, ts, actions, i, j);
    } else {
      ScanOutcome(ss, ts, actions, i, j - 1);
      RunStands(ss, ts, actions, j - 1, EverRefused(ss, ts, actions, i, j - 1));
      OneMoreStep(ss, ts, actions, i, j);
    }
  }

  lemma OneMoreStep(ss: seq<State>, ts: seq<nat>, actions: seq<Action>, i: nat, j: nat)
    requires |ss| == |ts| + 1 == |actions| + 1 && i + 1 < j <= |ts|
    ensures EverRefused(ss, ts, actions, i, j)
       <==> EverRefused(ss, ts, actions, i, j - 1) || ClientRefuses(ss[j - 1], ts[j - 1], actions[j - 1])
  {
  }

  /** A close reports failure when the scan leaves the slot of the handle whose close failed, and at no other
      time. */
  lemma EndsAtSlot(s: State, t: nat, a: Action)
    requires Inv(s) && Enabled(s, t, a) && s.scan.Scanning?
    ensures Next(s, t, a).scan == NotClosing <==> a == NextSlot && s.scan.failed
    ensures Next(s, t, a).scan == Closed <==> a == Finish
  {
  }

  // --------------------------------------------------------------------------------------
  // A close that frees a LOB itself
  // --------------------------------------------------------------------------------------

  /** The LOB of one caller while the scan of the second thread closes it. */
  function ScannedLob(i: nat): P.Handle {
    var x := P.NewHandle(P.Lob).(refCount := if 4 <= i <= 9 then 2 else 1, closing := i >= 5);
    if i < 6 then x else x.(freed := 1, present := i < 8)
  }

  function ScannerAt(i: nat): P.Thread {
    if i == 3 then P.Looking(0)
    else if i == 4 then P.Closing(0, P.ForScan, P.Gate)
    else if i == 5 then P.Closing(0, P.ForScan, P.Work)
    else if i == 6 || i == 7 then P.Closing(0, P.ForScan, P.Clear(true))
    else if i == 8 then P.Closing(0, P.ForScan, P.Finished)
    else if i == 9 then P.Dropping(0)
    else P.Idle
  }

  function FreeingState(i: nat): State {
    var rest := seq(SLOT_INCREMENT - 1, _ => None);
    var handles := if i == 0 then [] else [ScannedLob(i)];
    var scan :=
      if i < 2 then NotClosing
      else if i == 2 then Scanning(1, 0, None, false)
      else if i <= 10 then Scanning(1, 0, Some(0), false)
      else if i <= 18 then Scanning(1, i - 10, None, false)
      else Closed;
    State(P.State(handles, [P.Idle, ScannerAt(i)]), if i == 0 then [None] + rest else [Some(0)] + rest,
          if i == 0 then map[] else map[0 := 0], if i == 6 then map[1 := Duty(0, false)] else map[], scan,
          if i < 2 then {} else {0})
  }

  function FreeingAction(i: nat): Action {
    if i == 0 then Create(P.Lob, 0)
    else if i == 1 then StartClose
    else if i == 6 then CheckFlag
    else if 3 <= i <= 9 then Inner(P.Continue(true, true))
    else if i == 10 then NextSlot
    else if i <= 17 then Visit
    else Finish
  }

  ghost predicate FreeingGoesOn(i: nat) {
    var t := if i < 1 then 0 else 1;
    Enabled(FreeingState(i), t, FreeingAction(i)) && FreeingState(i + 1) == Next(FreeingState(i), t, FreeingAction(i))
  }

  lemma FreeingBegins(i: nat)
    requires i < 2
    ensures FreeingGoesOn(i)
  {
    var s, n := FreeingState(i), FreeingState(i + 1);
    if i == 0 {
      assert s.slots[0 := Some(0)] == n.slots;
    } else {
      assert s.slots[0] == Some(0);
      assert Listed(s.slots) == {0};
    }
  }

  lemma FreeingWorks(i: nat)
    requires 2 <= i < 6
    ensures FreeingGoesOn(i)
  {
  }

  lemma FreeingCloses(i: nat)
    requires 6 <= i < 10
    ensures FreeingGoesOn(i)
  {
  }

  lemma FreeingEnds(i: nat)
    requires 10 <= i < 19
    ensures FreeingGoesOn(i)
  {
  }

  /** A connection is closed while a caller holds a LOB: the scan frees the locator, and the close reports
      success. */
  lemma ScanFreesLob(ss: seq<State>, ts: seq<nat>, actions: seq<Action>)
    requires |ss| == 20 && |ts| == |actions| == 19
    requires forall i :: 0 <= i < 20 ==> ss[i] == FreeingState(i)
    requires forall i :: 0 <= i < 19 ==> ts[i] == (if i < 1 then 0 else 1) && actions[i] == FreeingAction(i)
    ensures Execution(ss, ts, actions) && actions[1] == StartClose && ss[19].scan == Closed
    ensures |ss[1].base.handles| == |ss[19].base.handles| == 1
    ensures ss[1].base.handles[0].freed == 0 && ss[19].base.handles[0].freed == 1 && ss[19].base.handles[0].owned == 1
  {
    forall i | 0 <= i < 19
      ensures Enabled(ss[i], ts[i], actions[i]) && ss[i + 1] == Next(ss[i], ts[i], actions[i])
    {
      if i < 2 {
        FreeingBegins(i);
      } else if i < 6 {
        FreeingWorks(i);
      } else if i < 10 {
        FreeingCloses(i);
      } else {
        FreeingEnds(i);
      }
      assert FreeingGoesOn(i);
    }
    assert ss[0].slots == seq(SLOT_INCREMENT, _ => None);
  }
}
