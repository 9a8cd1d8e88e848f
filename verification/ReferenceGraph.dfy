/** Reference counts of handles and the cascade of their free procedures (support/dpiGen.c and
    the free procedures of the handle types). A handle is named by its place in the table of
    all handles ever allocated; places are never reused. */
module ReferenceGraph {
  import opened Common

  datatype Kind = Pool | Conn | ObjectType | Object | Lob | Json | DeqOptions | EnqOptions | MsgProps | Queue

  /** The base members of a handle and the internal fields that name other handles, in the order
      in which the free procedure of the type releases them. */
  datatype Cell = Cell(kind: Kind, hasMemory: bool, valid: bool, refCount: nat, refs: seq<nat>)

  type Cells = seq<Cell>

  function Level(kind: Kind): nat {
    match kind
    case Pool => 0
    case Conn => 1
    case ObjectType => 2
    case MsgProps => 4
    case Queue => 5
    case _ => 3
  }

  /** Internal fields name handles of a lower level, or older ones of the same level. */
  ghost predicate Below(cells: Cells, r: nat, k: nat) {
    && r < |cells| && k < |cells|
    && (Level(cells[r].kind) < Level(cells[k].kind) || (Level(cells[r].kind) == Level(cells[k].kind) && r < k))
  }

  ghost predicate CellOk(cells: Cells, k: nat)
    requires k < |cells|
  {
    && (cells[k].valid <==> cells[k].refCount > 0)
    && (!cells[k].hasMemory ==> cells[k].refCount == 0 && cells[k].refs == [])
    && forall r :: r in cells[k].refs ==> Below(cells, r, k)
  }

  ghost predicate Structure(cells: Cells) {
    forall k :: 0 <= k < |cells| ==> CellOk(cells, k)
  }

  /** The number of internal fields that name `k`. */
  ghost function Naming(cells: Cells, k: nat): nat {
    if cells == [] then 0 else Naming(cells[..|cells| - 1], k) + multiset(cells[|cells| - 1].refs)[k]
  }

  ghost function Fields(cells: Cells, k: nat): nat { Naming(cells, k) }

  /** Every count is the number of references: those that callers own, those that internal fields
      hold, and those that are about to be given up. */
  ghost predicate Balanced(cells: Cells, owned: multiset<nat>, pending: multiset<nat>) {
    && (forall k {:trigger Fields(cells, k)} :: 0 <= k < |cells| ==>
          cells[k].refCount == owned[k] + Fields(cells, k) + pending[k])
    && (forall k :: k in owned || k in pending ==> k < |cells|)
  }

  /** A handle whose free procedure is running. */
  ghost predicate Dying(cell: Cell) {
    cell.hasMemory && cell.refCount == 0
  }

  ghost predicate Quiet(cells: Cells) {
    forall k {:trigger Dying(cells[k])} :: 0 <= k < |cells| ==> !Dying(cells[k])
  }

  /** The invariant between calls. */
  ghost predicate Inv(cells: Cells, owned: multiset<nat>) {
    Structure(cells) && Balanced(cells, owned, multiset{}) && Quiet(cells)
  }

  ghost function Total(cells: Cells): nat {
    if cells == [] then 0 else Total(cells[..|cells| - 1]) + cells[|cells| - 1].refCount
  }

  lemma {:induction false} NamingUpdate(cells: Cells, i: nat, c: Cell, k: nat)
    requires i < |cells|
    ensures Naming(cells[i := c], k) == Naming(cells, k) - multiset(cells[i].refs)[k] + multiset(c.refs)[k]
  {
    var n := |cells| - 1;
    if i < n {
      assert cells[i := c][..n] == cells[..n][i := c];
      NamingUpdate(cells[..n], i, c, k);
    } else {
      assert cells[i := c][..n] == cells[..n];
    }
  }

  lemma {:induction false} NamingSome(cells: Cells, k: nat)
    ensures Naming(cells, k) > 0 <==> exists i :: 0 <= i < |cells| && k in cells[i].refs
  {
    if cells != [] {
      var n := |cells| - 1;
      NamingSome(cells[..n], k);
      if Naming(cells[..n], k) > 0 {
        var i :| 0 <= i < n && k in cells[..n][i].refs;
        assert k in cells[i].refs;
      }
      if i :| 0 <= i < |cells| && k in cells[i].refs {
        assert i < n ==> k in cells[..n][i].refs;
      }
    }
  }

  lemma {:induction false} TotalUpdate(cells: Cells, i: nat, c: Cell)
    requires i < |cells|
    ensures Total(cells[i := c]) == Total(cells) - cells[i].refCount + c.refCount
  {
    var n := |cells| - 1;
    if i < n {
      assert cells[i := c][..n] == cells[..n][i := c];
      TotalUpdate(cells[..n], i, c);
    } else {
      assert cells[i := c][..n] == cells[..n];
    }
  }

  /** What giving up references can do to one handle: it is freed, or it keeps its fields; a
      handle whose free procedure is running is not touched, and none is left behind. */
  ghost predicate Later(before: Cell, after: Cell) {
    && after.kind == before.kind
    && (after.hasMemory ==> before.hasMemory && after.refs == before.refs && after.refCount <= before.refCount)
    && (Dying(before) ==> after == before)
    && (Dying(after) ==> Dying(before))
  }

  ghost predicate LaterExcept(before: Cells, after: Cells, id: int) {
    |after| == |before| && forall k :: 0 <= k < |before| && k != id ==> Later(before[k], after[k])
  }

  /** One turn of the loop of a free procedure: a field is cleared, then its reference is given up. */
  lemma LaterStep(a: Cells, b: Cells, c: Cell, d: Cells, id: nat)
    requires LaterExcept(a, b, id) && id < |b|
    requires LaterExcept(b[id := c], d, -1)
    ensures LaterExcept(a, d, id) && Later(c, d[id])
  {
    forall k | 0 <= k < |a| && k != id
      ensures Later(a[k], d[k])
    {
      assert Later(a[k], b[k]) && Later(b[id := c][k], d[k]);
    }
  }

  /** A handle that still has references keeps its fields, and one that has none is freed. */
  lemma LaterDrop(a: Cells, c: Cell, d: Cells, id: nat)
    requires id < |a| && a[id].refCount > 0 && LaterExcept(a[id := c], d, id)
    requires d[id].kind == a[id].kind
    requires !d[id].hasMemory || (a[id].hasMemory && d[id].refs == a[id].refs && 0 < d[id].refCount <= a[id].refCount)
    ensures LaterExcept(a, d, -1)
  {
    forall k | 0 <= k < |a|
      ensures Later(a[k], d[k])
    {
      if k != id {
        assert Later(a[id := c][k], d[k]);
      }
    }
  }

  lemma StructureUpdate(cells: Cells, id: nat, c: Cell)
    requires Structure(cells) && id < |cells| && c.kind == cells[id].kind
    requires (c.valid <==> c.refCount > 0) && (!c.hasMemory ==> c.refCount == 0 && c.refs == [])
    requires forall r :: r in c.refs ==> r in cells[id].refs || Below(cells, r, id)
    ensures Structure(cells[id := c])
  {
    var after := cells[id := c];
    forall k | 0 <= k < |after|
      ensures CellOk(after, k)
    {
      assert CellOk(cells, k);
      forall r | r in after[k].refs
        ensures Below(after, r, k)
      {
        assert r in cells[k].refs ==> Below(cells, r, k);
        assert Below(cells, r, k);
      }
    }
  }

  /** An update that keeps the fields of a handle keeps all numbers of naming fields. */
  lemma SameFields(cells: Cells, id: nat, c: Cell)
    requires id < |cells| && c.refs == cells[id].refs
    ensures forall k: nat {:trigger Fields(cells[id := c], k)} :: Fields(cells[id := c], k) == Fields(cells, k)
  {
    forall k: nat
      ensures Fields(cells[id := c], k) == Fields(cells, k)
    {
      NamingUpdate(cells, id, c, k);
    }
  }

  lemma FewerFields(cells: Cells, id: nat, c: Cell, r: nat)
    requires id < |cells| && multiset(cells[id].refs) == multiset(c.refs) + multiset{r}
    ensures forall k: nat {:trigger Fields(cells[id := c], k)} ::
              Fields(cells[id := c], k) + (if k == r then 1 else 0) == Fields(cells, k)
  {
    forall k: nat
      ensures Fields(cells[id := c], k) + (if k == r then 1 else 0) == Fields(cells, k)
    {
      NamingUpdate(cells, id, c, k);
    }
  }

  lemma QuietUpdate(cells: Cells, id: nat, c: Cell)
    requires Quiet(cells) && id < |cells| && !Dying(c)
    ensures Quiet(cells[id := c])
  {
    var after := cells[id := c];
    forall k | 0 <= k < |cells|
      ensures !Dying(after[k])
    {
      assert !Dying(cells[k]);
    }
  }

  lemma MoreFields(cells: Cells, id: nat, c: Cell, r: nat)
    requires id < |cells| && multiset(c.refs) == multiset(cells[id].refs) + multiset{r}
    ensures forall k: nat {:trigger Fields(cells[id := c], k)} ::
              Fields(cells[id := c], k) == Fields(cells, k) + if k == r then 1 else 0
  {
    forall k: nat
      ensures Fields(cells[id := c], k) == Fields(cells, k) + if k == r then 1 else 0
    {
      NamingUpdate(cells, id, c, k);
    }
  }

  /** The count of one handle changes together with the pending references. */
  lemma CountBalance(cells: Cells, owned: multiset<nat>, pending: multiset<nat>, id: nat)
    requires Structure(cells) && Balanced(cells, owned, pending + multiset{id})
    ensures id < |cells| && cells[id].refCount > 0 && cells[id].hasMemory
    ensures var n := cells[id].refCount - 1;
            var after := cells[id := cells[id].(refCount := n, valid := n != 0)];
            && Structure(after) && Balanced(after, owned, pending) && Total(after) == Total(cells) - 1
  {
    assert id in pending + multiset{id};
    assert CellOk(cells, id) && cells[id].refCount == owned[id] + Fields(cells, id) + (pending[id] + 1);
    var n := cells[id].refCount - 1;
    var c := cells[id].(refCount := n, valid := n != 0);
    TotalUpdate(cells, id, c);
    SameFields(cells, id, c);
    StructureUpdate(cells, id, c);
    assert forall k :: k in pending ==> k in pending + multiset{id};
  }

  /** Clearing the first field of a handle makes its reference a pending one. */
  lemma FieldBalance(cells: Cells, owned: multiset<nat>, pending: multiset<nat>, id: nat)
    requires Structure(cells) && Balanced(cells, owned, pending) && id < |cells| && cells[id].refs != []
    ensures var r := cells[id].refs[0];
            var after := cells[id := cells[id].(refs := cells[id].refs[1..])];
            && Structure(after) && Balanced(after, owned, pending + multiset{r}) && Total(after) == Total(cells)
  {
    var refs := cells[id].refs;
    var c := cells[id].(refs := refs[1..]);
    var r := refs[0];
    TotalUpdate(cells, id, c);
    assert CellOk(cells, id);
    StructureUpdate(cells, id, c);
    assert refs == [r] + refs[1..];
    assert r in refs && Below(cells, r, id);
    FewerFields(cells, id, c, r);
  }

  /** Giving back the memory of a handle without references and without fields. */
  lemma MemoryBalance(cells: Cells, owned: multiset<nat>, pending: multiset<nat>, id: nat)
    requires Structure(cells) && Balanced(cells, owned, pending) && id < |cells|
    requires Dying(cells[id]) && cells[id].refs == []
    ensures var after := cells[id := cells[id].(hasMemory := false)];
            Structure(after) && Balanced(after, owned, pending) && Total(after) == Total(cells)
  {
    var c := cells[id].(hasMemory := false);
    assert CellOk(cells, id);
    TotalUpdate(cells, id, c);
    SameFields(cells, id, c);
    StructureUpdate(cells, id, c);
  }

  // --------------------------------------------------------------------------------------
  // What the invariant means
  // --------------------------------------------------------------------------------------

  /** Each handle of the path names the next one in an internal field. */
  ghost predicate IsPath(cells: Cells, path: seq<nat>) {
    && path != []
    && (forall i :: 0 <= i < |path| ==> path[i] < |cells|)
    && forall i :: 0 <= i < |path| - 1 ==> path[i + 1] in cells[path[i]].refs
  }

  /** `k` can be reached through internal fields from a handle on which a caller owns a
      reference. */
  ghost predicate Reachable(cells: Cells, owned: multiset<nat>, k: nat) {
    exists path :: IsPath(cells, path) && owned[path[0]] > 0 && path[|path| - 1] == k
  }

  /** No internal field, not even of a handle whose free procedure is running, names a handle
      that has been freed. */
  lemma FieldsAlive(cells: Cells, owned: multiset<nat>, pending: multiset<nat>, k: nat, r: nat)
    requires Structure(cells) && Balanced(cells, owned, pending) && k < |cells| && r in cells[k].refs
    ensures r < |cells| && cells[r].valid && cells[r].hasMemory
  {
    assert CellOk(cells, k) && Below(cells, r, k);
    NamingSome(cells, r);
    assert CellOk(cells, r) && cells[r].refCount == owned[r] + Fields(cells, r) + pending[r];
  }

  lemma {:induction false} LiveReachable(cells: Cells, owned: multiset<nat>, k: nat)
    requires Inv(cells, owned) && k < |cells| && cells[k].hasMemory
    ensures Reachable(cells, owned, k)
    decreases 5 - Level(cells[k].kind), |cells| - k
  {
    assert !Dying(cells[k]) && cells[k].refCount == owned[k] + Fields(cells, k);
    if owned[k] > 0 {
      assert IsPath(cells, [k]);
    } else {
      NamingSome(cells, k);
      var i :| 0 <= i < |cells| && k in cells[i].refs;
      assert CellOk(cells, i) && Below(cells, k, i);
      LiveReachable(cells, owned, i);
      var path :| IsPath(cells, path) && owned[path[0]] > 0 && path[|path| - 1] == i;
      assert IsPath(cells, path + [k]);
    }
  }

  lemma {:induction false} PathLive(cells: Cells, owned: multiset<nat>, path: seq<nat>, n: nat)
    requires Inv(cells, owned) && IsPath(cells, path) && owned[path[0]] > 0 && n < |path|
    ensures cells[path[n]].hasMemory
  {
    if n == 0 {
      OwnedIsValid(cells, owned, path[0]);
    } else {
      PathLive(cells, owned, path, n - 1);
      FieldsAlive(cells, owned, multiset{}, path[n - 1], path[n]);
    }
  }

  /** Between calls exactly the handles that callers can still get at have not been freed: nothing
      in use is freed, and nothing leaks. */
  lemma LiveIffReachable(cells: Cells, owned: multiset<nat>, k: nat)
    requires Inv(cells, owned) && k < |cells|
    ensures cells[k].hasMemory <==> Reachable(cells, owned, k)
  {
    if cells[k].hasMemory {
      LiveReachable(cells, owned, k);
    }
    if Reachable(cells, owned, k) {
      var path :| IsPath(cells, path) && owned[path[0]] > 0 && path[|path| - 1] == k;
      PathLive(cells, owned, path, |path| - 1);
    }
  }

  /** When callers have given up all their references, every handle has been freed. */
  lemma NothingLeft(cells: Cells, k: nat)
    requires Inv(cells, multiset{}) && k < |cells|
    ensures !cells[k].hasMemory
  {
    LiveIffReachable(cells, multiset{}, k);
  }

  lemma {:induction false} PathBefore(before: Cells, after: Cells, owned: multiset<nat>, path: seq<nat>, n: nat)
    requires Inv(after, owned) && LaterExcept(before, after, -1)
    requires IsPath(before, path) && owned[path[0]] > 0 && n < |path|
    ensures after[path[n]].hasMemory
  {
    if n == 0 {
      OwnedIsValid(after, owned, path[0]);
    } else {
      PathBefore(before, after, owned, path, n - 1);
      assert Later(before[path[n - 1]], after[path[n - 1]]);
      FieldsAlive(after, owned, multiset{}, path[n - 1], path[n]);
    }
  }

  /** A cascade frees exactly the handles that cannot be reached any more, as the fields stood
      before it. */
  lemma CascadeIsExact(before: Cells, after: Cells, owned: multiset<nat>, k: nat)
    requires Inv(after, owned) && LaterExcept(before, after, -1) && k < |before|
    ensures after[k].hasMemory <==> Reachable(before, owned, k)
  {
    if after[k].hasMemory {
      LiveReachable(after, owned, k);
      var path :| IsPath(after, path) && owned[path[0]] > 0 && path[|path| - 1] == k;
      forall i | 0 <= i < |path| - 1
        ensures path[i + 1] in before[path[i]].refs
      {
        assert CellOk(after, path[i]) && Later(before[path[i]], after[path[i]]);
      }
      assert IsPath(before, path);
    }
    if Reachable(before, owned, k) {
      var path :| IsPath(before, path) && owned[path[0]] > 0 && path[|path| - 1] == k;
      PathBefore(before, after, owned, path, |path| - 1);
    }
  }

  // --------------------------------------------------------------------------------------
  // The code
  // --------------------------------------------------------------------------------------

  /** Which handles the fields of a new handle of each type name. */
  predicate AllowedFields(kind: Kind, fields: seq<Kind>) {
    match kind
    case Pool => fields == []
    case Conn => fields == [] || fields == [Pool]
    case ObjectType => fields == [Conn] || fields == [Conn, ObjectType]
    case Object => fields == [ObjectType] || fields == [ObjectType, Object]
    case Queue => fields == [Conn] || fields == [Conn, ObjectType]
    case _ => fields == [Conn]
  }

  predicate MayAllocate(cells: Cells, kind: Kind, refs: seq<nat>) {
    && (forall i :: 0 <= i < |refs| ==> refs[i] < |cells|)
    && AllowedFields(kind, seq(|refs|, i requires 0 <= i < |refs| && refs[i] < |cells| => cells[refs[i]].kind))
  }

  /** A count goes up and the new reference is owned by the caller. */
  ghost function Counted(c: Cell): Cell { c.(refCount := c.refCount + 1) }

  ghost function WithCount(c: Cell, n: nat): Cell { c.(refCount := c.refCount + n) }

  ghost function Occurs(refs: seq<nat>, k: nat): nat { multiset(refs)[k] }

  /** A handle has got the fields `refs`, and each handle that they name one more count for each time. */
  ghost predicate FieldsSet(before: Cells, after: Cells, id: nat, refs: seq<nat>) {
    && |after| == |before| && id < |before|
    && after[id] == before[id].(refs := refs)
    && forall k :: 0 <= k < |before| && k != id ==> after[k] == WithCount(before[k], Occurs(refs, k))
  }

  lemma StillBelow(before: Cells, after: Cells, id: nat, refs: seq<nat>, r: nat)
    requires FieldsSet(before, after, id, refs) && Below(before, r, id)
    ensures Below(after, r, id) && after[id].hasMemory == before[id].hasMemory
  {
  }

  lemma OccursAppend(refs: seq<nat>, r: nat)
    ensures forall k: nat :: Occurs(refs + [r], k) == Occurs(refs, k) + if k == r then 1 else 0
  {
  }

  function WithField(c: Cell, pos: nat, r: nat): Cell
    requires pos <= |c.refs|
  {
    c.(refs := c.refs[..pos] + [r] + c.refs[pos..])
  }

  function WithoutField(c: Cell, pos: nat): Cell
    requires pos < |c.refs|
  {
    c.(refs := c.refs[..pos] + c.refs[pos + 1..])
  }

  lemma AddBalance(cells: Cells, owned: multiset<nat>, id: nat)
    requires Inv(cells, owned) && id < |cells| && cells[id].valid
    ensures Inv(cells[id := Counted(cells[id])], owned + multiset{id})
  {
    var c := Counted(cells[id]);
    assert CellOk(cells, id);
    SameFields(cells, id, c);
    StructureUpdate(cells, id, c);
  }

  /** The fields of a new handle name handles of a lower level, or older ones. */
  lemma AllowedBelow(cells: Cells, kind: Kind, refs: seq<nat>, i: nat)
    requires MayAllocate(cells, kind, refs) && i < |refs|
    ensures Level(cells[refs[i]].kind) <= Level(kind)
  {
    var kinds := seq(|refs|, i requires 0 <= i < |refs| && refs[i] < |cells| => cells[refs[i]].kind);
    assert kinds[i] == cells[refs[i]].kind;
  }

  lemma NewBalance(cells: Cells, owned: multiset<nat>, kind: Kind)
    requires Inv(cells, owned)
    ensures Inv(cells + [Cell(kind, true, true, 1, [])], owned + multiset{|cells|})
  {
    var c := Cell(kind, true, true, 1, []);
    var n, after := |cells|, cells + [c];
    assert after[..n] == cells;
    forall k | 0 <= k < |after|
      ensures CellOk(after, k)
    {
      if k < n {
        assert CellOk(cells, k);
        forall r | r in after[k].refs
          ensures Below(after, r, k)
        {
          assert Below(cells, r, k);
        }
      }
    }
    forall k | 0 <= k < n
      ensures Fields(after, k) == Fields(cells, k) && !Dying(after[k])
    {
      assert !Dying(cells[k]);
    }
    assert Fields(after, n) == Fields(cells, n) == 0 by {
      NamingSome(cells, n);
      forall i | 0 <= i < n
        ensures n !in cells[i].refs
      {
        assert CellOk(cells, i) && !Below(cells, n, i);
      }
    }
    assert n !in owned;
  }

  /** A reference that a caller owns moves into an internal field. */
  lemma StoreBalance(cells: Cells, owned: multiset<nat>, id: nat, pos: nat, r: nat)
    requires Inv(cells, owned + multiset{r}) && id < |cells| && pos <= |cells[id].refs| && cells[id].hasMemory
    requires Below(cells, r, id)
    ensures Inv(cells[id := cells[id].(refs := cells[id].refs[..pos] + [r] + cells[id].refs[pos..])], owned)
  {
    var refs := cells[id].refs;
    var c := cells[id].(refs := refs[..pos] + [r] + refs[pos..]);
    assert refs == refs[..pos] + refs[pos..];
    assert CellOk(cells, id);
    StructureUpdate(cells, id, c);
    assert forall k :: k in owned ==> k in owned + multiset{r};
    MoreFields(cells, id, c, r);
    assert !Dying(cells[id]);
    QuietUpdate(cells, id, c);
  }

  lemma AppendBalance(cells: Cells, owned: multiset<nat>, id: nat, r: nat)
    requires Inv(cells, owned + multiset{r}) && id < |cells| && cells[id].hasMemory && Below(cells, r, id)
    ensures Inv(cells[id := cells[id].(refs := cells[id].refs + [r])], owned)
  {
    var refs := cells[id].refs;
    StoreBalance(cells, owned, id, |refs|, r);
    assert refs[..|refs|] + [r] + refs[|refs|..] == refs + [r];
  }

  lemma OwnedIsValid(cells: Cells, owned: multiset<nat>, r: nat)
    requires Inv(cells, owned) && owned[r] > 0
    ensures r < |cells| && cells[r].valid && cells[r].hasMemory
  {
    assert r in owned;
    assert CellOk(cells, r) && cells[r].refCount == owned[r] + Fields(cells, r);
  }

  /** A reference in an internal field becomes one that a caller owns. */
  lemma TakeBalance(cells: Cells, owned: multiset<nat>, id: nat, pos: nat)
    requires Inv(cells, owned) && id < |cells| && pos < |cells[id].refs|
    ensures var refs := cells[id].refs;
            Inv(cells[id := cells[id].(refs := refs[..pos] + refs[pos + 1..])], owned + multiset{refs[pos]})
  {
    var refs := cells[id].refs;
    var r := refs[pos];
    var c := cells[id].(refs := refs[..pos] + refs[pos + 1..]);
    assert refs == refs[..pos] + [r] + refs[pos + 1..];
    assert CellOk(cells, id) && Below(cells, r, id);
    StructureUpdate(cells, id, c);
    FewerFields(cells, id, c, r);
    assert !Dying(cells[id]);
    QuietUpdate(cells, id, c);
  }

  class HandleTable {
    var cells: Cells
    ghost var owned: multiset<nat>

    constructor ()
      ensures Inv(cells, owned) && cells == [] && owned == multiset{}
    {
      cells, owned := [], multiset{};
    }

    /** Takes a reference away; `pending` are the references that the callers up the stack are
        still to give up. */
    method DropReference(id: nat, ghost pending: multiset<nat>)
      requires Structure(cells) && Balanced(cells, owned, pending + multiset{id})
      modifies this`cells
      ensures Structure(cells) && Balanced(cells, owned, pending)
      ensures LaterExcept(old(cells), cells, -1) && Total(cells) < Total(old(cells))
      decreases Total(cells), 0
    {
      CountBalance(cells, owned, pending, id);
      var localRefCount := cells[id].refCount - 1;
      cells := cells[id := cells[id].(refCount := localRefCount, valid := localRefCount != 0)];
      ghost var counted := cells;
      if localRefCount == 0 {
        FreeHandle(id, pending);
      } else {
        assert LaterExcept(counted, cells, id);
      }
      LaterDrop(old(cells), counted[id], cells, id);
    }

    /** The free procedure: every internal field is released in turn and cleared, then the memory
        is given back. */
    method FreeHandle(id: nat, ghost pending: multiset<nat>)
      requires Structure(cells) && Balanced(cells, owned, pending)
      requires id < |cells| && Dying(cells[id])
      modifies this`cells
      ensures Structure(cells) && Balanced(cells, owned, pending)
      ensures LaterExcept(old(cells), cells, id) && Total(cells) <= Total(old(cells))
      ensures cells[id].kind == old(cells)[id].kind && !cells[id].hasMemory
      decreases Total(cells), 1
    {
      while cells[id].refs != []
        invariant Structure(cells) && Balanced(cells, owned, pending)
        invariant LaterExcept(old(cells), cells, id) && Total(cells) <= Total(old(cells))
        invariant cells[id].kind == old(cells)[id].kind && Dying(cells[id])
        decreases |cells[id].refs|
      {
        var r := cells[id].refs[0];
        FieldBalance(cells, owned, pending, id);
        ghost var before, cleared := cells, cells[id].(refs := cells[id].refs[1..]);
        cells := cells[id := cells[id].(refs := cells[id].refs[1..])];
        DropReference(r, pending);
        LaterStep(old(cells), before, cleared, cells, id);
      }
      MemoryBalance(cells, owned, pending, id);
      cells := cells[id := cells[id].(hasMemory := false)];
    }

    /** Takes one more reference on a handle; a handle that is not valid any more is refused. */
    method AddRef(id: nat) returns (status: Status)
      requires Inv(cells, owned) && id < |cells|
      modifies this
      ensures Inv(cells, owned)
      ensures status == Success <==> old(cells)[id].valid
      ensures if status == Success then
                owned == old(owned) + multiset{id} && cells == old(cells)[id := Counted(old(cells)[id])]
              else
                owned == old(owned) && cells == old(cells)
    {
      if !cells[id].valid {
        return Failure;
      }
      AddBalance(cells, owned, id);
      cells := cells[id := cells[id].(refCount := cells[id].refCount + 1)];
      owned := owned + multiset{id};
      status := Success;
    }

    /** Gives up a reference that the caller owns. What is freed is exactly what no caller can get
        at any more; the other handles keep their fields. */
    method Release(id: nat) returns (status: Status)
      requires Inv(cells, owned) && id < |cells|
      requires cells[id].valid ==> owned[id] > 0
      modifies this
      ensures Inv(cells, owned)
      ensures status == Success <==> old(cells)[id].valid
      ensures status == Failure ==> owned == old(owned) && cells == old(cells)
      ensures status == Success ==>
                && owned == old(owned) - multiset{id}
                && LaterExcept(old(cells), cells, -1)
                && forall k :: 0 <= k < |cells| ==> (cells[k].hasMemory <==> Reachable(old(cells), owned, k))
    {
      if !cells[id].valid {
        return Failure;
      }
      owned := owned - multiset{id};
      DropReference(id, multiset{});
      forall k | 0 <= k < |cells|
        ensures cells[k].hasMemory <==> Reachable(old(cells), owned, k)
      {
        CascadeIsExact(old(cells), cells, owned, k);
      }
      status := Success;
    }

    /** Lets a new internal field name a handle: the count goes up and the field is set. */
    method AttachField(id: nat, r: nat)
      requires Inv(cells, owned) && id < |cells| && cells[id].hasMemory
      requires Below(cells, r, id) && owned[r] > 0
      modifies this`cells
      ensures Inv(cells, owned)
      ensures |cells| == |old(cells)| && cells[id] == old(cells)[id].(refs := old(cells)[id].refs + [r])
      ensures forall k :: 0 <= k < |cells| && k != id ==>
                cells[k] == WithCount(old(cells)[k], if k == r then 1 else 0)
    {
      OwnedIsValid(cells, owned, r);
      AddBalance(cells, owned, r);
      cells := cells[r := cells[r].(refCount := cells[r].refCount + 1)];
      AppendBalance(cells, owned, id, r);
      cells := cells[id := cells[id].(refs := cells[id].refs + [r])];
    }

    /** Creates a handle without internal fields; its one reference is owned by the caller. */
    method AllocateBase(kind: Kind) returns (id: nat)
      requires Inv(cells, owned)
      modifies this
      ensures Inv(cells, owned)
      ensures id == |old(cells)| && owned == old(owned) + multiset{id}
      ensures cells == old(cells) + [Cell(kind, true, true, 1, [])]
    {
      id := |cells|;
      NewBalance(cells, owned, kind);
      cells := cells + [Cell(kind, true, true, 1, [])];
      owned := owned + multiset{id};
    }

    /** Sets the next field of a new handle. */
    method AttachNext(id: nat, refs: seq<nat>, i: nat, ghost before: Cells)
      requires Inv(cells, owned) && id < |cells| && cells[id].hasMemory && i < |refs|
      requires Below(cells, refs[i], id) && owned[refs[i]] > 0
      requires FieldsSet(before, cells, id, refs[..i])
      modifies this`cells
      ensures Inv(cells, owned) && FieldsSet(before, cells, id, refs[..i + 1])
    {
      assert refs[..i + 1] == refs[..i] + [refs[i]];
      OccursAppend(refs[..i], refs[i]);
      AttachField(id, refs[i]);
    }

    /** Sets the fields of a new handle one after the other. */
    method AttachFields(id: nat, refs: seq<nat>)
      requires Inv(cells, owned) && id < |cells| && cells[id].hasMemory && cells[id].refs == []
      requires forall i :: 0 <= i < |refs| ==> Below(cells, refs[i], id) && owned[refs[i]] > 0
      modifies this`cells
      ensures Inv(cells, owned) && FieldsSet(old(cells), cells, id, refs)
    {
      for i := 0 to |refs|
        invariant Inv(cells, owned) && FieldsSet(old(cells), cells, id, refs[..i])
      {
        assert Below(old(cells), refs[i], id);
        StillBelow(old(cells), cells, id, refs[..i], refs[i]);
        AttachNext(id, refs, i, old(cells));
      }
      assert refs[..|refs|] == refs;
    }

    /** Creates a handle, if there is memory for it, and takes a reference on every handle that its fields
        name. The caller owns a reference on each of these, and one on the new handle. */
    method Allocate(kind: Kind, refs: seq<nat>, hasMemory: bool) returns (status: Status, id: nat)
      requires Inv(cells, owned) && MayAllocate(cells, kind, refs)
      requires forall i :: 0 <= i < |refs| ==> owned[refs[i]] > 0
      modifies this
      ensures Inv(cells, owned)
      ensures status == Success <==> hasMemory
      ensures status == Failure ==> cells == old(cells) && owned == old(owned)
      ensures status == Success ==>
                && id == |old(cells)| && |cells| == id + 1 && owned == old(owned) + multiset{id}
                && cells[id] == Cell(kind, true, true, 1, refs)
                && forall k :: 0 <= k < id ==> cells[k] == WithCount(old(cells)[k], Occurs(refs, k))
    {
      if !hasMemory {
        return Failure, 0;
      }
      status := Success;
      id := AllocateBase(kind);
      forall i | 0 <= i < |refs|
        ensures Below(cells, refs[i], id)
      {
        AllowedBelow(old(cells), kind, refs, i);
      }
      AttachFields(id, refs);
    }

    /** Moves a reference that the caller owns into an internal field of another handle. */
    method StoreField(id: nat, pos: nat, r: nat)
      requires Inv(cells, owned) && owned[r] > 0
      requires id < |cells| && cells[id].hasMemory && pos <= |cells[id].refs| && Below(cells, r, id)
      modifies this
      ensures Inv(cells, owned) && owned == old(owned) - multiset{r}
      ensures cells == old(cells)[id := WithField(old(cells)[id], pos, r)]
    {
      owned := owned - multiset{r};
      StoreBalance(cells, owned, id, pos, r);
      cells := cells[id := cells[id].(refs := cells[id].refs[..pos] + [r] + cells[id].refs[pos..])];
    }

    /** Hands the reference in an internal field to the caller and clears the field. */
    method TakeField(id: nat, pos: nat) returns (r: nat)
      requires Inv(cells, owned) && id < |cells| && pos < |cells[id].refs|
      modifies this
      ensures Inv(cells, owned) && r == old(cells)[id].refs[pos] && owned == old(owned) + multiset{r}
      ensures cells == old(cells)[id := WithoutField(old(cells)[id], pos)]
    {
      r := cells[id].refs[pos];
      TakeBalance(cells, owned, id, pos);
      cells := cells[id := cells[id].(refs := cells[id].refs[..pos] + cells[id].refs[pos + 1..])];
      owned := owned + multiset{r};
    }

    /** Releases the handle that an internal field names and clears the field. */
    method ReleaseField(id: nat, pos: nat)
      requires Inv(cells, owned) && owned[id] > 0 && id < |cells| && pos < |cells[id].refs|
      modifies this
      ensures Inv(cells, owned) && owned == old(owned) && |cells| == |old(cells)|
      ensures cells[id].hasMemory && cells[id].kind == old(cells)[id].kind
      ensures cells[id].refs == WithoutField(old(cells)[id], pos).refs
      ensures forall k :: 0 <= k < |cells| ==> cells[k].kind == old(cells)[k].kind
      ensures forall k :: 0 <= k < |cells| && k != id && cells[k].hasMemory ==>
                old(cells)[k].hasMemory && cells[k].refs == old(cells)[k].refs
    {
      var r := TakeField(id, pos);
      ghost var taken := cells;
      OwnedIsValid(cells, owned, r);
      var _ := Release(r);
      assert owned == old(owned);
      OwnedIsValid(cells, owned, id);
      assert forall k :: 0 <= k < |cells| ==> Later(taken[k], cells[k]);
    }

    /** Takes a reference on a handle that the caller owns and names it in a field. */
    method AddField(id: nat, pos: nat, r: nat)
      requires Inv(cells, owned) && owned[id] > 0 && owned[r] > 0
      requires id < |cells| && pos <= |cells[id].refs| && Below(cells, r, id)
      modifies this
      ensures Inv(cells, owned) && owned == old(owned) && |cells| == |old(cells)|
      ensures cells[id].hasMemory && cells[id].refs == WithField(old(cells)[id], pos, r).refs
      ensures forall k :: 0 <= k < |cells| && k != id ==> cells[k] == WithCount(old(cells)[k], if k == r then 1 else 0)
    {
      OwnedIsValid(cells, owned, id);
      OwnedIsValid(cells, owned, r);
      ghost var before := cells;
      var _ := AddRef(r);
      assert Below(before, r, id);
      StoreField(id, pos, r);
      assert owned == old(owned);
    }

    /** Replaces the payload of message properties: the old one, if there is one at `pos`, is
        released, and a reference is taken on the new one, which the caller owns. */
    method SetPayload(props: nat, hasOld: bool, pos: nat, payload: nat)
      requires Inv(cells, owned) && props < |cells| && owned[props] > 0 && owned[payload] > 0
      requires payload < |cells| && Below(cells, payload, props)
      requires cells[props].kind == MsgProps && (cells[payload].kind == Object || cells[payload].kind == Json)
      requires pos < |cells[props].refs| + (if hasOld then 0 else 1)
      modifies this
      ensures Inv(cells, owned) && owned == old(owned) && |cells| == |old(cells)|
      ensures cells[props].hasMemory
      ensures cells[props].refs
           == WithField(if hasOld then WithoutField(old(cells)[props], pos) else old(cells)[props], pos, payload).refs
      ensures forall k :: 0 <= k < |cells| && k != props && cells[k].hasMemory ==>
                old(cells)[k].hasMemory && cells[k].refs == old(cells)[k].refs
    {
      if hasOld {
        ReleaseField(props, pos);
      }
      AddField(props, pos, payload);
    }
  }

  /** A table that callers can build up, handle by handle: a pool, a connection of it, an object type and one
      inside it, an object and one inside it, a queue of objects, and a LOB. */
  lemma OneOfEach(cells: Cells, k: nat)
    requires cells == [Cell(Pool, true, true, 2, []), Cell(Conn, true, true, 5, [0]),
                       Cell(ObjectType, true, true, 5, [1]), Cell(ObjectType, true, true, 1, [1, 2]),
                       Cell(Object, true, true, 2, [2]), Cell(Object, true, true, 1, [2, 4]),
                       Cell(Queue, true, true, 1, [1, 2]), Cell(Lob, true, true, 1, [1])]
    requires k < |cells|
    ensures MayAllocate(cells[..k], cells[k].kind, cells[k].refs)
  {
    var before, refs := cells[..k], cells[k].refs;
    var kinds := seq(|refs|, i requires 0 <= i < |refs| && refs[i] < |before| => before[refs[i]].kind);
    assert kinds == if k == 0 then [] else if k == 1 then [Pool] else if k == 2 || k == 7 then [Conn]
                    else if k == 4 then [ObjectType] else if k == 5 then [ObjectType, Object] else [Conn, ObjectType];
  }
}
