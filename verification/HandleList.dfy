/** The growable table of handles with a rotating search position (support/dpiHandleList.c). */
module HandleLists {
  import opened Common

  const SLOT_INCREMENT := 8
  const MAX_UINT32 := 0xFFFF_FFFF

  /** The number of slots in use. */
  ghost function Used(s: seq<Handle?>): (n: nat)
    ensures n <= |s|
  {
    if s == [] then 0 else Used(s[..|s| - 1]) + if s[|s| - 1] == null then 0 else 1
  }

  lemma {:induction false} UsedUpdate(s: seq<Handle?>, i: nat, h: Handle?)
    requires i < |s|
    ensures Used(s[i := h]) == Used(s) - (if s[i] == null then 0 else 1) + if h == null then 0 else 1
  {
    var n := |s| - 1;
    if i < n {
      assert s[i := h][..n] == s[..n][i := h];
      UsedUpdate(s[..n], i, h);
    } else {
      assert s[i := h][..n] == s[..n];
    }
  }

  lemma {:induction false} UsedAppendNulls(s: seq<Handle?>, k: nat)
    ensures Used(s + seq(k, _ => null)) == Used(s)
  {
    if k == 0 {
      assert s + seq(0, _ => null) == s;
    } else {
      var t := s + seq(k, _ => null);
      assert t[..|t| - 1] == s + seq(k - 1, _ => null);
      UsedAppendNulls(s, k - 1);
    }
  }

  /** Pigeonhole: a table in which fewer slots than there are is used has an empty one. */
  lemma {:induction false} SomeSlotEmpty(s: seq<Handle?>)
    ensures Used(s) < |s| <==> exists i :: 0 <= i < |s| && s[i] == null
  {
    if s != [] {
      var n := |s| - 1;
      SomeSlotEmpty(s[..n]);
      if Used(s[..n]) < n {
        var i :| 0 <= i < n && s[..n][i] == null;
        assert s[i] == null;
      }
      if i :| 0 <= i < |s| && s[i] == null {
        assert i < n ==> s[..n][i] == null;
      }
    }
  }

  /** A peak rounded up to a whole number of increments, but never below one increment. */
  ghost function SlotsFor(peak: nat): nat {
    if peak <= SLOT_INCREMENT then SLOT_INCREMENT
    else (peak + SLOT_INCREMENT - 1) / SLOT_INCREMENT * SLOT_INCREMENT
  }

  /** A number of slots that is a multiple of the increment is bounded by the rounded peak when
      the last increment was needed. */
  ghost predicate SlotsNeeded(numSlots: nat, peak: nat) {
    numSlots % SLOT_INCREMENT == 0 && (numSlots <= SLOT_INCREMENT || numSlots < peak + SLOT_INCREMENT)
  }

  lemma SlotsNeededRounds(numSlots: nat, peak: nat)
    requires numSlots % 8 == 0
    ensures SlotsNeeded(numSlots, peak) <==> numSlots <= SlotsFor(peak)
    ensures SlotsFor(peak) == if peak <= 8 then 8 else (peak + 7) / 8 * 8
  {
  }

  /** Whether the cyclic search from `start` passes slot `j` in its first `steps` steps. */
  ghost predicate Passed(start: nat, steps: nat, numSlots: nat, j: nat) {
    if start + steps <= numSlots then start <= j < start + steps
    else start <= j < numSlots || j < start + steps - numSlots
  }

  /** Whether `j` lies between `start` and `stop` going round. */
  ghost predicate Between(start: nat, stop: nat, j: nat) {
    if start <= stop then start <= j < stop else start <= j || j < stop
  }

  class HandleList {
    var handles: array<Handle?>
    var numSlots: nat
    var numUsedSlots: nat
    var currentPos: nat
    ghost var peak: nat

    ghost predicate Valid()
      reads this, handles
    {
      && numSlots == handles.Length
      && currentPos < numSlots
      && numUsedSlots == Used(handles[..])
      && numUsedSlots <= peak
      && SlotsNeeded(numSlots, peak)
    }

    constructor ()
      ensures Valid() && fresh(handles)
      ensures handles[..] == seq(8, _ => null) && peak == 0
    {
      numSlots := SLOT_INCREMENT;
      numUsedSlots := 0;
      handles := new Handle?[SLOT_INCREMENT](_ => null);
      currentPos := 0;
      peak := 0;
      new;
      assert handles[..] == [] + seq(SLOT_INCREMENT, _ => null);
      UsedAppendNulls([], SLOT_INCREMENT);
    }

    /** The search loop: the first empty slot at or after the current position, going round. */
    method FindEmptySlot() returns (ghost steps: nat)
      requires Valid() && numUsedSlots < numSlots
      modifies this`currentPos
      ensures Valid() && handles[currentPos] == null
      ensures steps < numSlots
      ensures currentPos == if old(currentPos) + steps < numSlots then old(currentPos) + steps
                            else old(currentPos) + steps - numSlots
      ensures forall j :: 0 <= j < numSlots && Passed(old(currentPos), steps, numSlots, j) ==> handles[j] != null
      ensures forall j :: 0 <= j < numSlots && Between(old(currentPos), currentPos, j) ==> handles[j] != null
    {
      ghost var start := currentPos;
      var i := 0;
      while i < numSlots
        invariant i <= numSlots && currentPos < numSlots
        invariant currentPos == if start + i < numSlots then start + i else start + i - numSlots
        invariant forall j :: 0 <= j < numSlots && Passed(start, i, numSlots, j) ==> handles[j] != null
      {
        if handles[currentPos] == null {
          break;
        }
        currentPos := currentPos + 1;
        if currentPos == numSlots {
          currentPos := 0;
        }
        i := i + 1;
      }
      SomeSlotEmpty(handles[..]);
      steps := i;
    }

    /** Copies the table into a larger one; the first of the new slots is taken. */
    method Grow() returns (slotNum: nat)
      requires Valid() && numUsedSlots == numSlots
      modifies this
      ensures fresh(handles) && numSlots == handles.Length
      ensures handles[..] == old(handles[..]) + seq(SLOT_INCREMENT, _ => null)
      ensures slotNum == old(numUsedSlots) && numUsedSlots == currentPos == slotNum + 1 && peak == old(peak)
    {
      var tempHandles := new Handle?[numSlots + SLOT_INCREMENT](_ => null);
      forall i | 0 <= i < numSlots {
        tempHandles[i] := handles[i];
      }
      handles := tempHandles;
      numSlots := numSlots + SLOT_INCREMENT;
      slotNum := numUsedSlots;
      numUsedSlots := numUsedSlots + 1;
      currentPos := numUsedSlots;
    }

    /** Takes the next empty slot: it is counted, and the search goes on behind it. */
    method TakeEmptySlot() returns (slotNum: nat)
      requires Valid() && numUsedSlots < numSlots
      modifies this`numUsedSlots, this`currentPos
      ensures slotNum < numSlots && handles[slotNum] == null && numUsedSlots == old(numUsedSlots) + 1
      ensures currentPos == if slotNum + 1 == numSlots then 0 else slotNum + 1
      ensures forall j :: 0 <= j < numSlots && Between(old(currentPos), slotNum, j) ==> handles[j] != null
    {
      ghost var steps := FindEmptySlot();
      numUsedSlots := numUsedSlots + 1;
      slotNum := currentPos;
      currentPos := currentPos + 1;
      if currentPos == numSlots {
        currentPos := 0;
      }
    }

    /** Puts a handle into a slot that has been counted already. */
    method Place(slotNum: nat, handle: Handle)
      requires numSlots == handles.Length && currentPos < numSlots && slotNum < numSlots && handles[slotNum] == null
      requires numUsedSlots == Used(handles[..]) + 1 && SlotsNeeded(numSlots, if numUsedSlots > peak then numUsedSlots else peak)
      modifies this`peak, handles
      ensures Valid() && handles[..] == old(handles[..])[slotNum := handle]
      ensures peak == if numUsedSlots > old(peak) then numUsedSlots else old(peak)
    {
      ghost var before := handles[..];
      UsedUpdate(before, slotNum, handle);
      handles[slotNum] := handle;
      assert handles[..] == before[slotNum := handle];
      peak := if numUsedSlots > peak then numUsedSlots else peak;
    }

    /** Adds a handle and issues its slot number; `hasMemory` says whether memory for more slots
        is to be had. No live handle is overwritten or moved. */
    method AddHandle(handle: Handle, hasMemory: bool) returns (status: Status, slotNum: nat)
      requires Valid()
      modifies this, handles
      ensures Valid() && (handles == old(handles) || fresh(handles))
      ensures status == Failure <==> old(numUsedSlots) == old(numSlots) && !hasMemory
      ensures status == Failure ==> handles == old(handles) && handles[..] == old(handles[..]) && numUsedSlots == old(numUsedSlots)
      ensures status == Success ==>
                var grown := if old(numUsedSlots) == old(numSlots) then 8 else 0;
                var before := old(handles[..]) + seq(grown, _ => null);
                && slotNum < |before| && before[slotNum] == null
                && handles[..] == before[slotNum := handle]
                && numUsedSlots == old(numUsedSlots) + 1
                && currentPos == (if slotNum + 1 == numSlots then 0 else slotNum + 1)
      ensures status == Success && numSlots == old(numSlots) ==>
                forall j :: 0 <= j < numSlots && Between(old(currentPos), slotNum, j) ==> old(handles[..])[j] != null
      ensures peak == if numUsedSlots > old(peak) then numUsedSlots else old(peak)
    {
      slotNum := 0;
      status := Success;
      ghost var table := handles[..];
      if numUsedSlots == numSlots {
        if !hasMemory {
          return Failure, slotNum;
        }
        slotNum := Grow();
        UsedAppendNulls(table, SLOT_INCREMENT);
      } else {
        slotNum := TakeEmptySlot();
        assert table + seq(0, _ => null) == table;
      }
      Place(slotNum, handle);
    }

    /** Empties a slot. The table stays consistent exactly if the slot had been issued and not emptied
        before; otherwise a handle too few is counted. */
    method RemoveHandle(slotNum: nat)
      requires Valid() && slotNum < numSlots
      modifies this, handles
      ensures Valid() <==> old(handles[slotNum]) != null
      ensures handles == old(handles) && handles[..] == old(handles[..])[slotNum := null]
      ensures numUsedSlots == if old(numUsedSlots) == 0 then 0xFFFF_FFFF else old(numUsedSlots) - 1
      ensures numSlots == old(numSlots) && peak == old(peak) && currentPos == old(currentPos)
    {
      UsedUpdate(handles[..], slotNum, null);
      ghost var after := handles[..][slotNum := null];
      handles[slotNum] := null;
      assert handles[..] == after;
      numUsedSlots := if numUsedSlots == 0 then MAX_UINT32 else numUsedSlots - 1;
    }
  }
}
