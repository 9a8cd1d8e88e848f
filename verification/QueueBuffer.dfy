/** The memory of a queue's buffer: six arrays that are allocated one after the other and freed together
    (support/dpiQueue.c). */
module QueueBuffers {
  import opened Common

  // The arrays in the order in which they are allocated and freed.
  const PROPS := 0
  const HANDLES := 1
  const INSTANCES := 2
  const INDICATORS := 3
  const SCALAR_INDICATORS := 4
  const MSG_IDS := 5
  const ARRAYS := 6

  /** A pointer to an array: null, to memory that is allocated, or to memory that has been freed. */
  datatype Pointer = Null | Allocated | Freed

  class Buffer {
    const hasPayloadType: bool

    var numElements: nat
    var pointers: seq<Pointer>

    /** Frees of memory that had been freed before, and arrays that no pointer names any more although
        they are allocated. */
    ghost var freedAgain: nat
    ghost var leaked: nat

    /** Only the pointer of the scalar indicators can name freed memory. */
    ghost predicate Valid()
      reads this
    {
      && |pointers| == ARRAYS
      && (forall i :: 0 <= i < ARRAYS && i != SCALAR_INDICATORS ==> pointers[i] != Freed)
      && (hasPayloadType ==> pointers[SCALAR_INDICATORS] == Null)
    }

    ghost predicate Dangling()
      requires |pointers| == ARRAYS
      reads this
    {
      pointers[SCALAR_INDICATORS] == Freed
    }

    predicate Skips(i: nat) { hasPayloadType && i == SCALAR_INDICATORS }

    /** All the arrays that the queue uses are there. */
    ghost predicate Complete()
      requires |pointers| == ARRAYS
      reads this
    {
      forall i :: 0 <= i < ARRAYS && !Skips(i) ==> pointers[i] == Allocated
    }

    constructor (hasPayloadType: bool)
      ensures Valid() && numElements == 0 && this.hasPayloadType == hasPayloadType
      ensures pointers == seq(ARRAYS, _ => Null) && freedAgain == leaked == 0
    {
      this.hasPayloadType, numElements, pointers := hasPayloadType, 0, seq(ARRAYS, _ => Null);
      freedAgain, leaked := 0, 0;
    }

    /** Overwrites a pointer. */
    method Assign(i: nat, p: Pointer)
      requires |pointers| == ARRAYS && i < ARRAYS
      modifies this`pointers, this`leaked
      ensures pointers == old(pointers)[i := p]
      ensures leaked == old(leaked) + if old(pointers)[i] == Allocated then 1 else 0
    {
      leaked := leaked + if pointers[i] == Allocated then 1 else 0;
      pointers := pointers[i := p];
    }

    /** Hands an array to the allocator. */
    method Release(i: nat)
      requires |pointers| == ARRAYS && i < ARRAYS && pointers[i] != Null
      modifies this`pointers, this`freedAgain
      ensures pointers == old(pointers)[i := Freed]
      ensures freedAgain == old(freedAgain) + if old(pointers)[i] == Freed then 1 else 0
    {
      freedAgain := freedAgain + if pointers[i] == Freed then 1 else 0;
      pointers := pointers[i := Freed];
    }

    /** Frees one array and clears its pointer. */
    method FreeArray(i: nat)
      requires |pointers| == ARRAYS && i < ARRAYS && pointers[i] != Freed
      modifies this`pointers, this`freedAgain, this`leaked
      ensures pointers == old(pointers)[i := Null] && freedAgain == old(freedAgain) && leaked == old(leaked)
    {
      if pointers[i] != Null {
        Release(i);
        Assign(i, Null);
      }
    }

    /** Frees the scalar indicators; the pointer that is cleared is the one of the indicators. */
    method FreeScalarIndicators()
      requires |pointers| == ARRAYS && pointers[INDICATORS] == Null
      modifies this`pointers, this`freedAgain, this`leaked
      ensures pointers == if old(pointers)[SCALAR_INDICATORS] == Null then old(pointers)
                          else old(pointers)[SCALAR_INDICATORS := Freed]
      ensures freedAgain == old(freedAgain) + (if old(Dangling()) then 1 else 0) && leaked == old(leaked)
    {
      if pointers[SCALAR_INDICATORS] != Null {
        Release(SCALAR_INDICATORS);
        Assign(INDICATORS, Null);
      }
    }

    /** Frees the buffer. Nothing leaks, and nothing is freed twice but the scalar indicators, exactly if
        their pointer has been left dangling; it dangles afterwards if there ever were any. */
    method Free()
      requires Valid()
      modifies this`pointers, this`freedAgain, this`leaked
      ensures Valid() && leaked == old(leaked)
      ensures freedAgain == old(freedAgain) + if old(Dangling()) then 1 else 0
      ensures pointers == [Null, Null, Null, Null, if old(pointers)[SCALAR_INDICATORS] != Null then Freed else Null, Null]
    {
      FreeArray(PROPS);
      FreeArray(HANDLES);
      FreeArray(INSTANCES);
      FreeArray(INDICATORS);
      FreeScalarIndicators();
      FreeArray(MSG_IDS);
    }

    /** Allocates one array, or sets its pointer to null. */
    method AllocateArray(i: nat, granted: bool) returns (status: Status)
      requires |pointers| == ARRAYS && i < ARRAYS && pointers[i] != Allocated
      modifies this`pointers, this`leaked
      ensures status == Success <==> granted
      ensures pointers == old(pointers)[i := if granted then Allocated else Null] && leaked == old(leaked)
    {
      Assign(i, if granted then Allocated else Null);
      status := if granted then Success else Failure;
    }

    /** How many arrays the queue uses. */
    function Wanted(): nat { if hasPayloadType then 5 else 6 }

    /** The four arrays that every queue has. */
    method AllocateFirst(granted: nat) returns (status: Status)
      requires |pointers| == ARRAYS && forall i :: 0 <= i < SCALAR_INDICATORS ==> pointers[i] == Null
      modifies this`pointers, this`leaked
      ensures |pointers| == ARRAYS && leaked == old(leaked)
      ensures status == Success <==> granted >= SCALAR_INDICATORS
      ensures forall i :: 0 <= i < SCALAR_INDICATORS ==> pointers[i] == if i < granted then Allocated else Null
      ensures pointers[SCALAR_INDICATORS..] == old(pointers)[SCALAR_INDICATORS..]
    {
      status := AllocateArray(PROPS, granted > 0);
      if status == Failure {
        return;
      }
      status := AllocateArray(HANDLES, granted > 1);
      if status == Failure {
        return;
      }
      status := AllocateArray(INSTANCES, granted > 2);
      if status == Failure {
        return;
      }
      status := AllocateArray(INDICATORS, granted > 3);
    }

    /** Makes the buffer large enough for `n` elements; `granted` of the allocations succeed. The recorded
        size is `n` whether they do or not. Nothing leaks. The pointer of the scalar indicators is left
        dangling exactly if there were some before and one of the four allocations before theirs fails. */
    method Allocate(n: nat, granted: nat) returns (status: Status)
      requires Valid()
      modifies this`numElements, this`pointers, this`freedAgain, this`leaked
      ensures Valid() && numElements == n && leaked == old(leaked)
      ensures freedAgain == old(freedAgain) + if old(Dangling()) then 1 else 0
      ensures status == Success <==> granted >= if hasPayloadType then 5 else 6
      ensures status == Success <==> Complete()
      ensures Dangling() <==> old(pointers)[SCALAR_INDICATORS] != Null && granted < SCALAR_INDICATORS
    {
      Free();
      numElements := n;
      ghost var freed := pointers;
      status := AllocateFirst(granted);
      assert pointers[SCALAR_INDICATORS] == pointers[SCALAR_INDICATORS..][0] == freed[SCALAR_INDICATORS];
      assert pointers[MSG_IDS] == pointers[SCALAR_INDICATORS..][1] == freed[MSG_IDS];
      if status == Failure {
        assert pointers[INDICATORS] == Null;
        return;
      }
      if !hasPayloadType {
        status := AllocateArray(SCALAR_INDICATORS, granted > 4);
        if status == Failure {
          assert pointers[SCALAR_INDICATORS] == Null;
          return;
        }
      }
      status := AllocateArray(MSG_IDS, granted >= Wanted());
      assert pointers[MSG_IDS] == if granted >= Wanted() then Allocated else Null;
    }

    /** What enqueuing and dequeuing do first: the buffer is only allocated when its recorded size is too
        small. So after a failure a call with no more messages goes on, exactly then, with arrays that are
        not there. */
    method Prepare(n: nat, granted: nat) returns (status: Status)
      requires Valid()
      modifies this`numElements, this`pointers, this`freedAgain, this`leaked
      ensures Valid() && leaked == old(leaked)
      ensures status == Success <==> n <= old(numElements) || granted >= (if hasPayloadType then 5 else 6)
      ensures status == Success ==> (Complete() <==> old(numElements) < n || old(Complete()))
      ensures status == Failure ==> !Complete()
      ensures n <= old(numElements) ==> numElements == old(numElements) && pointers == old(pointers) && freedAgain == old(freedAgain)
      ensures old(numElements) < n ==>
                && numElements == n
                && freedAgain == old(freedAgain) + (if old(Dangling()) then 1 else 0)
                && (Dangling() <==> old(pointers)[SCALAR_INDICATORS] != Null && granted < SCALAR_INDICATORS)
    {
      status := Success;
      if numElements < n {
        status := Allocate(n, granted);
      }
    }
  }

  /** The scalar indicators are freed twice when a buffer that was complete cannot be made larger and is
      then freed; before that, a call with the smaller number of messages goes on without its arrays. */
  method FreedTwice() returns (status: Status, buffer: Buffer)
    ensures fresh(buffer) && status == Success && buffer.freedAgain == 1 && buffer.leaked == 0
  {
    buffer := new Buffer(false);
    var first := buffer.Prepare(4, 6);
    assert buffer.pointers[SCALAR_INDICATORS] == Allocated;
    var second := buffer.Prepare(8, 0);
    assert first == Success && second == Failure && !buffer.Complete();
    status := buffer.Prepare(8, 0);
    assert !buffer.Complete();
    buffer.Free();
  }
}
