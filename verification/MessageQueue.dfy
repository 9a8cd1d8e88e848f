/** The buffer of message properties of an advanced queue (support/dpiQueue.c): which of them the
    queue keeps, which belong to callers, and what they carry. */
module MessageQueue {
  import opened Common

  /** An OCI pointer. */
  type Pointer = Option<nat>

  /** What a queue carries: raw bytes, objects of one type, or JSON values. */
  datatype QueueKind = RawQueue | ObjectQueue(tdo: nat) | JsonQueue

  datatype ObjectPayload = ObjectPayload(tdo: nat, instance: Pointer)

  /** The payloads that message properties have; they can have several. */
  datatype Payload = Payload(raw: Pointer, obj: Option<ObjectPayload>, json: Option<Pointer>)

  const NO_PAYLOAD := Payload(None, None, None)

  datatype PayloadError = QueueNoPayload | QueueWrongPayloadType | WrongType

  /** What is wrong with a payload that is to be put into a queue. */
  function PayloadCheck(kind: QueueKind, p: Payload): Option<PayloadError> {
    if p == NO_PAYLOAD then Some(QueueNoPayload)
    else
      match kind
      case JsonQueue => if p.json == None then Some(QueueWrongPayloadType) else None
      case RawQueue => if p.raw == None then Some(QueueWrongPayloadType) else None
      case ObjectQueue(tdo) =>
        if p.obj == None then Some(QueueWrongPayloadType)
        else if p.obj.value.tdo != tdo then Some(WrongType)
        else None
  }

  /** The pointer that the client gets for a payload that is put into a queue. A JSON value goes before
      raw bytes. */
  function SentInstance(kind: QueueKind, p: Payload): Pointer {
    if kind.ObjectQueue? then (if p.obj.Some? then p.obj.value.instance else None)
    else if p.json.Some? then p.json.value
    else p.raw
  }

  /** Whether properties can take in a message, and the pointer that the client gets for that. */
  predicate CanReceive(kind: QueueKind, p: Payload) {
    match kind
    case RawQueue => true
    case ObjectQueue(_) => p.obj.Some?
    case JsonQueue => p.json.Some?
  }

  function ReceiveInstance(kind: QueueKind, p: Payload): Pointer
    requires CanReceive(kind, p)
  {
    match kind
    case RawQueue => p.raw
    case ObjectQueue(_) => p.obj.value.instance
    case JsonQueue => p.json.value
  }

  /** The payload after a message has been taken in; the client fills an object in place. */
  function Received(kind: QueueKind, p: Payload, instance: Pointer): Payload {
    match kind
    case RawQueue => p.(raw := instance)
    case ObjectQueue(_) => p
    case JsonQueue => p.(json := Some(instance))
  }

  /** Which payloads a queue accepts, and why it refuses the others. */
  lemma WhatIsAccepted(kind: QueueKind, p: Payload)
    ensures kind == RawQueue ==> (PayloadCheck(kind, p) == None <==> p.raw.Some?)
    ensures kind == JsonQueue ==> (PayloadCheck(kind, p) == None <==> p.json.Some?)
    ensures kind.ObjectQueue? ==> (PayloadCheck(kind, p) == None <==> p.obj.Some? && p.obj.value.tdo == kind.tdo)
    ensures PayloadCheck(kind, p) == Some(QueueNoPayload) <==> p.raw == None && p.obj == None && p.json == None
    ensures PayloadCheck(kind, p) == Some(WrongType) <==> kind.ObjectQueue? && p.obj.Some? && p.obj.value.tdo != kind.tdo
  {
  }

  /** What goes into a queue comes out of it, when the client delivers the pointer that it was handed; the raw
      bytes do only if there is no JSON payload beside them, and an object is filled in place. */
  lemma SentReturns(kind: QueueKind, p: Payload, q: Payload)
    requires PayloadCheck(kind, p) == None && CanReceive(kind, q)
    ensures var r := Received(kind, q, SentInstance(kind, p));
            && (kind == RawQueue ==> (r.raw == p.raw <==> p.json == None || p.json.value == p.raw))
            && (kind == JsonQueue ==> r.json == p.json)
            && (kind.ObjectQueue? ==> r == q && SentInstance(kind, p) == p.obj.value.instance)
  {
  }

  /** The payload carries what the client delivered. */
  ghost predicate Carries(kind: QueueKind, p: Payload, delivered: Pointer) {
    match kind
    case RawQueue => p.raw == delivered
    case ObjectQueue(_) => p.obj.Some?
    case JsonQueue => p.json == Some(delivered)
  }

  /** What is to be had for one slot of the buffer: the handle of new message properties, and a new
      instance of the payload. */
  datatype SlotAnswer = SlotAnswer(handle: Option<nat>, instance: Option<Pointer>)

  /** Whether a slot, empty or with properties that carry a payload, needs a new payload before the client
      can fill it: an object only if there is none, a JSON value in any case. */
  predicate NeedsPayload(kind: QueueKind, slot: Option<Payload>) {
    match kind
    case RawQueue => false
    case ObjectQueue(_) => slot == None || slot.value.obj == None
    case JsonQueue => true
  }

  predicate CanFill(kind: QueueKind, slot: Option<Payload>, a: SlotAnswer) {
    && (slot == None ==> a.handle.Some?)
    && (NeedsPayload(kind, slot) ==> a.instance.Some?)
  }

  /** The payload with what has been had for it; the rest stays. */
  function Prepared(kind: QueueKind, p: Payload, instance: Option<Pointer>): Payload {
    if instance == None then p
    else
      match kind
      case RawQueue => p
      case ObjectQueue(tdo) => if p.obj == None then p.(obj := Some(ObjectPayload(tdo, instance.value))) else p
      case JsonQueue => p.(json := instance)
  }

  class MsgProps {
    var handle: nat
    var payload: Payload
    var msgIdRaw: Pointer

    constructor (handle: nat)
      ensures this.handle == handle && payload == NO_PAYLOAD && msgIdRaw == None
    {
      this.handle, payload, msgIdRaw := handle, NO_PAYLOAD, None;
    }
  }

  /** A message as the client delivers it: payload and message id. */
  datatype Message = Message(payload: Pointer, id: Pointer)

  /** The slots hold distinct handles. */
  ghost predicate DistinctSlots(slots: seq<MsgProps?>) {
    forall i, j :: 0 <= i < j < |slots| && slots[i] != null ==> slots[i] != slots[j]
  }

  function PayloadAt(p: MsgProps?): Payload
    reads p
  {
    if p == null then NO_PAYLOAD else p.payload
  }

  function Slot(p: MsgProps?): Option<Payload>
    reads p
  {
    if p == null then None else Some(p.payload)
  }

  /** The handle at position `i` does not come again before position `n`. */
  ghost predicate LastAmong(ps: seq<MsgProps>, i: nat, n: nat)
    requires i < n <= |ps|
  {
    forall k :: i < k < n ==> ps[k] != ps[i]
  }

  lemma LastBefore(ps: seq<MsgProps>, i: nat)
    requires i < |ps|
    ensures forall j :: 0 <= j < i && LastAmong(ps, j, i + 1) ==> LastAmong(ps, j, i) && ps[j] != ps[i]
  {
  }

  ghost function Elements(ps: seq<MsgProps>): set<MsgProps> { set p | p in ps }

  /** What the client answers to a dequeue: messages, possibly fewer than asked for because the wait
      timed out, or an error. */
  datatype Dequeued = Delivered(messages: seq<Message>) | Failed

  class Queue {
    const kind: QueueKind
    var numElements: nat
    var complete: bool               // all arrays are there, or none is needed
    var props: array<MsgProps?>
    var handles: array<nat>
    var instances: array<Pointer>
    var msgIds: array<Pointer>
    ghost var created: set<MsgProps>
    ghost var callers: set<MsgProps>
    ghost var released: set<MsgProps>

    /** Every handle that the queue has created has one owner: a slot of the buffer, or a caller,
        or it has been released by the queue. */
    ghost predicate Valid()
      reads this, props
    {
      && numElements == props.Length == handles.Length == instances.Length == msgIds.Length
      && instances != msgIds
      && DistinctSlots(props[..])
      && callers !! released && callers + released <= created
      && (forall p :: p in props[..] && p != null ==> p in created && p !in callers && p !in released)
      && forall p :: p in created && p !in callers && p !in released ==> p in props[..]
    }

    constructor (kind: QueueKind)
      ensures Valid() && numElements == 0 && complete && created == {} && this.kind == kind
    {
      this.kind := kind;
      numElements, complete := 0, true;
      props := new MsgProps?[0];
      handles := new nat[0];
      instances := new Pointer[0];
      msgIds := new Pointer[0];
      created, callers, released := {}, {}, {};
    }

    /** Gives up the queue's reference on a handle; this happens once for every handle. */
    ghost method DropReference(p: MsgProps)
      requires p in created && p !in callers && p !in released
      modifies this`released
      ensures released == old(released) + {p}
    {
      released := released + {p};
    }

    /** Sets up empty arrays, or does without some of them; every handle must have left the queue. */
    method Reset(n: nat, complete: bool)
      requires callers !! released && callers + released == created
      modifies this`numElements, this`complete, this`props, this`handles, this`instances, this`msgIds
      ensures Valid() && numElements == n && this.complete == complete
      ensures fresh(props) && fresh(handles) && fresh(instances) && fresh(msgIds)
      ensures props[..] == seq(n, _ => null)
    {
      numElements, this.complete := n, complete;
      props := new MsgProps?[n](_ => null);
      handles := new nat[n](_ => 0);
      instances := new Pointer[n](_ => None);
      msgIds := new Pointer[n](_ => None);
    }

    /** The loop over the slots. */
    method ReleaseAll()
      requires Valid()
      modifies this`released, props
      ensures callers !! released && released == created - callers
    {
      for i := 0 to numElements
        invariant numElements == props.Length && props[i..] == old(props[..])[i..]
        invariant old(released) <= released <= created && callers !! released
        invariant forall p :: p in released <==>
                    p in old(released) || (exists j :: 0 <= j < i && p == old(props[..])[j])
      {
        var p := props[i];
        if p != null {
          assert p == old(props[..])[i] && p in old(props[..]);
          DropReference(p);
          props[i] := null;
        }
      }
      forall p | p in created && p !in callers
        ensures p in released
      {
        assert p in old(released) || p in old(props[..]);
      }
    }

    /** Releases every handle that the buffer holds and frees the arrays. Their recorded size stays. */
    method FreeBuffer()
      requires Valid()
      modifies this, props
      ensures Valid() && numElements == old(numElements) && !complete
      ensures props[..] == seq(numElements, _ => null)
      ensures created == old(created) && callers == old(callers)
      ensures released == old(created) - old(callers)
    {
      ReleaseAll();
      assert callers + released == created;
      Reset(numElements, false);
    }

    /** Makes the buffer as large as needed, if there is memory for its arrays; the new size is recorded in
        any case. */
    method AllocateBuffer(n: nat, hasMemory: bool) returns (status: Status)
      requires Valid()
      modifies this, props
      ensures status == Success <==> hasMemory
      ensures Valid() && numElements == n && complete == hasMemory
      ensures fresh(props) && fresh(handles) && fresh(instances) && fresh(msgIds)
      ensures props[..] == seq(n, _ => null)
      ensures created == old(created) && callers == old(callers)
      ensures released == old(created) - old(callers)
    {
      FreeBuffer();
      assert forall p :: p in props[..] ==> p == null;
      Reset(n, hasMemory);
      status := if hasMemory then Success else Failure;
    }

    /** The arrays handed to the client describe the handles in the first `n` slots. */
    ghost predicate Populated(n: nat)
      reads this, props, handles, instances, msgIds, set i | 0 <= i < props.Length && props[i] != null :: props[i]
    {
      && n <= numElements == props.Length == handles.Length == instances.Length == msgIds.Length
      && forall i :: 0 <= i < n ==>
           && props[i] != null
           && handles[i] == props[i].handle
           && CanReceive(kind, props[i].payload)
           && instances[i] == ReceiveInstance(kind, props[i].payload)
           && msgIds[i] == props[i].msgIdRaw
    }

    /** Puts new message properties into an empty slot; the queue owns them. */
    method CreateProps(i: nat, handle: nat)
      requires Valid() && i < numElements && props[i] == null
      modifies this`created, props
      ensures Valid() && props[i] != null && fresh(props[i]) && props[i].payload == NO_PAYLOAD && props[i].handle == handle
      ensures props[..] == old(props[..])[i := props[i]]
      ensures created == old(created) + {props[i]}
    {
      var p := new MsgProps(handle);
      ghost var before := props[..];
      props[i] := p;
      created := created + {p};
      assert props[..] == before[i := p];
      forall q | q in created && q !in callers && q !in released
        ensures q in props[..]
      {
        if q == p {
          assert props[i] == p;
        } else {
          var j :| 0 <= j < |before| && before[j] == q;
          assert props[j] == q;
        }
      }
    }

    /** Gives message properties a payload that the client can fill. */
    method PreparePayload(p: MsgProps, instance: Option<Pointer>) returns (status: Status)
      modifies p`payload
      ensures status == Success <==> (NeedsPayload(kind, old(Slot(p))) ==> instance.Some?)
      ensures status == Success ==> CanReceive(kind, p.payload)
      ensures status == Success ==> p.payload == Prepared(kind, old(p.payload), instance)
      ensures status == Failure ==> p.payload == old(p.payload)
    {
      if kind.ObjectQueue? && p.payload.obj == None {
        if instance == None {
          return Failure;
        }
        p.payload := p.payload.(obj := Some(ObjectPayload(kind.tdo, instance.value)));
      }
      if kind.JsonQueue? {
        if instance == None {
          return Failure;
        }
        p.payload := p.payload.(json := Some(instance.value));
      }
      status := Success;
    }

    /** Fills one slot and sets up the arrays for the client. */
    method PopulateSlot(i: nat, a: SlotAnswer) returns (status: Status)
      requires Valid() && i < numElements && Populated(i)
      modifies this`created, props, handles, instances, msgIds, props[i]
      ensures Valid() && (status == Success ==> Populated(i + 1))
      ensures status == Success <==> CanFill(kind, old(Slot(props[i])), a)
      ensures status == Success ==>
                && (old(props[i]) == null ==> props[i].handle == a.handle.value)
                && props[i].payload == Prepared(kind, old(PayloadAt(props[i])), a.instance)
      ensures forall j :: 0 <= j < numElements && j != i ==> props[j] == old(props[j]) && Slot(props[j]) == old(Slot(props[j]))
      ensures old(props[i]) != null ==> props[i] == old(props[i])
      ensures old(props[i]) == null && props[i] != null ==> fresh(props[i])
      ensures released == old(released) && callers == old(callers) && old(created) <= created
    {
      if props[i] == null {
        if a.handle == None {
          return Failure;
        }
        CreateProps(i, a.handle.value);
      }
      var prop := props[i];
      status := PreparePayload(prop, a.instance);
      if status == Success {
        handles[i] := prop.handle;
        instances[i] := ReceiveInstance(kind, prop.payload);
        msgIds[i] := prop.msgIdRaw;
      }
    }

    /** Fills the first `n` slots, keeping the handles that are there, and sets up the arrays for the
        client. This goes well exactly if what each slot needs is to be had. */
    method Populate(n: nat, answers: seq<SlotAnswer>) returns (status: Status)
      requires Valid() && complete && n <= numElements && n <= |answers|
      modifies this`created, props, handles, instances, msgIds, set i | 0 <= i < props.Length && props[i] != null :: props[i]
      ensures Valid() && |props[..]| == |old(props[..])|
      ensures status == Success <==> forall i :: 0 <= i < n ==> CanFill(kind, old(Slot(props[i])), answers[i])
      ensures status == Success ==> Populated(n)
      // which slots need what
      ensures kind == RawQueue ==>
                (status == Success <==> forall i :: 0 <= i < n && old(props[i]) == null ==> answers[i].handle.Some?)
      ensures kind == JsonQueue ==>
                (status == Success <==> forall i :: 0 <= i < n ==>
                   answers[i].instance.Some? && (old(props[i]) == null ==> answers[i].handle.Some?))
      ensures kind.ObjectQueue? ==>
                (status == Success <==> forall i :: 0 <= i < n ==>
                   && (old(props[i]) == null ==> answers[i].handle.Some?)
                   && (old(props[i]) == null || old(props[i].payload.obj) == None ==> answers[i].instance.Some?))
      // and what they get
      ensures status == Success && kind == RawQueue ==> forall i :: 0 <= i < n ==>
                props[i].payload == old(PayloadAt(props[i]))
      ensures status == Success && kind == JsonQueue ==> forall i :: 0 <= i < n ==>
                props[i].payload == old(PayloadAt(props[i])).(json := answers[i].instance)
      ensures status == Success && kind.ObjectQueue? ==> forall i :: 0 <= i < n ==>
                props[i].payload == if old(PayloadAt(props[i])).obj.Some? then old(PayloadAt(props[i]))
                                    else old(PayloadAt(props[i])).(obj := Some(ObjectPayload(kind.tdo, answers[i].instance.value)))
      ensures status == Success ==> forall i :: 0 <= i < n ==>
                && (kind == RawQueue ==> instances[i] == props[i].payload.raw)
                && (kind.ObjectQueue? ==> props[i].payload.obj.Some? && instances[i] == props[i].payload.obj.value.instance)
                && (kind == JsonQueue ==> props[i].payload.json == Some(instances[i]))
      ensures forall i :: 0 <= i < numElements && old(props[..])[i] != null ==> props[i] == old(props[..])[i]
      ensures forall i :: 0 <= i < numElements && props[i] != null && old(props[..])[i] == null ==> fresh(props[i])
    {
      status := Success;
      for i := 0 to n
        invariant Valid() && Populated(i) && status == Success
        invariant forall j :: 0 <= j < i ==> CanFill(kind, old(Slot(props[j])), answers[j])
        invariant forall j :: i <= j < numElements ==> Slot(props[j]) == old(Slot(props[j]))
        invariant forall j :: 0 <= j < i ==> props[j].payload == Prepared(kind, old(PayloadAt(props[j])), answers[j].instance)
        invariant forall j :: 0 <= j < numElements && old(props[..])[j] != null ==> props[j] == old(props[..])[j]
        invariant forall j :: 0 <= j < numElements && props[j] != null && old(props[..])[j] == null ==> fresh(props[j])
      {
        status := PopulateSlot(i, answers[i]);
        if status == Failure {
          assert !CanFill(kind, old(Slot(props[i])), answers[i]);
          return;
        }
      }
    }

    /** The client writes payloads and message ids of the messages that it delivers. */
    method Receive(messages: seq<Message>)
      requires |messages| <= instances.Length && instances.Length == msgIds.Length && instances != msgIds
      modifies instances, msgIds
      ensures forall i :: 0 <= i < |messages| ==> instances[i] == messages[i].payload && msgIds[i] == messages[i].id
    {
      for i := 0 to |messages|
        invariant forall j :: 0 <= j < i ==> instances[j] == messages[j].payload && msgIds[j] == messages[j].id
      {
        instances[i] := messages[i].payload;
        msgIds[i] := messages[i].id;
      }
    }

    /** Moves the handle in one slot out to the caller. */
    method TakeOut(i: nat) returns (p: MsgProps)
      requires Valid() && i < numElements && props[i] != null
      modifies this`callers, props, props[i]
      ensures Valid() && p == old(props[i]) && p !in old(callers) && callers == old(callers) + {p}
      ensures props[..] == old(props[..])[i := null]
      ensures p.payload == Received(kind, old(props[i].payload), instances[i])
      ensures p.msgIdRaw == msgIds[i] && p.handle == old(props[i].handle)
      ensures forall q :: q in old(callers) ==> q.payload == old(q.payload) && q.msgIdRaw == old(q.msgIdRaw)
    {
      p := props[i];
      ghost var before := props[..];
      assert p in before;
      props[i] := null;
      callers := callers + {p};
      assert props[..] == before[i := null];
      forall q | q in created && q !in callers && q !in released
        ensures q in props[..]
      {
        var j :| 0 <= j < |before| && before[j] == q;
        assert props[j] == q;
      }
      forall q | q in props[..] && q != null
        ensures q in created && q !in callers && q !in released
      {
        var j :| 0 <= j < |before| && props[j] == q;
        assert before[j] == q && q in before;
      }
      p.payload := Received(kind, p.payload, instances[i]);
      p.msgIdRaw := msgIds[i];
    }

    /** The handles in the first `k` slots move out, in their order, with what the client delivered. */
    method Transfer(k: nat) returns (out: seq<MsgProps>)
      requires Valid() && k <= numElements && forall i :: 0 <= i < k ==> props[i] != null && CanReceive(kind, props[i].payload)
      modifies this`callers, props, set i | 0 <= i < props.Length && props[i] != null :: props[i]
      ensures Valid() && |out| == k && callers == old(callers) + Elements(out)
      ensures forall i :: 0 <= i < k ==> out[i] == old(props[i]) && out[i] !in old(callers) && props[i] == null
      ensures forall i :: 0 <= i < k ==> Carries(kind, out[i].payload, instances[i]) && out[i].msgIdRaw == msgIds[i]
      ensures forall i :: k <= i < props.Length ==> props[i] == old(props[i])
    {
      out := [];
      for i := 0 to k
        invariant Valid() && |out| == i && callers == old(callers) + Elements(out)
        invariant forall j :: 0 <= j < i ==> out[j] == old(props[j]) && out[j] !in old(callers) && props[j] == null
        invariant forall j :: 0 <= j < i ==> Carries(kind, out[j].payload, instances[j]) && out[j].msgIdRaw == msgIds[j]
        invariant forall j :: i <= j < k ==> props[j] != null && CanReceive(kind, props[j].payload)
        invariant forall j :: i <= j < props.Length ==> props[j] == old(props[j])
      {
        assert forall j :: 0 <= j < i ==> out[j] in callers;
        ghost var slots := props[..];
        var p := TakeOut(i);
        assert forall j :: 0 <= j < props.Length ==> props[j] == if j == i then null else slots[j];
        out := out + [p];
      }
    }

    /** What the slots have when `n` messages are dequeued: a buffer that has to grow is empty. */
    ghost function SlotAt(n: nat, i: nat): Option<Payload>
      reads this, props, if i < props.Length then {props[i]} else {}
    {
      if n <= numElements && i < props.Length then Slot(props[i]) else None
    }

    /** Whether the buffer can be made ready for `n` messages. */
    ghost predicate CanMakeReady(n: nat, hasMemory: bool, answers: seq<SlotAnswer>)
      requires n <= |answers|
      reads this, props, set i | 0 <= i < props.Length && props[i] != null :: props[i]
    {
      (n <= numElements || hasMemory) && forall i :: 0 <= i < n ==> CanFill(kind, SlotAt(n, i), answers[i])
    }

    /** Makes the buffer ready for `n` messages: larger if need be, with a handle in each slot. */
    method MakeReady(n: nat, hasMemory: bool, answers: seq<SlotAnswer>) returns (status: Status)
      requires Valid() && (numElements < n || complete) && n <= |answers|
      modifies this, props, handles, instances, msgIds, set i | 0 <= i < props.Length && props[i] != null :: props[i]
      ensures Valid() && callers == old(callers) && n <= numElements
      ensures status == Success <==> old(CanMakeReady(n, hasMemory, answers))
      ensures complete <==> n <= old(numElements) || hasMemory
      ensures status == Success ==> Populated(n)
      ensures n <= old(numElements) ==>
                && numElements == old(numElements) && released == old(released)
                && (forall i :: 0 <= i < numElements && i < |old(props[..])| && old(props[..])[i] != null ==> props[i] == old(props[..])[i])
      ensures n > old(numElements) ==> numElements == n && released == old(created) - old(callers)
      ensures props == old(props) || fresh(props)
      ensures handles == old(handles) || fresh(handles)
      ensures instances == old(instances) || fresh(instances)
      ensures msgIds == old(msgIds) || fresh(msgIds)
      ensures forall i :: 0 <= i < numElements && props[i] != null ==>
                fresh(props[i]) || (i < |old(props[..])| && props[i] == old(props[..])[i])
    {
      status := Success;
      if numElements < n {
        status := AllocateBuffer(n, hasMemory);
        if status == Failure {
          return;
        }
        assert forall i :: 0 <= i < n ==> props[..][i] == null;
      }
      status := Populate(n, answers);
    }

    /** The client delivers messages, and their handles go to the caller. */
    method Deliver(n: nat, messages: seq<Message>) returns (out: seq<MsgProps>)
      requires Valid() && Populated(n) && |messages| <= n
      modifies this`callers, props, instances, msgIds, set i | 0 <= i < props.Length && props[i] != null :: props[i]
      ensures Valid() && |out| == |messages| && callers == old(callers) + Elements(out)
      ensures forall i :: 0 <= i < |out| ==>
                Carries(kind, out[i].payload, messages[i].payload) && out[i].msgIdRaw == messages[i].id
      ensures forall i :: 0 <= i < |out| ==> out[i] == old(props[i]) && out[i] !in old(callers) && props[i] == null
      ensures forall i :: |out| <= i < props.Length ==> props[i] == old(props[i])
    {
      ghost var filled := props[..];
      Receive(messages);
      out := Transfer(|messages|);
    }

    /** Dequeues up to `n` messages. The handles of the messages that were delivered go to the
        caller; all others stay in the buffer to be used again. The recorded size of the buffer must not
        be left from a failure to make it larger. */
    method Deq(n: nat, hasMemory: bool, answers: seq<SlotAnswer>, answer: Dequeued) returns (status: Status, out: seq<MsgProps>)
      requires Valid() && (numElements < n || complete)
      requires n <= |answers| && (answer.Delivered? ==> |answer.messages| <= n)
      modifies this, props, handles, instances, msgIds, set i | 0 <= i < props.Length && props[i] != null :: props[i]
      ensures Valid()
      ensures status == Success <==> answer.Delivered? && old(CanMakeReady(n, hasMemory, answers))
      ensures complete <==> n <= old(numElements) || hasMemory
      ensures status == Failure ==> out == [] && callers == old(callers)
      ensures status == Success ==>
                && |out| == |answer.messages|
                && (forall i :: 0 <= i < |out| ==>
                      Carries(kind, out[i].payload, answer.messages[i].payload) && out[i].msgIdRaw == answer.messages[i].id)
                && (kind == RawQueue ==> forall i :: 0 <= i < |out| ==> out[i].payload.raw == answer.messages[i].payload)
                && (kind == JsonQueue ==> forall i :: 0 <= i < |out| ==> out[i].payload.json == Some(answer.messages[i].payload))
                && (forall i :: 0 <= i < |out| ==> out[i] !in old(callers))
                && DistinctSlots(out)
                && callers == old(callers) + Elements(out)
                && n <= numElements == props.Length
                && (forall i :: 0 <= i < |out| ==> props[i] == null)
                && (forall i :: |out| <= i < n ==> props[i] != null)
      ensures n <= old(numElements) ==>
                && numElements == old(numElements) && released == old(released)
                && (forall i :: 0 <= i < |out| && i < |old(props[..])| && old(props[..])[i] != null ==> out[i] == old(props[..])[i])
                && (forall i :: |out| <= i < numElements && i < |old(props[..])| && old(props[..])[i] != null ==> props[i] == old(props[..])[i])
      ensures n > old(numElements) ==> numElements == n && released == old(created) - old(callers)
    {
      out := [];
      status := MakeReady(n, hasMemory, answers);
      if status == Failure {
        return;
      }
      if answer == Failed {
        return Failure, out;
      }
      ghost var filled := props[..];
      assert DistinctSlots(filled);
      out := Deliver(n, answer.messages);
      assert forall i :: 0 <= i < |out| ==> out[i] == filled[i];
    }

    /** Sets up the arrays for the client from the properties of a caller. The first payload that does not
        suit the queue is refused. */
    method Describe(ps: seq<MsgProps>) returns (error: Option<PayloadError>)
      requires |ps| <= numElements == handles.Length == instances.Length == msgIds.Length && instances != msgIds
      modifies handles, instances, msgIds
      ensures error == None <==> forall i :: 0 <= i < |ps| ==> PayloadCheck(kind, ps[i].payload) == None
      ensures error.Some? ==> exists k :: 0 <= k < |ps| && PayloadCheck(kind, ps[k].payload) == error
                                          && forall i :: 0 <= i < k ==> PayloadCheck(kind, ps[i].payload) == None
      ensures error == None ==> forall i :: 0 <= i < |ps| ==>
                handles[i] == ps[i].handle && instances[i] == SentInstance(kind, ps[i].payload) && msgIds[i] == ps[i].msgIdRaw
      ensures error == None && kind == RawQueue ==> forall i :: 0 <= i < |ps| ==>
                instances[i] == if ps[i].payload.json == None then ps[i].payload.raw else ps[i].payload.json.value
      ensures error == None && kind.ObjectQueue? ==> forall i :: 0 <= i < |ps| ==>
                ps[i].payload.obj.Some? && instances[i] == ps[i].payload.obj.value.instance
      ensures error == None && kind == JsonQueue ==> forall i :: 0 <= i < |ps| ==> ps[i].payload.json == Some(instances[i])
    {
      for i := 0 to |ps|
        invariant forall j :: 0 <= j < i ==>
                    && PayloadCheck(kind, ps[j].payload) == None
                    && handles[j] == ps[j].handle && instances[j] == SentInstance(kind, ps[j].payload)
                    && msgIds[j] == ps[j].msgIdRaw
      {
        error := PayloadCheck(kind, ps[i].payload);
        if error.Some? {
          return;
        }
        handles[i] := ps[i].handle;
        instances[i] := SentInstance(kind, ps[i].payload);
        msgIds[i] := ps[i].msgIdRaw;
      }
      error := None;
    }

    /** Hands the message ids back to the properties of the caller. */
    method ReturnIds(ps: seq<MsgProps>)
      requires |ps| <= msgIds.Length
      modifies ps
      ensures forall p :: p in ps ==> p.payload == old(p.payload) && p.handle == old(p.handle)
      ensures forall i :: 0 <= i < |ps| && LastAmong(ps, i, |ps|) ==> ps[i].msgIdRaw == msgIds[i]
    {
      for i := 0 to |ps|
        invariant forall p :: p in ps ==> p.payload == old(p.payload) && p.handle == old(p.handle)
        invariant forall j :: 0 <= j < i && LastAmong(ps, j, i) ==> ps[j].msgIdRaw == msgIds[j]
      {
        LastBefore(ps, i);
        ps[i].msgIdRaw := msgIds[i];
      }
    }

    /** The client writes the ids that it assigns. */
    method AssignIds(ids: seq<Pointer>)
      requires |ids| <= msgIds.Length
      modifies msgIds
      ensures forall i :: 0 <= i < |ids| ==> msgIds[i] == ids[i]
    {
      forall i | 0 <= i < |ids| {
        msgIds[i] := ids[i];
      }
    }

    /** Enqueues the properties of a caller; `answer` are the message ids that the client assigns,
        if it accepts the messages. The caller keeps its handles. */
    method Enq(ps: seq<MsgProps>, hasMemory: bool, answer: Option<seq<Pointer>>)
      returns (status: Status, error: Option<PayloadError>)
      requires Valid() && (numElements < |ps| || complete || ps == []) && (answer.Some? ==> |answer.value| == |ps|)
      modifies this, props, handles, instances, msgIds, ps
      ensures Valid() && created == old(created) && callers == old(callers)
      ensures status == Success <==>
                ps == [] || ((|ps| <= old(numElements) || hasMemory) && answer.Some? && forall i :: 0 <= i < |ps| ==> PayloadCheck(kind, old(ps[i].payload)) == None)
      ensures ps != [] && (|ps| <= old(numElements) || hasMemory) ==>
                (error == None <==> forall i :: 0 <= i < |ps| ==> PayloadCheck(kind, old(ps[i].payload)) == None)
      ensures error.Some? ==> exists k :: 0 <= k < |ps| && PayloadCheck(kind, old(ps[k].payload)) == error
                                          && forall i :: 0 <= i < k ==> PayloadCheck(kind, old(ps[i].payload)) == None
      ensures if |ps| <= old(numElements) then
                props == old(props) && handles == old(handles) && instances == old(instances) && msgIds == old(msgIds)
              else
                && fresh(props) && fresh(handles) && fresh(instances) && fresh(msgIds)
                && forall i :: 0 <= i < props.Length ==> props[i] == null
      ensures |ps| <= old(numElements) ==> complete == old(complete) && props[..] == old(props[..]) && released == old(released)
      ensures |ps| > old(numElements) ==> numElements == |ps| && complete == hasMemory && released == old(created) - old(callers)
      ensures forall p :: p in ps ==> p.payload == old(p.payload) && p.handle == old(p.handle)
      ensures status == Failure ==> forall p :: p in ps ==> p.msgIdRaw == old(p.msgIdRaw)
      ensures status == Success && ps != [] ==>
                forall i :: 0 <= i < |ps| && LastAmong(ps, i, |ps|) ==> ps[i].msgIdRaw == answer.value[i]
      ensures status == Success && ps != [] ==>
                && complete && |ps| <= numElements == instances.Length == handles.Length == msgIds.Length
                && forall i :: 0 <= i < |ps| ==>
                     && handles[i] == old(ps[i].handle) && msgIds[i] == answer.value[i]
                     && instances[i] == SentInstance(kind, old(ps[i].payload))
    {
      error := None;
      if |ps| == 0 {
        return Success, error;
      }
      if numElements < |ps| {
        status := AllocateBuffer(|ps|, hasMemory);
        if status == Failure {
          return;
        }
      }
      error := Describe(ps);
      if error.Some? || answer == None {
        return Failure, error;
      }
      status := Success;
      AssignIds(answer.value);
      ReturnIds(ps);
    }
  }

  /** Messages are put into a queue of raw bytes or JSON values, and the client then delivers what it was
      handed, under the ids that it assigned: they come out with the payloads that went in. */
  method EnqueueAndDequeue(queue: Queue, ps: seq<MsgProps>, ids: seq<Pointer>, hasMemory: bool, answers: seq<SlotAnswer>)
    returns (status: Status, out: seq<MsgProps>)
    requires queue.Valid() && (queue.numElements < |ps| || queue.complete)
    requires !queue.kind.ObjectQueue? && |ids| == |ps| <= |answers| && ps != []
    requires forall p :: p in ps ==> queue.kind == RawQueue ==> p.payload.json == None
    modifies queue, queue.props, queue.handles, queue.instances, queue.msgIds, ps
    modifies set i | 0 <= i < queue.props.Length && queue.props[i] != null :: queue.props[i]
    ensures queue.Valid()
    ensures status == Success ==> |out| == |ps| && forall i :: 0 <= i < |ps| ==>
              && out[i].msgIdRaw == ids[i]
              && (queue.kind == RawQueue ==> out[i].payload.raw == old(ps[i].payload.raw))
              && (queue.kind == JsonQueue ==> out[i].payload.json == old(ps[i].payload.json))
  {
    out := [];
    var error;
    status, error := queue.Enq(ps, hasMemory, Some(ids));
    if status == Failure {
      return;
    }
    var messages := seq(|ps|, i requires 0 <= i < |ps| reads queue, queue.instances, queue.msgIds
                              requires i < queue.instances.Length && i < queue.msgIds.Length
                              => Message(queue.instances[i], queue.msgIds[i]));
    status, out := queue.Deq(|ps|, hasMemory, answers, Delivered(messages));
  }
}
