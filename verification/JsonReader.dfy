/** Reading a document into native nodes in batches, and freeing the nodes again, also when the
    reading stopped half-way (support/dpiJson.c). */
module JsonReader {
  import opened Allocation
  import opened Common
  import opened JsonTree

  const BATCH_NODES := 64

  /** A pointer in the memory of a node: not written since the memory was handed to the reader, null
      because the allocation was refused, or to a block. */
  datatype Pointer = Untouched | Refused | To(block: Block)

  function Owned(p: Pointer): multiset<Block> {
    if p.To? then multiset{p.block} else multiset{}
  }

  function Pair(a: Pointer, b: Pointer): multiset<Block> {
    Owned(a) + Owned(b)
  }

  // --------------------------------------------------------------------------------------
  // Nodes in memory
  // --------------------------------------------------------------------------------------

  /** A node as it lies in memory, with the blocks that hang from it. Memory is zeroed when it is
      allocated, and a node in zeroed memory has no value pointer. The arrays of an object are its
      field names, their lengths, the fields and their values. */
  datatype MemNode =
    | Zeroed
    | MemScalar(oracleType: OracleType, value: Value)
    | MemArray(elements: Pointer, elementValues: Pointer, children: seq<MemNode>)
    | MemObject(
        fieldNames: Pointer, fieldNameLengths: Pointer, fields: Pointer, fieldValues: Pointer,
        names: seq<Bytes>, children: seq<MemNode>)

  /** The blocks of a tree. */
  function Blocks(node: MemNode): multiset<Block>
    decreases node, 1
  {
    match node
    case Zeroed => multiset{}
    case MemScalar(_, _) => multiset{}
    case MemArray(elements, elementValues, children) =>
      (if elements.To? then BlocksFrom(children, 0) else multiset{}) + Pair(elements, elementValues)
    case MemObject(fieldNames, fieldNameLengths, fields, fieldValues, _, children) =>
      (if fields.To? then BlocksFrom(children, 0) else multiset{})
      + (Pair(fields, fieldNames) + Pair(fieldNameLengths, fieldValues))
  }

  /** The blocks of the nodes of an array from position `i` on. */
  function BlocksFrom(nodes: seq<MemNode>, i: nat): multiset<Block>
    requires i <= |nodes|
    decreases nodes, 0, |nodes| - i
  {
    if i == |nodes| then multiset{} else Blocks(nodes[i]) + BlocksFrom(nodes, i + 1)
  }

  function AllBlocks(nodes: seq<MemNode>): multiset<Block> {
    BlocksFrom(nodes, 0)
  }

  /** The value that a tree in memory stands for. */
  function Content(node: MemNode): Node
    decreases node, 1
  {
    match node
    case Zeroed => Scalar(TypeNone, NullValue)
    case MemScalar(kind, v) => Scalar(kind, v)
    case MemArray(_, _, children) => Array(Contents(children))
    case MemObject(_, _, _, _, names, children) => Object(NamedContents(names, children))
  }

  function Contents(nodes: seq<MemNode>): seq<Node>
    decreases nodes, 0
  {
    if nodes == [] then [] else [Content(nodes[0])] + Contents(nodes[1..])
  }

  function NamedContents(names: seq<Bytes>, nodes: seq<MemNode>): seq<NodeField>
    decreases nodes, 0
  {
    if nodes == [] || names == [] then []
    else [NodeField(names[0], Content(nodes[0]))] + NamedContents(names[1..], nodes[1..])
  }

  /** Array memory as it is allocated, or nothing when there is no array. */
  function ZeroedNodes(n: nat): (nodes: seq<MemNode>)
    ensures |nodes| == n
  {
    seq(n, _ => Zeroed)
  }

  lemma {:induction false} ZeroedHoldNothing(n: nat, i: nat)
    requires i <= n
    ensures BlocksFrom(ZeroedNodes(n), i) == multiset{}
    decreases n - i
  {
    if i < n {
      ZeroedHoldNothing(n, i + 1);
    }
  }

  /** The memory that an array pointer names. */
  function Space(p: Pointer, n: nat): seq<MemNode> {
    if p.To? then ZeroedNodes(n) else []
  }

  lemma SpaceHoldsNothing(p: Pointer, n: nat)
    ensures AllBlocks(Space(p, n)) == multiset{}
  {
    ZeroedHoldNothing(n, 0);
  }

  lemma {:induction false} BlocksSame(nodes: seq<MemNode>, k: nat, node: MemNode, i: nat)
    requires k < i <= |nodes|
    ensures BlocksFrom(nodes[k := node], i) == BlocksFrom(nodes, i)
    decreases |nodes| - i
  {
    if i < |nodes| {
      BlocksSame(nodes, k, node, i + 1);
    }
  }

  lemma BlocksHere(nodes: seq<MemNode>, k: nat, node: MemNode)
    requires k < |nodes| && nodes[k] == Zeroed
    ensures BlocksFrom(nodes[k := node], k) == BlocksFrom(nodes, k) + Blocks(node)
  {
    BlocksSame(nodes, k, node, k + 1);
    NothingAdded(Blocks(node), BlocksFrom(nodes, k + 1));
  }

  /** Filling a node adds what hangs from it. */
  lemma {:induction false} BlocksUpdate(nodes: seq<MemNode>, k: nat, node: MemNode, i: nat)
    requires i <= k < |nodes| && nodes[k] == Zeroed
    ensures BlocksFrom(nodes[k := node], i) == BlocksFrom(nodes, i) + Blocks(node)
    decreases k - i
  {
    if i == k {
      BlocksHere(nodes, k, node);
    } else {
      BlocksUpdate(nodes, k, node, i + 1);
      AddOn(Blocks(nodes[i]), BlocksFrom(nodes, i + 1), Blocks(node));
    }
  }

  // Multisets of blocks.

  lemma NothingAdded(a: multiset<Block>, b: multiset<Block>)
    ensures a + b == multiset{} + b + a
  {
  }

  function Arrays(node: MemNode): multiset<Block> {
    match node
    case Zeroed => multiset{}
    case MemScalar(_, _) => multiset{}
    case MemArray(elements, elementValues, _) => Pair(elements, elementValues)
    case MemObject(fieldNames, fieldNameLengths, fields, fieldValues, _, _) =>
      Pair(fields, fieldNames) + Pair(fieldNameLengths, fieldValues)
  }

  lemma UnfilledBlocks(base: multiset<Block>, node: MemNode)
    requires node.MemArray? || node.MemObject?
    requires AllBlocks(node.children) == multiset{}
    ensures base + Arrays(node) == base + Blocks(node)
  {
    Unfilled(base, Arrays(node));
  }

  /** The node after its children have been filled in. */
  function WithChildren(node: MemNode, names: seq<Bytes>, children: seq<MemNode>): MemNode {
    match node
    case MemArray(elements, elementValues, _) => MemArray(elements, elementValues, children)
    case MemObject(fieldNames, fieldNameLengths, fields, fieldValues, _, _) =>
      MemObject(fieldNames, fieldNameLengths, fields, fieldValues, names, children)
    case _ => node
  }

  lemma FilledArray(base: multiset<Block>, node: MemNode, children: seq<MemNode>)
    requires node.MemArray? && node.elements.To?
    ensures base + Arrays(node) + AllBlocks(children) == base + Blocks(WithChildren(node, [], children))
  {
    AddAround(base, Arrays(node), AllBlocks(children));
  }

  lemma FilledObject(base: multiset<Block>, node: MemNode, names: seq<Bytes>, children: seq<MemNode>)
    requires node.MemObject? && node.fields.To?
    ensures base + Arrays(node) + AllBlocks(children) == base + Blocks(WithChildren(node, names, children))
  {
    AddAround(base, Arrays(node), AllBlocks(children));
  }

  lemma Unfilled(base: multiset<Block>, a: multiset<Block>)
    ensures base + a == base + (multiset{} + a)
  {
  }

  lemma Exchange(a: Pointer, b: Pointer, c: Pointer, d: Pointer)
    ensures Pair(a, b) + Pair(c, d) == Pair(c, a) + Pair(b, d)
  {
  }

  lemma InFreeingOrder(base: multiset<Block>, a: Pointer, b: Pointer, c: Pointer, d: Pointer)
    ensures base + Pair(a, b) + Pair(c, d) == base + (Pair(c, a) + Pair(b, d))
  {
    AddOn(base, Pair(a, b), Pair(c, d));
    Exchange(a, b, c, d);
  }

  // --------------------------------------------------------------------------------------
  // Freeing
  // --------------------------------------------------------------------------------------

  method FreeIfSet(memory: Memory, p: Pointer, ghost rest: multiset<Block>)
    requires memory.live == rest + Owned(p)
    modifies memory`live
    ensures memory.live == rest
  {
    if p.To? {
      assert p.block in Owned(p);
      memory.Free(p.block);
    }
  }

  method FreePair(memory: Memory, a: Pointer, b: Pointer, ghost rest: multiset<Block>)
    requires memory.live == rest + Pair(a, b)
    modifies memory`live
    ensures memory.live == rest
  {
    AddAround(rest, Owned(b), Owned(a));
    FreeIfSet(memory, a, rest + Owned(b));
    FreeIfSet(memory, b, rest);
  }

  /** Frees the nodes of an array; those without a value pointer were never filled. */
  method FreeChildren(memory: Memory, children: seq<MemNode>, ghost rest: multiset<Block>)
    requires memory.live == rest + AllBlocks(children)
    modifies memory`live
    ensures memory.live == rest
    decreases children, 0
  {
    for i := 0 to |children|
      invariant memory.live == rest + BlocksFrom(children, i)
    {
      AddAround(rest, BlocksFrom(children, i + 1), Blocks(children[i]));
      if children[i] != Zeroed {
        FreeNode(memory, children[i], rest + BlocksFrom(children, i + 1));
      }
    }
  }

  /** Frees what hangs from a node: every block once, and nothing else. */
  method FreeNode(memory: Memory, node: MemNode, ghost rest: multiset<Block>)
    requires memory.live == rest + Blocks(node)
    modifies memory`live
    ensures memory.live == rest
    decreases node, 1
  {
    match node
    case Zeroed =>
    case MemScalar(_, _) =>
    case MemArray(elements, elementValues, children) =>
      if elements.To? {
        AddAround(rest, Pair(elements, elementValues), AllBlocks(children));
        FreeChildren(memory, children, rest + Pair(elements, elementValues));
      }
      FreePair(memory, elements, elementValues, rest);
    case MemObject(_, _, _, _, _, _) => FreeObject(memory, node, rest);
  }

  method FreeObject(memory: Memory, node: MemNode, ghost rest: multiset<Block>)
    requires node.MemObject? && memory.live == rest + Blocks(node)
    modifies memory`live
    ensures memory.live == rest
    decreases node, 0
  {
    ghost var lastTwo := Pair(node.fieldNameLengths, node.fieldValues);
    ghost var arrays := Pair(node.fields, node.fieldNames) + lastTwo;
    if node.fields.To? {
      AddAround(rest, arrays, AllBlocks(node.children));
      FreeChildren(memory, node.children, rest + arrays);
    }
    assert memory.live == rest + arrays;
    AddAround(rest, lastTwo, Pair(node.fields, node.fieldNames));
    FreePair(memory, node.fields, node.fieldNames, rest + lastTwo);
    FreePair(memory, node.fieldNameLengths, node.fieldValues, rest);
  }

  // --------------------------------------------------------------------------------------
  // Reading
  // --------------------------------------------------------------------------------------

  /** The first `k` items have been read. */
  ghost predicate ReadUpTo(env: Env, items: seq<Dom>, children: seq<MemNode>, k: nat) {
    && |children| == |items| && k <= |items|
    && (forall j :: 0 <= j < k ==> ReadNode(env, items[j]) == Some(Content(children[j])))
    && (forall j :: k <= j < |children| ==> children[j] == Zeroed)
  }

  lemma {:induction false} ReadAll(env: Env, items: seq<Dom>, children: seq<MemNode>)
    requires ReadUpTo(env, items, children, |items|)
    ensures ReadItems(env, items) == Some(Contents(children))
  {
    if items != [] {
      assert ReadNode(env, items[0]) == Some(Content(children[0]));
      forall j | 0 <= j < |items| - 1
        ensures ReadNode(env, items[1..][j]) == Some(Content(children[1..][j]))
      {
        assert ReadNode(env, items[j + 1]) == Some(Content(children[j + 1]));
      }
      ReadAll(env, items[1..], children[1..]);
    }
  }

  lemma {:induction false} ReadNone(env: Env, items: seq<Dom>, k: nat)
    requires k < |items| && ReadNode(env, items[k]) == None
    ensures ReadItems(env, items) == None
  {
    if k > 0 {
      ReadNone(env, items[1..], k - 1);
    }
  }

  function Names(members: seq<DomField>): seq<Bytes> {
    seq(|members|, i requires 0 <= i < |members| => members[i].name)
  }

  function Doms(members: seq<DomField>): seq<Dom> {
    seq(|members|, i requires 0 <= i < |members| => members[i].dom)
  }

  /** Members are read as their values are, and keep their names. */
  lemma {:induction false} MembersAsItems(env: Env, members: seq<DomField>)
    ensures ReadMembers(env, members).Some? <==> ReadItems(env, Doms(members)).Some?
  {
    if members != [] {
      assert Doms(members)[1..] == Doms(members[1..]) && Doms(members)[0] == members[0].dom;
      MembersAsItems(env, members[1..]);
    }
  }

  lemma {:induction false} MembersKeepNames(env: Env, members: seq<DomField>, children: seq<MemNode>)
    requires |children| == |members|
    requires ReadItems(env, Doms(members)) == Some(Contents(children))
    ensures ReadMembers(env, members) == Some(NamedContents(Names(members), children))
  {
    if members != [] {
      assert Doms(members)[1..] == Doms(members[1..]) && Doms(members)[0] == members[0].dom;
      assert Names(members)[1..] == Names(members[1..]) && Names(members)[0] == members[0].name;
      var n, ns := ReadNode(env, members[0].dom).value, ReadItems(env, Doms(members[1..])).value;
      assert [n] + ns == [Content(children[0])] + Contents(children[1..]);
      assert ns == ([n] + ns)[1..] == Contents(children[1..]);
      assert n == ([n] + ns)[0] == Content(children[0]);
      MembersKeepNames(env, members[1..], children[1..]);
    }
  }

  /** What reading promises: it goes well exactly if the plain conversion does and no allocation was
      refused, and then the tree is what that conversion gives. */
  ghost predicate Outcome(read: Option<Node>, status: Status, node: MemNode, refused: bool) {
    && (status == Success <==> read.Some? && !refused)
    && (status == Success ==> read == Some(Content(node)))
  }

  /** Which pointers the reader writes: none of an empty container; otherwise the first, and each
      further one only after the one before it could be allocated. */
  predicate Shaped(dom: Dom, node: MemNode) {
    match dom
    case DomArray(items) =>
      && node.MemArray?
      && (if items == [] then node.elements == node.elementValues == Untouched
          else node.elements != Untouched && (node.elementValues == Untouched <==> node.elements == Refused))
    case DomObject(members) =>
      && node.MemObject?
      && (if members == [] then node.fieldNames == node.fieldNameLengths == node.fields == node.fieldValues == Untouched
          else node.fieldNames != Untouched && (node.fieldNameLengths == Untouched <==> node.fieldNames == Refused))
    case _ => node.MemScalar?
  }

  /** The client delivers up to sixty-four elements from a position on. */
  method GetBatch(items: seq<Dom>, pos: nat) returns (batch: seq<Dom>)
    requires pos < |items|
    ensures 0 < |batch| <= 64 && pos + |batch| <= |items| && batch == items[pos..pos + |batch|]
    ensures |batch| == 64 || pos + |batch| == |items|
  {
    var n := if |items| - pos < BATCH_NODES then |items| - pos else BATCH_NODES;
    batch := items[pos..pos + n];
  }

  /** Reads one element into its place in the array. */
  method ReadElement(
    memory: Memory, env: Env, ghost parent: Dom, ghost base: multiset<Block>, items: seq<Dom>, k: nat, before: seq<MemNode>)
    returns (status: Status, children: seq<MemNode>)
    requires ReadUpTo(env, items, before, k) && k < |items|
    requires items[k] < parent
    requires memory.live == base + AllBlocks(before)
    modifies memory
    ensures memory.live == base + AllBlocks(children) && |children| == |items|
    ensures status == Success ==> ReadUpTo(env, items, children, k + 1) && memory.refusals == old(memory.refusals)
    ensures memory.refusals >= old(memory.refusals)
    ensures status == Failure ==> memory.refusals > old(memory.refusals) || ReadItems(env, items) == None
    decreases parent, 0
  {
    var child;
    status, child := FromOracle(memory, env, items[k]);
    children := before[k := child];
    BlocksUpdate(before, k, child, 0);
    AddOn(base, AllBlocks(before), Blocks(child));
    if status == Failure && ReadNode(env, items[k]) == None {
      ReadNone(env, items, k);
    }
  }

  /** Reads one batch into the array. */
  method ReadBatch(
    memory: Memory, env: Env, ghost parent: Dom, ghost base: multiset<Block>, items: seq<Dom>, pos: nat, batch: seq<Dom>,
    before: seq<MemNode>)
    returns (status: Status, children: seq<MemNode>)
    requires ReadUpTo(env, items, before, pos)
    requires pos + |batch| <= |items| && batch == items[pos..pos + |batch|]
    requires forall j :: 0 <= j < |items| ==> items[j] < parent
    requires memory.live == base + AllBlocks(before)
    modifies memory
    ensures memory.live == base + AllBlocks(children) && |children| == |items|
    ensures status == Success ==> ReadUpTo(env, items, children, pos + |batch|) && memory.refusals == old(memory.refusals)
    ensures memory.refusals >= old(memory.refusals)
    ensures status == Failure ==> memory.refusals > old(memory.refusals) || ReadItems(env, items) == None
    decreases parent, 1
  {
    children, status := before, Success;
    for i := 0 to |batch|
      invariant memory.live == base + AllBlocks(children)
      invariant ReadUpTo(env, items, children, pos + i) && status == Success && memory.refusals == old(memory.refusals)
    {
      status, children := ReadElement(memory, env, parent, base, items, pos + i, children);
      if status == Failure {
        return;
      }
    }
  }

  /** Reads all elements of an array, batch by batch. */
  method ReadElements(memory: Memory, env: Env, ghost parent: Dom, items: seq<Dom>)
    returns (status: Status, children: seq<MemNode>)
    requires forall j :: 0 <= j < |items| ==> items[j] < parent
    modifies memory
    ensures memory.live == old(memory.live) + AllBlocks(children) && |children| == |items|
    ensures status == Success ==> ReadItems(env, items) == Some(Contents(children)) && memory.refusals == old(memory.refusals)
    ensures memory.refusals >= old(memory.refusals)
    ensures status == Failure ==> memory.refusals > old(memory.refusals) || ReadItems(env, items) == None
    decreases parent, 2
  {
    children, status := ZeroedNodes(|items|), Success;
    ZeroedHoldNothing(|items|, 0);
    var pos := 0;
    while pos < |items|
      invariant memory.live == old(memory.live) + AllBlocks(children) && |children| == |items|
      invariant ReadUpTo(env, items, children, pos) && status == Success && memory.refusals == old(memory.refusals)
    {
      var batch := GetBatch(items, pos);
      status, children := ReadBatch(memory, env, parent, old(memory.live), items, pos, batch, children);
      if status == Failure {
        return;
      }
      pos := pos + |batch|;
    }
    ReadAll(env, items, children);
  }

  /** Allocates two blocks, the second only after the first. */
  method AllocatePointer(memory: Memory) returns (p: Pointer)
    modifies memory
    ensures p != Untouched && memory.live == old(memory.live) + Owned(p)
    ensures memory.refusals == old(memory.refusals) + if p.To? then 0 else 1
  {
    var block := memory.Allocate();
    p := if block.Some? then To(block.value) else Refused;
  }

  method AllocatePair(memory: Memory) returns (first: Pointer, second: Pointer)
    modifies memory
    ensures memory.live == old(memory.live) + Pair(first, second)
    ensures first != Untouched && (second == Untouched <==> first == Refused)
    ensures memory.refusals == old(memory.refusals) + if second.To? then 0 else 1
  {
    second := Untouched;
    first := AllocatePointer(memory);
    if first.To? {
      second := AllocatePointer(memory);
      AddOn(old(memory.live), Owned(first), Owned(second));
    }
  }

  /** Allocates the two arrays of an array node, or as many as there is memory for. */
  method AllocateArray(memory: Memory, n: nat) returns (ok: bool, node: MemNode)
    modifies memory
    ensures node.MemArray? && memory.live == old(memory.live) + Arrays(node)
    ensures AllBlocks(node.children) == multiset{}
    ensures ok ==> node.elements.To?
    ensures memory.refusals == old(memory.refusals) + if ok then 0 else 1
    ensures node.elements != Untouched && (node.elementValues == Untouched <==> node.elements == Refused)
  {
    var elements, elementValues := AllocatePair(memory);
    node := MemArray(elements, elementValues, Space(elements, n));
    ok := elementValues.To?;
    SpaceHoldsNothing(elements, n);
  }

  /** Reads an array node. */
  method FromOracleArray(memory: Memory, env: Env, dom: Dom) returns (status: Status, node: MemNode)
    requires dom.DomArray?
    modifies memory
    ensures memory.live == old(memory.live) + Blocks(node) && memory.refusals >= old(memory.refusals)
    ensures Outcome(ReadNode(env, dom), status, node, memory.refusals > old(memory.refusals)) && Shaped(dom, node)
    decreases dom, 3
  {
    if |dom.items| == 0 {
      return Success, MemArray(Untouched, Untouched, []);
    }
    var ok, children;
    ok, node := AllocateArray(memory, |dom.items|);
    if !ok {
      UnfilledBlocks(old(memory.live), node);
      return Failure, node;
    }
    status, children := ReadElements(memory, env, dom, dom.items);
    FilledArray(old(memory.live), node, children);
    node := WithChildren(node, [], children);
  }

  /** Allocates four blocks, each only after those before it. */
  method AllocateFour(memory: Memory) returns (a: Pointer, b: Pointer, c: Pointer, d: Pointer)
    modifies memory
    ensures memory.live == old(memory.live) + (Pair(c, a) + Pair(b, d))
    ensures a != Untouched && (b == Untouched <==> a == Refused)
    ensures d.To? ==> c.To?
    ensures memory.refusals == old(memory.refusals) + if d.To? then 0 else 1
  {
    c, d := Untouched, Untouched;
    a, b := AllocatePair(memory);
    if b.To? {
      c, d := AllocatePair(memory);
    } else {
      assert Pair(c, d) == multiset{};
    }
    InFreeingOrder(old(memory.live), a, b, c, d);
  }

  /** Allocates the four arrays of an object, or as many as there is memory for. */
  method AllocateObject(memory: Memory, n: nat) returns (ok: bool, node: MemNode)
    modifies memory
    ensures node.MemObject? && memory.live == old(memory.live) + Arrays(node)
    ensures AllBlocks(node.children) == multiset{}
    ensures ok ==> node.fields.To?
    ensures memory.refusals == old(memory.refusals) + if ok then 0 else 1
    ensures node.fieldNames != Untouched && (node.fieldNameLengths == Untouched <==> node.fieldNames == Refused)
  {
    var fieldNames, fieldNameLengths, fields, fieldValues := AllocateFour(memory);
    node := MemObject(fieldNames, fieldNameLengths, fields, fieldValues, [], Space(fields, n));
    ok := fieldValues.To?;
    SpaceHoldsNothing(fields, n);
    assert Arrays(node) == Pair(fields, fieldNames) + Pair(fieldNameLengths, fieldValues);
  }

  /** Reads the values of the fields of an object, batch by batch. */
  method ReadFields(memory: Memory, env: Env, dom: Dom)
    returns (status: Status, children: seq<MemNode>)
    requires dom.DomObject?
    modifies memory
    ensures memory.live == old(memory.live) + AllBlocks(children)
    ensures memory.refusals >= old(memory.refusals)
    ensures status == Success ==>
              && ReadMembers(env, dom.members) == Some(NamedContents(Names(dom.members), children))
              && memory.refusals == old(memory.refusals)
    ensures status == Failure ==> memory.refusals > old(memory.refusals) || ReadMembers(env, dom.members) == None
    decreases dom, 3
  {
    status, children := ReadElements(memory, env, dom, Doms(dom.members));
    MembersAsItems(env, dom.members);
    if status == Success {
      MembersKeepNames(env, dom.members, children);
    }
  }

  /** Reads an object node. */
  method FromOracleObject(memory: Memory, env: Env, dom: Dom) returns (status: Status, node: MemNode)
    requires dom.DomObject?
    modifies memory
    ensures memory.live == old(memory.live) + Blocks(node) && memory.refusals >= old(memory.refusals)
    ensures Outcome(ReadNode(env, dom), status, node, memory.refusals > old(memory.refusals)) && Shaped(dom, node)
    decreases dom, 4
  {
    if |dom.members| == 0 {
      return Success, MemObject(Untouched, Untouched, Untouched, Untouched, [], []);
    }
    var ok, children;
    ok, node := AllocateObject(memory, |dom.members|);
    if !ok {
      UnfilledBlocks(old(memory.live), node);
      return Failure, node;
    }
    status, children := ReadFields(memory, env, dom);
    FilledObject(old(memory.live), node, Names(dom.members), children);
    node := WithChildren(node, Names(dom.members), children);
  }

  /** Reads a node of the document. */
  method FromOracle(memory: Memory, env: Env, dom: Dom) returns (status: Status, node: MemNode)
    modifies memory
    ensures memory.live == old(memory.live) + Blocks(node) && memory.refusals >= old(memory.refusals)
    ensures Outcome(ReadNode(env, dom), status, node, memory.refusals > old(memory.refusals)) && Shaped(dom, node)
    decreases dom, 5
  {
    match dom
    case DomArray(_) => status, node := FromOracleArray(memory, env, dom);
    case DomObject(_) => status, node := FromOracleObject(memory, env, dom);
    case DomScalar(v) =>
      match ReadScalar(env, v) {
        case None => status, node := Failure, MemScalar(TypeNone, NullValue);
        case Some(n) => status, node := Success, MemScalar(n.oracleType, n.value);
      }
    case DomOther => status, node := Failure, MemScalar(TypeNone, NullValue);
  }

  // --------------------------------------------------------------------------------------
  // The memory of the top value
  // --------------------------------------------------------------------------------------

  /** Eight bytes of memory, as two halves of four. */
  datatype Word = Word(low: nat, high: nat)

  const NULL_WORD := Word(0, 0)
  const HALF := 0x1_0000_0000

  /** The memory of the top value behind its first eight bytes, where pointers have eight bytes. The
      pointers of an array lie over the first two words, those of an object over all four. */
  datatype Words = Words(first: Word, second: Word, third: Word, fourth: Word)

  const NULL_WORDS := Words(NULL_WORD, NULL_WORD, NULL_WORD, NULL_WORD)

  /** A length lies over the low half of the first word. */
  function WithLength(w: Words, length: nat): Words {
    w.(first := w.first.(low := length % HALF))
  }

  /** Fractions of a second over the low half of the first word, and the two bytes of the time zone
      behind them. */
  function WithTimestamp(w: Words, t: DateTime): Words {
    var zone := t.tzMinute % 256 * 256 + t.tzHour % 256;
    w.(first := Word(t.fsecond % HALF, w.first.high / 0x1_0000 * 0x1_0000 + zone))
  }

  /** Minutes and seconds over the first word, fractions over the low half of the second. */
  function WithDaySecond(w: Words, ds: DaySecond): Words {
    w.(first := Word(ds.minutes % HALF, ds.seconds % HALF), second := w.second.(low := ds.fseconds % HALF))
  }

  /** What reading a scalar leaves in the words. Number text starts with the room there is for it. */
  function AfterScalar(env: Env, v: DomValue, w: Words): Words {
    match v
    case DomString(b) => WithLength(w, |b|)
    case DomBinary(b) => WithLength(w, |b|)
    case DomId(b) => WithLength(w, |b|)
    case DomVector(b) => WithLength(w, |b|)
    case DomNumber(bytes) =>
      if !env.numberAsString then w
      else (match env.numberToText(bytes)
            case None => WithLength(w, TEXT_ROOM)
            case Some(t) => WithLength(w, |t|))
    case DomDate(t) => if env.dateAsDouble then w else WithTimestamp(w, t)
    case DomTimestamp(t) => if env.dateAsDouble then w else WithTimestamp(w, t)
    case DomDaySecond(ds) => WithDaySecond(w, ds)
    case _ => w
  }

  const TEXT_ROOM := 172

  /** Which scalars leave memory that an empty container takes for pointers: bytes and text whose length is not
      zero, times with a fraction or a zone, intervals with minutes, seconds or a fraction, which goes into
      the second word. What was in the parts that a scalar does not write stays. */
  lemma WordsAfter(env: Env, v: DomValue, w: Words)
    ensures AfterScalar(env, v, w).third == w.third && AfterScalar(env, v, w).fourth == w.fourth
    ensures var first := AfterScalar(env, v, w).first;
            && (v.DomString? || v.DomBinary? || v.DomId? || v.DomVector? ==>
                  first == Word(|v.bytes| % 0x1_0000_0000, w.first.high))
            && (v.DomNumber? && env.numberAsString ==>
                  var t := env.numberToText(v.number);
                  first == Word(if t.Some? then |t.value| % 0x1_0000_0000 else 172, w.first.high))
            && ((v.DomDate? || v.DomTimestamp?) && !env.dateAsDouble ==>
                  (first == Word(0, 0) <==>
                     && v.timestamp.fsecond % 0x1_0000_0000 == 0
                     && v.timestamp.tzHour % 256 == v.timestamp.tzMinute % 256 == 0 && w.first.high < 0x1_0000))
            && (v.DomDaySecond? ==> first == Word(v.ds.minutes % 0x1_0000_0000, v.ds.seconds % 0x1_0000_0000))
            && ((v.DomFloat? || v.DomDouble? || v.DomYearMonth? || v.DomTruth? || v.DomNull? || v.DomUnknown?
                 || (v.DomNumber? && !env.numberAsString)
                 || ((v.DomDate? || v.DomTimestamp?) && env.dateAsDouble)) ==> first == w.first)
    ensures var second := AfterScalar(env, v, w).second;
            if v.DomDaySecond? then second == Word(v.ds.fseconds % 0x1_0000_0000, w.second.high) else second == w.second
  {
  }

  function AfterRead(env: Env, dom: Dom, w: Words): Words {
    match dom
    case DomScalar(v) => AfterScalar(env, v, w)
    case _ => w
  }

  /** A pointer that the reader did not write, over memory that is not null: a stray pointer. */
  function Stray(p: Pointer, w: Word): nat {
    if p == Untouched && w != NULL_WORD then 1 else 0
  }

  /** How many stray pointers the top value has. */
  function Strays(node: MemNode, w: Words): nat {
    match node
    case MemArray(elements, elementValues, _) => Stray(elements, w.first) + Stray(elementValues, w.second)
    case MemObject(fieldNames, fieldNameLengths, fields, fieldValues, _, _) =>
      Stray(fieldNames, w.first) + Stray(fieldNameLengths, w.second) + Stray(fields, w.third) + Stray(fieldValues, w.fourth)
    case _ => 0
  }

  /** Freeing a container sets all of its pointers to null. */
  function AfterFree(node: MemNode, w: Words): Words {
    match node
    case MemArray(_, _, _) => w.(first := NULL_WORD, second := NULL_WORD)
    case MemObject(_, _, _, _, _, _) => NULL_WORDS
    case _ => w
  }

  /** Only objects reach the last two words, and freeing an object clears them. */
  predicate Clear(w: Words) { w.third == w.fourth == NULL_WORD }

  /** Whether a value read over the words `w` can be freed: it is no container; or the first two words
      are null; or the container is not empty, which writes the first pointer, and the first array could be
      allocated, which writes the second. */
  predicate Freeable(dom: Dom, node: MemNode, w: Words)
    requires Shaped(dom, node)
  {
    match dom
    case DomArray(items) => (items != [] || w.first == NULL_WORD) && (node.elements.To? || w.second == NULL_WORD)
    case DomObject(members) => (members != [] || w.first == NULL_WORD) && (node.fieldNames.To? || w.second == NULL_WORD)
    case _ => true
  }

  lemma FreeableExact(dom: Dom, node: MemNode, w: Words)
    requires Shaped(dom, node) && Clear(w)
    ensures Strays(node, w) == 0 <==> Freeable(dom, node, w)
  {
  }

  /** Text of any length but zero, then an empty container: the length is taken for a pointer. */
  lemma LengthBecomesPointer(env: Env, b: Bytes, w: Words, empty: MemNode)
    requires 0 < |b| < 0x1_0000_0000 && Clear(w) && w.second == NULL_WORD
    requires Shaped(DomArray([]), empty) || Shaped(DomObject([]), empty)
    ensures Strays(empty, AfterFree(MemScalar(Varchar, BytesValue(b)), AfterScalar(env, DomString(b), w))) == 1
  {
  }

  // --------------------------------------------------------------------------------------
  // The handle
  // --------------------------------------------------------------------------------------

  /** A JSON handle: it keeps the tree that the last call read, or what there is of it, in memory that
      was null when the handle was made and is not cleared between calls. */
  class Json {
    const memory: Memory
    var topNode: MemNode
    var words: Words

    constructor (memory: Memory)
      ensures this.memory == memory && Blocks(topNode) == multiset{} && topNode.MemScalar? && words == NULL_WORDS
      ensures words == Words(Word(0, 0), Word(0, 0), Word(0, 0), Word(0, 0))
    {
      this.memory := memory;
      topNode, words := MemScalar(TypeNone, NullValue), NULL_WORDS;
    }

    /** Frees the blocks of the tree; `strays` counts the pointers that are handed to the allocator
        although it never returned them. None of these is followed: an array with a stray pointer to its
        elements has none, and the fields of an object are never stray. */
    method FreeTop(ghost rest: multiset<Block>) returns (strays: nat)
      requires memory.live == rest + Blocks(topNode) && Clear(words)
      modifies this`words, memory`live
      ensures memory.live == rest
      ensures strays == Strays(topNode, old(words))
      ensures words == AfterFree(topNode, old(words)) && Clear(words)
    {
      strays := Strays(topNode, words);
      FreeNode(memory, topNode, rest);
      words := AfterFree(topNode, words);
    }

    /** Reads a document over what is left of the memory of the top value. */
    method ReadTop(env: Env, dom: Dom, ghost rest: multiset<Block>) returns (status: Status)
      requires memory.live == rest && Clear(words)
      modifies this, memory
      ensures memory.live == rest + Blocks(topNode) && Clear(words) && memory.refusals >= old(memory.refusals)
      ensures Outcome(ReadNode(env, dom), status, topNode, memory.refusals > old(memory.refusals)) && Shaped(dom, topNode)
      ensures words == AfterRead(env, dom, old(words))
      ensures Strays(topNode, words) == 0 <==> Freeable(dom, topNode, words)
    {
      status, topNode := FromOracle(memory, env, dom);
      words := AfterRead(env, dom, words);
      FreeableExact(dom, topNode, words);
    }

    /** Gives back the tree of the previous call, complete or not, and reads the document anew. A handle
        without a document has the value null. */
    method GetValue(env: Env, documentOk: bool, document: Option<Dom>, ghost rest: multiset<Block>)
      returns (status: Status, strays: nat)
      requires memory.live == rest + Blocks(topNode) && Clear(words)
      modifies this, memory
      ensures memory.live == rest + Blocks(topNode) && Clear(words)
      ensures strays == Strays(old(topNode), old(words))
      ensures memory.refusals >= old(memory.refusals)
      ensures documentOk && document.Some? ==>
                && Outcome(ReadNode(env, document.value), status, topNode, memory.refusals > old(memory.refusals)) && Shaped(document.value, topNode)
                && words == AfterRead(env, document.value, AfterFree(old(topNode), old(words)))
                && (Strays(topNode, words) == 0 <==> Freeable(document.value, topNode, words))
      ensures documentOk && document.None? ==> status == Success && Content(topNode) == Scalar(TypeNone, NullValue)
      ensures !documentOk ==> status == Failure && Blocks(topNode) == multiset{}
      ensures !documentOk || document.None? ==> topNode.MemScalar? && words == AfterFree(old(topNode), old(words))
    {
      strays := FreeTop(rest);
      topNode, status := MemScalar(TypeNone, NullValue), Success;
      if !documentOk {
        status := Failure;
      } else if document.Some? {
        status := ReadTop(env, document.value, rest);
      }
    }

    /** Frees the handle. */
    method Free(ghost rest: multiset<Block>) returns (strays: nat)
      requires memory.live == rest + Blocks(topNode) && Clear(words)
      modifies this`words, memory`live
      ensures memory.live == rest && strays == Strays(topNode, old(words))
    {
      strays := FreeTop(rest);
    }
  }

  /** However reading a document went, freeing a handle that read once leaves memory as it was, and
      frees nothing that was not allocated. */
  method ReadAndFree(memory: Memory, env: Env, document: Dom) returns (status: Status, value: Node, strays: nat)
    modifies memory
    ensures memory.live == old(memory.live) && strays == 0
    ensures memory.refusals >= old(memory.refusals)
    ensures status == Success <==> ReadNode(env, document).Some? && memory.refusals == old(memory.refusals)
    ensures status == Success ==> ReadNode(env, document) == Some(value)
  {
    var json := new Json(memory);
    var early;
    status, early := json.GetValue(env, true, Some(document), old(memory.live));
    value := Content(json.topNode);
    var late := json.Free(old(memory.live));
    strays := early + late;
  }

  /** A handle that read text and then an empty array frees the length of the text as if it were a
      block. */
  method TextThenEmpty(memory: Memory, env: Env, text: Bytes) returns (strays: nat)
    requires 0 < |text| < 0x1_0000_0000
    modifies memory
    ensures memory.live == old(memory.live) && strays == 1
  {
    var json := new Json(memory);
    var _, early := json.GetValue(env, true, Some(DomScalar(DomString(text))), old(memory.live));
    assert early == 0 && json.words == WithLength(NULL_WORDS, |text|);
    var _, again := json.GetValue(env, true, Some(DomArray([])), old(memory.live));
    LengthBecomesPointer(env, text, NULL_WORDS, json.topNode);
    var late := json.Free(old(memory.live));
    strays := early + again + late;
  }
}
