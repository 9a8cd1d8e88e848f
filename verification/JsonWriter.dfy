/** Building a document from native nodes (support/dpiJson.c): the document's nodes have identities,
    and a conversion that fails gives back every node that it made. */
module JsonWriter {
  import opened Allocation
  import opened Common
  import opened JsonReader
  import opened JsonTree

  // --------------------------------------------------------------------------------------
  // Nodes of the document
  // --------------------------------------------------------------------------------------

  /** A node of the document with its identity. */
  datatype DomNode =
    | ScalarNode(id: Block, scalar: DomValue)
    | ArrayNode(id: Block, items: seq<DomNode>)
    | ObjectNode(id: Block, members: seq<Member>)

  datatype Member = Member(name: Bytes, node: DomNode)

  /** The nodes of a tree. */
  function Nodes(node: DomNode): multiset<Block>
    decreases node, 1
  {
    match node
    case ScalarNode(id, _) => multiset{id}
    case ArrayNode(id, items) => multiset{id} + ItemNodes(items)
    case ObjectNode(id, members) => multiset{id} + MemberNodes(members)
  }

  function ItemNodes(items: seq<DomNode>): multiset<Block>
    decreases items, 0
  {
    if items == [] then multiset{} else Nodes(items[0]) + ItemNodes(items[1..])
  }

  function MemberNodes(members: seq<Member>): multiset<Block>
    decreases members, 0
  {
    if members == [] then multiset{} else Nodes(members[0].node) + MemberNodes(members[1..])
  }

  /** The tree without the identities of its nodes. */
  function Plain(node: DomNode): Dom
    decreases node, 1
  {
    match node
    case ScalarNode(_, v) => DomScalar(v)
    case ArrayNode(_, items) => DomArray(PlainItems(items))
    case ObjectNode(_, members) => DomObject(PlainMembers(members))
  }

  function PlainItems(items: seq<DomNode>): seq<Dom>
    decreases items, 0
  {
    if items == [] then [] else [Plain(items[0])] + PlainItems(items[1..])
  }

  function PlainMembers(members: seq<Member>): seq<DomField>
    decreases members, 0
  {
    if members == [] then [] else [DomField(members[0].name, Plain(members[0].node))] + PlainMembers(members[1..])
  }

  /** Setting a field: a field that is there already gets the new value. */
  function PutNode(members: seq<Member>, name: Bytes, child: DomNode): seq<Member> {
    if members == [] then [Member(name, child)]
    else if members[0].name == name then [Member(name, child)] + members[1..]
    else [members[0]] + PutNode(members[1..], name, child)
  }

  /** The nodes that setting a field drops. */
  function Replaced(members: seq<Member>, name: Bytes): multiset<Block> {
    if members == [] then multiset{}
    else if members[0].name == name then Nodes(members[0].node)
    else Replaced(members[1..], name)
  }

  lemma {:induction false} AppendedNodes(items: seq<DomNode>, child: DomNode)
    ensures ItemNodes(items + [child]) == ItemNodes(items) + Nodes(child)
  {
    if items == [] {
      assert items + [child] == [child] && [child][1..] == [];
    } else {
      AppendedNodes(items[1..], child);
      assert (items + [child])[1..] == items[1..] + [child] && (items + [child])[0] == items[0];
      AddOn(Nodes(items[0]), ItemNodes(items[1..]), Nodes(child));
    }
  }

  lemma {:induction false} AppendedPlain(items: seq<DomNode>, child: DomNode)
    ensures PlainItems(items + [child]) == PlainItems(items) + [Plain(child)]
  {
    if items == [] {
      assert items + [child] == [child] && [child][1..] == [];
    } else {
      AppendedPlain(items[1..], child);
      assert (items + [child])[1..] == items[1..] + [child] && (items + [child])[0] == items[0];
    }
  }

  lemma {:induction false} PutPlain(members: seq<Member>, name: Bytes, child: DomNode)
    ensures PlainMembers(PutNode(members, name, child)) == Put(PlainMembers(members), name, Plain(child))
  {
    if members == [] {
      assert PutNode(members, name, child)[1..] == [];
    } else {
      var head, tail := members[0], members[1..];
      var after := PutNode(members, name, child);
      assert PlainMembers(members)[1..] == PlainMembers(tail);
      if head.name == name {
        assert after[1..] == tail;
      } else {
        PutPlain(tail, name, child);
        assert after[1..] == PutNode(tail, name, child);
      }
    }
  }

  /** A field set is a subtree gained, and the subtree it replaces lost. */
  lemma {:induction false} PutNodes(members: seq<Member>, name: Bytes, child: DomNode)
    ensures MemberNodes(PutNode(members, name, child)) + Replaced(members, name) == MemberNodes(members) + Nodes(child)
  {
    if members == [] {
      assert PutNode(members, name, child)[1..] == [];
    } else {
      var head, tail := members[0], members[1..];
      var after := PutNode(members, name, child);
      if head.name == name {
        assert after[1..] == tail;
        Turn(Nodes(child), MemberNodes(tail), Nodes(head.node));
      } else {
        PutNodes(tail, name, child);
        assert after[1..] == PutNode(tail, name, child);
        AddOn(Nodes(head.node), MemberNodes(after[1..]), Replaced(tail, name));
        AddOn(Nodes(head.node), MemberNodes(tail), Nodes(child));
      }
    }
  }

  lemma Turn(a: multiset<Block>, b: multiset<Block>, c: multiset<Block>)
    ensures a + b + c == c + b + a
  {
  }

  lemma Gained(rest: multiset<Block>, top: multiset<Block>, a: multiset<Block>, b: multiset<Block>)
    ensures rest + (top + a) + b == rest + (top + (a + b))
  {
  }

  lemma Cancelled(rest: multiset<Block>, a: multiset<Block>, b: multiset<Block>)
    ensures rest + (a + b) - b == rest + a
  {
  }

  // --------------------------------------------------------------------------------------
  // The document
  // --------------------------------------------------------------------------------------

  /** A document of the Oracle client: the nodes that it has made and not freed. What the methods
      promise is what the conversion relies on. */
  class Document {
    var nodes: multiset<Block>
    var root: Option<DomNode>

    constructor ()
      ensures nodes == multiset{} && root == None
    {
      nodes, root := multiset{}, None;
    }

    method NewNode() returns (id: Block)
      modifies this`nodes
      ensures id !in old(nodes) && nodes == old(nodes) + multiset{id}
    {
      ghost var b := FreshBlock(nodes);
      assert b !in nodes;
      id :| id !in nodes;
      nodes := nodes + multiset{id};
    }

    method NewScalar(v: DomValue) returns (node: DomNode)
      modifies this`nodes
      ensures nodes == old(nodes) + Nodes(node) && Plain(node) == DomScalar(v)
    {
      var id := NewNode();
      node := ScalarNode(id, v);
    }

    /** Puts a node behind the items of an array, which owns it from then on. */
    method AppendItem(parent: DomNode, child: DomNode, ghost rest: multiset<Block>) returns (after: DomNode)
      requires parent.ArrayNode? && nodes == rest + Nodes(parent) + Nodes(child)
      ensures after == ArrayNode(parent.id, parent.items + [child]) && nodes == rest + Nodes(after)
    {
      after := ArrayNode(parent.id, parent.items + [child]);
      AppendedNodes(parent.items, child);
      Gained(rest, multiset{parent.id}, ItemNodes(parent.items), Nodes(child));
    }

    /** Sets a field of an object, which owns the value from then on; the value it replaces goes. */
    method PutFieldValue(obj: DomNode, name: Bytes, child: DomNode, ghost rest: multiset<Block>) returns (after: DomNode)
      requires obj.ObjectNode? && nodes == rest + Nodes(obj) + Nodes(child)
      modifies this`nodes
      ensures after == ObjectNode(obj.id, PutNode(obj.members, name, child)) && nodes == rest + Nodes(after)
    {
      after := ObjectNode(obj.id, PutNode(obj.members, name, child));
      PutLeaves(rest, obj, name, child, after);
      nodes := nodes - Replaced(obj.members, name);
    }

    /** Frees a tree. */
    method FreeNode(node: DomNode, ghost rest: multiset<Block>)
      requires nodes == rest + Nodes(node)
      modifies this`nodes
      ensures nodes == rest
    {
      nodes := nodes - Nodes(node);
    }

    /** Sets the root; the tree that was there before goes. */
    method SetRootNode(node: DomNode, ghost rest: multiset<Block>)
      requires nodes == rest + RootNodes(root) + Nodes(node)
      modifies this
      ensures root == Some(node) && nodes == rest + Nodes(node)
    {
      Replacement(rest, RootNodes(root), Nodes(node));
      nodes := nodes - RootNodes(root);
      root := Some(node);
    }

    /** Parses the text "0": the document has that value from then on. */
    method ParseDummy(ghost rest: multiset<Block>)
      requires nodes == rest + RootNodes(root)
      modifies this
      ensures root.Some? && Plain(root.value) == DUMMY && nodes == rest + RootNodes(root)
    {
      var dummy := NewScalar(DomNumber(ZERO_NUMBER));
      SetRootNode(dummy, rest);
    }
  }

  /** The number zero as it is stored. */
  const ZERO_NUMBER: seq<int> := [1, 128]

  const DUMMY := DomScalar(DomNumber(ZERO_NUMBER))

  function RootNodes(root: Option<DomNode>): multiset<Block> {
    if root.Some? then Nodes(root.value) else multiset{}
  }

  lemma Replacement(rest: multiset<Block>, a: multiset<Block>, b: multiset<Block>)
    ensures rest + a + b - a == rest + b
  {
  }

  lemma PutLeaves(rest: multiset<Block>, obj: DomNode, name: Bytes, child: DomNode, after: DomNode)
    requires obj.ObjectNode? && after == ObjectNode(obj.id, PutNode(obj.members, name, child))
    ensures rest + Nodes(obj) + Nodes(child) - Replaced(obj.members, name) == rest + Nodes(after)
  {
    var top, before, gone := multiset{obj.id}, MemberNodes(obj.members), Replaced(obj.members, name);
    PutNodes(obj.members, name, child);
    Gained(rest, top, before, Nodes(child));
    assert rest + Nodes(obj) + Nodes(child) == rest + (top + (MemberNodes(after.members) + gone));
    AddOn(top, MemberNodes(after.members), gone);
    Cancelled(rest, Nodes(after), gone);
  }

  // --------------------------------------------------------------------------------------
  // From native nodes to the document
  // --------------------------------------------------------------------------------------

  /** What a conversion promises: either it fails as the plain conversion does and leaves no node
      behind, or it gives the plain result, and the nodes of the result are all it has made. */
  ghost predicate Built(expected: Option<Dom>, status: Status, node: DomNode, before: multiset<Block>, after: multiset<Block>) {
    && (status == Failure ==> expected == None && after == before)
    && (status == Success ==> expected == Some(Plain(node)) && after == before + Nodes(node))
  }

  lemma {:induction false} ItemsFail(env: Env, elements: seq<Node>, k: nat)
    requires k < |elements| && WriteNode(env, elements[k]) == None
    ensures WriteItems(env, elements) == None
  {
    var n := |elements| - 1;
    if k < n {
      assert elements[..n][k] == elements[k];
      ItemsFail(env, elements[..n], k);
    }
  }

  lemma {:induction false} MembersFail(env: Env, fields: seq<NodeField>, k: nat)
    requires k < |fields| && WriteNode(env, fields[k].node) == None
    ensures WriteMembers(env, fields) == None
  {
    var n := |fields| - 1;
    if k < n {
      assert fields[..n][k] == fields[k];
      MembersFail(env, fields[..n], k);
    }
  }

  /** Converts one element and puts it behind those before it; gives all back when that fails. */
  method AddElement(doc: Document, env: Env, elements: seq<Node>, i: nat, before: DomNode, ghost rest: multiset<Block>)
    returns (status: Status, after: DomNode)
    requires i < |elements| && before.ArrayNode? && doc.nodes == rest + Nodes(before)
    requires WriteItems(env, elements[..i]) == Some(PlainItems(before.items))
    modifies doc`nodes
    ensures status == Failure ==> doc.nodes == rest && WriteItems(env, elements) == None
    ensures status == Success ==> doc.nodes == rest + Nodes(after) && after.ArrayNode?
    ensures status == Success ==> WriteItems(env, elements[..i + 1]) == Some(PlainItems(after.items))
    decreases elements[i], 2
  {
    after := before;
    var child;
    status, child := ToOracle(doc, env, elements[i]);
    if status == Failure {
      doc.FreeNode(before, rest);
      ItemsFail(env, elements, i);
    } else {
      after := doc.AppendItem(before, child, rest);
      AppendedPlain(before.items, child);
      assert elements[..i + 1][..i] == elements[..i];
    }
  }

  method ToOracleArray(doc: Document, env: Env, node: Node) returns (status: Status, result: DomNode)
    requires node.Array?
    modifies doc`nodes
    ensures Built(WriteNode(env, node), status, result, old(doc.nodes), doc.nodes)
    decreases node, 0
  {
    var id := doc.NewNode();
    result, status := ArrayNode(id, []), Success;
    for i := 0 to |node.elements|
      invariant result.ArrayNode? && status == Success
      invariant doc.nodes == old(doc.nodes) + Nodes(result)
      invariant WriteItems(env, node.elements[..i]) == Some(PlainItems(result.items))
    {
      status, result := AddElement(doc, env, node.elements, i, result, old(doc.nodes));
      if status == Failure {
        return;
      }
    }
    assert node.elements[..|node.elements|] == node.elements;
  }

  /** Converts the value of one field and sets it; gives all back when that fails. */
  method AddField(doc: Document, env: Env, fields: seq<NodeField>, i: nat, before: DomNode, ghost rest: multiset<Block>)
    returns (status: Status, after: DomNode)
    requires i < |fields| && before.ObjectNode? && doc.nodes == rest + Nodes(before)
    requires WriteMembers(env, fields[..i]) == Some(PlainMembers(before.members))
    modifies doc`nodes
    ensures status == Failure ==> doc.nodes == rest && WriteMembers(env, fields) == None
    ensures status == Success ==> doc.nodes == rest + Nodes(after) && after.ObjectNode?
    ensures status == Success ==> WriteMembers(env, fields[..i + 1]) == Some(PlainMembers(after.members))
    decreases fields[i].node, 2
  {
    after := before;
    var child;
    status, child := ToOracle(doc, env, fields[i].node);
    if status == Failure {
      doc.FreeNode(before, rest);
      MembersFail(env, fields, i);
    } else {
      after := doc.PutFieldValue(before, StoredName(fields[i].name), child, rest);
      PutPlain(before.members, StoredName(fields[i].name), child);
      assert fields[..i + 1][..i] == fields[..i];
    }
  }

  method ToOracleObject(doc: Document, env: Env, node: Node) returns (status: Status, result: DomNode)
    requires node.Object?
    modifies doc`nodes
    ensures Built(WriteNode(env, node), status, result, old(doc.nodes), doc.nodes)
    decreases node, 0
  {
    var id := doc.NewNode();
    result, status := ObjectNode(id, []), Success;
    for i := 0 to |node.fields|
      invariant result.ObjectNode? && status == Success
      invariant doc.nodes == old(doc.nodes) + Nodes(result)
      invariant WriteMembers(env, node.fields[..i]) == Some(PlainMembers(result.members))
    {
      status, result := AddField(doc, env, node.fields, i, result, old(doc.nodes));
      if status == Failure {
        return;
      }
    }
    assert node.fields[..|node.fields|] == node.fields;
  }

  /** Makes the nodes of a native tree. */
  method ToOracle(doc: Document, env: Env, node: Node) returns (status: Status, result: DomNode)
    modifies doc`nodes
    ensures Built(WriteNode(env, node), status, result, old(doc.nodes), doc.nodes)
    decreases node, 1
  {
    match node
    case Array(_) => status, result := ToOracleArray(doc, env, node);
    case Object(_) => status, result := ToOracleObject(doc, env, node);
    case Scalar(kind, v) =>
      match WriteScalar(env, kind, v) {
        case None => status, result := Failure, ScalarNode(0, DomNull);
        case Some(x) =>
          result := doc.NewScalar(x);
          status := Success;
      }
  }

  // --------------------------------------------------------------------------------------
  // How many nodes there are
  // --------------------------------------------------------------------------------------

  function NativeCount(node: Node): nat
    decreases node, 1
  {
    match node
    case Scalar(_, _) => 1
    case Array(elements) => 1 + ElementCount(elements)
    case Object(fields) => 1 + FieldCount(fields)
  }

  function ElementCount(elements: seq<Node>): nat
    decreases elements, 0
  {
    if elements == [] then 0 else ElementCount(elements[..|elements| - 1]) + NativeCount(elements[|elements| - 1])
  }

  function FieldCount(fields: seq<NodeField>): nat
    decreases fields, 0
  {
    if fields == [] then 0 else FieldCount(fields[..|fields| - 1]) + NativeCount(fields[|fields| - 1].node)
  }

  function DomCount(dom: Dom): nat
    decreases dom, 1
  {
    match dom
    case DomScalar(_) => 1
    case DomOther => 1
    case DomArray(items) => 1 + DomItemCount(items)
    case DomObject(members) => 1 + DomMemberCount(members)
  }

  function DomItemCount(items: seq<Dom>): nat
    decreases items, 0
  {
    if items == [] then 0 else DomCount(items[0]) + DomItemCount(items[1..])
  }

  function DomMemberCount(members: seq<DomField>): nat
    decreases members, 0
  {
    if members == [] then 0 else DomCount(members[0].dom) + DomMemberCount(members[1..])
  }

  /** The number of identities in a tree is the number of its nodes. */
  lemma {:induction false} NodesCounted(node: DomNode)
    ensures |Nodes(node)| == DomCount(Plain(node))
    decreases node, 1
  {
    match node
    case ScalarNode(_, _) =>
    case ArrayNode(_, items) => ItemNodesCounted(items);
    case ObjectNode(_, members) => MemberNodesCounted(members);
  }

  lemma {:induction false} ItemNodesCounted(items: seq<DomNode>)
    ensures |ItemNodes(items)| == DomItemCount(PlainItems(items))
    decreases items, 0
  {
    if items != [] {
      NodesCounted(items[0]);
      ItemNodesCounted(items[1..]);
    }
  }

  lemma {:induction false} MemberNodesCounted(members: seq<Member>)
    ensures |MemberNodes(members)| == DomMemberCount(PlainMembers(members))
    decreases members, 0
  {
    if members != [] {
      NodesCounted(members[0].node);
      MemberNodesCounted(members[1..]);
    }
  }

  predicate HasName(members: seq<DomField>, name: Bytes) {
    exists i :: 0 <= i < |members| && members[i].name == name
  }

  lemma {:induction false} CountAppended(items: seq<Dom>, d: Dom)
    ensures DomItemCount(items + [d]) == DomItemCount(items) + DomCount(d)
  {
    if items == [] {
      assert items + [d] == [d] && [d][1..] == [];
    } else {
      CountAppended(items[1..], d);
      assert (items + [d])[1..] == items[1..] + [d];
    }
  }

  lemma {:induction false} CountPut(members: seq<DomField>, name: Bytes, d: Dom)
    ensures !HasName(members, name) ==> DomMemberCount(Put(members, name, d)) == DomMemberCount(members) + DomCount(d)
    ensures HasName(members, name) ==> DomMemberCount(Put(members, name, d)) < DomMemberCount(members) + DomCount(d)
  {
    if members == [] {
      assert Put(members, name, d)[1..] == [];
    } else if members[0].name == name {
      assert Put(members, name, d)[1..] == members[1..];
    } else {
      CountPut(members[1..], name, d);
      assert Put(members, name, d)[1..] == Put(members[1..], name, d);
      HasNameTail(members, name);
    }
  }

  lemma HasNameTail(members: seq<DomField>, name: Bytes)
    requires members != [] && members[0].name != name
    ensures HasName(members, name) <==> HasName(members[1..], name)
  {
    if HasName(members, name) {
      var i :| 0 <= i < |members| && members[i].name == name;
      assert members[1..][i - 1].name == name;
    }
  }

  /** No two fields of one object get the same name, at any depth. */
  ghost predicate KeepsFields(node: Node)
    decreases node, 1
  {
    match node
    case Scalar(_, _) => true
    case Array(elements) => KeepsElements(elements)
    case Object(fields) => KeepsMembers(fields)
  }

  ghost predicate KeepsElements(elements: seq<Node>)
    decreases elements, 0
  {
    elements != [] ==> KeepsElements(elements[..|elements| - 1]) && KeepsFields(elements[|elements| - 1])
  }

  ghost predicate KeepsMembers(fields: seq<NodeField>)
    decreases fields, 0
  {
    fields != [] ==>
      var n := |fields| - 1;
      KeepsMembers(fields[..n]) && KeepsFields(fields[n].node) && !NameTaken(fields, n)
  }

  ghost predicate NameTaken(fields: seq<NodeField>, n: nat)
    requires n < |fields|
  {
    exists i :: 0 <= i < n && StoredName(fields[i].name) == StoredName(fields[n].name)
  }

  lemma {:induction false} NamePut(members: seq<DomField>, name: Bytes, d: Dom, other: Bytes)
    ensures HasName(Put(members, name, d), other) <==> HasName(members, other) || other == name
  {
    var after := Put(members, name, d);
    if members == [] {
      assert after == [DomField(name, d)] && after[0].name == name;
    } else if members[0].name == name {
      assert after[1..] == members[1..] && after[0].name == name;
      NameSplit(after, other);
      NameSplit(members, other);
    } else {
      NamePut(members[1..], name, d, other);
      assert after[1..] == Put(members[1..], name, d);
      NameSplit(after, other);
      NameSplit(members, other);
    }
  }

  lemma NameSplit(members: seq<DomField>, name: Bytes)
    requires members != []
    ensures HasName(members, name) <==> members[0].name == name || HasName(members[1..], name)
  {
    if HasName(members, name) && members[0].name != name {
      HasNameTail(members, name);
    }
    if HasName(members[1..], name) {
      var i :| 0 <= i < |members[1..]| && members[1..][i].name == name;
      assert members[i + 1].name == name;
    }
  }

  /** The names in the document are the stored names of the fields so far. */
  lemma {:induction false} NamesStored(env: Env, fields: seq<NodeField>, name: Bytes)
    requires WriteMembers(env, fields).Some?
    ensures HasName(WriteMembers(env, fields).value, name)
       <==> exists i :: 0 <= i < |fields| && StoredName(fields[i].name) == name
  {
    if fields != [] {
      var n := |fields| - 1;
      NamesStored(env, fields[..n], name);
      NamePut(WriteMembers(env, fields[..n]).value, StoredName(fields[n].name), WriteNode(env, fields[n].node).value, name);
      NamesSoFar(fields, n, name);
    }
  }

  lemma NamesSoFar(fields: seq<NodeField>, n: nat, name: Bytes)
    requires |fields| == n + 1
    ensures (exists i :: 0 <= i < |fields| && StoredName(fields[i].name) == name)
       <==> (exists i :: 0 <= i < n && StoredName(fields[..n][i].name) == name) || StoredName(fields[n].name) == name
  {
    if i :| 0 <= i < |fields| && StoredName(fields[i].name) == name {
      assert i < n ==> StoredName(fields[..n][i].name) == name;
    }
    if i :| 0 <= i < n && StoredName(fields[..n][i].name) == name {
      assert StoredName(fields[i].name) == name;
    }
  }

  /** The document gets one node for each native node, unless fields of one object fall together. */
  lemma {:induction false} OneEach(env: Env, node: Node)
    requires WriteNode(env, node).Some?
    ensures DomCount(WriteNode(env, node).value) <= NativeCount(node)
    ensures DomCount(WriteNode(env, node).value) == NativeCount(node) <==> KeepsFields(node)
    decreases node, 1
  {
    match node
    case Scalar(_, _) =>
    case Array(elements) => OneEachElement(env, elements);
    case Object(fields) => OneEachMember(env, fields);
  }

  lemma {:induction false} OneEachElement(env: Env, elements: seq<Node>)
    requires WriteItems(env, elements).Some?
    ensures DomItemCount(WriteItems(env, elements).value) <= ElementCount(elements)
    ensures DomItemCount(WriteItems(env, elements).value) == ElementCount(elements) <==> KeepsElements(elements)
    decreases elements, 0
  {
    if elements != [] {
      var n := |elements| - 1;
      OneEachElement(env, elements[..n]);
      OneEach(env, elements[n]);
      CountAppended(WriteItems(env, elements[..n]).value, WriteNode(env, elements[n]).value);
    }
  }

  lemma {:induction false} OneEachMember(env: Env, fields: seq<NodeField>)
    requires WriteMembers(env, fields).Some?
    ensures DomMemberCount(WriteMembers(env, fields).value) <= FieldCount(fields)
    ensures DomMemberCount(WriteMembers(env, fields).value) == FieldCount(fields) <==> KeepsMembers(fields)
    decreases fields, 0
  {
    if fields != [] {
      var n := |fields| - 1;
      OneEachMember(env, fields[..n]);
      OneEach(env, fields[n].node);
      var members, name := WriteMembers(env, fields[..n]).value, StoredName(fields[n].name);
      CountPut(members, name, WriteNode(env, fields[n].node).value);
      NamesStored(env, fields[..n], name);
      TakenBefore(fields, n);
    }
  }

  lemma TakenBefore(fields: seq<NodeField>, n: nat)
    requires n < |fields|
    ensures NameTaken(fields, n) <==> exists i :: 0 <= i < n && StoredName(fields[..n][i].name) == StoredName(fields[n].name)
  {
    if i :| 0 <= i < n && StoredName(fields[i].name) == StoredName(fields[n].name) {
      assert StoredName(fields[..n][i].name) == StoredName(fields[n].name);
    }
  }

  // --------------------------------------------------------------------------------------
  // Storing a value
  // --------------------------------------------------------------------------------------

  /** Sets the value of a document. The client first makes it mutable and parses a dummy value, which
      replaces the old one; only then are the nodes built. So a failure before the dummy is parsed leaves
      the old value, a later one the dummy, and a success the new value; the nodes of the document are
      those of the value that it has, in all three cases. */
  method SetValue(
    doc: Document, env: Env, mutableOk: bool, parseOk: bool, documentOk: bool, node: Node, ghost rest: multiset<Block>)
    returns (status: Status)
    requires doc.nodes == rest + RootNodes(doc.root)
    modifies doc
    ensures doc.nodes == rest + RootNodes(doc.root)
    ensures status == Success <==> mutableOk && parseOk && documentOk && WriteNode(env, node).Some?
    ensures !mutableOk || !parseOk ==> doc.root == old(doc.root)
    ensures mutableOk && parseOk ==>
              && doc.root.Some?
              && Plain(doc.root.value)
                 == if status == Success then WriteNode(env, node).value else DomScalar(DomNumber([1, 128]))
    ensures status == Success ==>
              && |RootNodes(doc.root)| <= NativeCount(node)
              && (|RootNodes(doc.root)| == NativeCount(node) <==> KeepsFields(node))
  {
    if !mutableOk || !parseOk {
      return Failure;
    }
    doc.ParseDummy(rest);
    if !documentOk {
      return Failure;
    }
    var result;
    status, result := ToOracle(doc, env, node);
    if status == Success {
      doc.SetRootNode(result, rest);
      NodesCounted(result);
      OneEach(env, node);
    }
  }

  /** A value that is stored and read again comes back scalar by scalar, unless there is no memory to read
      it into; it is the same value exactly if it is one of those that return. */
  method StoreAndRead(doc: Document, memory: Memory, env: Env, node: Node, ghost rest: multiset<Block>)
    returns (status: Status, back: Node)
    requires Storable(env, node) && doc.nodes == rest + RootNodes(doc.root)
    modifies doc, memory
    ensures doc.nodes == rest + RootNodes(doc.root) && memory.live == old(memory.live)
    ensures memory.refusals >= old(memory.refusals)
    ensures status == Success <==> memory.refusals == old(memory.refusals)
    ensures status == Success ==> back == Back(env, node) && (back == node <==> Returns(env, node))
  {
    StoredAndRead(env, node);
    RoundTrip(env, node);
    status := SetValue(doc, env, true, true, true, node, rest);
    var strays;
    status, back, strays := ReadAndFree(memory, env, Plain(doc.root.value));
  }
}
