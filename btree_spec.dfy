/**
 * The B+-tree of assign4_b+-tree/btree_mgr.c as values. Nodes live in an
 * arena: a node pointer is an index into a sequence of every node ever
 * allocated, and NULL is None. Each node also has a level (0 for a leaf, one
 * more than its children for an internal node); levels never change, which
 * makes the tree's shape a property of each node on its own.
 *
 * Memory from malloc that the C code reads before writing is taken to read as
 * zero: no tombstones, not a leaf, keys 0, RIDs (0, 0), null children.
 */
module BTreeSpec {
  import opened DbError
  import opened Tables

  /** A node pointer: an index into the node arena. */
  type NodeId = nat

  /**
   * A TreeNode, cut to the slots the code uses: two tombstone bits, two keys,
   * two RIDs and three children, of which children[2] of a leaf is the link to
   * its right sibling.
   */
  datatype Node = Node(
    isDeleted: seq<bool>,
    isLeaf: bool,
    numValues: nat,
    values: seq<int>,
    rids: seq<Rid>,
    children: seq<Option<NodeId>>)

  /** A node straight from malloc, read as zero. */
  const Fresh: Node := Node([false, false], false, 0, [0, 0], [Rid(0, 0), Rid(0, 0)], [None, None, None])

  /** The root createBtree allocates: an empty leaf. */
  const EmptyRoot: Node := Fresh.(isLeaf := true)

  predicate Shaped(n: Node)
  {
    |n.isDeleted| == 2 && |n.values| == 2 && |n.rids| == 2 && |n.children| == 3 && n.numValues <= 2
  }

  /**
   * Node id is well formed: its children are in the arena; a leaf is at level
   * 0 and links only to leaves; an internal node holds one or two keys, has a
   * child for each of its numValues + 1 subtrees, and every child is one
   * level down.
   */
  predicate NodeOk(heap: seq<Node>, level: seq<nat>, id: nat)
    requires id < |heap| && |level| == |heap|
  {
    var n := heap[id];
    && Shaped(n)
    && (forall k :: 0 <= k < 3 && n.children[k].Some? ==> n.children[k].value < |heap|)
    && (n.isLeaf ==>
          level[id] == 0 && forall k :: 0 <= k < 3 && n.children[k].Some? ==> level[n.children[k].value] == 0)
    && (!n.isLeaf ==>
          && level[id] > 0 && 1 <= n.numValues
          && (forall k :: 0 <= k <= n.numValues ==> n.children[k].Some?)
          && forall k :: 0 <= k < 3 && n.children[k].Some? ==> level[n.children[k].value] == level[id] - 1)
  }

  /** Every node of the arena is well formed. */
  predicate HeapOk(heap: seq<Node>, level: seq<nat>)
  {
    && |level| == |heap|
    && (forall id :: 0 <= id < |heap| ==> Shaped(heap[id]))
    && forall id :: 0 <= id < |heap| ==> NodeOk(heap, level, id)
  }

  /** Replacing one node by a well-formed node keeps the arena well formed. */
  lemma HeapOkSet(heap: seq<Node>, level: seq<nat>, id: nat, n: Node)
    requires HeapOk(heap, level) && id < |heap|
    requires NodeOk(heap[id := n], level, id)
    ensures HeapOk(heap[id := n], level)
  {
    var h := heap[id := n];
    forall j | 0 <= j < |heap|
      ensures NodeOk(h, level, j)
    {
      if j != id {
        assert NodeOk(heap, level, j);
      }
    }
  }

  /** Appending well-formed nodes keeps the arena well formed. */
  lemma HeapOkAppend(heap: seq<Node>, level: seq<nat>, ns: seq<Node>, ls: seq<nat>)
    requires HeapOk(heap, level) && |ns| == |ls|
    requires forall j :: |heap| <= j < |heap| + |ns| ==> NodeOk(heap + ns, level + ls, j)
    ensures HeapOk(heap + ns, level + ls)
  {
    forall j | 0 <= j < |heap| + |ns|
      ensures NodeOk(heap + ns, level + ls, j) && Shaped((heap + ns)[j])
    {
      if j < |heap| {
        assert NodeOk(heap, level, j);
        assert (heap + ns)[j] == heap[j];
        forall c | 0 <= c < |heap|
          ensures (level + ls)[c] == level[c]
        {
        }
      }
    }
  }

  // ------------------------------------------------------------ insertion

  /** Keys in nondecreasing order in the first two slots. */
  predicate Ordered2(values: seq<int>)
    requires |values| == 2
  {
    values[0] <= values[1]
  }

  /**
   * insertIntoLeafWithOneValue: a leaf with one key takes a second; the new
   * key goes first if the old key is larger, and second otherwise. Tombstone
   * bits are not moved.
   */
  function InsertIntoLeafWithOneValue(n: Node, val: int, rid: Rid): (r: Node)
    requires Shaped(n) && n.numValues == 1
    ensures Shaped(r) && r.numValues == 2 && Ordered2(r.values)
    ensures multiset(r.values) == multiset{n.values[0], val}
    ensures (r.values[0], r.rids[0]) == (if n.values[0] > val then (val, rid) else (n.values[0], n.rids[0]))
    ensures (r.values[1], r.rids[1]) == (if n.values[0] > val then (n.values[0], n.rids[0]) else (val, rid))
    ensures r.isDeleted == n.isDeleted && r.isLeaf == n.isLeaf && r.children == n.children
  {
    var n1 := n.(numValues := n.numValues + 1);
    if n.values[0] > val then
      n1.(values := [val, n.values[0]], rids := [rid, n.rids[0]])
    else
      n1.(values := [n.values[0], val], rids := [n.rids[0], rid])
  }

  /**
   * The leaf and the new right leaf after splitLeaf: the right leaf takes over
   * the old right-sibling link and the leaf links to it; of the two old keys
   * and the new one, the leaf keeps the two smallest and the right leaf gets
   * the largest. Tombstone bits stay with their slots.
   */
  function SplitLeafNodes(node: Node, val: int, rid: Rid, rightId: NodeId): (r: (Node, Node))
    requires Shaped(node)
    ensures Shaped(r.0) && Shaped(r.1) && r.0.children[2] == Some(rightId) && r.1.children[2] == node.children[2]
  {
    var right0 := Fresh.(isLeaf := true, numValues := 1, children := [None, None, node.children[2]]);
    var node0 := node.(children := node.children[2 := Some(rightId)]);
    if val < node.values[0] then
      (node0.(values := [val, node.values[0]], rids := [rid, node.rids[0]]),
       right0.(values := [node.values[1], 0], rids := [node.rids[1], Rid(0, 0)]))
    else if val < node.values[1] then
      (node0.(values := [node.values[0], val], rids := [node.rids[0], rid]),
       right0.(values := [node.values[1], 0], rids := [node.rids[1], Rid(0, 0)]))
    else
      (node0, right0.(values := [val, 0], rids := [rid, Rid(0, 0)]))
  }

  /**
   * What addNodeToTree leaves behind: the new arena and levels, the stub it
   * returns (None for NULL), and how many times it bumped the node and entry
   * counters of the tree's registry entry.
   */
  datatype AddResult = AddResult(heap: seq<Node>, level: seq<nat>, stub: Option<NodeId>, nodeBumps: nat, entryBumps: nat)

  /**
   * The arena grew from heap, stays well formed, existing nodes keep their
   * levels, nodes above level lv are untouched, and a stub, if any, is a
   * one-key internal node at level lv + 1.
   */
  predicate AddOk(heap: seq<Node>, level: seq<nat>, lv: int, r: AddResult)
    requires |level| == |heap|
  {
    && HeapOk(r.heap, r.level) && |heap| <= |r.heap|
    && (forall j :: 0 <= j < |heap| ==> r.level[j] == level[j])
    && (forall j :: 0 <= j < |heap| && level[j] > lv ==> r.heap[j] == heap[j])
    && (r.stub.Some? ==>
          r.stub.value < |r.heap| && r.level[r.stub.value] == lv + 1
          && !r.heap[r.stub.value].isLeaf && r.heap[r.stub.value].numValues == 1)
    && r.entryBumps == 1
  }

  /**
   * splitLeaf: a stub (allocated first) and a right leaf (second) join the
   * arena; the stub's one key is the right leaf's key and its children are
   * the old leaf and the right leaf.
   */
  function SplitLeaf(heap: seq<Node>, level: seq<nat>, id: NodeId, val: int, rid: Rid): (r: AddResult)
    requires HeapOk(heap, level) && id < |heap| && heap[id].isLeaf
    ensures AddOk(heap, level, 0, r) && r.stub == Some(|heap|) && r.nodeBumps == 1
    ensures |r.heap| == |heap| + 2
  {
    assert NodeOk(heap, level, id);
    var stubId, rightId := |heap|, |heap| + 1;
    var (node', right) := SplitLeafNodes(heap[id], val, rid, rightId);
    var stub := Fresh.(numValues := 1, values := [right.values[0], 0], children := [Some(id), Some(rightId), None]);
    var h1, l1 := heap + [stub, right], level + [level[id] + 1, 0];
    assert NodeOk(h1, l1, stubId);
    assert NodeOk(h1, l1, rightId);
    HeapOkAppend(heap, level, [stub, right], [level[id] + 1, 0]);
    HeapOkSet(h1, l1, id, node');
    AddResult(h1[id := node'], l1, Some(stubId), 1, 1)
  }

  /**
   * A one-key internal node absorbing a stub: the stub's key becomes the
   * second separator in order, and the stub's two children replace the child
   * the insertion went down.
   */
  function Absorb(node: Node, stub: Node): (r: Node)
    requires Shaped(node) && Shaped(stub) && node.numValues == 1
    ensures Shaped(r) && r.numValues == 2 && r.isLeaf == node.isLeaf
    ensures Ordered2(r.values) && multiset(r.values) == multiset{node.values[0], stub.values[0]}
  {
    var n1 := node.(numValues := node.numValues + 1);
    if stub.values[0] < node.values[0] then
      n1.(values := [stub.values[0], node.values[0]],
          children := [stub.children[0], stub.children[1], node.children[1]])
    else
      n1.(values := [node.values[0], stub.values[0]],
          children := [node.children[0], stub.children[0], stub.children[1]])
  }

  /**
   * The split of a two-key internal node id after its child returned a stub
   * with key sv: a new root (allocated first), a right node (second) and a
   * left node (third), each with one key. The left node takes children 0 and
   * 1 of id and the right node children 1 and 2; the stub's children are not
   * used.
   */
  function SplitInternal(heap: seq<Node>, level: seq<nat>, id: NodeId, sv: int): (r: AddResult)
    requires HeapOk(heap, level) && id < |heap| && !heap[id].isLeaf && heap[id].numValues == 2
    ensures HeapOk(r.heap, r.level) && |r.heap| == |heap| + 3 && r.heap[..|heap|] == heap && r.level[..|heap|] == level
    ensures r.stub == Some(|heap|) && r.level[|heap|] == level[id] + 1
    ensures !r.heap[|heap|].isLeaf && r.heap[|heap|].numValues == 1
  {
    SplitNodesOk(heap, level, id, sv);
    AddResult(heap + SplitNodes(heap[id], sv, |heap|), level + [level[id] + 1, level[id], level[id]], Some(|heap|), 1, 0)
  }

  /**
   * The three nodes the split of the two-key internal node n around sv
   * allocates at base, base + 1 and base + 2: the new root, the right node
   * and the left node.
   */
  function SplitNodes(n: Node, sv: int, base: nat): (ns: seq<Node>)
    requires Shaped(n)
    ensures |ns| == 3 && Shaped(ns[0]) && Shaped(ns[1]) && Shaped(ns[2])
    ensures ns[0].numValues == 1 && ns[1].numValues == 1 && ns[2].numValues == 1
  {
    var mid := if sv < n.values[0] then 0 else if sv < n.values[1] then 1 else 2;
    [ Fresh.(numValues := 1,
        values := [if mid == 0 then n.values[0] else if mid == 1 then sv else n.values[1], 0],
        children := [Some(base + 2), Some(base + 1), None]),
      Fresh.(numValues := 1,
        values := [if mid == 2 then sv else n.values[1], 0],
        children := [n.children[1], n.children[2], None]),
      Fresh.(numValues := 1,
        values := [if mid == 0 then sv else n.values[0], 0],
        children := [n.children[0], n.children[1], None]) ]
  }

  /** The nodes of a split, one level up for the root and the node's own level for the halves, keep the arena well formed. */
  lemma SplitNodesOk(heap: seq<Node>, level: seq<nat>, id: NodeId, sv: int)
    requires HeapOk(heap, level) && id < |heap| && !heap[id].isLeaf && heap[id].numValues == 2
    ensures HeapOk(heap + SplitNodes(heap[id], sv, |heap|), level + [level[id] + 1, level[id], level[id]])
  {
    assert NodeOk(heap, level, id);
    var ns, ls := SplitNodes(heap[id], sv, |heap|), [level[id] + 1, level[id], level[id]];
    assert NodeOk(heap + ns, level + ls, |heap|);
    assert NodeOk(heap + ns, level + ls, |heap| + 1);
    assert NodeOk(heap + ns, level + ls, |heap| + 2);
    HeapOkAppend(heap, level, ns, ls);
  }

  /**
   * addNodeToTree below node id. A leaf with one key takes the key; any other
   * leaf splits. A one-key internal node descends to child 0 if its key is
   * larger than val and to child 1 otherwise, absorbs a returned stub and
   * returns NULL. A two-key internal node descends to child 0, 1 or 2 and
   * splits if a stub comes back.
   */
  function AddNodeToTree(heap: seq<Node>, level: seq<nat>, id: NodeId, val: int, rid: Rid): (r: AddResult)
    requires HeapOk(heap, level) && id < |heap|
    ensures AddOk(heap, level, level[id], r)
    decreases level[id]
  {
    assert NodeOk(heap, level, id);
    var node := heap[id];
    if node.isLeaf then
      if node.numValues == 1 then
        var n' := InsertIntoLeafWithOneValue(node, val, rid);
        HeapOkSet(heap, level, id, n');
        AddResult(heap[id := n'], level, None, 0, 1)
      else
        SplitLeaf(heap, level, id, val, rid)
    else if node.numValues == 1 then
      var sub := AddNodeToTree(heap, level, node.children[if node.values[0] > val then 0 else 1].value, val, rid);
      match sub.stub
      case None => sub
      case Some(st) => AbsorbStub(heap, level, id, sub)
    else
      var index := if node.values[0] > val then 0 else if node.values[1] > val then 1 else 2;
      var sub := AddNodeToTree(heap, level, node.children[index].value, val, rid);
      match sub.stub
      case None => sub
      case Some(st) => SplitStub(heap, level, id, sub)
  }

  /**
   * The two-key internal node id splits around the key of the stub its
   * child's insertion returned, counting one more node; the split's new root
   * goes up.
   */
  function SplitStub(heap: seq<Node>, level: seq<nat>, id: NodeId, sub: AddResult): (r: AddResult)
    requires HeapOk(heap, level) && id < |heap| && !heap[id].isLeaf && heap[id].numValues == 2
    requires AddOk(heap, level, level[id] as int - 1, sub) && sub.stub.Some?
    ensures AddOk(heap, level, level[id], r) && r.stub == Some(|sub.heap|)
    ensures r.nodeBumps == sub.nodeBumps + 1 && r.entryBumps == sub.entryBumps
  {
    assert NodeOk(heap, level, id);
    assert sub.heap[id] == heap[id];
    var s := SplitInternal(sub.heap, sub.level, id, sub.heap[sub.stub.value].values[0]);
    AddResult(s.heap, s.level, s.stub, sub.nodeBumps + 1, sub.entryBumps)
  }

  /** The one-key internal node id absorbs the stub its child's insertion returned, and NULL goes up. */
  function AbsorbStub(heap: seq<Node>, level: seq<nat>, id: NodeId, sub: AddResult): (r: AddResult)
    requires HeapOk(heap, level) && id < |heap| && !heap[id].isLeaf && heap[id].numValues == 1
    requires AddOk(heap, level, level[id] as int - 1, sub) && sub.stub.Some?
    ensures AddOk(heap, level, level[id], r) && r.stub == None
    ensures r.nodeBumps == sub.nodeBumps && r.entryBumps == sub.entryBumps
  {
    assert NodeOk(heap, level, id);
    var st := sub.stub.value;
    assert NodeOk(sub.heap, sub.level, st);
    assert sub.heap[id] == heap[id];
    assert NodeOk(sub.heap, sub.level, id);
    var n' := Absorb(sub.heap[id], sub.heap[st]);
    HeapOkSet(sub.heap, sub.level, id, n');
    AddResult(sub.heap[id := n'], sub.level, None, sub.nodeBumps, sub.entryBumps)
  }

  /** What insertKey leaves behind: the arena, the root, and the counter bumps. */
  datatype InsertResult = InsertResult(heap: seq<Node>, level: seq<nat>, root: NodeId, nodeBumps: nat, entryBumps: nat)

  /**
   * insertKey: an empty root takes the key in slot 0 and counts one node and
   * one entry; otherwise the key goes down addNodeToTree, and a returned stub
   * becomes the new root and counts one more node.
   */
  function InsertKey(heap: seq<Node>, level: seq<nat>, root: NodeId, val: int, rid: Rid): (r: InsertResult)
    requires HeapOk(heap, level) && root < |heap|
    ensures HeapOk(r.heap, r.level) && r.root < |r.heap| && |heap| <= |r.heap|
    ensures forall j :: 0 <= j < |heap| ==> r.level[j] == level[j]
  {
    assert NodeOk(heap, level, root);
    var n := heap[root];
    if n.numValues == 0 then
      var n' := n.(rids := n.rids[0 := rid], values := n.values[0 := val], numValues := 1);
      HeapOkSet(heap, level, root, n');
      InsertResult(heap[root := n'], level, root, 1, 1)
    else
      var a := AddNodeToTree(heap, level, root, val, rid);
      match a.stub
      case None => InsertResult(a.heap, a.level, root, a.nodeBumps, a.entryBumps)
      case Some(st) => InsertResult(a.heap, a.level, st, a.nodeBumps + 1, a.entryBumps)
  }

  // ------------------------------------------------------------ lookup

  /**
   * The child findKey follows from node n: the number of leading keys, from
   * slot k on, that val is at least.
   */
  function ChildIndex(n: Node, val: int, k: nat): (r: nat)
    requires Shaped(n) && k <= n.numValues
    ensures k <= r <= n.numValues
    ensures forall j :: k <= j < r ==> n.values[j] <= val
    ensures r < n.numValues ==> val < n.values[r]
    decreases n.numValues - k
  {
    if k < n.numValues && val >= n.values[k] then ChildIndex(n, val, k + 1) else k
  }

  /** The leaf findKey reaches from node id. */
  function FindLeaf(heap: seq<Node>, level: seq<nat>, id: NodeId, val: int): (leaf: NodeId)
    requires HeapOk(heap, level) && id < |heap|
    ensures leaf < |heap| && heap[leaf].isLeaf
    decreases level[id]
  {
    assert NodeOk(heap, level, id);
    var n := heap[id];
    if n.isLeaf then id
    else
      var c := n.children[ChildIndex(n, val, 0)].value;
      assert NodeOk(heap, level, c);
      FindLeaf(heap, level, c, val)
  }

  /**
   * The first live slot, from slot i on, among the node's numValues slots
   * that holds val; findKey and deleteKeyFromLeaf both look for it.
   */
  function LiveSlot(n: Node, val: int, i: nat): (r: Option<nat>)
    requires Shaped(n) && i <= n.numValues
    ensures r.Some? ==>
      && i <= r.value < n.numValues && n.values[r.value] == val && !n.isDeleted[r.value]
      && forall j :: i <= j < r.value ==> n.values[j] != val || n.isDeleted[j]
    ensures r.None? ==> forall j :: i <= j < n.numValues ==> n.values[j] != val || n.isDeleted[j]
    decreases n.numValues - i
  {
    if i == n.numValues then None
    else if n.values[i] == val && !n.isDeleted[i] then Some(i)
    else LiveSlot(n, val, i + 1)
  }

  /** findKey: the RID of val's first live slot in the leaf it reaches, or KEY_NOT_FOUND. */
  function FindKey(heap: seq<Node>, level: seq<nat>, root: NodeId, val: int): (r: Result<Rid>)
    requires HeapOk(heap, level) && root < |heap|
    ensures var leaf := FindLeaf(heap, level, root, val);
      && leaf < |heap| && Shaped(heap[leaf])
      && (r.Success? ==> exists i :: 0 <= i < heap[leaf].numValues && heap[leaf].values[i] == val
                                     && !heap[leaf].isDeleted[i] && heap[leaf].rids[i] == r.value)
      && (r.Failure? ==> r.error == ImKeyNotFound
                         && forall i :: 0 <= i < heap[leaf].numValues ==> heap[leaf].values[i] != val || heap[leaf].isDeleted[i])
  {
    var leaf := FindLeaf(heap, level, root, val);
    assert NodeOk(heap, level, leaf);
    match LiveSlot(heap[leaf], val, 0)
    case Some(i) => Success(heap[leaf].rids[i])
    case None => Failure(ImKeyNotFound)
  }

  // ------------------------------------------------------------ deletion

  /**
   * getChildIndex, deleteKey's own choice of child: 0 below the first key, 1
   * below a positive second key, 2 otherwise.
   */
  function GetChildIndex(n: Node, val: int): (r: nat)
    requires Shaped(n)
    ensures r <= 2
    ensures r == 0 <==> val < n.values[0]
    ensures r == 1 <==> n.values[0] <= val < n.values[1] && n.values[1] > 0
  {
    if val < n.values[0] then 0
    else if n.values[1] > 0 && val < n.values[1] then 1
    else 2
  }

  /**
   * How deleteKeyHelper ends: the tombstone set (with the new arena), the key
   * not found in the leaf reached, or a descent into a NULL child, which the
   * C code dereferences.
   */
  datatype DeleteOutcome = Deleted(heap: seq<Node>) | KeyNotFound | NullChild

  /** Sets the tombstone of slot i. */
  function Tombstone(heap: seq<Node>, level: seq<nat>, id: NodeId, i: nat): (r: seq<Node>)
    requires HeapOk(heap, level) && id < |heap|
    requires Shaped(heap[id]) && i < 2
    ensures HeapOk(r, level) && |r| == |heap|
  {
    assert NodeOk(heap, level, id);
    var n' := heap[id].(isDeleted := heap[id].isDeleted[i := true]);
    HeapOkSet(heap, level, id, n');
    heap[id := n']
  }

  /**
   * deleteKeyHelper from node id: a leaf tombstones val's first live slot;
   * an internal node descends to the child getChildIndex picks.
   */
  function DeleteKey(heap: seq<Node>, level: seq<nat>, id: NodeId, val: int): (r: DeleteOutcome)
    requires HeapOk(heap, level) && id < |heap|
    ensures r.Deleted? ==> HeapOk(r.heap, level) && |r.heap| == |heap|
    decreases level[id]
  {
    assert NodeOk(heap, level, id);
    var n := heap[id];
    if n.isLeaf then
      match LiveSlot(n, val, 0)
      case None => KeyNotFound
      case Some(i) => Deleted(Tombstone(heap, level, id, i))
    else
      match n.children[GetChildIndex(n, val)]
      case None => NullChild
      case Some(c) => DeleteKey(heap, level, c, val)
  }

  /**
   * Deletion that descends the way findKey does: it tombstones val's first
   * live slot in the leaf findKey reaches.
   */
  function DeleteKeyOnFindPath(heap: seq<Node>, level: seq<nat>, root: NodeId, val: int): (r: DeleteOutcome)
    requires HeapOk(heap, level) && root < |heap|
    ensures !r.NullChild?
    ensures r.Deleted? ==> HeapOk(r.heap, level) && |r.heap| == |heap|
  {
    var leaf := FindLeaf(heap, level, root, val);
    assert NodeOk(heap, level, leaf);
    match LiveSlot(heap[leaf], val, 0)
    case None => KeyNotFound
    case Some(i) => Deleted(Tombstone(heap, level, leaf, i))
  }

  // ------------------------------------------------------------ scan

  /** findLeftmostLeaf: follow children[0] down to a leaf. */
  function LeftmostLeaf(heap: seq<Node>, level: seq<nat>, id: NodeId): (r: NodeId)
    requires HeapOk(heap, level) && id < |heap|
    ensures r < |heap| && heap[r].isLeaf
    decreases level[id]
  {
    assert NodeOk(heap, level, id);
    if heap[id].isLeaf then id
    else
      var c := heap[id].children[0].value;
      assert NodeOk(heap, level, c);
      LeftmostLeaf(heap, level, c)
  }

  /**
   * A scan cursor: the node the scan handle points at and the scan position
   * (1: first slot next, 2: second slot next, -1: finished).
   */
  datatype Cursor = Cursor(node: Option<NodeId>, position: int)

  /** The cursor openTreeScan sets up: the leftmost leaf, position 1. */
  function OpenTreeScan(heap: seq<Node>, level: seq<nat>, root: NodeId): (c: Cursor)
    requires HeapOk(heap, level) && root < |heap|
    ensures c.node.Some? && c.node.value < |heap| && heap[c.node.value].isLeaf && c.position == 1
  {
    Cursor(Some(LeftmostLeaf(heap, level, root)), 1)
  }

  /** storeResultValues: the RID is written to the result only when both parts are non-negative. */
  function StoreResult(rid: Rid): (r: Option<Rid>)
    ensures r.Some? <==> rid.page >= 0 && rid.slot >= 0
    ensures r.Some? ==> r.value == rid
  {
    if rid.page < 0 || rid.slot < 0 then None else Some(rid)
  }

  /** One call of nextEntry: the new cursor, the return code, and the RID written to the result, if any. */
  datatype ScanStep = ScanStep(cursor: Cursor, rc: RC, result: Option<Rid>)

  predicate CursorOk(heap: seq<Node>, c: Cursor)
  {
    c.node.Some? ==> c.node.value < |heap|
  }

  /**
   * nextEntry: position 1 yields the node's first RID and moves to position
   * 2; position 2 with a non-zero second key yields the second RID and moves
   * to the right sibling at position 1 (or finishes if that RID is negative);
   * otherwise the scan moves to the right sibling and yields its first RID.
   */
  function NextEntry(heap: seq<Node>, level: seq<nat>, c: Cursor): (r: ScanStep)
    requires HeapOk(heap, level) && CursorOk(heap, c)
    ensures CursorOk(heap, r.cursor)
    ensures r.rc == Ok || r.rc == ImNoMoreEntries
    ensures r.rc == ImNoMoreEntries ==> r.result == None
  {
    match c.node
    case None => ScanStep(c, ImNoMoreEntries, None)
    case Some(id) =>
      assert NodeOk(heap, level, id);
      var n := heap[id];
      if c.position == -1 then ScanStep(c, ImNoMoreEntries, None)
      else if c.position == 1 then ScanStep(Cursor(c.node, 2), Ok, StoreResult(n.rids[0]))
      else if c.position == 2 && n.values[1] != 0 then
        var stored := StoreResult(n.rids[1]);
        if stored.Some? then ScanStep(Cursor(n.children[2], 1), Ok, stored)
        else ScanStep(Cursor(c.node, -1), Ok, None)
      else
        match n.children[2]
        case None => ScanStep(Cursor(None, c.position), ImNoMoreEntries, None)
        case Some(m) =>
          assert NodeOk(heap, level, m);
          ScanStep(Cursor(Some(m), 2), Ok, StoreResult(heap[m].rids[0]))
  }

  // ------------------------------------------------------------ registry

  /** The most trees the registry holds. */
  const MAX_NODES: nat := 100

  /** A BTreeHandle: the key type, the index id and the root pointer. */
  datatype TreeHandle = TreeHandle(keyType: DataType, idxId: string, root: NodeId)

  /** A registry entry: the tree's handle (an index into the handles ever allocated) and its counters. */
  datatype Instance = Instance(tree: nat, numNodes: nat, numEntries: nat)

  /** Every registry slot names an allocated handle. */
  predicate RegistryOk(handles: seq<TreeHandle>, instances: seq<Instance>)
  {
    forall j :: 0 <= j < |instances| ==> instances[j].tree < |handles|
  }

  /** The first registry slot, from slot i on, that holds tree. */
  function FindInstance(instances: seq<Instance>, tree: nat, i: nat): (r: Option<nat>)
    requires i <= |instances|
    ensures r.Some? ==>
      && i <= r.value < |instances| && instances[r.value].tree == tree
      && forall j :: i <= j < r.value ==> instances[j].tree != tree
    ensures r.None? ==> forall j :: i <= j < |instances| ==> instances[j].tree != tree
    decreases |instances| - i
  {
    if i == |instances| then None
    else if instances[i].tree == tree then Some(i)
    else FindInstance(instances, tree, i + 1)
  }

  /**
   * dn calls of updateNodeCount and de calls of updateEntryCount: the first
   * slot holding tree gains dn nodes and de entries; without such a slot
   * nothing changes.
   */
  function Bump(instances: seq<Instance>, tree: nat, dn: nat, de: nat): (r: seq<Instance>)
    ensures |r| == |instances|
    ensures forall j :: 0 <= j < |r| ==> r[j].tree == instances[j].tree
  {
    match FindInstance(instances, tree, 0)
    case None => instances
    case Some(i) =>
      instances[i := instances[i].(numNodes := instances[i].numNodes + dn, numEntries := instances[i].numEntries + de)]
  }

  /** The counters of tree, looked up by handle. */
  function Counters(instances: seq<Instance>, tree: nat): (r: Option<(nat, nat)>)
    ensures r.None? <==> forall j :: 0 <= j < |instances| ==> instances[j].tree != tree
    ensures r.Some? ==>
      exists j :: 0 <= j < |instances| && instances[j].tree == tree && r.value == (instances[j].numNodes, instances[j].numEntries)
  {
    match FindInstance(instances, tree, 0)
    case None => None
    case Some(i) => Some((instances[i].numNodes, instances[i].numEntries))
  }

  /** openBtree: the handle of the first tree whose id equals idxId. */
  function OpenBtree(handles: seq<TreeHandle>, instances: seq<Instance>, idxId: string, i: nat): (r: Option<nat>)
    requires i <= |instances|
    requires RegistryOk(handles, instances)
    ensures r.Some? ==>
      r.value < |handles| && handles[r.value].idxId == idxId && exists j :: i <= j < |instances| && instances[j].tree == r.value
    ensures r.None? ==> forall j :: i <= j < |instances| ==> handles[instances[j].tree].idxId != idxId
    decreases |instances| - i
  {
    if i == |instances| then None
    else if handles[instances[i].tree].idxId == idxId then Some(instances[i].tree)
    else OpenBtree(handles, instances, idxId, i + 1)
  }

  /** The first slot, from slot i on, whose tree's id starts with idxId (the strncmp test of deleteBtree). */
  function DeleteSlot(handles: seq<TreeHandle>, instances: seq<Instance>, idxId: string, i: nat): (r: Option<nat>)
    requires i <= |instances|
    requires RegistryOk(handles, instances)
    ensures r.Some? ==> i <= r.value < |instances| && idxId <= handles[instances[r.value].tree].idxId
    ensures r.Some? ==> forall j :: i <= j < r.value ==> !(idxId <= handles[instances[j].tree].idxId)
    ensures r.None? ==> forall j :: i <= j < |instances| ==> !(idxId <= handles[instances[j].tree].idxId)
    decreases |instances| - i
  {
    if i == |instances| then None
    else if idxId <= handles[instances[i].tree].idxId then Some(i)
    else DeleteSlot(handles, instances, idxId, i + 1)
  }

  /** deleteBtree's removal of slot i: the last slot moves into it. */
  function RemoveSlot(instances: seq<Instance>, i: nat): (r: seq<Instance>)
    requires i < |instances|
    ensures |r| == |instances| - 1
    ensures multiset(r) == multiset(instances) - multiset{instances[i]}
  {
    var last := |instances| - 1;
    var r := instances[i := instances[last]][..last];
    assert instances == instances[..last] + [instances[last]];
    if i == last then
      assert r == instances[..last];
      r
    else
      assert instances[..last] == instances[..i] + [instances[i]] + instances[i + 1..last];
      assert r == instances[..i] + [instances[last]] + instances[i + 1..last];
      r
  }

  /** Slot i is the first registry slot whose tree's id starts with idxId. */
  predicate FirstPrefixMatch(handles: seq<TreeHandle>, instances: seq<Instance>, idxId: string, i: nat)
    requires RegistryOk(handles, instances)
  {
    && i < |instances| && idxId <= handles[instances[i].tree].idxId
    && forall j :: 0 <= j < i ==> !(idxId <= handles[instances[j].tree].idxId)
  }

  /**
   * deleteBtree: the first tree whose id starts with idxId leaves the
   * registry, the last slot taking its place; without one, nothing changes.
   */
  function DeleteBtree(handles: seq<TreeHandle>, instances: seq<Instance>, idxId: string): (r: seq<Instance>)
    requires RegistryOk(handles, instances)
    ensures RegistryOk(handles, r)
    ensures |r| == |instances| || |r| == |instances| - 1
    ensures (forall j :: 0 <= j < |instances| ==> !(idxId <= handles[instances[j].tree].idxId)) ==> r == instances
    ensures forall i: nat :: FirstPrefixMatch(handles, instances, idxId, i) ==>
      |r| == |instances| - 1 && multiset(r) == multiset(instances) - multiset{instances[i]}
  {
    match DeleteSlot(handles, instances, idxId, 0)
    case None =>
      assert forall i: nat :: !FirstPrefixMatch(handles, instances, idxId, i);
      instances
    case Some(i) =>
      var r := RemoveSlot(instances, i);
      assert forall j :: 0 <= j < |r| ==> r[j] in multiset(instances);
      assert forall k: nat :: FirstPrefixMatch(handles, instances, idxId, k) ==> k == i;
      r
  }
}
