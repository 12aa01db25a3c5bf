/**
 * The index manager of assign4_b+-tree/btree_mgr.c as objects: the node
 * arena, the allocated tree handles and the registry of trees are fields the
 * operations update in place. Each operation is proved to leave the state the
 * matching function of BTreeSpec describes.
 */
module BTreeMgr {
  import opened DbError
  import opened Tables
  import opened BTreeSpec
  import BTreeProps

  class IndexManager {
    /** Every TreeNode ever allocated; a node pointer is an index into it. */
    var nodes: seq<Node>
    /** The level of every node, fixed when it is allocated. */
    ghost var level: seq<nat>
    /** Every BTreeHandle ever allocated; a tree handle is an index into it. */
    var handles: seq<TreeHandle>
    /** btreeInstances[0 .. currentInstanceIndex). */
    var instances: seq<Instance>

    ghost predicate Valid()
      reads this
    {
      && HeapOk(nodes, level)
      && (forall t :: 0 <= t < |handles| ==> handles[t].root < |nodes|)
      && RegistryOk(handles, instances)
      && |instances| <= MAX_NODES
    }

    /** initIndexManager: no trees. */
    constructor ()
      ensures Valid() && nodes == [] && handles == [] && instances == []
    {
      nodes, level, handles, instances := [], [], [], [];
    }

    /**
     * createBtree: a handle with an empty root leaf joins the registry with
     * zero nodes and zero entries. The order n is not used.
     */
    method CreateBtree(idxId: string, keyType: DataType, n: int) returns (rc: RC)
      requires Valid() && |instances| < MAX_NODES
      modifies this
      ensures Valid() && rc == Ok
      ensures nodes == old(nodes) + [EmptyRoot] && level == old(level) + [0]
      ensures handles == old(handles) + [TreeHandle(keyType, idxId, |old(nodes)|)]
      ensures instances == old(instances) + [Instance(|old(handles)|, 0, 0)]
    {
      var tree := |handles|;
      var root := |nodes|;
      var rootNode := Fresh;
      rootNode := rootNode.(numValues := 0);
      rootNode := rootNode.(isLeaf := true);
      nodes := nodes + [rootNode];
      level := level + [0];
      handles := handles + [TreeHandle(keyType, idxId, root)];
      instances := instances + [Instance(tree, 0, 0)];
      assert NodeOk(nodes, level, root);
      HeapOkAppend(old(nodes), old(level), [EmptyRoot], [0]);
      rc := Ok;
    }

    /** openBtree: the handle of the first registered tree whose id equals idxId. */
    method OpenBtree(idxId: string) returns (tree: Option<nat>)
      requires Valid()
      ensures tree == BTreeSpec.OpenBtree(handles, instances, idxId, 0)
    {
      for i := 0 to |instances|
        invariant BTreeSpec.OpenBtree(handles, instances, idxId, i) == BTreeSpec.OpenBtree(handles, instances, idxId, 0)
      {
        if handles[instances[i].tree].idxId == idxId {
          return Some(instances[i].tree);
        }
      }
      return None;
    }

    /**
     * deleteBtree: the first tree whose id starts with idxId leaves the
     * registry and the last slot moves into its place; found says whether
     * there was one.
     */
    method DeleteBtree(idxId: string) returns (found: bool)
      requires Valid()
      modifies this
      ensures Valid()
      ensures instances == BTreeSpec.DeleteBtree(old(handles), old(instances), idxId)
      ensures found <==> DeleteSlot(old(handles), old(instances), idxId, 0).Some?
      ensures nodes == old(nodes) && level == old(level) && handles == old(handles)
    {
      for i := 0 to |instances|
        invariant DeleteSlot(handles, instances, idxId, i) == DeleteSlot(handles, instances, idxId, 0)
      {
        if idxId <= handles[instances[i].tree].idxId {
          assert DeleteSlot(handles, instances, idxId, 0) == Some(i);
          ghost var removed := RemoveSlot(instances, i);
          var last := |instances| - 1;
          instances := instances[i := instances[last]][..last];
          assert instances == removed;
          return true;
        }
      }
      return false;
    }

    /** The first registry slot holding tree. */
    method FindSlot(tree: nat) returns (slot: Option<nat>)
      ensures slot == FindInstance(instances, tree, 0)
    {
      for i := 0 to |instances|
        invariant FindInstance(instances, tree, i) == FindInstance(instances, tree, 0)
      {
        if instances[i].tree == tree {
          return Some(i);
        }
      }
      return None;
    }

    /** updateNodeCount: the first slot holding tree gains a node. */
    method UpdateNodeCount(tree: nat)
      modifies this
      ensures instances == Bump(old(instances), tree, 1, 0)
      ensures nodes == old(nodes) && level == old(level) && handles == old(handles)
    {
      var slot := FindSlot(tree);
      if slot.Some? {
        var i := slot.value;
        instances := instances[i := instances[i].(numNodes := instances[i].numNodes + 1)];
      }
    }

    /** updateEntryCount: the first slot holding tree gains an entry. */
    method UpdateEntryCount(tree: nat)
      modifies this
      ensures instances == Bump(old(instances), tree, 0, 1)
      ensures nodes == old(nodes) && level == old(level) && handles == old(handles)
    {
      var slot := FindSlot(tree);
      if slot.Some? {
        var i := slot.value;
        instances := instances[i := instances[i].(numEntries := instances[i].numEntries + 1)];
      }
    }

    /** getNumNodes, looking the tree up by handle. */
    method GetNumNodes(tree: nat) returns (result: Option<nat>)
      ensures result == if Counters(instances, tree).Some? then Some(Counters(instances, tree).value.0) else None
    {
      var slot := FindSlot(tree);
      if slot.Some? {
        result := Some(instances[slot.value].numNodes);
      } else {
        result := None;
      }
    }

    /** getNumEntries, looking the tree up by handle. */
    method GetNumEntries(tree: nat) returns (result: Option<nat>)
      ensures result == if Counters(instances, tree).Some? then Some(Counters(instances, tree).value.1) else None
    {
      var slot := FindSlot(tree);
      if slot.Some? {
        result := Some(instances[slot.value].numEntries);
      } else {
        result := None;
      }
    }

    /** getKeyType: the key type the tree was created with. */
    method GetKeyType(tree: nat) returns (rc: RC, keyType: DataType)
      requires tree < |handles|
      ensures rc == Ok && keyType == handles[tree].keyType
    {
      return Ok, handles[tree].keyType;
    }

    /**
     * findKey: descend from the root, at each internal node past the keys
     * val is at least, then return the RID of val's first live slot in the
     * leaf.
     */
    method FindKey(tree: nat, val: int) returns (rc: RC, result: Option<Rid>)
      requires Valid() && tree < |handles|
      ensures var f := BTreeSpec.FindKey(nodes, level, handles[tree].root, val);
        && (f.Success? ==> rc == Ok && result == Some(f.value))
        && (f.Failure? ==> rc == f.error && result == None)
    {
      var root := handles[tree].root;
      assert root < |nodes|;
      var node: NodeId := root;
      while !nodes[node].isLeaf
        invariant node < |nodes| && root < |nodes|
        invariant FindLeaf(nodes, level, node, val) == FindLeaf(nodes, level, root, val)
        decreases level[node]
      {
        assert NodeOk(nodes, level, node);
        var childIndex := 0;
        while childIndex < nodes[node].numValues && val >= nodes[node].values[childIndex]
          invariant childIndex <= nodes[node].numValues
          invariant ChildIndex(nodes[node], val, childIndex) == ChildIndex(nodes[node], val, 0)
          decreases nodes[node].numValues - childIndex
        {
          childIndex := childIndex + 1;
        }
        node := nodes[node].children[childIndex].value;
        assert NodeOk(nodes, level, node);
      }
      assert NodeOk(nodes, level, node);
      var n := nodes[node];
      for i := 0 to n.numValues
        invariant LiveSlot(n, val, i) == LiveSlot(n, val, 0)
      {
        if n.values[i] == val && !n.isDeleted[i] {
          return Ok, Some(n.rids[i]);
        }
      }
      return ImKeyNotFound, None;
    }

    /** insertIntoLeafWithOneValue: the leaf id takes its second key, and the entry is counted. */
    method InsertIntoLeafWithOneValue(tree: nat, id: NodeId, val: int, rid: Rid)
      requires HeapOk(nodes, level) && id < |nodes| && nodes[id].isLeaf && nodes[id].numValues == 1
      modifies this
      ensures nodes == old(nodes)[id := BTreeSpec.InsertIntoLeafWithOneValue(old(nodes)[id], val, rid)]
      ensures level == old(level) && handles == old(handles)
      ensures instances == Bump(old(instances), tree, 0, 1)
    {
      assert NodeOk(nodes, level, id);
      var node := nodes[id];
      node := node.(numValues := node.numValues + 1);
      if node.values[0] > val {
        node := node.(values := [val, node.values[0]], rids := [rid, node.rids[0]]);
      } else {
        node := node.(values := [node.values[0], val], rids := [node.rids[0], rid]);
      }
      nodes := nodes[id := node];
      UpdateEntryCount(tree);
    }

    /**
     * splitLeaf: allocate the stub and then the right leaf, splice the right
     * leaf after the leaf, share the three keys out, and count one node and
     * one entry.
     */
    method SplitLeaf(tree: nat, id: NodeId, val: int, rid: Rid) returns (stub: NodeId)
      requires HeapOk(nodes, level) && id < |nodes| && nodes[id].isLeaf
      modifies this
      ensures var r := BTreeSpec.SplitLeaf(old(nodes), old(level), id, val, rid);
        nodes == r.heap && level == r.level && Some(stub) == r.stub
        && instances == Bump(old(instances), tree, r.nodeBumps, r.entryBumps)
      ensures handles == old(handles)
    {
      assert NodeOk(nodes, level, id);
      var newRoot := |nodes|;
      var right := newRoot + 1;
      var node := nodes[id];
      var r := Fresh.(isLeaf := true, numValues := 1, children := [None, None, node.children[2]]);
      node := node.(children := node.children[2 := Some(right)]);
      if val < node.values[0] {
        r := r.(values := [node.values[1], 0], rids := [node.rids[1], Rid(0, 0)]);
        node := node.(values := [val, node.values[0]], rids := [rid, node.rids[0]]);
      } else if val < node.values[1] {
        r := r.(values := [node.values[1], 0], rids := [node.rids[1], Rid(0, 0)]);
        node := node.(values := [node.values[0], val], rids := [node.rids[0], rid]);
      } else {
        r := r.(values := [val, 0], rids := [rid, Rid(0, 0)]);
      }
      var s := Fresh.(numValues := 1, values := [r.values[0], 0], children := [Some(id), Some(right), None]);
      nodes := nodes[id := node] + [s, r];
      level := level + [level[id] + 1, 0];
      CountNodeAndEntry(tree);
      return newRoot;
    }

    /** updateNodeCount then updateEntryCount: the tree gains a node and an entry. */
    method CountNodeAndEntry(tree: nat)
      modifies this
      ensures instances == Bump(old(instances), tree, 1, 1)
      ensures nodes == old(nodes) && level == old(level) && handles == old(handles)
    {
      UpdateNodeCount(tree);
      UpdateEntryCount(tree);
      BTreeProps.BumpsAdd(old(instances), tree, 1, 0, 0, 1);
    }

    /**
     * addNodeToTree below node id: the leaf cases, the absorbing of a stub by
     * a one-key internal node, and the split of a two-key internal node into
     * a new root (allocated first), a right node and a left node.
     */
    method AddNodeToTree(tree: nat, id: NodeId, val: int, rid: Rid) returns (stub: Option<NodeId>)
      requires HeapOk(nodes, level) && id < |nodes|
      modifies this
      ensures var r := BTreeSpec.AddNodeToTree(old(nodes), old(level), id, val, rid);
        nodes == r.heap && level == r.level && stub == r.stub
        && instances == Bump(old(instances), tree, r.nodeBumps, r.entryBumps)
      ensures handles == old(handles)
      decreases level[id], 1
    {
      assert NodeOk(nodes, level, id);
      var node := nodes[id];
      if node.isLeaf {
        if node.numValues == 1 {
          InsertIntoLeafWithOneValue(tree, id, val, rid);
          return None;
        }
        var s := SplitLeaf(tree, id, val, rid);
        return Some(s);
      }
      if node.numValues == 1 {
        stub := AddBelowOneKey(tree, id, val, rid);
      } else {
        stub := AddBelowTwoKeys(tree, id, val, rid);
      }
    }

    /**
     * addNodeToTree at the one-key internal node id: descend to child 0 if
     * its key is larger than val and to child 1 otherwise, absorb a returned
     * stub, and return NULL.
     */
    method AddBelowOneKey(tree: nat, id: NodeId, val: int, rid: Rid) returns (stub: Option<NodeId>)
      requires HeapOk(nodes, level) && id < |nodes| && !nodes[id].isLeaf && nodes[id].numValues == 1
      modifies this
      ensures var r := BTreeSpec.AddNodeToTree(old(nodes), old(level), id, val, rid);
        nodes == r.heap && level == r.level && stub == r.stub
        && instances == Bump(old(instances), tree, r.nodeBumps, r.entryBumps)
      ensures handles == old(handles)
      decreases level[id], 0
    {
      assert NodeOk(nodes, level, id);
      var node := nodes[id];
      var child := node.children[if node.values[0] > val then 0 else 1].value;
      assert level[child] == level[id] - 1;
      ghost var sub := BTreeSpec.AddNodeToTree(nodes, level, child, val, rid);
      var st := AddNodeToTree(tree, child, val, rid);
      if st.Some? {
        AbsorbStub(id, st.value, old(nodes), old(level), sub);
      }
      return None;
    }

    /**
     * addNodeToTree at the two-key internal node id: descend to child 0, 1
     * or 2, and split id if a stub comes back.
     */
    method AddBelowTwoKeys(tree: nat, id: NodeId, val: int, rid: Rid) returns (stub: Option<NodeId>)
      requires HeapOk(nodes, level) && id < |nodes| && !nodes[id].isLeaf && nodes[id].numValues == 2
      modifies this
      ensures var r := BTreeSpec.AddNodeToTree(old(nodes), old(level), id, val, rid);
        nodes == r.heap && level == r.level && stub == r.stub
        && instances == Bump(old(instances), tree, r.nodeBumps, r.entryBumps)
      ensures handles == old(handles)
      decreases level[id], 0
    {
      assert NodeOk(nodes, level, id);
      var node := nodes[id];
      var index := if node.values[0] > val then 0 else if node.values[1] > val then 1 else 2;
      var child := node.children[index].value;
      assert level[child] == level[id] - 1;
      ghost var sub := BTreeSpec.AddNodeToTree(nodes, level, child, val, rid);
      var st := AddNodeToTree(tree, child, val, rid);
      if st.None? {
        return None;
      }
      var newRoot := SplitOnStub(tree, id, st.value, old(nodes), old(level), old(instances), sub);
      return Some(newRoot);
    }

    /** The split of the two-key internal node id once its child's insertion sub returned the stub st. */
    method SplitOnStub(tree: nat, id: NodeId, st: NodeId, ghost heap: seq<Node>, ghost lv: seq<nat>,
                       ghost before: seq<Instance>, ghost sub: AddResult)
      returns (newRoot: NodeId)
      requires HeapOk(heap, lv) && id < |heap| && !heap[id].isLeaf && heap[id].numValues == 2
      requires AddOk(heap, lv, lv[id] as int - 1, sub) && sub.stub == Some(st)
      requires nodes == sub.heap && level == sub.level
      requires instances == Bump(before, tree, sub.nodeBumps, sub.entryBumps)
      modifies this
      ensures var r := SplitStub(heap, lv, id, sub);
        nodes == r.heap && level == r.level && Some(newRoot) == r.stub
        && instances == Bump(before, tree, r.nodeBumps, r.entryBumps)
      ensures handles == old(handles)
    {
      assert NodeOk(heap, lv, id);
      assert nodes[id] == heap[id];
      newRoot := SplitInternal(tree, id, nodes[st].values[0]);
      BTreeProps.BumpsAdd(before, tree, sub.nodeBumps, sub.entryBumps, 1, 0);
    }

    /**
     * The one-key internal node id absorbs the stub st its child's insertion
     * returned: the stub's key becomes the second separator, in order, and
     * the stub's children replace the child the insertion went down.
     */
    method AbsorbStub(id: NodeId, st: NodeId, ghost heap: seq<Node>, ghost lv: seq<nat>, ghost sub: AddResult)
      requires HeapOk(heap, lv) && id < |heap| && !heap[id].isLeaf && heap[id].numValues == 1
      requires AddOk(heap, lv, lv[id] as int - 1, sub) && sub.stub == Some(st)
      requires nodes == sub.heap && level == sub.level
      modifies this
      ensures var r := BTreeSpec.AbsorbStub(heap, lv, id, sub); nodes == r.heap && level == r.level
      ensures handles == old(handles) && instances == old(instances)
    {
      assert NodeOk(heap, lv, id);
      assert NodeOk(nodes, level, st);
      var node := nodes[id];
      var stub := nodes[st];
      node := node.(numValues := node.numValues + 1);
      if stub.values[0] < node.values[0] {
        node := node.(values := [stub.values[0], node.values[0]],
                      children := [stub.children[0], stub.children[1], node.children[1]]);
      } else {
        node := node.(values := [node.values[0], stub.values[0]],
                      children := [node.children[0], stub.children[0], stub.children[1]]);
      }
      nodes := nodes[id := node];
    }

    /**
     * The split of the two-key internal node id after its child returned a
     * stub with key sv: a new root, a right node and a left node, allocated
     * in that order, and one more node counted.
     */
    method SplitInternal(tree: nat, id: NodeId, sv: int) returns (newRoot: NodeId)
      requires HeapOk(nodes, level) && id < |nodes| && !nodes[id].isLeaf && nodes[id].numValues == 2
      modifies this
      ensures var r := BTreeSpec.SplitInternal(old(nodes), old(level), id, sv);
        nodes == r.heap && level == r.level && Some(newRoot) == r.stub
      ensures handles == old(handles) && instances == Bump(old(instances), tree, 1, 0)
    {
      assert NodeOk(nodes, level, id);
      var node := nodes[id];
      UpdateNodeCount(tree);
      newRoot := |nodes|;
      var right, left := |nodes| + 1, |nodes| + 2;
      var mid := if sv < node.values[0] then 0 else if sv < node.values[1] then 1 else 2;
      var nr := Fresh.(numValues := 1, children := [Some(left), Some(right), None]);
      var rn := Fresh.(numValues := 1, children := [node.children[1], node.children[2], None]);
      var ln := Fresh.(numValues := 1, children := [node.children[0], node.children[1], None]);
      if mid == 0 {
        nr := nr.(values := [node.values[0], 0]);
        ln := ln.(values := [sv, 0]);
        rn := rn.(values := [node.values[1], 0]);
      } else if mid == 1 {
        nr := nr.(values := [sv, 0]);
        ln := ln.(values := [node.values[0], 0]);
        rn := rn.(values := [node.values[1], 0]);
      } else {
        nr := nr.(values := [node.values[1], 0]);
        ln := ln.(values := [node.values[0], 0]);
        rn := rn.(values := [sv, 0]);
      }
      nodes := nodes + [nr, rn, ln];
      level := level + [level[id] + 1, level[id], level[id]];
    }

    /**
     * insertKey: an empty root takes the key in slot 0; otherwise the key
     * goes down addNodeToTree and a returned stub becomes the root.
     */
    method InsertKey(tree: nat, val: int, rid: Rid) returns (rc: RC)
      requires Valid() && tree < |handles|
      modifies this
      ensures Valid() && rc == Ok
      ensures var r := BTreeSpec.InsertKey(old(nodes), old(level), old(handles[tree].root), val, rid);
        && nodes == r.heap && level == r.level
        && handles == old(handles)[tree := old(handles[tree]).(root := r.root)]
        && instances == Bump(old(instances), tree, r.nodeBumps, r.entryBumps)
    {
      var newRoot := InsertAt(tree, handles[tree].root, val, rid);
      handles := handles[tree := handles[tree].(root := newRoot)];
      assert forall t :: 0 <= t < |handles| ==> handles[t].root < |nodes| by {
        assert forall t :: 0 <= t < |old(handles)| ==> old(handles)[t].root < |old(nodes)|;
      }
      return Ok;
    }

    /** insertKey below the root node root: the empty-root case or addNodeToTree. */
    method InsertAt(tree: nat, root: NodeId, val: int, rid: Rid) returns (newRoot: NodeId)
      requires HeapOk(nodes, level) && root < |nodes|
      modifies this
      ensures var r := BTreeSpec.InsertKey(old(nodes), old(level), root, val, rid);
        && nodes == r.heap && level == r.level && newRoot == r.root
        && instances == Bump(old(instances), tree, r.nodeBumps, r.entryBumps)
      ensures handles == old(handles)
    {
      if nodes[root].numValues == 0 {
        FillEmptyRoot(tree, root, val, rid);
        newRoot := root;
      } else {
        ghost var heap0, level0, instances0 := nodes, level, instances;
        ghost var a := BTreeSpec.AddNodeToTree(heap0, level0, root, val, rid);
        newRoot := InsertBelowRoot(tree, root, val, rid);
        InsertKeyBelowRoot(heap0, level0, root, val, rid, a, tree, instances0, instances);
      }
    }

    /**
     * insertKey on a non-empty root: addNodeToTree from the root, and a
     * returned stub is the new root and one more node.
     */
    method InsertBelowRoot(tree: nat, root: NodeId, val: int, rid: Rid) returns (newRoot: NodeId)
      requires HeapOk(nodes, level) && root < |nodes|
      modifies this
      ensures var a := BTreeSpec.AddNodeToTree(old(nodes), old(level), root, val, rid);
        && nodes == a.heap && level == a.level && newRoot == (if a.stub.Some? then a.stub.value else root)
        && instances == Bump(old(instances), tree, RootBumps(a), a.entryBumps)
      ensures handles == old(handles)
    {
      ghost var a := BTreeSpec.AddNodeToTree(nodes, level, root, val, rid);
      var stub := AddNodeToTree(tree, root, val, rid);
      newRoot := root;
      if stub.Some? {
        newRoot := stub.value;
        CountNewRoot(tree, old(instances), a.nodeBumps, a.entryBumps);
      }
    }

    /** updateNodeCount for the new root a split of the root leaves, on top of the counts already made. */
    method CountNewRoot(tree: nat, ghost before: seq<Instance>, ghost dn: nat, ghost de: nat)
      requires instances == Bump(before, tree, dn, de)
      modifies this
      ensures instances == Bump(before, tree, dn + 1, de)
      ensures nodes == old(nodes) && level == old(level) && handles == old(handles)
    {
      UpdateNodeCount(tree);
      BTreeProps.BumpsAdd(before, tree, dn, de, 1, 0);
    }

    /** insertKey on an empty root: the key and RID go to slot 0, and a node and an entry are counted. */
    method FillEmptyRoot(tree: nat, root: NodeId, val: int, rid: Rid)
      requires HeapOk(nodes, level) && root < |nodes| && nodes[root].numValues == 0
      modifies this
      ensures var r := BTreeSpec.InsertKey(old(nodes), old(level), root, val, rid);
        && nodes == r.heap && level == r.level && root == r.root
        && instances == Bump(old(instances), tree, r.nodeBumps, r.entryBumps)
      ensures handles == old(handles)
    {
      var n := nodes[root];
      n := n.(rids := n.rids[0 := rid], values := n.values[0 := val], numValues := 1);
      nodes := nodes[root := n];
      CountNodeAndEntry(tree);
    }

    /**
     * deleteKeyHelper from node id: a leaf tombstones val's first live slot;
     * an internal node descends to the child getChildIndex picks. NullChild
     * is the descent into a NULL child, which the C code dereferences.
     */
    method DeleteKeyHelper(id: NodeId, val: int) returns (outcome: DeleteOutcome)
      requires Valid() && id < |nodes|
      modifies this
      ensures Valid()
      ensures outcome == BTreeSpec.DeleteKey(old(nodes), old(level), id, val)
      ensures outcome.Deleted? ==> nodes == outcome.heap
      ensures !outcome.Deleted? ==> nodes == old(nodes)
      ensures level == old(level) && handles == old(handles) && instances == old(instances)
      decreases level[id]
    {
      assert NodeOk(nodes, level, id);
      var node := nodes[id];
      if node.isLeaf {
        outcome := DeleteKeyFromLeaf(id, val);
        return;
      }
      var childIndex := GetChildIndex(node, val);
      if node.children[childIndex].None? {
        return NullChild;
      }
      outcome := DeleteKeyHelper(node.children[childIndex].value, val);
    }

    /** deleteKeyFromLeaf: tombstone the first live slot of leaf id that holds val. */
    method DeleteKeyFromLeaf(id: NodeId, val: int) returns (outcome: DeleteOutcome)
      requires Valid() && id < |nodes| && nodes[id].isLeaf
      modifies this
      ensures Valid()
      ensures outcome == BTreeSpec.DeleteKey(old(nodes), old(level), id, val)
      ensures outcome.Deleted? ==> nodes == outcome.heap
      ensures !outcome.Deleted? ==> nodes == old(nodes)
      ensures level == old(level) && handles == old(handles) && instances == old(instances)
    {
      assert NodeOk(nodes, level, id);
      var node := nodes[id];
      for i := 0 to node.numValues
        invariant LiveSlot(node, val, i) == LiveSlot(node, val, 0)
      {
        if node.values[i] == val && !node.isDeleted[i] {
          var n' := node.(isDeleted := node.isDeleted[i := true]);
          HeapOkSet(nodes, level, id, n');
          nodes := nodes[id := n'];
          return Deleted(nodes);
        }
      }
      return KeyNotFound;
    }

    /** deleteKey: deleteKeyHelper from the tree's root. */
    method DeleteKey(tree: nat, val: int) returns (outcome: DeleteOutcome)
      requires Valid() && tree < |handles|
      modifies this
      ensures Valid()
      ensures outcome == BTreeSpec.DeleteKey(old(nodes), old(level), old(handles[tree].root), val)
      ensures outcome.Deleted? ==> nodes == outcome.heap
      ensures !outcome.Deleted? ==> nodes == old(nodes)
      ensures level == old(level) && handles == old(handles) && instances == old(instances)
    {
      outcome := DeleteKeyHelper(handles[tree].root, val);
    }

    /** findLeftmostLeaf: follow children[0] down to a leaf. */
    method FindLeftmostLeaf(id: NodeId) returns (leaf: NodeId)
      requires Valid() && id < |nodes|
      ensures leaf == LeftmostLeaf(nodes, level, id)
    {
      leaf := id;
      while !nodes[leaf].isLeaf
        invariant leaf < |nodes| && LeftmostLeaf(nodes, level, leaf) == LeftmostLeaf(nodes, level, id)
        decreases level[leaf]
      {
        assert NodeOk(nodes, level, leaf);
        leaf := nodes[leaf].children[0].value;
      }
    }
  }

  /** The nodes insertKey counts for an insertion below the root: one more when a stub becomes the new root. */
  function RootBumps(a: AddResult): nat
  {
    if a.stub.Some? then a.nodeBumps + 1 else a.nodeBumps
  }

  /** insertKey on a non-empty root is addNodeToTree from the root, with a returned stub as the new root. */
  lemma InsertKeyBelowRoot(heap: seq<Node>, level: seq<nat>, root: NodeId, val: int, rid: Rid, a: AddResult,
                            tree: nat, before: seq<Instance>, after: seq<Instance>)
    requires HeapOk(heap, level) && root < |heap| && heap[root].numValues != 0
    requires a == BTreeSpec.AddNodeToTree(heap, level, root, val, rid)
    requires after == Bump(before, tree, RootBumps(a), a.entryBumps)
    ensures var r := BTreeSpec.InsertKey(heap, level, root, val, rid);
      && r.heap == a.heap && r.level == a.level && r.root == (if a.stub.Some? then a.stub.value else root)
      && r.nodeBumps == RootBumps(a) && r.entryBumps == a.entryBumps
      && after == Bump(before, tree, r.nodeBumps, r.entryBumps)
  {
  }

  /**
   * A scan handle: the tree, the node the scan is at, and the scan position,
   * which the C code keeps in one global shared by all scans.
   */
  class TreeScan {
    const tree: nat
    var node: Option<NodeId>
    var position: int

    /** openTreeScan: start at the tree's leftmost leaf, position 1. */
    constructor (mgr: IndexManager, tree: nat)
      requires mgr.Valid() && tree < |mgr.handles|
      ensures this.tree == tree
      ensures Cursor(node, position) == OpenTreeScan(mgr.nodes, mgr.level, mgr.handles[tree].root)
    {
      var leaf := mgr.FindLeftmostLeaf(mgr.handles[tree].root);
      this.tree := tree;
      node := Some(leaf);
      position := 1;
    }

    /** nextEntry: one step of the scan over the leaves. */
    method NextEntry(mgr: IndexManager) returns (rc: RC, result: Option<Rid>)
      requires mgr.Valid() && CursorOk(mgr.nodes, Cursor(node, position))
      modifies this
      ensures ScanStep(Cursor(node, position), rc, result)
        == BTreeSpec.NextEntry(mgr.nodes, mgr.level, old(Cursor(node, position)))
    {
      if node.None? || position == -1 {
        return ImNoMoreEntries, None;
      }
      assert NodeOk(mgr.nodes, mgr.level, node.value);
      var n := mgr.nodes[node.value];
      if position == 1 {
        result := StoreResult(n.rids[0]);
        position := 2;
      } else if position == 2 && n.values[1] != 0 {
        result := StoreResult(n.rids[1]);
        if result.Some? {
          node := n.children[2];
          position := 1;
        } else {
          position := -1;
        }
      } else {
        node := n.children[2];
        if node.None? {
          return ImNoMoreEntries, None;
        }
        assert NodeOk(mgr.nodes, mgr.level, node.value);
        result := StoreResult(mgr.nodes[node.value].rids[0]);
        position := 2;
      }
      rc := Ok;
    }
  }
}
