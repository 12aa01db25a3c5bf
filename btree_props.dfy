/** Properties of the B+-tree model: insertion, lookup, deletion and scans. */
module BTreeProps {
  import opened DbError
  import opened Tables
  import opened BTreeSpec

  // ------------------------------------------------------------ insertion

  /** A new tree's first insertKey fills slot 0 of the root and counts one node and one entry; findKey then finds it. */
  lemma FirstInsertFillsRoot(heap: seq<Node>, level: seq<nat>, val: int, rid: Rid)
    requires HeapOk(heap, level)
    ensures HeapOk(heap + [EmptyRoot], level + [0])
    ensures var r := InsertKey(heap + [EmptyRoot], level + [0], |heap|, val, rid);
      && r.root == |heap| && r.nodeBumps == 1 && r.entryBumps == 1
      && r.heap[|heap|].numValues == 1 && r.heap[|heap|].values[0] == val && r.heap[|heap|].rids[0] == rid
      && FindKey(r.heap, r.level, r.root, val) == Success(rid)
  {
    assert NodeOk(heap + [EmptyRoot], level + [0], |heap|);
    HeapOkAppend(heap, level, [EmptyRoot], [0]);
    var r := InsertKey(heap + [EmptyRoot], level + [0], |heap|, val, rid);
    assert LiveSlot(r.heap[|heap|], val, 0) == Some(0);
  }

  /** The (key, RID) pair of slot i. */
  function Entry(n: Node, i: nat): (int, Rid)
    requires Shaped(n) && i < 2
  {
    (n.values[i], n.rids[i])
  }

  /**
   * splitLeaf on a sorted full leaf: the leaf keeps the two smallest keys in
   * order, the new right leaf gets the largest, every key keeps its RID, the
   * stub's key is the right leaf's key, its children are the leaf and the
   * right leaf, and the right leaf is spliced into the sibling chain.
   */
  lemma SplitLeafDistributesKeys(heap: seq<Node>, level: seq<nat>, id: NodeId, val: int, rid: Rid)
    requires HeapOk(heap, level) && id < |heap| && heap[id].isLeaf
    requires heap[id].numValues == 2 && Ordered2(heap[id].values)
    ensures var r := SplitLeaf(heap, level, id, val, rid);
      var st, right := |heap|, |heap| + 1;
      && r.heap[id].numValues == 2 && Ordered2(r.heap[id].values)
      && r.heap[right].isLeaf && r.heap[right].numValues == 1
      && r.heap[id].values[1] <= r.heap[right].values[0]
      && multiset{Entry(r.heap[id], 0), Entry(r.heap[id], 1), Entry(r.heap[right], 0)}
           == multiset{Entry(heap[id], 0), Entry(heap[id], 1), (val, rid)}
      && r.heap[st] == OneKeyStub(r.heap[right].values[0], id, right)
      && r.heap[id].children[2] == Some(right) && r.heap[right].children[2] == heap[id].children[2]
      && Shaped(r.heap[id]) && Shaped(r.heap[right]) && Shaped(r.heap[st])
      && r.heap[id].isDeleted == heap[id].isDeleted && r.heap[right].isDeleted == [false, false]
  {
    assert NodeOk(heap, level, id);
  }

  /**
   * The split of a full leaf hands out its two keys and the new one in
   * order: the two smallest stay in the leaf and the largest goes to the
   * right leaf, which takes the leaf's place in the chain.
   */
  lemma SplitLeafNodesDistributeKeys(node: Node, val: int, rid: Rid, rightId: NodeId)
    requires Shaped(node)
    ensures var (l, r) := SplitLeafNodes(node, val, rid, rightId);
      && Shaped(l) && Shaped(r) && r.isLeaf && r.numValues == 1 && r.isDeleted == [false, false]
      && l.children[2] == Some(rightId) && r.children[2] == node.children[2]
      && multiset{l.values[0], l.values[1], r.values[0]} == multiset{node.values[0], node.values[1], val}
      && (Ordered2(node.values) ==> Ordered2(l.values) && l.values[1] <= r.values[0])
  {
    var (l, r) := SplitLeafNodes(node, val, rid, rightId);
    if val < node.values[0] {
      assert l.values == [val, node.values[0]] && r.values[0] == node.values[1];
    } else if val < node.values[1] {
      assert l.values == [node.values[0], val] && r.values[0] == node.values[1];
    } else {
      assert l.values == node.values && r.values[0] == val;
    }
  }

  /**
   * The split of a two-key internal node around sv hands out the three keys
   * one per node, in order: the smallest to the left node, the middle one to
   * the new root and the largest to the right node. The left node keeps the
   * split node's first two children and the right node its last two.
   */
  lemma SplitNodesDistributeKeys(n: Node, sv: int, base: nat)
    requires Shaped(n)
    ensures var ns := SplitNodes(n, sv, base);
      && ns[0].children[..2] == [Some(base + 2), Some(base + 1)]
      && ns[2].children[..2] == n.children[..2] && ns[1].children[..2] == n.children[1..]
      && multiset{ns[2].values[0], ns[0].values[0], ns[1].values[0]} == multiset{n.values[0], n.values[1], sv}
      && (Ordered2(n.values) ==> ns[2].values[0] <= ns[0].values[0] <= ns[1].values[0])
  {
  }

  /** Absorbing a stub into a one-key node yields two separators in order, the old key and the stub's. */
  lemma AbsorbOrdersSeparators(node: Node, stub: Node)
    requires Shaped(node) && Shaped(stub) && node.numValues == 1
    ensures var r := Absorb(node, stub);
      && r.numValues == 2 && Ordered2(r.values)
      && multiset(r.values) == multiset{node.values[0], stub.values[0]}
      && (stub.values[0] < node.values[0] ==> r.children == stub.children[..2] + [node.children[1]])
      && (stub.values[0] >= node.values[0] ==> r.children == [node.children[0]] + stub.children[..2])
  {
  }

  /**
   * Every insertKey counts exactly one entry; it replaces the root, and
   * counts one more node, exactly when addNodeToTree hands back a stub.
   */
  lemma InsertKeyCounts(heap: seq<Node>, level: seq<nat>, root: NodeId, val: int, rid: Rid)
    requires HeapOk(heap, level) && root < |heap|
    ensures var r := InsertKey(heap, level, root, val, rid);
      && r.entryBumps == 1
      && (heap[root].numValues != 0 ==>
            var a := AddNodeToTree(heap, level, root, val, rid);
            && (r.root != root <==> a.stub.Some?)
            && r.nodeBumps == a.nodeBumps + (if a.stub.Some? then 1 else 0))
  {
    assert NodeOk(heap, level, root);
    if heap[root].numValues != 0 {
      var a := AddNodeToTree(heap, level, root, val, rid);
      if a.stub.Some? {
        assert a.level[a.stub.value] == level[root] + 1;
      }
    }
  }

  /**
   * A key inserted into a root leaf without tombstones is found afterwards;
   * if no equal key was there, with the RID it was inserted with.
   */
  lemma InsertThenFindInLeafRoot(heap: seq<Node>, level: seq<nat>, root: NodeId, val: int, rid: Rid)
    requires HeapOk(heap, level) && root < |heap| && heap[root].isLeaf
    requires heap[root].isDeleted == [false, false]
    requires heap[root].numValues == 2 ==> Ordered2(heap[root].values)
    ensures var r := InsertKey(heap, level, root, val, rid);
      var f := FindKey(r.heap, r.level, r.root, val);
      && f.Success?
      && ((forall i :: 0 <= i < heap[root].numValues ==> heap[root].values[i] != val) ==> f.value == rid)
  {
    assert NodeOk(heap, level, root);
    if heap[root].numValues < 2 {
      InsertThenFindInRoomyRoot(heap, level, root, val, rid);
    } else {
      InsertThenFindInFullRoot(heap, level, root, val, rid);
    }
  }

  /** The case of InsertThenFindInLeafRoot where the root leaf has room. */
  lemma InsertThenFindInRoomyRoot(heap: seq<Node>, level: seq<nat>, root: NodeId, val: int, rid: Rid)
    requires HeapOk(heap, level) && root < |heap| && heap[root].isLeaf && heap[root].numValues < 2
    requires heap[root].isDeleted == [false, false]
    ensures var r := InsertKey(heap, level, root, val, rid);
      var f := FindKey(r.heap, r.level, r.root, val);
      && f.Success?
      && ((forall i :: 0 <= i < heap[root].numValues ==> heap[root].values[i] != val) ==> f.value == rid)
  {
    assert NodeOk(heap, level, root);
    var n := heap[root];
    var r := InsertKey(heap, level, root, val, rid);
    if n.numValues == 0 {
      assert LiveSlot(r.heap[root], val, 0) == Some(0);
    } else {
      var m := r.heap[root];
      assert m == InsertIntoLeafWithOneValue(n, val, rid);
      if n.values[0] > val {
        assert LiveSlot(m, val, 0) == Some(0);
      } else if n.values[0] == val {
        assert LiveSlot(m, val, 0) == Some(0);
      } else {
        assert LiveSlot(m, val, 1) == Some(1);
      }
    }
  }

  /** The case of InsertThenFindInLeafRoot where the full root leaf splits. */
  lemma InsertThenFindInFullRoot(heap: seq<Node>, level: seq<nat>, root: NodeId, val: int, rid: Rid)
    requires HeapOk(heap, level) && root < |heap| && heap[root].isLeaf && heap[root].numValues == 2
    requires heap[root].isDeleted == [false, false] && Ordered2(heap[root].values)
    ensures var r := InsertKey(heap, level, root, val, rid);
      var f := FindKey(r.heap, r.level, r.root, val);
      && f.Success?
      && ((forall i :: 0 <= i < heap[root].numValues ==> heap[root].values[i] != val) ==> f.value == rid)
  {
    assert NodeOk(heap, level, root);
    var n := heap[root];
    var r := InsertKey(heap, level, root, val, rid);
    var right := |heap| + 1;
    assert r.root == |heap|;
    var s := r.heap[r.root];
    if val < n.values[0] {
      assert ChildIndex(s, val, 1) == 1;
      assert FindLeaf(r.heap, r.level, root, val) == root;
      assert LiveSlot(r.heap[root], val, 0) == Some(0);
    } else if val < n.values[1] {
      assert ChildIndex(s, val, 1) == 1;
      assert FindLeaf(r.heap, r.level, root, val) == root;
      if n.values[0] == val {
        assert LiveSlot(r.heap[root], val, 0) == Some(0);
      } else {
        assert LiveSlot(r.heap[root], val, 1) == Some(1);
      }
    } else {
      assert FindLeaf(r.heap, r.level, right, val) == right;
      assert LiveSlot(r.heap[right], val, 0) == Some(0);
    }
  }

  /** A leaf without tombstones holding one key, or two in order. */
  predicate SortedLeaf(n: Node)
  {
    Shaped(n) && n.isLeaf && n.isDeleted == [false, false] && 1 <= n.numValues
    && (n.numValues == 2 ==> Ordered2(n.values))
  }

  /**
   * A one-level tree under a one-key root: two sorted leaves, the keys of
   * the left one below the root's key and those of the right one at or
   * above it.
   */
  predicate OneKeyRootOverLeaves(heap: seq<Node>, level: seq<nat>, root: NodeId)
    requires HeapOk(heap, level) && root < |heap|
  {
    var n := heap[root];
    && !n.isLeaf && n.numValues == 1 && level[root] == 1
    && n.children[0].Some? && n.children[0].value < |heap| && SortedLeaf(heap[n.children[0].value])
    && n.children[1].Some? && n.children[1].value < |heap| && SortedLeaf(heap[n.children[1].value])
    && (forall i :: 0 <= i < heap[n.children[0].value].numValues ==> heap[n.children[0].value].values[i] < n.values[0])
    && (forall i :: 0 <= i < heap[n.children[1].value].numValues ==> n.values[0] <= heap[n.children[1].value].values[i])
  }

  /**
   * A key inserted into a one-level tree under a one-key root is found
   * afterwards, whether its leaf had room or split and the root absorbed
   * the stub; if findKey did not find it before, it finds the RID it was
   * inserted with. The root stays the root.
   */
  lemma InsertThenFindUnderOneKeyRoot(heap: seq<Node>, level: seq<nat>, root: NodeId, val: int, rid: Rid)
    requires HeapOk(heap, level) && root < |heap| && OneKeyRootOverLeaves(heap, level, root)
    ensures var r := InsertKey(heap, level, root, val, rid);
      var f := FindKey(r.heap, r.level, r.root, val);
      && r.root == root && f.Success?
      && (FindKey(heap, level, root, val).Failure? ==> f.value == rid)
  {
    assert NodeOk(heap, level, root);
    var n := heap[root];
    var c := if n.values[0] > val then 0 else 1;
    var leaf := n.children[c].value;
    assert NodeOk(heap, level, leaf);
    assert ChildIndex(n, val, 0) == c by {
      if val >= n.values[0] {
        assert ChildIndex(n, val, 0) == ChildIndex(n, val, 1);
      }
    }
    assert FindLeaf(heap, level, root, val) == leaf;
    if heap[leaf].numValues == 1 {
      InsertThenFindInRoomyChild(heap, level, root, leaf, val, rid);
    } else {
      InsertThenFindInFullChild(heap, level, root, leaf, val, rid);
    }
  }

  /** The case of InsertThenFindUnderOneKeyRoot where the leaf has room. */
  lemma InsertThenFindInRoomyChild(heap: seq<Node>, level: seq<nat>, root: NodeId, leaf: NodeId, val: int, rid: Rid)
    requires HeapOk(heap, level) && root < |heap| && OneKeyRootOverLeaves(heap, level, root)
    requires leaf == heap[root].children[if heap[root].values[0] > val then 0 else 1].value
    requires FindLeaf(heap, level, root, val) == leaf && heap[leaf].numValues == 1
    ensures var r := InsertKey(heap, level, root, val, rid);
      var f := FindKey(r.heap, r.level, r.root, val);
      && r.root == root && f.Success?
      && (FindKey(heap, level, root, val).Failure? ==> f.value == rid)
  {
    InsertIntoRoomyChildFillsIt(heap, level, root, leaf, val, rid);
    FoundInFilledChild(heap, level, root, leaf, val, rid, InsertKey(heap, level, root, val, rid));
  }

  /** After the leaf under a one-key root takes the key, findKey finds it there. */
  lemma FoundInFilledChild(heap: seq<Node>, level: seq<nat>, root: NodeId, leaf: NodeId, val: int, rid: Rid, r: InsertResult)
    requires HeapOk(heap, level) && root < |heap| && OneKeyRootOverLeaves(heap, level, root)
    requires leaf == heap[root].children[if heap[root].values[0] > val then 0 else 1].value
    requires FindLeaf(heap, level, root, val) == leaf && heap[leaf].numValues == 1
    requires r.root == root && r.level == level && HeapOk(r.heap, r.level)
    requires r.heap == heap[leaf := InsertIntoLeafWithOneValue(heap[leaf], val, rid)]
    ensures var f := FindKey(r.heap, r.level, r.root, val);
      f.Success? && (FindKey(heap, level, root, val).Failure? ==> f.value == rid)
  {
    assert NodeOk(heap, level, root);
    var n := heap[root];
    assert NodeOk(heap, level, leaf);
    var m := InsertIntoLeafWithOneValue(heap[leaf], val, rid);
    assert r.heap[root] == n && r.heap[leaf] == m;
    assert ChildIndex(n, val, 0) == ChildIndex(heap[root], val, 0);
    FindLeafBelowLevelOne(r.heap, level, root, leaf, val);
    var i := if m.values[0] == val then 0 else 1;
    assert LiveSlot(m, val, 0) == Some(i) by {
      if i == 1 {
        assert LiveSlot(m, val, 1) == Some(1);
      }
    }
    FindKeyReadsLeaf(r.heap, level, root, val);
    FindKeyReadsLeaf(heap, level, root, val);
  }

  /** Below a node at level 1, findKey goes to the child that ChildIndex picks, which is a leaf. */
  lemma FindLeafBelowLevelOne(heap: seq<Node>, level: seq<nat>, id: NodeId, t: NodeId, val: int)
    requires HeapOk(heap, level) && id < |heap| && level[id] == 1 && Shaped(heap[id])
    requires !heap[id].isLeaf && 1 <= heap[id].numValues
    requires heap[id].children[ChildIndex(heap[id], val, 0)] == Some(t)
    ensures FindLeaf(heap, level, id, val) == t
  {
    assert NodeOk(heap, level, id);
    assert NodeOk(heap, level, t);
  }

  /** Below a node at level 1, findKey reads the child ChildIndex picks. */
  lemma FindKeyBelowLevelOne(heap: seq<Node>, level: seq<nat>, id: NodeId, t: NodeId, val: int)
    requires HeapOk(heap, level) && id < |heap| && level[id] == 1 && Shaped(heap[id])
    requires !heap[id].isLeaf && 1 <= heap[id].numValues
    requires heap[id].children[ChildIndex(heap[id], val, 0)] == Some(t)
    ensures t < |heap| && Shaped(heap[t])
    ensures FindKey(heap, level, id, val)
      == match LiveSlot(heap[t], val, 0)
         case Some(i) => Success(heap[t].rids[i])
         case None => Failure(ImKeyNotFound)
  {
    FindLeafBelowLevelOne(heap, level, id, t, val);
    FindKeyReadsLeaf(heap, level, id, val);
  }

  /**
   * Insert-then-find in a tree of any depth whose leaf on val's path has
   * room, provided the slot val lands in carries no tombstone: the root
   * stays the root, only that leaf changes, and findKey finds val; if it did
   * not find val before, it finds the RID val was inserted with.
   */
  lemma InsertThenFindInRoomyLeaf(heap: seq<Node>, level: seq<nat>, root: NodeId, val: int, rid: Rid)
    requires HeapOk(heap, level) && root < |heap|
    requires var n := heap[FindLeaf(heap, level, root, val)];
      Shaped(n) && n.numValues == 1 && !n.isDeleted[if n.values[0] > val then 0 else 1]
    ensures var leaf := FindLeaf(heap, level, root, val);
      var r := InsertKey(heap, level, root, val, rid);
      var f := FindKey(r.heap, r.level, r.root, val);
      && r.root == root && r.heap == heap[leaf := InsertIntoLeafWithOneValue(heap[leaf], val, rid)]
      && f.Success? && (FindKey(heap, level, root, val).Failure? ==> f.value == rid)
  {
    var leaf := FindLeaf(heap, level, root, val);
    var n := heap[leaf];
    assert NodeOk(heap, level, root);
    AddIntoRoomyLeaf(heap, level, root, val, rid);
    var m := InsertIntoLeafWithOneValue(n, val, rid);
    var r := InsertKey(heap, level, root, val, rid);
    assert r.heap == heap[leaf := m] && r.level == level;
    FindLeafAfterLeafUpdate(heap, level, root, val, m);
    FindKeyReadsLeaf(r.heap, level, root, val);
    FindKeyReadsLeaf(heap, level, root, val);
    if n.values[0] > val {
      assert LiveSlot(m, val, 0) == Some(0);
    } else if n.values[0] == val && !n.isDeleted[0] {
      assert LiveSlot(n, val, 0) == Some(0);
      assert LiveSlot(m, val, 0) == Some(0);
    } else {
      assert LiveSlot(m, val, 1) == Some(1);
      assert LiveSlot(m, val, 0) == Some(1);
    }
  }

  /**
   * Below any node, when the leaf findKey reaches for val has room,
   * addNodeToTree takes the same path, fills that leaf, counts one entry and
   * returns NULL: nothing splits and no other node changes.
   */
  lemma {:induction false} AddIntoRoomyLeaf(heap: seq<Node>, level: seq<nat>, id: NodeId, val: int, rid: Rid)
    requires HeapOk(heap, level) && id < |heap|
    requires heap[FindLeaf(heap, level, id, val)].numValues == 1
    ensures var leaf := FindLeaf(heap, level, id, val);
      Shaped(heap[leaf])
      && AddNodeToTree(heap, level, id, val, rid)
           == AddResult(heap[leaf := InsertIntoLeafWithOneValue(heap[leaf], val, rid)], level, None, 0, 1)
    decreases level[id]
  {
    assert NodeOk(heap, level, id);
    var n := heap[id];
    if !n.isLeaf {
      var k := ChildIndex(n, val, 0);
      var c := n.children[k].value;
      assert NodeOk(heap, level, c);
      assert FindLeaf(heap, level, id, val) == FindLeaf(heap, level, c, val);
      AddIntoRoomyLeaf(heap, level, c, val, rid);
      if n.numValues == 1 {
        assert k == (if n.values[0] > val then 0 else 1);
      } else {
        assert k == (if n.values[0] > val then 0 else if n.values[1] > val then 1 else 2);
      }
    }
  }

  /** Replacing the leaf findKey reaches by another leaf does not change the leaf findKey reaches. */
  lemma {:induction false} FindLeafAfterLeafUpdate(heap: seq<Node>, level: seq<nat>, id: NodeId, val: int, m: Node)
    requires HeapOk(heap, level) && id < |heap| && m.isLeaf
    requires HeapOk(heap[FindLeaf(heap, level, id, val) := m], level)
    ensures FindLeaf(heap[FindLeaf(heap, level, id, val) := m], level, id, val) == FindLeaf(heap, level, id, val)
    decreases level[id]
  {
    var leaf := FindLeaf(heap, level, id, val);
    var h := heap[leaf := m];
    assert NodeOk(heap, level, id);
    var n := heap[id];
    if !n.isLeaf {
      assert h[id] == n;
      var c := n.children[ChildIndex(n, val, 0)].value;
      assert NodeOk(heap, level, c);
      assert FindLeaf(heap, level, c, val) == leaf;
      FindLeafAfterLeafUpdate(heap, level, c, val, m);
      assert FindLeaf(h, level, id, val) == FindLeaf(h, level, c, val);
    }
  }

  /** findKey reads the leaf FindLeaf reaches: the RID of val's first live slot there, or KEY_NOT_FOUND. */
  lemma FindKeyReadsLeaf(heap: seq<Node>, level: seq<nat>, root: NodeId, val: int)
    requires HeapOk(heap, level) && root < |heap|
    ensures var leaf := FindLeaf(heap, level, root, val);
      && Shaped(heap[leaf])
      && FindKey(heap, level, root, val)
           == match LiveSlot(heap[leaf], val, 0)
              case Some(i) => Success(heap[leaf].rids[i])
              case None => Failure(ImKeyNotFound)
  {
    assert NodeOk(heap, level, FindLeaf(heap, level, root, val));
  }

  /** insertKey under a one-key root whose leaf has room: the leaf takes the key and nothing else changes. */
  lemma InsertIntoRoomyChildFillsIt(heap: seq<Node>, level: seq<nat>, root: NodeId, leaf: NodeId, val: int, rid: Rid)
    requires HeapOk(heap, level) && root < |heap| && OneKeyRootOverLeaves(heap, level, root)
    requires leaf == heap[root].children[if heap[root].values[0] > val then 0 else 1].value
    requires heap[leaf].numValues == 1
    ensures var r := InsertKey(heap, level, root, val, rid);
      r.root == root && r.level == level && r.heap == heap[leaf := InsertIntoLeafWithOneValue(heap[leaf], val, rid)]
  {
    assert NodeOk(heap, level, root);
    assert NodeOk(heap, level, leaf);
    var m := InsertIntoLeafWithOneValue(heap[leaf], val, rid);
    var sub := AddNodeToTree(heap, level, leaf, val, rid);
    assert sub == AddResult(heap[leaf := m], level, None, 0, 1);
    assert AddNodeToTree(heap, level, root, val, rid) == sub;
  }

  /**
   * What a split of a sorted full leaf keeps of val: the left half a holds
   * it below the right half b's key, and b's slot 0 holds it otherwise; a
   * key not there before carries rid.
   */
  lemma SplitKeepsKey(before: Node, val: int, rid: Rid, a: Node, b: Node)
    requires Shaped(before) && Shaped(a) && Shaped(b) && a.numValues == 2 && b.numValues == 1
    requires a.isDeleted == [false, false] && !b.isDeleted[0]
    requires Ordered2(a.values) && a.values[1] <= b.values[0]
    requires multiset{Entry(a, 0), Entry(a, 1), Entry(b, 0)} == multiset{Entry(before, 0), Entry(before, 1), (val, rid)}
    ensures val <= b.values[0]
    ensures b.values[0] == before.values[0] || b.values[0] == before.values[1] || b.values[0] == val
    ensures val < b.values[0] ==>
      && LiveSlot(a, val, 0).Some?
      && (before.values[0] != val && before.values[1] != val ==> a.rids[LiveSlot(a, val, 0).value] == rid)
    ensures val >= b.values[0] ==>
      && LiveSlot(b, val, 0) == Some(0)
      && (before.values[0] != val && before.values[1] != val ==> b.rids[0] == rid)
  {
    var ms := multiset{Entry(a, 0), Entry(a, 1), Entry(b, 0)};
    assert (val, rid) in ms;
    assert Entry(b, 0) in ms;
    if val < b.values[0] {
      var i := if Entry(a, 0) == (val, rid) then 0 else 1;
      assert a.values[i] == val;
      assert LiveSlot(a, val, 0).Some? by {
        if i == 1 && a.values[0] != val {
          assert LiveSlot(a, val, 1) == Some(1);
        }
      }
      var j := LiveSlot(a, val, 0).value;
      if before.values[0] != val && before.values[1] != val {
        assert Entry(a, j) in ms;
      }
    } else {
      assert b.values[0] == val;
      assert LiveSlot(b, val, 0) == Some(0);
      if before.values[0] != val && before.values[1] != val {
        assert Entry(b, 0) in ms;
      }
    }
  }

  /**
   * A one-key node absorbing the stub of a split of its child l into l and
   * r routes a key that went down to l to l below the stub's key and to r
   * from it on.
   */
  lemma AbsorbRoutes(n: Node, stub: Node, val: int, l: NodeId, r: NodeId)
    requires Shaped(n) && Shaped(stub) && n.numValues == 1
    requires stub.children[0] == Some(l) && stub.children[1] == Some(r)
    requires val <= stub.values[0]
    requires n.values[0] > val ==> n.children[0] == Some(l) && stub.values[0] < n.values[0]
    requires n.values[0] <= val ==> n.children[1] == Some(l) && n.values[0] <= stub.values[0]
    ensures var m := Absorb(n, stub);
      m.children[ChildIndex(m, val, 0)] == Some(if val < stub.values[0] then l else r)
  {
    var m := Absorb(n, stub);
    if val >= m.values[0] {
      assert ChildIndex(m, val, 0) == ChildIndex(m, val, 1);
      if val >= m.values[1] {
        assert ChildIndex(m, val, 1) == ChildIndex(m, val, 2);
      }
    }
  }

  /** The stub splitLeaf hands back: one key v over the leaf l and the new right leaf r. */
  function OneKeyStub(v: int, l: NodeId, r: NodeId): (st: Node)
    ensures Shaped(st) && !st.isLeaf && st.numValues == 1 && st.values[0] == v
    ensures st.children[0] == Some(l) && st.children[1] == Some(r)
  {
    Fresh.(numValues := 1, values := [v, 0], children := [Some(l), Some(r), None])
  }

  /**
   * A sorted full leaf l under the one-key node n splits into a and the
   * right leaf b at r, and n absorbs the stub: findKey's choice of child in
   * the result leads to whichever of a and b holds val, and a key that was
   * not there before carries rid.
   */
  lemma SplitUnderOneKeyNode(n: Node, before: Node, val: int, rid: Rid, a: Node, b: Node, stub: Node, l: NodeId, r: NodeId)
    requires Shaped(n) && n.numValues == 1 && SortedLeaf(before) && before.numValues == 2
    requires n.values[0] > val ==>
      n.children[0] == Some(l) && before.values[0] < n.values[0] && before.values[1] < n.values[0]
    requires n.values[0] <= val ==>
      n.children[1] == Some(l) && n.values[0] <= before.values[0] && n.values[0] <= before.values[1]
    requires Shaped(a) && Shaped(b) && a.numValues == 2 && b.numValues == 1
    requires a.isDeleted == [false, false] && !b.isDeleted[0]
    requires Ordered2(a.values) && a.values[1] <= b.values[0]
    requires multiset{Entry(a, 0), Entry(a, 1), Entry(b, 0)} == multiset{Entry(before, 0), Entry(before, 1), (val, rid)}
    requires Shaped(stub) && stub.values[0] == b.values[0] && stub.children[0] == Some(l) && stub.children[1] == Some(r)
    ensures var m := Absorb(n, stub);
      var t := if val < b.values[0] then a else b;
      && m.children[ChildIndex(m, val, 0)] == Some(if val < b.values[0] then l else r)
      && LiveSlot(t, val, 0).Some?
      && (LiveSlot(before, val, 0).None? ==> t.rids[LiveSlot(t, val, 0).value] == rid)
  {
    SplitKeepsKey(before, val, rid, a, b);
    AbsorbRoutes(n, stub, val, l, r);
  }

  /**
   * The full leaf a key goes down to under a one-key root is sorted and lies
   * on the key's side of the root's key.
   */
  lemma LeafBesideKey(heap: seq<Node>, level: seq<nat>, root: NodeId, leaf: NodeId, val: int)
    requires HeapOk(heap, level) && root < |heap| && OneKeyRootOverLeaves(heap, level, root)
    requires leaf == heap[root].children[if heap[root].values[0] > val then 0 else 1].value
    requires heap[leaf].numValues == 2
    ensures var n, before := heap[root], heap[leaf];
      && SortedLeaf(before)
      && (n.values[0] > val ==>
            n.children[0] == Some(leaf) && before.values[0] < n.values[0] && before.values[1] < n.values[0])
      && (n.values[0] <= val ==>
            n.children[1] == Some(leaf) && n.values[0] <= before.values[0] && n.values[0] <= before.values[1])
  {
  }

  /** The case of InsertThenFindUnderOneKeyRoot where the leaf splits and the root absorbs the stub. */
  lemma InsertThenFindInFullChild(heap: seq<Node>, level: seq<nat>, root: NodeId, leaf: NodeId, val: int, rid: Rid)
    requires HeapOk(heap, level) && root < |heap| && OneKeyRootOverLeaves(heap, level, root)
    requires leaf == heap[root].children[if heap[root].values[0] > val then 0 else 1].value
    requires FindLeaf(heap, level, root, val) == leaf && heap[leaf].numValues == 2
    ensures var r := InsertKey(heap, level, root, val, rid);
      var f := FindKey(r.heap, r.level, r.root, val);
      && r.root == root && f.Success?
      && (FindKey(heap, level, root, val).Failure? ==> f.value == rid)
  {
    InsertIntoFullChildAbsorbs(heap, level, root, leaf, val, rid);
    LeafBesideKey(heap, level, root, leaf, val);
    FoundInSplitChild(heap, level, root, leaf, val, rid, InsertKey(heap, level, root, val, rid));
  }

  /**
   * After the leaf under a one-key root splits and the root absorbs the
   * stub, findKey finds the key in the left half or the new right leaf.
   */
  lemma FoundInSplitChild(heap: seq<Node>, level: seq<nat>, root: NodeId, leaf: NodeId, val: int, rid: Rid, r: InsertResult)
    requires HeapOk(heap, level) && root < |heap| && leaf < |heap| && level[root] == 1
    requires var n := heap[root]; Shaped(n) && !n.isLeaf && n.numValues == 1
    requires FindLeaf(heap, level, root, val) == leaf && heap[leaf].numValues == 2
    requires var n, before := heap[root], heap[leaf];
      && SortedLeaf(before)
      && (n.values[0] > val ==>
            n.children[0] == Some(leaf) && before.values[0] < n.values[0] && before.values[1] < n.values[0])
      && (n.values[0] <= val ==>
            n.children[1] == Some(leaf) && n.values[0] <= before.values[0] && n.values[0] <= before.values[1])
    requires var s := SplitLeaf(heap, level, leaf, val, rid);
      && Shaped(s.heap[|heap|])
      && r.root == root && r.level == s.level && HeapOk(r.heap, r.level)
      && r.heap == s.heap[root := Absorb(heap[root], s.heap[|heap|])]
    ensures var f := FindKey(r.heap, r.level, r.root, val);
      f.Success? && (FindKey(heap, level, root, val).Failure? ==> f.value == rid)
  {
    var t := SplitChildTarget(heap, level, root, leaf, val, rid, r);
    FindKeyBelowLevelOne(r.heap, r.level, root, t, val);
    FindKeyReadsLeaf(heap, level, root, val);
  }

  /**
   * After the leaf under a one-key root splits and the root absorbs the
   * stub, findKey's choice of child at the root is a leaf that holds val,
   * with rid if val was not in the leaf before.
   */
  lemma SplitChildTarget(heap: seq<Node>, level: seq<nat>, root: NodeId, leaf: NodeId, val: int, rid: Rid, r: InsertResult)
    returns (t: NodeId)
    requires HeapOk(heap, level) && root < |heap| && leaf < |heap| && level[root] == 1
    requires var n := heap[root]; Shaped(n) && !n.isLeaf && n.numValues == 1
    requires heap[leaf].numValues == 2
    requires var n, before := heap[root], heap[leaf];
      && SortedLeaf(before)
      && (n.values[0] > val ==>
            n.children[0] == Some(leaf) && before.values[0] < n.values[0] && before.values[1] < n.values[0])
      && (n.values[0] <= val ==>
            n.children[1] == Some(leaf) && n.values[0] <= before.values[0] && n.values[0] <= before.values[1])
    requires var s := SplitLeaf(heap, level, leaf, val, rid);
      && Shaped(s.heap[|heap|])
      && r.level == s.level
      && r.heap == s.heap[root := Absorb(heap[root], s.heap[|heap|])]
    ensures r.heap[root] == Absorb(heap[root], r.heap[|heap|]) && r.level[root] == 1
    ensures r.heap[root].children[ChildIndex(r.heap[root], val, 0)] == Some(t) && t < |r.heap| && Shaped(r.heap[t])
    ensures LiveSlot(r.heap[t], val, 0).Some?
    ensures LiveSlot(heap[leaf], val, 0).None? ==> r.heap[t].rids[LiveSlot(r.heap[t], val, 0).value] == rid
  {
    assert NodeOk(heap, level, root);
    assert NodeOk(heap, level, leaf);
    SplitLeafDistributesKeys(heap, level, leaf, val, rid);
    var s := SplitLeaf(heap, level, leaf, val, rid);
    t := SplitTargetInHeap(heap[root], heap[leaf], val, rid, s.heap, r.heap, root, leaf, |heap|);
  }

  /** The heap-free core of SplitChildTarget: the split leaf's halves under the absorbing root. */
  lemma SplitTargetInHeap(n: Node, before: Node, val: int, rid: Rid, sh: seq<Node>, rh: seq<Node>,
                          root: NodeId, leaf: NodeId, st: NodeId)
    returns (t: NodeId)
    requires |sh| == st + 2 && root < st && leaf < st && leaf != root
    requires Shaped(n) && n.numValues == 1 && SortedLeaf(before) && before.numValues == 2
    requires n.values[0] > val ==>
      n.children[0] == Some(leaf) && before.values[0] < n.values[0] && before.values[1] < n.values[0]
    requires n.values[0] <= val ==>
      n.children[1] == Some(leaf) && n.values[0] <= before.values[0] && n.values[0] <= before.values[1]
    requires var a, b := sh[leaf], sh[st + 1];
      && Shaped(a) && Shaped(b) && a.numValues == 2 && b.numValues == 1
      && a.isDeleted == before.isDeleted && b.isDeleted == [false, false]
      && Ordered2(a.values) && a.values[1] <= b.values[0]
      && multiset{Entry(a, 0), Entry(a, 1), Entry(b, 0)} == multiset{Entry(before, 0), Entry(before, 1), (val, rid)}
      && sh[st] == OneKeyStub(b.values[0], leaf, st + 1)
    requires rh == sh[root := Absorb(n, sh[st])]
    ensures rh[root] == Absorb(n, rh[st])
    ensures rh[root].children[ChildIndex(rh[root], val, 0)] == Some(t) && t < |rh| && Shaped(rh[t])
    ensures LiveSlot(rh[t], val, 0).Some?
    ensures LiveSlot(before, val, 0).None? ==> rh[t].rids[LiveSlot(rh[t], val, 0).value] == rid
  {
    var a, b := sh[leaf], sh[st + 1];
    SplitUnderOneKeyNode(n, before, val, rid, a, b, sh[st], leaf, st + 1);
    t := if val < b.values[0] then leaf else st + 1;
    assert rh[t] == sh[t];
  }


  /**
   * insertKey under a one-key root whose leaf splits: the root absorbs the
   * stub of the split and stays the root.
   */
  lemma InsertIntoFullChildAbsorbs(heap: seq<Node>, level: seq<nat>, root: NodeId, leaf: NodeId, val: int, rid: Rid)
    requires HeapOk(heap, level) && root < |heap| && OneKeyRootOverLeaves(heap, level, root)
    requires leaf == heap[root].children[if heap[root].values[0] > val then 0 else 1].value
    requires heap[leaf].numValues == 2
    ensures var s := SplitLeaf(heap, level, leaf, val, rid);
      var r := InsertKey(heap, level, root, val, rid);
      && Shaped(s.heap[|heap|])
      && r.root == root && r.level == s.level && r.heap == s.heap[root := Absorb(heap[root], s.heap[|heap|])]
  {
    assert NodeOk(heap, level, root);
    assert NodeOk(heap, level, leaf);
    var s := SplitLeaf(heap, level, leaf, val, rid);
    assert AddNodeToTree(heap, level, leaf, val, rid) == s;
    assert AddNodeToTree(heap, level, root, val, rid) == AbsorbStub(heap, level, root, s);
  }

  // ------------------------------------------------------------ deletion

  /** Two nodes that route a search the same way: they differ at most in tombstones and RIDs. */
  predicate SameRouting(a: Node, b: Node)
  {
    a.isLeaf == b.isLeaf && a.numValues == b.numValues && a.values == b.values && a.children == b.children
  }

  /** Tombstones and RIDs do not change where findKey goes. */
  lemma {:induction false} FindLeafIgnoresTombstones(heap: seq<Node>, h: seq<Node>, level: seq<nat>, id: NodeId, val: int)
    requires HeapOk(heap, level) && HeapOk(h, level) && |h| == |heap| && id < |heap|
    requires forall j :: 0 <= j < |heap| ==> SameRouting(heap[j], h[j])
    ensures FindLeaf(h, level, id, val) == FindLeaf(heap, level, id, val)
    decreases level[id]
  {
    assert NodeOk(heap, level, id);
    assert SameRouting(heap[id], h[id]);
    if !heap[id].isLeaf {
      assert ChildIndex(h[id], val, 0) == ChildIndex(heap[id], val, 0);
      var c := heap[id].children[ChildIndex(heap[id], val, 0)].value;
      FindLeafIgnoresTombstones(heap, h, level, c, val);
    }
  }

  /** At most one live slot of the node holds val. */
  predicate AtMostOneLive(n: Node, val: int)
    requires Shaped(n)
  {
    forall i, j :: 0 <= i < j < n.numValues && n.values[i] == val && n.values[j] == val ==> n.isDeleted[i] || n.isDeleted[j]
  }

  /**
   * Deleting along findKey's path a key held at most once in its leaf: a
   * later findKey, and a second delete, no longer find it; if it was not
   * there, findKey did not find it either.
   */
  lemma DeleteOnFindPathThenFind(heap: seq<Node>, level: seq<nat>, root: NodeId, val: int)
    requires HeapOk(heap, level) && root < |heap|
    requires var leaf := FindLeaf(heap, level, root, val); Shaped(heap[leaf]) && AtMostOneLive(heap[leaf], val)
    ensures match DeleteKeyOnFindPath(heap, level, root, val)
      case Deleted(h) =>
        FindKey(h, level, root, val) == Failure(ImKeyNotFound)
        && DeleteKeyOnFindPath(h, level, root, val) == KeyNotFound
      case KeyNotFound => FindKey(heap, level, root, val) == Failure(ImKeyNotFound)
      case NullChild => false
  {
    var leaf := FindLeaf(heap, level, root, val);
    assert NodeOk(heap, level, leaf);
    match DeleteKeyOnFindPath(heap, level, root, val)
    case Deleted(h) =>
      var i := LiveSlot(heap[leaf], val, 0).value;
      assert h == heap[leaf := heap[leaf].(isDeleted := heap[leaf].isDeleted[i := true])];
      forall j | 0 <= j < |heap|
        ensures SameRouting(heap[j], h[j])
      {
      }
      FindLeafIgnoresTombstones(heap, h, level, root, val);
      assert LiveSlot(h[leaf], val, 0).None?;
    case KeyNotFound =>
  }

  /**
   * In a root leaf, and in a one-level tree whose root holds two keys in
   * order with a positive second key, deleteKey reaches the leaf findKey
   * reaches.
   */
  lemma DeleteKeyFollowsFindOnShallowTrees(heap: seq<Node>, level: seq<nat>, root: NodeId, val: int)
    requires HeapOk(heap, level) && root < |heap|
    requires heap[root].isLeaf
      || (level[root] == 1 && heap[root].numValues == 2
          && 0 < heap[root].values[1] && Ordered2(heap[root].values))
    ensures DeleteKey(heap, level, root, val) == DeleteKeyOnFindPath(heap, level, root, val)
  {
    assert NodeOk(heap, level, root);
    var n := heap[root];
    if !n.isLeaf {
      GetChildIndexOnTwoKeyNodes(n, val);
      var i := ChildIndex(n, val, 0);
      assert GetChildIndex(n, val) == i && n.children[i].Some?;
      var c := n.children[i].value;
      assert NodeOk(heap, level, c);
      assert heap[c].isLeaf;
      assert FindLeaf(heap, level, root, val) == c;
      assert DeleteKey(heap, level, root, val) == DeleteKey(heap, level, c, val);
    }
  }

  /** On a node with two keys in order and a positive second key, getChildIndex agrees with findKey's choice. */
  lemma GetChildIndexOnTwoKeyNodes(n: Node, val: int)
    requires Shaped(n) && n.numValues == 2 && Ordered2(n.values) && n.values[1] > 0
    ensures GetChildIndex(n, val) == ChildIndex(n, val, 0)
  {
    if val >= n.values[0] {
      assert ChildIndex(n, val, 0) == ChildIndex(n, val, 1);
    }
  }

  /**
   * On a one-key node whose unused second key is zero (as splitting leaves
   * it), getChildIndex sends a key at least the separator to child 2, while
   * findKey goes to child 1.
   */
  lemma GetChildIndexOnOneKeyNodes(n: Node, val: int)
    requires Shaped(n) && n.numValues == 1 && n.values[1] == 0 && val >= n.values[0]
    ensures GetChildIndex(n, val) == 2 && ChildIndex(n, val, 0) == 1
  {
    assert ChildIndex(n, val, 0) == ChildIndex(n, val, 1);
  }

  /** deleteKey on a leaf root tombstones val's first live slot and changes nothing else. */
  lemma DeleteKeyTombstonesFirstLiveSlot(heap: seq<Node>, level: seq<nat>, root: NodeId, val: int)
    requires HeapOk(heap, level) && root < |heap| && heap[root].isLeaf
    ensures Shaped(heap[root])
    ensures match LiveSlot(heap[root], val, 0)
      case None => DeleteKey(heap, level, root, val) == KeyNotFound
      case Some(i) =>
        DeleteKey(heap, level, root, val)
          == Deleted(heap[root := heap[root].(isDeleted := heap[root].isDeleted[i := true])])
  {
    assert NodeOk(heap, level, root);
  }

  // ------------------------------------------------------------ scans

  /**
   * A leaf a scan walks cleanly: one or two keys, a non-zero second key
   * exactly when it holds two, and non-negative RIDs.
   */
  predicate CleanLeaf(n: Node)
  {
    && Shaped(n) && n.isLeaf && 1 <= n.numValues
    && (n.values[1] != 0 <==> n.numValues == 2)
    && forall i :: 0 <= i < n.numValues ==> n.rids[i].page >= 0 && n.rids[i].slot >= 0
  }

  /** l starts a chain of exactly k clean leaves linked through children[2]. */
  predicate Chain(heap: seq<Node>, l: Option<NodeId>, k: nat)
    decreases k
  {
    if k == 0 then l.None?
    else l.Some? && l.value < |heap| && CleanLeaf(heap[l.value]) && Chain(heap, heap[l.value].children[2], k - 1)
  }

  /** The RIDs of the chain's leaves, leaf by leaf, slot by slot. */
  function ChainEntries(heap: seq<Node>, l: Option<NodeId>, k: nat): seq<Rid>
    requires Chain(heap, l, k)
    decreases k
  {
    if k == 0 then []
    else heap[l.value].rids[..heap[l.value].numValues] + ChainEntries(heap, heap[l.value].children[2], k - 1)
  }

  /**
   * The RIDs that up to fuel calls of nextEntry write, in order, and whether
   * the scan reported NO_MORE_ENTRIES.
   */
  function Drain(heap: seq<Node>, level: seq<nat>, c: Cursor, fuel: nat): (seq<Rid>, bool)
    requires HeapOk(heap, level) && CursorOk(heap, c)
    decreases fuel
  {
    if fuel == 0 then ([], false)
    else
      var s := NextEntry(heap, level, c);
      if s.rc != Ok then ([], true)
      else
        var rest := Drain(heap, level, s.cursor, fuel - 1);
        ((if s.result.Some? then [s.result.value] else []) + rest.0, rest.1)
  }

  /** A call of nextEntry that writes x continues with the calls from the cursor it leaves. */
  lemma DrainYields(heap: seq<Node>, level: seq<nat>, c: Cursor, fuel: nat, c': Cursor, x: Rid)
    requires HeapOk(heap, level) && CursorOk(heap, c) && fuel >= 1
    requires NextEntry(heap, level, c) == ScanStep(c', Ok, Some(x))
    ensures CursorOk(heap, c')
    ensures Drain(heap, level, c, fuel)
      == ([x] + Drain(heap, level, c', fuel - 1).0, Drain(heap, level, c', fuel - 1).1)
  {
  }

  /** At position 1 of a clean leaf the scan yields its first RID and moves to position 2. */
  lemma FirstSlotStep(heap: seq<Node>, level: seq<nat>, m: NodeId)
    requires HeapOk(heap, level) && m < |heap| && CleanLeaf(heap[m])
    ensures NextEntry(heap, level, Cursor(Some(m), 1)) == ScanStep(Cursor(Some(m), 2), Ok, Some(heap[m].rids[0]))
  {
  }

  /** At position 2 of a clean leaf with two keys the scan yields the second RID and moves to the sibling's position 1. */
  lemma SecondSlotStep(heap: seq<Node>, level: seq<nat>, l: NodeId)
    requires HeapOk(heap, level) && l < |heap| && CleanLeaf(heap[l]) && heap[l].numValues == 2
    ensures NextEntry(heap, level, Cursor(Some(l), 2)) == ScanStep(Cursor(heap[l].children[2], 1), Ok, Some(heap[l].rids[1]))
  {
  }

  /**
   * At position 2 of a clean leaf with one key the scan moves to the
   * sibling and yields its first RID, or ends if there is none.
   */
  lemma SiblingStep(heap: seq<Node>, level: seq<nat>, l: NodeId)
    requires HeapOk(heap, level) && l < |heap| && CleanLeaf(heap[l]) && heap[l].numValues == 1
    requires heap[l].children[2].Some? ==>
      heap[l].children[2].value < |heap| && CleanLeaf(heap[heap[l].children[2].value])
    ensures var s := NextEntry(heap, level, Cursor(Some(l), 2));
      match heap[l].children[2]
      case None => s.rc == ImNoMoreEntries
      case Some(m) => s == ScanStep(Cursor(Some(m), 2), Ok, Some(heap[m].rids[0]))
  {
    assert NodeOk(heap, level, l);
  }

  /**
   * From position 2 of the first leaf of a clean chain, the scan yields the
   * rest of that leaf and then every later leaf in order, and then ends.
   */
  lemma {:induction false} DrainFromSecondSlot(heap: seq<Node>, level: seq<nat>, l: NodeId, k: nat)
    requires HeapOk(heap, level) && k >= 1 && Chain(heap, Some(l), k)
    ensures var e := heap[l].rids[1..heap[l].numValues] + ChainEntries(heap, heap[l].children[2], k - 1);
      Drain(heap, level, Cursor(Some(l), 2), |e| + 1) == (e, true)
    decreases k
  {
    if k == 1 {
      DrainLastLeaf(heap, level, l);
    } else {
      var m := heap[l].children[2].value;
      DrainFromSecondSlot(heap, level, m, k - 1);
      ChainEntriesHead(heap, m, k - 1);
      var e' := heap[m].rids[1..heap[m].numValues] + ChainEntries(heap, heap[m].children[2], k - 2);
      DrainBeforeSibling(heap, level, l, m, e', ChainEntries(heap, Some(m), k - 1));
    }
  }

  /** From position 2 of the last leaf of a chain the scan yields that leaf's second RID, if any, and ends. */
  lemma DrainLastLeaf(heap: seq<Node>, level: seq<nat>, l: NodeId)
    requires HeapOk(heap, level) && Chain(heap, Some(l), 1)
    ensures var e := heap[l].rids[1..heap[l].numValues] + ChainEntries(heap, heap[l].children[2], 0);
      Drain(heap, level, Cursor(Some(l), 2), |e| + 1) == (e, true)
  {
    var n := heap[l];
    var sib := n.children[2];
    var e := n.rids[1..n.numValues] + ChainEntries(heap, sib, 0);
    assert sib == None && ChainEntries(heap, sib, 0) == [];
    if n.numValues == 2 {
      SecondSlotStep(heap, level, l);
      DrainYields(heap, level, Cursor(Some(l), 2), 2, Cursor(sib, 1), n.rids[1]);
      assert e == [n.rids[1]] + [];
    } else {
      SiblingStep(heap, level, l);
      assert e == [];
    }
  }

  /**
   * From position 2 of a leaf whose successor's entries are [its first RID]
   * + e, the scan yields the leaf's second RID, if any, and the successor's
   * first, and then goes on as it does from position 2 of the successor.
   */
  lemma DrainBeforeSibling(heap: seq<Node>, level: seq<nat>, l: NodeId, m: NodeId, e: seq<Rid>, rest: seq<Rid>)
    requires HeapOk(heap, level) && l < |heap| && CleanLeaf(heap[l]) && heap[l].children[2] == Some(m)
    requires m < |heap| && CleanLeaf(heap[m]) && rest == [heap[m].rids[0]] + e
    requires Drain(heap, level, Cursor(Some(m), 2), |e| + 1) == (e, true)
    ensures var e2 := heap[l].rids[1..heap[l].numValues] + rest;
      Drain(heap, level, Cursor(Some(l), 2), |e2| + 1) == (e2, true)
  {
    var n := heap[l];
    SpliceSlots(n.rids, n.numValues, heap[m].rids[0], e, rest);
    if n.numValues == 2 {
      YieldSecondThenSibling(heap, level, l, m, e);
    } else {
      YieldSiblingFirst(heap, level, l, m, e);
    }
  }

  /** The RIDs after a leaf's first slot, put in front of a chain that starts with x. */
  lemma SpliceSlots(rids: seq<Rid>, count: nat, x: Rid, e: seq<Rid>, rest: seq<Rid>)
    requires |rids| == 2 && 1 <= count <= 2 && rest == [x] + e
    ensures rids[1..count] + rest == if count == 2 then [rids[1], x] + e else [x] + e
  {
    if count == 2 {
      assert rids[1..count] == [rids[1]];
    } else {
      assert rids[1..count] == [];
    }
  }

  /** From position 2 of a clean two-key leaf the scan yields its second RID, then its successor's first. */
  lemma YieldSecondThenSibling(heap: seq<Node>, level: seq<nat>, l: NodeId, m: NodeId, e: seq<Rid>)
    requires HeapOk(heap, level) && l < |heap| && CleanLeaf(heap[l]) && heap[l].numValues == 2
    requires heap[l].children[2] == Some(m) && m < |heap| && CleanLeaf(heap[m])
    requires Drain(heap, level, Cursor(Some(m), 2), |e| + 1) == (e, true)
    ensures Drain(heap, level, Cursor(Some(l), 2), |e| + 3) == ([heap[l].rids[1], heap[m].rids[0]] + e, true)
  {
    SecondSlotStep(heap, level, l);
    FirstSlotStep(heap, level, m);
    DrainTwoSteps(heap, level, Cursor(Some(l), 2), Cursor(Some(m), 1), Cursor(Some(m), 2),
                  heap[l].rids[1], heap[m].rids[0], |e| + 3, e);
  }

  /** Two calls of nextEntry that write x and then y put both in front of what the scan yields after them. */
  lemma DrainTwoSteps(heap: seq<Node>, level: seq<nat>, c: Cursor, c1: Cursor, c2: Cursor, x: Rid, y: Rid, fuel: nat, e: seq<Rid>)
    requires HeapOk(heap, level) && CursorOk(heap, c) && fuel >= 2
    requires NextEntry(heap, level, c) == ScanStep(c1, Ok, Some(x))
    requires CursorOk(heap, c1) && NextEntry(heap, level, c1) == ScanStep(c2, Ok, Some(y))
    requires CursorOk(heap, c2) && Drain(heap, level, c2, fuel - 2) == (e, true)
    ensures Drain(heap, level, c, fuel) == ([x, y] + e, true)
  {
    DrainYields(heap, level, c1, fuel - 1, c2, y);
    DrainYields(heap, level, c, fuel, c1, x);
    assert [x] + ([y] + e) == [x, y] + e;
  }

  /** From position 2 of a clean one-key leaf the scan moves on to its successor and yields that leaf's first RID. */
  lemma YieldSiblingFirst(heap: seq<Node>, level: seq<nat>, l: NodeId, m: NodeId, e: seq<Rid>)
    requires HeapOk(heap, level) && l < |heap| && CleanLeaf(heap[l]) && heap[l].numValues == 1
    requires heap[l].children[2] == Some(m) && m < |heap| && CleanLeaf(heap[m])
    requires Drain(heap, level, Cursor(Some(m), 2), |e| + 1) == (e, true)
    ensures Drain(heap, level, Cursor(Some(l), 2), |e| + 2) == ([heap[m].rids[0]] + e, true)
  {
    SiblingStep(heap, level, l);
    DrainYields(heap, level, Cursor(Some(l), 2), |e| + 2, Cursor(Some(m), 2), heap[m].rids[0]);
  }

  /** The entries of a chain are its first leaf's first RID followed by the rest. */
  lemma ChainEntriesHead(heap: seq<Node>, m: NodeId, k: nat)
    requires k >= 1 && Chain(heap, Some(m), k)
    ensures ChainEntries(heap, Some(m), k)
      == [heap[m].rids[0]] + (heap[m].rids[1..heap[m].numValues] + ChainEntries(heap, heap[m].children[2], k - 1))
  {
    assert heap[m].rids[..heap[m].numValues] == [heap[m].rids[0]] + heap[m].rids[1..heap[m].numValues];
  }

  /** From position 1 of a clean leaf the scan yields its first RID and goes on as from position 2. */
  lemma DrainThroughFirstSlot(heap: seq<Node>, level: seq<nat>, m: NodeId, fuel: nat, e: seq<Rid>)
    requires HeapOk(heap, level) && m < |heap| && CleanLeaf(heap[m])
    requires Drain(heap, level, Cursor(Some(m), 2), fuel) == (e, true)
    ensures Drain(heap, level, Cursor(Some(m), 1), fuel + 1) == ([heap[m].rids[0]] + e, true)
  {
    FirstSlotStep(heap, level, m);
    DrainYields(heap, level, Cursor(Some(m), 1), fuel + 1, Cursor(Some(m), 2), heap[m].rids[0]);
  }

  /**
   * A scan opened on a tree whose leftmost leaf starts a clean chain of k
   * leaves yields every RID of the chain, leaf by leaf in chain order and
   * slot by slot, and then reports NO_MORE_ENTRIES. Tombstones play no part:
   * deleted entries are yielded too.
   */
  lemma ScanYieldsLeafChainInOrder(heap: seq<Node>, level: seq<nat>, root: NodeId, k: nat)
    requires HeapOk(heap, level) && root < |heap| && k >= 1
    requires Chain(heap, Some(LeftmostLeaf(heap, level, root)), k)
    ensures var e := ChainEntries(heap, Some(LeftmostLeaf(heap, level, root)), k);
      Drain(heap, level, OpenTreeScan(heap, level, root), |e| + 1) == (e, true)
  {
    var l := LeftmostLeaf(heap, level, root);
    var n := heap[l];
    var e := ChainEntries(heap, Some(l), k);
    var e' := n.rids[1..n.numValues] + ChainEntries(heap, n.children[2], k - 1);
    DrainFromSecondSlot(heap, level, l, k);
    assert n.rids[..n.numValues] == [n.rids[0]] + n.rids[1..n.numValues];
    assert e == [n.rids[0]] + e';
    FirstSlotStep(heap, level, l);
    DrainYields(heap, level, Cursor(Some(l), 1), |e| + 1, Cursor(Some(l), 2), n.rids[0]);
  }

  /** A scan of a tree that never had a key yields the RID (0, 0) read from the empty root, then ends. */
  lemma ScanOfEmptyTreeYieldsZeroRid(heap: seq<Node>, level: seq<nat>, root: NodeId)
    requires HeapOk(heap, level) && root < |heap| && heap[root] == EmptyRoot
    ensures Drain(heap, level, OpenTreeScan(heap, level, root), 2) == ([Rid(0, 0)], true)
  {
    assert LeftmostLeaf(heap, level, root) == root;
    assert OpenTreeScan(heap, level, root) == Cursor(Some(root), 1);
    assert NextEntry(heap, level, Cursor(Some(root), 1)) == ScanStep(Cursor(Some(root), 2), Ok, Some(Rid(0, 0)));
    assert NextEntry(heap, level, Cursor(Some(root), 2)).rc == ImNoMoreEntries;
    assert Drain(heap, level, Cursor(Some(root), 2), 1) == ([], true);
    assert [Rid(0, 0)] + [] == [Rid(0, 0)];
  }

  /** A second key equal to 0 reads as an empty slot: the scan skips its RID and leaves the leaf. */
  lemma ScanSkipsZeroSecondKey(heap: seq<Node>, level: seq<nat>, root: NodeId)
    requires HeapOk(heap, level) && root < |heap| && heap[root].isLeaf
    requires heap[root].numValues == 2 && heap[root].values[1] == 0 && heap[root].children[2] == None
    requires heap[root].rids[0].page >= 0 && heap[root].rids[0].slot >= 0
    ensures Drain(heap, level, OpenTreeScan(heap, level, root), 2) == ([heap[root].rids[0]], true)
  {
    var n := heap[root];
    assert LeftmostLeaf(heap, level, root) == root;
    assert NextEntry(heap, level, Cursor(Some(root), 1)) == ScanStep(Cursor(Some(root), 2), Ok, Some(n.rids[0]));
    assert Drain(heap, level, Cursor(Some(root), 2), 1) == ([], true);
    assert [n.rids[0]] + [] == [n.rids[0]];
  }

  // ------------------------------------------------------------ a root split

  /** A full root leaf: two keys in order, no right sibling. */
  predicate FullRootLeaf(heap: seq<Node>, root: NodeId)
    requires root < |heap| && Shaped(heap[root])
  {
    heap[root].isLeaf && heap[root].numValues == 2 && Ordered2(heap[root].values) && heap[root].children[2] == None
  }

  /**
   * insertKey into a full root leaf splits it: the new root is the stub,
   * with one key (the largest of the three), an unused second key of 0, the
   * old leaf and the new right leaf as children 0 and 1, and no child 2.
   */
  lemma InsertIntoFullRootLeafSplits(heap: seq<Node>, level: seq<nat>, root: NodeId, val: int, rid: Rid)
    requires HeapOk(heap, level) && root < |heap| && FullRootLeaf(heap, root)
    ensures var r := InsertKey(heap, level, root, val, rid);
      var right := |heap| + 1;
      && r.root == |heap| && |r.heap| == |heap| + 2
      && r.heap[r.root] == Fresh.(numValues := 1, values := [r.heap[right].values[0], 0], children := [Some(root), Some(right), None])
      && r.heap[root].numValues == 2 && r.heap[root].children[2] == Some(right)
      && r.heap[right].isLeaf && r.heap[right].numValues == 1 && r.heap[right].values[1] == 0
      && r.heap[right].children[2] == None
      && r.heap[root].values[1] <= r.heap[right].values[0]
      && r.heap[right].values[0] == if val < heap[root].values[1] then heap[root].values[1] else val
  {
    assert NodeOk(heap, level, root);
  }

  /**
   * As written, deleteKey cannot remove any key at or above the separator
   * once the root leaf has split: getChildIndex sends it to child 2 of the
   * one-key root, which is NULL. findKey still finds such a key (it goes to
   * child 1), and deletion along findKey's path removes it.
   */
  lemma DeleteAfterRootSplitReachesNullChild(heap: seq<Node>, level: seq<nat>, root: NodeId, val: int, rid: Rid, key: int)
    requires HeapOk(heap, level) && root < |heap| && FullRootLeaf(heap, root)
    requires key >= InsertKey(heap, level, root, val, rid).heap[|heap| + 1].values[0]
    ensures var r := InsertKey(heap, level, root, val, rid);
      && DeleteKey(r.heap, r.level, r.root, key) == NullChild
      && FindLeaf(r.heap, r.level, r.root, key) == |heap| + 1
  {
    InsertIntoFullRootLeafSplits(heap, level, root, val, rid);
    var r := InsertKey(heap, level, root, val, rid);
    GetChildIndexOnOneKeyNodes(r.heap[r.root], key);
    assert NodeOk(r.heap, r.level, |heap| + 1);
  }

  /**
   * Inserting 1, 2 and 3 into a new tree and then deleting 3 descends into a
   * NULL child: the split leaves a one-key root whose child 2 is NULL.
   */
  lemma DeleteOfThirdKeyReachesNullChild(r1: Rid, r2: Rid, r3: Rid)
    ensures HeapOk([LeafOneTwo(r1, r2)], [0])
    ensures var r := InsertKey([LeafOneTwo(r1, r2)], [0], 0, 3, r3);
      DeleteKey(r.heap, r.level, r.root, 3) == NullChild && FindKey(r.heap, r.level, r.root, 3) == Success(r3)
  {
    var heap := [LeafOneTwo(r1, r2)];
    assert NodeOk(heap, [0], 0);
    InsertIntoFullRootLeafSplits(heap, [0], 0, 3, r3);
    DeleteAfterRootSplitReachesNullChild(heap, [0], 0, 3, r3, 3);
    var r := InsertKey(heap, [0], 0, 3, r3);
    assert r.heap[2].values[0] == 3 && r.heap[2].rids[0] == r3;
    assert LiveSlot(r.heap[2], 3, 0) == Some(0);
  }

  /** The root leaf after inserting 1 and 2 into a new tree. */
  function LeafOneTwo(r1: Rid, r2: Rid): Node
  {
    EmptyRoot.(numValues := 2, values := [1, 2], rids := [r1, r2])
  }

  /**
   * After a full root leaf with positive keys splits, a scan yields the old
   * leaf's two RIDs and then the new right leaf's RID, which by
   * SplitLeafDistributesKeys is key order.
   */
  lemma ScanAfterRootSplitYieldsKeyOrder(heap: seq<Node>, level: seq<nat>, root: NodeId, val: int, rid: Rid)
    requires HeapOk(heap, level) && root < |heap| && FullRootLeaf(heap, root)
    requires 0 < heap[root].values[0] && 0 < val
    requires forall i :: 0 <= i < 2 ==> heap[root].rids[i].page >= 0 && heap[root].rids[i].slot >= 0
    requires rid.page >= 0 && rid.slot >= 0
    ensures var r := InsertKey(heap, level, root, val, rid);
      var left, right := r.heap[root], r.heap[|heap| + 1];
      Drain(r.heap, r.level, OpenTreeScan(r.heap, r.level, r.root), 4) == ([left.rids[0], left.rids[1], right.rids[0]], true)
  {
    InsertIntoFullRootLeafSplits(heap, level, root, val, rid);
    var r := InsertKey(heap, level, root, val, rid);
    var right := |heap| + 1;
    assert NodeOk(r.heap, r.level, r.root);
    assert LeftmostLeaf(r.heap, r.level, r.root) == root;
    assert Chain(r.heap, Some(right), 1);
    assert Chain(r.heap, Some(root), 2);
    var left := r.heap[root];
    assert left.rids[..2] == [left.rids[0], left.rids[1]];
    assert r.heap[right].rids[..1] == [r.heap[right].rids[0]];
    assert ChainEntries(r.heap, Some(root), 2) == [left.rids[0], left.rids[1], r.heap[right].rids[0]];
    ScanYieldsLeafChainInOrder(r.heap, r.level, r.root, 2);
  }

  /**
   * Tombstones stay with their slots: after the only key of a root leaf is
   * deleted, inserting a smaller key shifts the old key into slot 1 and the
   * new key into the tombstoned slot 0, so the deleted key is found again and
   * the new one is not.
   */
  lemma TombstoneStaysWithSlot(heap: seq<Node>, level: seq<nat>, root: NodeId, old5: int, r5: Rid, val: int, rid: Rid)
    requires HeapOk(heap, level) && root < |heap|
    requires heap[root] == EmptyRoot.(numValues := 1, values := [old5, 0], rids := [r5, Rid(0, 0)])
    requires val < old5
    ensures DeleteKey(heap, level, root, old5).Deleted?
    ensures var r := InsertKey(DeleteKey(heap, level, root, old5).heap, level, root, val, rid);
      && FindKey(r.heap, r.level, r.root, old5) == Success(r5)
      && FindKey(r.heap, r.level, r.root, val) == Failure(ImKeyNotFound)
  {
    assert NodeOk(heap, level, root);
    assert LiveSlot(heap[root], old5, 0) == Some(0);
    var h := DeleteKey(heap, level, root, old5).heap;
    assert h[root].isDeleted == [true, false];
    var r := InsertKey(h, level, root, val, rid);
    assert r.heap[root].values == [val, old5] && r.heap[root].isDeleted == [true, false];
    assert LiveSlot(r.heap[root], old5, 0) == Some(1);
    assert LiveSlot(r.heap[root], val, 0) == None;
  }

  // ------------------------------------------------------------ registry

  /** Only the handles in the registry decide which slot a lookup finds. */
  lemma {:induction false} FindInstanceSeesOnlyTrees(a: seq<Instance>, b: seq<Instance>, tree: nat, i: nat)
    requires |a| == |b| && i <= |a|
    requires forall j :: 0 <= j < |a| ==> a[j].tree == b[j].tree
    ensures FindInstance(a, tree, i) == FindInstance(b, tree, i)
    decreases |a| - i
  {
    if i < |a| {
      FindInstanceSeesOnlyTrees(a, b, tree, i + 1);
    }
  }

  /**
   * updateNodeCount and updateEntryCount raise the counters of the tree
   * they are given and of no other tree.
   */
  lemma BumpRaisesCounters(instances: seq<Instance>, tree: nat, dn: nat, de: nat)
    ensures Counters(Bump(instances, tree, dn, de), tree)
      == match Counters(instances, tree)
         case None => None
         case Some(c) => Some((c.0 + dn, c.1 + de))
    ensures forall t :: t != tree ==> Counters(Bump(instances, tree, dn, de), t) == Counters(instances, t)
  {
    var b := Bump(instances, tree, dn, de);
    forall t | true
      ensures FindInstance(b, t, 0) == FindInstance(instances, t, 0)
    {
      FindInstanceSeesOnlyTrees(b, instances, t, 0);
    }
  }

  /** Successive bumps of one tree add up. */
  lemma BumpsAdd(instances: seq<Instance>, tree: nat, dn1: nat, de1: nat, dn2: nat, de2: nat)
    ensures Bump(Bump(instances, tree, dn1, de1), tree, dn2, de2) == Bump(instances, tree, dn1 + dn2, de1 + de2)
  {
    FindInstanceSeesOnlyTrees(Bump(instances, tree, dn1, de1), instances, tree, 0);
  }

  /** openBtree skips the slots before the first one whose id matches. */
  lemma {:induction false} OpenBtreeFindsNewTree(handles: seq<TreeHandle>, instances: seq<Instance>, h: TreeHandle, i: nat)
    requires RegistryOk(handles, instances) && i <= |instances|
    requires forall j :: i <= j < |instances| ==> handles[instances[j].tree].idxId != h.idxId
    ensures RegistryOk(handles + [h], instances + [Instance(|handles|, 0, 0)])
    ensures OpenBtree(handles + [h], instances + [Instance(|handles|, 0, 0)], h.idxId, i) == Some(|handles|)
    decreases |instances| - i
  {
    var hs, ins := handles + [h], instances + [Instance(|handles|, 0, 0)];
    if i < |instances| {
      assert hs[ins[i].tree] == handles[instances[i].tree];
      OpenBtreeFindsNewTree(handles, instances, h, i + 1);
    }
  }

  /**
   * A tree created under an id no other live tree has is found by openBtree
   * under that id, with zero nodes and zero entries.
   */
  lemma CreateThenOpen(handles: seq<TreeHandle>, instances: seq<Instance>, h: TreeHandle)
    requires RegistryOk(handles, instances)
    requires forall j :: 0 <= j < |instances| ==> handles[instances[j].tree].idxId != h.idxId
    ensures RegistryOk(handles + [h], instances + [Instance(|handles|, 0, 0)])
    ensures OpenBtree(handles + [h], instances + [Instance(|handles|, 0, 0)], h.idxId, 0) == Some(|handles|)
    ensures Counters(instances + [Instance(|handles|, 0, 0)], |handles|) == Some((0, 0))
  {
    OpenBtreeFindsNewTree(handles, instances, h, 0);
    assert FindInstance(instances + [Instance(|handles|, 0, 0)], |handles|, |instances|) == Some(|instances|);
    FindInstanceSkips(instances + [Instance(|handles|, 0, 0)], |handles|, 0, |instances|);
  }

  /** A lookup starting at i lands where one starting at k does when no slot in between matches. */
  lemma {:induction false} FindInstanceSkips(instances: seq<Instance>, tree: nat, i: nat, k: nat)
    requires i <= k <= |instances|
    requires forall j :: i <= j < k ==> instances[j].tree != tree
    ensures FindInstance(instances, tree, i) == FindInstance(instances, tree, k)
    decreases k - i
  {
    if i < k {
      FindInstanceSkips(instances, tree, i + 1, k);
    }
  }

  /**
   * deleteBtree fills the hole from the end: the slots before the removed
   * one keep their places, the last slot takes the removed one's place, and
   * the slots in between stay where they were.
   */
  lemma RemoveSlotMovesLast(instances: seq<Instance>, i: nat)
    requires i < |instances|
    ensures var r := RemoveSlot(instances, i);
      && r[..i] == instances[..i]
      && (i < |r| ==> r[i] == instances[|r|] && r[i + 1..] == instances[i + 1..|r|])
  {
    var r := RemoveSlot(instances, i);
    var last := |instances| - 1;
    assert r == instances[i := instances[last]][..last];
    assert forall k :: 0 <= k < i ==> r[k] == instances[k];
    if i < last {
      assert forall k :: i < k < last ==> r[k] == instances[k];
    }
  }

  /**
   * deleteBtree matches ids by prefix: deleting "idx" removes a tree named
   * "idx-2", which openBtree would not open under "idx".
   */
  lemma DeleteBtreeMatchesPrefix()
    ensures var handles := [TreeHandle(DtInt, "idx-2", 0)];
      var instances := [Instance(0, 0, 0)];
      && DeleteSlot(handles, instances, "idx", 0) == Some(0)
      && OpenBtree(handles, instances, "idx", 0) == None
  {
    assert "idx" <= "idx-2";
    assert "idx-2" != "idx";
  }

  /**
   * getNumNodes as written, under an abstraction: the C code subtracts the
   * address of slot 0's handle from the given handle's address and uses the
   * difference as a slot index. Each handle is a separate malloc (with a
   * tree node allocated between two handles), so in C that difference is
   * undefined and is the right slot only for the tree in slot 0. Here
   * handles are numbered 0, 1, 2, ... in allocation order, as if they were
   * consecutive elements of one array: the most favourable reading of the
   * code, under which it already fails once a deletion moves a tree.
   */
  function NumNodesByDistance(instances: seq<Instance>, tree: nat): (r: Option<nat>)
    ensures r.Some? ==> exists j :: 0 <= j < |instances| && r.value == instances[j].numNodes
  {
    if |instances| == 0 then None
    else
      var index := tree as int - instances[0].tree as int;
      if 0 <= index < |instances| then Some(instances[index].numNodes) else None
  }

  /**
   * After trees 0, 1 and 2 are created and tree 0 is deleted, tree 2 sits
   * in slot 0 and tree 1 in slot 1. Even with handles numbered in
   * allocation order, the distance lookup for tree 1 gives the index -1 and
   * no counters, while the lookup by handle finds them.
   */
  lemma NumNodesByDistanceMissesMovedTree()
    ensures var instances := RemoveSlot([Instance(0, 1, 1), Instance(1, 3, 4), Instance(2, 1, 1)], 0);
      && instances == [Instance(2, 1, 1), Instance(1, 3, 4)]
      && NumNodesByDistance(instances, 1) == None
      && Counters(instances, 1) == Some((3, 4))
  {
    var instances := RemoveSlot([Instance(0, 1, 1), Instance(1, 3, 4), Instance(2, 1, 1)], 0);
    assert instances == [Instance(2, 1, 1), Instance(1, 3, 4)];
    assert FindInstance(instances, 1, 0) == Some(1);
  }
}
