/**
 * Worked insertion sequences on the B+-tree model, each followed one
 * insertKey at a time: the trees after each step are written out, and the
 * lookups and scans are then read off the last one.
 */
module BTreeScenarios {
  import opened DbError
  import opened Tables
  import opened BTreeSpec
  import opened BTreeProps

  /** A leaf holding keys v0 and v1 (numValues of them in use) with right sibling next. */
  function Leaf(numValues: nat, v0: int, v1: int, r0: Rid, r1: Rid, next: Option<NodeId>): Node
  {
    EmptyRoot.(numValues := numValues, values := [v0, v1], rids := [r0, r1], children := [None, None, next])
  }

  /** An internal node with one key, as splitting leaves it: an unused second key of 0 and no child 2. */
  function OneKeyNode(v: int, c0: NodeId, c1: NodeId): Node
  {
    Fresh.(numValues := 1, values := [v, 0], children := [Some(c0), Some(c1), None])
  }

  /** An internal node with two keys and three children, as absorbing a stub leaves it. */
  function TwoKeyNode(v0: int, v1: int, c0: NodeId, c1: NodeId, c2: NodeId): Node
  {
    Fresh.(numValues := 2, values := [v0, v1], children := [Some(c0), Some(c1), Some(c2)])
  }

  const Z: Rid := Rid(0, 0)

  /** A RID that storeResultValues writes out: neither part negative. */
  predicate Stored(r: Rid)
  {
    r.page >= 0 && r.slot >= 0
  }

  // ------------------------------------------------------------ insert 5, 3, 8, 1

  /** The tree after 5 and 3: one root leaf. */
  function TreeC2(r5: Rid, r3: Rid): seq<Node>
  {
    [Leaf(2, 3, 5, r3, r5, None)]
  }

  /** The tree after 5, 3 and 8: the root leaf split into leaves 0 and 2 under the stub 1. */
  function TreeC3(r5: Rid, r3: Rid, r8: Rid): seq<Node>
  {
    [Leaf(2, 3, 5, r3, r5, Some(2)), OneKeyNode(8, 0, 2), Leaf(1, 8, 0, r8, Z, None)]
  }

  /**
   * The tree after 5, 3, 8 and 1: leaf 0 split again, into leaves 0 and 4
   * under the stub 3, and the one-key root 1 absorbed that stub.
   */
  function TreeC4(r5: Rid, r3: Rid, r8: Rid, r1: Rid): seq<Node>
  {
    [ Leaf(2, 1, 3, r1, r3, Some(4)),
      TwoKeyNode(5, 8, 0, 4, 2),
      Leaf(1, 8, 0, r8, Z, None),
      OneKeyNode(5, 0, 4),
      Leaf(1, 5, 0, r5, Z, Some(2)) ]
  }

  /** The first insertKey into a new tree fills slot 0 of its root leaf. */
  lemma InsertIntoNewTree(v: int, r: Rid)
    ensures HeapOk([EmptyRoot], [0])
    ensures InsertKey([EmptyRoot], [0], 0, v, r) == InsertResult([Leaf(1, v, 0, r, Z, None)], [0], 0, 1, 1)
  {
    assert NodeOk([EmptyRoot], [0], 0);
    assert EmptyRoot.values[0 := v] == [v, 0] && EmptyRoot.rids[0 := r] == [r, Z];
  }

  /** Inserting 5 and then 3 into a new tree fills its root leaf in key order. */
  lemma InsertFiveThree(r5: Rid, r3: Rid)
    ensures HeapOk([Leaf(1, 5, 0, r5, Z, None)], [0])
    ensures InsertKey([Leaf(1, 5, 0, r5, Z, None)], [0], 0, 3, r3) == InsertResult(TreeC2(r5, r3), [0], 0, 0, 1)
  {
    InsertIntoNewTree(5, r5);
    var h := [Leaf(1, 5, 0, r5, Z, None)];
    assert NodeOk(h, [0], 0);
    var r := InsertKey(h, [0], 0, 3, r3);
    assert r.heap[0] == Leaf(2, 3, 5, r3, r5, None);
  }

  /** Inserting 8 splits the full root leaf: the stub 1 becomes the root. */
  lemma InsertEight(r5: Rid, r3: Rid, r8: Rid)
    ensures HeapOk(TreeC2(r5, r3), [0])
    ensures InsertKey(TreeC2(r5, r3), [0], 0, 8, r8) == InsertResult(TreeC3(r5, r3, r8), [0, 1, 0], 1, 2, 1)
  {
    InsertFiveThree(r5, r3);
    var h := TreeC2(r5, r3);
    assert NodeOk(h, [0], 0);
    var r := InsertKey(h, [0], 0, 8, r8);
    assert |r.heap| == 3;
    assert r.heap[0] == Leaf(2, 3, 5, r3, r5, Some(2));
    assert r.heap[1] == OneKeyNode(8, 0, 2);
    assert r.heap[2] == Leaf(1, 8, 0, r8, Z, None);
  }

  /** Inserting 1 splits leaf 0, and the root absorbs the stub: keys 5 and 8 over leaves 0, 4 and 2. */
  lemma InsertOne(r5: Rid, r3: Rid, r8: Rid, r1: Rid)
    ensures HeapOk(TreeC3(r5, r3, r8), [0, 1, 0])
    ensures InsertKey(TreeC3(r5, r3, r8), [0, 1, 0], 1, 1, r1) == InsertResult(TreeC4(r5, r3, r8, r1), [0, 1, 0, 1, 0], 1, 1, 1)
  {
    InsertEight(r5, r3, r8);
    var h, l := TreeC3(r5, r3, r8), [0, 1, 0];
    assert NodeOk(h, l, 1);
    assert NodeOk(h, l, 0);
    var sub := AddNodeToTree(h, l, 0, 1, r1);
    assert |sub.heap| == 5 && sub.stub == Some(3);
    assert sub.heap[0] == Leaf(2, 1, 3, r1, r3, Some(4));
    assert sub.heap[3] == OneKeyNode(5, 0, 4);
    assert sub.heap[4] == Leaf(1, 5, 0, r5, Z, Some(2));
    var r := InsertKey(h, l, 1, 1, r1);
    assert r.heap[1] == TreeC4(r5, r3, r8, r1)[1];
    assert r.heap == TreeC4(r5, r3, r8, r1);
  }

  /** The tree after 5, 3, 8 and 1 is well formed. */
  lemma TreeC4Ok(r5: Rid, r3: Rid, r8: Rid, r1: Rid)
    ensures HeapOk(TreeC4(r5, r3, r8, r1), [0, 1, 0, 1, 0])
  {
    InsertOne(r5, r3, r8, r1);
  }

  /**
   * Inserting 5, 3, 8 and 1 into a new tree and scanning it yields the RIDs
   * in key order 1, 3, 5, 8, and then NO_MORE_ENTRIES.
   */
  lemma ScanAfterFiveThreeEightOneIsKeyOrder(r5: Rid, r3: Rid, r8: Rid, r1: Rid)
    requires Stored(r5) && Stored(r3) && Stored(r8) && Stored(r1)
    ensures HeapOk(TreeC4(r5, r3, r8, r1), [0, 1, 0, 1, 0])
    ensures var h := TreeC4(r5, r3, r8, r1);
      Drain(h, [0, 1, 0, 1, 0], OpenTreeScan(h, [0, 1, 0, 1, 0], 1), 5) == ([r1, r3, r5, r8], true)
  {
    TreeC4Ok(r5, r3, r8, r1);
    var h, l := TreeC4(r5, r3, r8, r1), [0, 1, 0, 1, 0];
    assert NodeOk(h, l, 1);
    assert LeftmostLeaf(h, l, 1) == 0;
    assert Chain(h, Some(2), 1);
    assert Chain(h, Some(4), 2);
    assert Chain(h, Some(0), 3);
    assert h[0].rids[..2] == [r1, r3] && h[4].rids[..1] == [r5] && h[2].rids[..1] == [r8];
    assert ChainEntries(h, Some(0), 3) == [r1, r3, r5, r8];
    ScanYieldsLeafChainInOrder(h, l, 1, 3);
  }

  /**
   * Inserting 5, 3, 8 and 1 into a new tree, one insertKey after another,
   * and scanning the result yields the RIDs in key order 1, 3, 5, 8.
   */
  lemma ScanAfterInsertingFiveThreeEightOne(r5: Rid, r3: Rid, r8: Rid, r1: Rid)
    requires Stored(r5) && Stored(r3) && Stored(r8) && Stored(r1)
    ensures HeapOk([EmptyRoot], [0])
    ensures var a := InsertKey([EmptyRoot], [0], 0, 5, r5);
      var b := InsertKey(a.heap, a.level, a.root, 3, r3);
      var c := InsertKey(b.heap, b.level, b.root, 8, r8);
      var d := InsertKey(c.heap, c.level, c.root, 1, r1);
      Drain(d.heap, d.level, OpenTreeScan(d.heap, d.level, d.root), 5) == ([r1, r3, r5, r8], true)
  {
    InsertIntoNewTree(5, r5);
    InsertFiveThree(r5, r3);
    InsertEight(r5, r3, r8);
    InsertOne(r5, r3, r8, r1);
    ScanAfterFiveThreeEightOneIsKeyOrder(r5, r3, r8, r1);
  }

  /** Each key of 5, 3, 8, 1 is found afterwards with the RID it was inserted with. */
  lemma FindAfterFiveThreeEightOne(r5: Rid, r3: Rid, r8: Rid, r1: Rid)
    ensures HeapOk(TreeC4(r5, r3, r8, r1), [0, 1, 0, 1, 0])
    ensures var h := TreeC4(r5, r3, r8, r1);
      && FindKey(h, [0, 1, 0, 1, 0], 1, 1) == Success(r1)
      && FindKey(h, [0, 1, 0, 1, 0], 1, 3) == Success(r3)
      && FindKey(h, [0, 1, 0, 1, 0], 1, 5) == Success(r5)
      && FindKey(h, [0, 1, 0, 1, 0], 1, 8) == Success(r8)
  {
    TreeC4Ok(r5, r3, r8, r1);
    var h, l := TreeC4(r5, r3, r8, r1), [0, 1, 0, 1, 0];
    assert NodeOk(h, l, 1);
    assert ChildIndex(h[1], 5, 1) == 1 && ChildIndex(h[1], 8, 1) == 2;
    assert FindLeaf(h, l, 1, 1) == 0 && FindLeaf(h, l, 1, 3) == 0;
    assert FindLeaf(h, l, 1, 5) == 4 && FindLeaf(h, l, 1, 8) == 2;
    assert LiveSlot(h[0], 1, 0) == Some(0) && LiveSlot(h[0], 3, 1) == Some(1);
    assert LiveSlot(h[4], 5, 0) == Some(0) && LiveSlot(h[2], 8, 0) == Some(0);
  }

  // ------------------------------------------------------------ a duplicate key

  /**
   * Inserting 5 twice, with RIDs a and b: the second 5 goes after the first,
   * and findKey returns the first RID, a.
   */
  lemma DuplicateKeyFindsFirstRid(a: Rid, b: Rid)
    ensures HeapOk([EmptyRoot], [0])
    ensures var r1 := InsertKey([EmptyRoot], [0], 0, 5, a);
      var r2 := InsertKey(r1.heap, r1.level, r1.root, 5, b);
      && r2.heap == [Leaf(2, 5, 5, a, b, None)] && r2.root == 0
      && FindKey(r2.heap, r2.level, r2.root, 5) == Success(a)
  {
    InsertIntoNewTree(5, a);
    var h := [Leaf(1, 5, 0, a, Z, None)];
    assert NodeOk(h, [0], 0);
    var r2 := InsertKey(h, [0], 0, 5, b);
    assert r2.heap[0] == Leaf(2, 5, 5, a, b, None);
    assert LiveSlot(r2.heap[0], 5, 0) == Some(0);
  }

  // ------------------------------------------------------------ an internal split

  /** The tree after 10, 20 and 30: the root leaf split into leaves 0 and 2 under the stub 1. */
  function TreeE3(r10: Rid, r20: Rid, r30: Rid): seq<Node>
  {
    [Leaf(2, 10, 20, r10, r20, Some(2)), OneKeyNode(30, 0, 2), Leaf(1, 30, 0, r30, Z, None)]
  }

  /** The tree after 10, 20, 30 and 25: the root 1 holds 25 and 30 over leaves 0, 4 and 2. */
  function TreeE4(r10: Rid, r20: Rid, r30: Rid, r25: Rid): seq<Node>
  {
    [ Leaf(2, 10, 20, r10, r20, Some(4)),
      TwoKeyNode(25, 30, 0, 4, 2),
      Leaf(1, 30, 0, r30, Z, None),
      OneKeyNode(25, 0, 4),
      Leaf(1, 25, 0, r25, Z, Some(2)) ]
  }

  /** The tree after 10, 20, 30, 25 and 27: 27 joined leaf 4. */
  function TreeE5(r10: Rid, r20: Rid, r30: Rid, r25: Rid, r27: Rid): seq<Node>
  {
    [ Leaf(2, 10, 20, r10, r20, Some(4)),
      TwoKeyNode(25, 30, 0, 4, 2),
      Leaf(1, 30, 0, r30, Z, None),
      OneKeyNode(25, 0, 4),
      Leaf(2, 25, 27, r25, r27, Some(2)) ]
  }

  /**
   * The tree after 10, 20, 30, 25, 27 and 26: leaf 4 split into leaves 4
   * and 6 under the stub 5, and the two-key root 1 split into the new root
   * 7, the right node 8 and the left node 9. Both halves point at leaf 4;
   * leaf 6 hangs only off the leaf chain and the discarded stub.
   */
  function TreeE6(r10: Rid, r20: Rid, r30: Rid, r25: Rid, r27: Rid, r26: Rid): seq<Node>
  {
    [ Leaf(2, 10, 20, r10, r20, Some(4)),
      TwoKeyNode(25, 30, 0, 4, 2),
      Leaf(1, 30, 0, r30, Z, None),
      OneKeyNode(25, 0, 4),
      Leaf(2, 25, 26, r25, r26, Some(6)),
      OneKeyNode(27, 4, 6),
      Leaf(1, 27, 0, r27, Z, Some(2)),
      OneKeyNode(27, 9, 8),
      OneKeyNode(30, 4, 2),
      OneKeyNode(25, 0, 4) ]
  }

  /** Inserting 20 after 10 fills the root leaf. */
  lemma InsertTwenty(r10: Rid, r20: Rid)
    ensures HeapOk([Leaf(1, 10, 0, r10, Z, None)], [0])
    ensures InsertKey([Leaf(1, 10, 0, r10, Z, None)], [0], 0, 20, r20)
      == InsertResult([Leaf(2, 10, 20, r10, r20, None)], [0], 0, 0, 1)
  {
    InsertIntoNewTree(10, r10);
    var h := [Leaf(1, 10, 0, r10, Z, None)];
    assert NodeOk(h, [0], 0);
    var r := InsertKey(h, [0], 0, 20, r20);
    assert r.heap[0] == Leaf(2, 10, 20, r10, r20, None);
  }

  /** Inserting 30 splits the full root leaf: the stub 1 becomes the root. */
  lemma InsertThirty(r10: Rid, r20: Rid, r30: Rid)
    ensures HeapOk([Leaf(2, 10, 20, r10, r20, None)], [0])
    ensures InsertKey([Leaf(2, 10, 20, r10, r20, None)], [0], 0, 30, r30)
      == InsertResult(TreeE3(r10, r20, r30), [0, 1, 0], 1, 2, 1)
  {
    InsertTwenty(r10, r20);
    var h := [Leaf(2, 10, 20, r10, r20, None)];
    assert NodeOk(h, [0], 0);
    var r := InsertKey(h, [0], 0, 30, r30);
    assert |r.heap| == 3;
    assert r.heap[0] == Leaf(2, 10, 20, r10, r20, Some(2));
    assert r.heap[1] == OneKeyNode(30, 0, 2);
    assert r.heap[2] == Leaf(1, 30, 0, r30, Z, None);
  }

  /** The tree after 10, 20 and 30 is well formed. */
  lemma TreeE3Ok(r10: Rid, r20: Rid, r30: Rid)
    ensures HeapOk(TreeE3(r10, r20, r30), [0, 1, 0])
  {
    InsertThirty(r10, r20, r30);
  }

  /** Inserting 25 splits leaf 0, and the one-key root absorbs the stub. */
  lemma InsertTwentyFive(r10: Rid, r20: Rid, r30: Rid, r25: Rid)
    ensures HeapOk(TreeE3(r10, r20, r30), [0, 1, 0])
    ensures InsertKey(TreeE3(r10, r20, r30), [0, 1, 0], 1, 25, r25)
      == InsertResult(TreeE4(r10, r20, r30, r25), [0, 1, 0, 1, 0], 1, 1, 1)
  {
    TreeE3Ok(r10, r20, r30);
    var h, l := TreeE3(r10, r20, r30), [0, 1, 0];
    assert NodeOk(h, l, 1);
    assert NodeOk(h, l, 0);
    var sub := AddNodeToTree(h, l, 0, 25, r25);
    assert |sub.heap| == 5 && sub.stub == Some(3);
    assert sub.heap[0] == Leaf(2, 10, 20, r10, r20, Some(4));
    assert sub.heap[3] == OneKeyNode(25, 0, 4);
    assert sub.heap[4] == Leaf(1, 25, 0, r25, Z, Some(2));
    var r := InsertKey(h, l, 1, 25, r25);
    assert r.heap[1] == TwoKeyNode(25, 30, 0, 4, 2);
    assert r.heap == TreeE4(r10, r20, r30, r25);
  }

  /** The tree after 10, 20, 30 and 25 is well formed. */
  lemma TreeE4Ok(r10: Rid, r20: Rid, r30: Rid, r25: Rid)
    ensures HeapOk(TreeE4(r10, r20, r30, r25), [0, 1, 0, 1, 0])
  {
    InsertTwentyFive(r10, r20, r30, r25);
  }

  /** Inserting 27 fills leaf 4, which the root's middle child reaches. */
  lemma InsertTwentySeven(r10: Rid, r20: Rid, r30: Rid, r25: Rid, r27: Rid)
    ensures HeapOk(TreeE4(r10, r20, r30, r25), [0, 1, 0, 1, 0])
    ensures InsertKey(TreeE4(r10, r20, r30, r25), [0, 1, 0, 1, 0], 1, 27, r27)
      == InsertResult(TreeE5(r10, r20, r30, r25, r27), [0, 1, 0, 1, 0], 1, 0, 1)
  {
    TreeE4Ok(r10, r20, r30, r25);
    var h, l := TreeE4(r10, r20, r30, r25), [0, 1, 0, 1, 0];
    assert NodeOk(h, l, 1);
    assert NodeOk(h, l, 4);
    var r := InsertKey(h, l, 1, 27, r27);
    assert r.heap[4] == Leaf(2, 25, 27, r25, r27, Some(2));
    assert r.heap == TreeE5(r10, r20, r30, r25, r27);
  }

  /**
   * Inserting 26 splits leaf 4; the two-key root cannot absorb the stub and
   * splits, and the split's new root 7 becomes the tree's root.
   */
  lemma InsertTwentySix(r10: Rid, r20: Rid, r30: Rid, r25: Rid, r27: Rid, r26: Rid)
    ensures HeapOk(TreeE5(r10, r20, r30, r25, r27), [0, 1, 0, 1, 0])
    ensures InsertKey(TreeE5(r10, r20, r30, r25, r27), [0, 1, 0, 1, 0], 1, 26, r26)
      == InsertResult(TreeE6(r10, r20, r30, r25, r27, r26), [0, 1, 0, 1, 0, 1, 0, 2, 1, 1], 7, 3, 1)
  {
    TreeE5Ok(r10, r20, r30, r25, r27);
    var h, l := TreeE5(r10, r20, r30, r25, r27), [0, 1, 0, 1, 0];
    assert NodeOk(h, l, 1);
    assert NodeOk(h, l, 4);
    var sub := AddNodeToTree(h, l, 4, 26, r26);
    assert |sub.heap| == 7 && sub.stub == Some(5) && sub.level == l + [1, 0];
    assert sub.heap[4] == Leaf(2, 25, 26, r25, r26, Some(6));
    assert sub.heap[5] == OneKeyNode(27, 4, 6);
    assert sub.heap[6] == Leaf(1, 27, 0, r27, Z, Some(2));
    var ns := SplitNodes(sub.heap[1], 27, 7);
    assert ns == [OneKeyNode(27, 9, 8), OneKeyNode(30, 4, 2), OneKeyNode(25, 0, 4)];
    var r := InsertKey(h, l, 1, 26, r26);
    assert r.heap == sub.heap + ns;
    assert r.heap == TreeE6(r10, r20, r30, r25, r27, r26);
  }

  /**
   * Inserting 10, 20, 30, 25, 27 and 26 into a new tree: before 26, findKey
   * finds 27; after it, the root split has dropped the leaf holding 27 from
   * every path findKey can take, and findKey(27) is KEY_NOT_FOUND. A scan
   * still walks the leaf chain through that leaf and yields all six RIDs in
   * key order.
   */
  lemma InternalSplitLosesKey(r10: Rid, r20: Rid, r30: Rid, r25: Rid, r27: Rid, r26: Rid)
    requires Stored(r10) && Stored(r20) && Stored(r30) && Stored(r25) && Stored(r27) && Stored(r26)
    ensures HeapOk([EmptyRoot], [0])
    ensures var a := InsertKey([EmptyRoot], [0], 0, 10, r10);
      var b := InsertKey(a.heap, a.level, a.root, 20, r20);
      var c := InsertKey(b.heap, b.level, b.root, 30, r30);
      var d := InsertKey(c.heap, c.level, c.root, 25, r25);
      var e := InsertKey(d.heap, d.level, d.root, 27, r27);
      var f := InsertKey(e.heap, e.level, e.root, 26, r26);
      && FindKey(e.heap, e.level, e.root, 27) == Success(r27)
      && FindKey(f.heap, f.level, f.root, 27) == Failure(ImKeyNotFound)
      && Drain(f.heap, f.level, OpenTreeScan(f.heap, f.level, f.root), 7)
           == ([r10, r20, r25, r26, r27, r30], true)
  {
    InsertIntoNewTree(10, r10);
    InsertTwenty(r10, r20);
    InsertThirty(r10, r20, r30);
    InsertTwentyFive(r10, r20, r30, r25);
    InsertTwentySeven(r10, r20, r30, r25, r27);
    InsertTwentySix(r10, r20, r30, r25, r27, r26);
    FindBeforeSplit(r10, r20, r30, r25, r27);
    FindAfterSplit(r10, r20, r30, r25, r27, r26);
    ScanAfterSplit(r10, r20, r30, r25, r27, r26);
  }

  // ------------------------------------------- an internal split loses the new key

  /**
   * The tree after 10, 20, 30, 25, 27 and then 28 instead of 26: leaf 4
   * keeps 25 and 27, the new leaf 6 takes 28 under the stub 5, and the root
   * 1 splits into the new root 7 (key 28), the right node 8 and the left
   * node 9. Leaf 6 hangs only off the leaf chain and the discarded stub.
   */
  function TreeF6(r10: Rid, r20: Rid, r30: Rid, r25: Rid, r27: Rid, r28: Rid): seq<Node>
  {
    [ Leaf(2, 10, 20, r10, r20, Some(4)),
      TwoKeyNode(25, 30, 0, 4, 2),
      Leaf(1, 30, 0, r30, Z, None),
      OneKeyNode(25, 0, 4),
      Leaf(2, 25, 27, r25, r27, Some(6)),
      OneKeyNode(28, 4, 6),
      Leaf(1, 28, 0, r28, Z, Some(2)),
      OneKeyNode(28, 9, 8),
      OneKeyNode(30, 4, 2),
      OneKeyNode(25, 0, 4) ]
  }

  /** Inserting 28 splits the full leaf 4, and the two-key root splits around the stub's key 28. */
  lemma InsertTwentyEight(r10: Rid, r20: Rid, r30: Rid, r25: Rid, r27: Rid, r28: Rid)
    ensures HeapOk(TreeE5(r10, r20, r30, r25, r27), [0, 1, 0, 1, 0])
    ensures InsertKey(TreeE5(r10, r20, r30, r25, r27), [0, 1, 0, 1, 0], 1, 28, r28)
      == InsertResult(TreeF6(r10, r20, r30, r25, r27, r28), [0, 1, 0, 1, 0, 1, 0, 2, 1, 1], 7, 3, 1)
  {
    TreeE5Ok(r10, r20, r30, r25, r27);
    var h, l := TreeE5(r10, r20, r30, r25, r27), [0, 1, 0, 1, 0];
    assert NodeOk(h, l, 1);
    assert NodeOk(h, l, 4);
    var sub := AddNodeToTree(h, l, 4, 28, r28);
    assert |sub.heap| == 7 && sub.stub == Some(5) && sub.level == l + [1, 0];
    assert sub.heap[4] == Leaf(2, 25, 27, r25, r27, Some(6));
    assert sub.heap[5] == OneKeyNode(28, 4, 6);
    assert sub.heap[6] == Leaf(1, 28, 0, r28, Z, Some(2));
    var ns := SplitNodes(sub.heap[1], 28, 7);
    assert ns == [OneKeyNode(28, 9, 8), OneKeyNode(30, 4, 2), OneKeyNode(25, 0, 4)];
    var r := InsertKey(h, l, 1, 28, r28);
    assert r.heap == sub.heap + ns;
    assert r.heap == TreeF6(r10, r20, r30, r25, r27, r28);
  }

  /** The tree after 28 goes in is well formed. */
  lemma TreeF6Ok(r10: Rid, r20: Rid, r30: Rid, r25: Rid, r27: Rid, r28: Rid)
    ensures HeapOk(TreeF6(r10, r20, r30, r25, r27, r28), [0, 1, 0, 1, 0, 1, 0, 2, 1, 1])
  {
    InsertTwentyEight(r10, r20, r30, r25, r27, r28);
  }

  /** After 28 goes in, findKey(28) goes from the root 7 to node 8 and on to leaf 4, which does not hold 28. */
  lemma FindTwentyEightAfterSplit(r10: Rid, r20: Rid, r30: Rid, r25: Rid, r27: Rid, r28: Rid)
    ensures HeapOk(TreeF6(r10, r20, r30, r25, r27, r28), [0, 1, 0, 1, 0, 1, 0, 2, 1, 1])
    ensures FindKey(TreeF6(r10, r20, r30, r25, r27, r28), [0, 1, 0, 1, 0, 1, 0, 2, 1, 1], 7, 28) == Failure(ImKeyNotFound)
  {
    TreeF6Ok(r10, r20, r30, r25, r27, r28);
    var h, l := TreeF6(r10, r20, r30, r25, r27, r28), [0, 1, 0, 1, 0, 1, 0, 2, 1, 1];
    assert h[4].isLeaf && h[8] == OneKeyNode(30, 4, 2) && h[7] == OneKeyNode(28, 9, 8);
    assert FindLeaf(h, l, 4, 28) == 4;
    assert ChildIndex(h[8], 28, 0) == 0;
    assert FindLeaf(h, l, 8, 28) == 4;
    assert ChildIndex(h[7], 28, 1) == 1;
    assert FindLeaf(h, l, 7, 28) == 4;
    assert LiveSlot(h[4], 28, 0) == None;
  }

  /**
   * Insert-then-find fails already in a one-level tree: after 10, 20, 30,
   * 25 and 27 the root holds two keys over three leaves, and inserting 28
   * into the full middle leaf splits it and then the root. findKey(28)
   * answers KEY_NOT_FOUND right after 28 was inserted.
   */
  lemma InsertedKeyLostByInternalSplit(r10: Rid, r20: Rid, r30: Rid, r25: Rid, r27: Rid, r28: Rid)
    ensures HeapOk([EmptyRoot], [0])
    ensures var a := InsertKey([EmptyRoot], [0], 0, 10, r10);
      var b := InsertKey(a.heap, a.level, a.root, 20, r20);
      var c := InsertKey(b.heap, b.level, b.root, 30, r30);
      var d := InsertKey(c.heap, c.level, c.root, 25, r25);
      var e := InsertKey(d.heap, d.level, d.root, 27, r27);
      var f := InsertKey(e.heap, e.level, e.root, 28, r28);
      && e.level[e.root] == 1 && e.heap[e.root].numValues == 2
      && FindKey(f.heap, f.level, f.root, 28) == Failure(ImKeyNotFound)
  {
    InsertIntoNewTree(10, r10);
    InsertTwenty(r10, r20);
    InsertThirty(r10, r20, r30);
    InsertTwentyFive(r10, r20, r30, r25);
    InsertTwentySeven(r10, r20, r30, r25, r27);
    InsertTwentyEight(r10, r20, r30, r25, r27, r28);
    FindTwentyEightAfterSplit(r10, r20, r30, r25, r27, r28);
  }

  /** The tree after 10, 20, 30, 25 and 27 is well formed. */
  lemma TreeE5Ok(r10: Rid, r20: Rid, r30: Rid, r25: Rid, r27: Rid)
    ensures HeapOk(TreeE5(r10, r20, r30, r25, r27), [0, 1, 0, 1, 0])
  {
    InsertTwentySeven(r10, r20, r30, r25, r27);
  }

  /** Before 26 goes in, findKey(27) goes to leaf 4 and finds it. */
  lemma FindBeforeSplit(r10: Rid, r20: Rid, r30: Rid, r25: Rid, r27: Rid)
    ensures HeapOk(TreeE5(r10, r20, r30, r25, r27), [0, 1, 0, 1, 0])
    ensures FindKey(TreeE5(r10, r20, r30, r25, r27), [0, 1, 0, 1, 0], 1, 27) == Success(r27)
  {
    TreeE5Ok(r10, r20, r30, r25, r27);
    var h, l := TreeE5(r10, r20, r30, r25, r27), [0, 1, 0, 1, 0];
    assert NodeOk(h, l, 1);
    assert ChildIndex(h[1], 27, 1) == 1;
    assert FindLeaf(h, l, 1, 27) == 4;
    assert LiveSlot(h[4], 27, 1) == Some(1);
  }

  /** The tree after the six insertions is well formed. */
  lemma TreeE6Ok(r10: Rid, r20: Rid, r30: Rid, r25: Rid, r27: Rid, r26: Rid)
    ensures HeapOk(TreeE6(r10, r20, r30, r25, r27, r26), [0, 1, 0, 1, 0, 1, 0, 2, 1, 1])
  {
    InsertTwentySix(r10, r20, r30, r25, r27, r26);
  }

  /** After 26 goes in, findKey(27) goes from the root 7 to node 8 and on to leaf 4, which no longer holds 27. */
  lemma FindAfterSplit(r10: Rid, r20: Rid, r30: Rid, r25: Rid, r27: Rid, r26: Rid)
    ensures HeapOk(TreeE6(r10, r20, r30, r25, r27, r26), [0, 1, 0, 1, 0, 1, 0, 2, 1, 1])
    ensures FindKey(TreeE6(r10, r20, r30, r25, r27, r26), [0, 1, 0, 1, 0, 1, 0, 2, 1, 1], 7, 27) == Failure(ImKeyNotFound)
  {
    TreeE6Ok(r10, r20, r30, r25, r27, r26);
    var h, l := TreeE6(r10, r20, r30, r25, r27, r26), [0, 1, 0, 1, 0, 1, 0, 2, 1, 1];
    assert h[4].isLeaf && h[8] == OneKeyNode(30, 4, 2) && h[7] == OneKeyNode(27, 9, 8);
    assert FindLeaf(h, l, 4, 27) == 4;
    assert ChildIndex(h[8], 27, 0) == 0;
    assert FindLeaf(h, l, 8, 27) == 4;
    assert ChildIndex(h[7], 27, 1) == 1;
    assert FindLeaf(h, l, 7, 27) == 4;
    assert LiveSlot(h[4], 27, 0) == None;
  }

  /** After 26 goes in, the leaf chain from the leftmost leaf 0 runs 0, 4, 6, 2 and a scan yields every RID in key order. */
  lemma ScanAfterSplit(r10: Rid, r20: Rid, r30: Rid, r25: Rid, r27: Rid, r26: Rid)
    requires Stored(r10) && Stored(r20) && Stored(r30) && Stored(r25) && Stored(r27) && Stored(r26)
    ensures HeapOk(TreeE6(r10, r20, r30, r25, r27, r26), [0, 1, 0, 1, 0, 1, 0, 2, 1, 1])
    ensures var h, l := TreeE6(r10, r20, r30, r25, r27, r26), [0, 1, 0, 1, 0, 1, 0, 2, 1, 1];
      Drain(h, l, OpenTreeScan(h, l, 7), 7) == ([r10, r20, r25, r26, r27, r30], true)
  {
    TreeE6Ok(r10, r20, r30, r25, r27, r26);
    var h, l := TreeE6(r10, r20, r30, r25, r27, r26), [0, 1, 0, 1, 0, 1, 0, 2, 1, 1];
    assert NodeOk(h, l, 7);
    assert NodeOk(h, l, 9);
    assert LeftmostLeaf(h, l, 7) == 0;
    ChainAfterSplit(r10, r20, r30, r25, r27, r26);
    ScanYieldsLeafChainInOrder(h, l, 7, 4);
  }

  /** After 26 goes in, leaves 0, 4, 6 and 2 form a clean chain holding the six RIDs in key order. */
  lemma ChainAfterSplit(r10: Rid, r20: Rid, r30: Rid, r25: Rid, r27: Rid, r26: Rid)
    requires Stored(r10) && Stored(r20) && Stored(r30) && Stored(r25) && Stored(r27) && Stored(r26)
    ensures var h := TreeE6(r10, r20, r30, r25, r27, r26);
      Chain(h, Some(0), 4) && ChainEntries(h, Some(0), 4) == [r10, r20, r25, r26, r27, r30]
  {
    var h := TreeE6(r10, r20, r30, r25, r27, r26);
    assert Chain(h, Some(2), 1) && ChainEntries(h, Some(2), 1) == [r30];
    assert Chain(h, Some(6), 2) && ChainEntries(h, Some(6), 2) == [r27, r30];
    assert h[4].rids[..2] == [r25, r26];
    assert Chain(h, Some(4), 3) && ChainEntries(h, Some(4), 3) == [r25, r26, r27, r30];
    assert h[0].rids[..2] == [r10, r20];
    assert Chain(h, Some(0), 4);
  }
}
