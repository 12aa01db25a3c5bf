/**
 * What the buffer pool of buffer_mgr.c promises, and where it departs from
 * textbook FIFO and LRU, stated over the value model of BufferPoolSpec.
 */
module BufferPoolProps {
  import opened DbError
  import opened StorageMgr
  import opened BufferPoolSpec

  // ------------------------------------------------------------ fill phase

  /**
   * The pool after the pages ps were pinned, one miss each, into a fresh pool
   * of n frames over file: frame i caches ps[i] with one pin and the page's
   * bytes, the other frames are still empty, the file has only grown.
   */
  predicate Filled(r: Pool, n: nat, file: PageFile, ps: seq<int>)
  {
    && |r.frames| == n && |ps| <= n
    && r.framesCount == |ps| && r.readNumber == |ps| && r.writeNumber == 0
    && r.tail == n - 1 && r.head == (if |ps| < n then |ps| else 0)
    && |file| <= |r.file| && (forall i :: 0 <= i < |file| ==> r.file[i] == file[i])
    && (forall i :: 0 <= i < |ps| ==> 0 <= ps[i] < |r.file| && r.frames[i] == Frame(ps[i], 1, false, r.file[ps[i]]))
    && (forall i :: |ps| <= i < n ==> r.frames[i] == EmptyFrame)
  }

  /** No page number occurs twice in ps. */
  predicate Distinct(ps: seq<int>)
  {
    forall i, j :: 0 <= i < j < |ps| ==> ps[i] != ps[j]
  }

  /**
   * The first n pins of a fresh pool fill frames 0, 1, ..., n-1 in order,
   * each with one read. FIFO does so for any page numbers, repeated ones
   * included; LRU does so when the pages are distinct (a repeated page would
   * be a hit).
   */
  lemma {:induction false} FillInOrder(n: nat, file: PageFile, strategy: Strategy, ps: seq<int>)
    requires n >= 1 && |ps| <= n && strategy != Clock
    requires forall i :: 0 <= i < |ps| ==> ps[i] >= 0
    requires strategy == Lru ==> Distinct(ps)
    ensures Filled(PinAll(InitPool(n, file), strategy, ps), n, file, ps)
  {
    if ps != [] {
      var ps', p := ps[..|ps| - 1], ps[|ps| - 1];
      FillInOrder(n, file, strategy, ps');
      var s := PinAll(InitPool(n, file), strategy, ps');
      if strategy == Lru {
        forall i | 0 <= i < |ps'|
          ensures ps'[i] != p
        {
          assert ps[i] == ps'[i];
        }
      }
      FillStep(s, n, file, strategy, ps', p);
      assert ps' + [p] == ps;
    }
  }

  /** One more pin of a page not yet cached (for LRU) fills the next empty frame. */
  lemma FillStep(s: Pool, n: nat, file: PageFile, strategy: Strategy, ps: seq<int>, p: int)
    requires Valid(s) && Filled(s, n, file, ps) && |ps| < n && p >= 0 && strategy != Clock
    requires strategy == Lru ==> forall i :: 0 <= i < |ps| ==> ps[i] != p
    ensures Filled(PinPage(s, strategy, p).pool, n, file, ps + [p])
  {
    AllocateAndReadFills(s, n, file, ps, p, Ok);
    AllocateAndReadFills(s, n, file, ps, p, ReadNonExistingPage);
  }

  /** allocateEmptyFrame and the read that follows it fill frame |ps| with page p. */
  lemma AllocateAndReadFills(s: Pool, n: nat, file: PageFile, ps: seq<int>, p: int, failRc: RC)
    requires Valid(s) && Filled(s, n, file, ps) && |ps| < n && p >= 0
    ensures Filled(ReadInto(AllocateEmptyFrame(s, p), s.head, p, failRc).pool, n, file, ps + [p])
  {
    var a := AllocateEmptyFrame(s, p);
    var file1 := EnsureCapacity(a.file, p + 1);
    assert file1[..|a.file|] == a.file;
    forall i | 0 <= i < |a.file|
      ensures file1[i] == a.file[i]
    {
      assert file1[..|a.file|][i] == file1[i];
    }
  }

  /**
   * FIFO never finds a page already resident: pinning the same page twice
   * into a fresh pool of at least two frames caches it in two frames and
   * reads it twice.
   */
  lemma FifoCachesRepeatedPageTwice(n: nat, file: PageFile, p: int)
    requires n >= 2 && p >= 0
    ensures var r := PinAll(InitPool(n, file), Fifo, [p, p]);
      |r.frames| == n && r.frames[0].pageNumber == p && r.frames[1].pageNumber == p && r.readNumber == 2
  {
    FillInOrder(n, file, Fifo, [p, p]);
  }

  // ------------------------------------------------------------ write-back

  /**
   * Evicting frame q writes it back only when it is dirty, and that write
   * fails exactly when the frame's page number is negative (ensureCapacity
   * has already made room for any other page number).
   */
  lemma WriteBackFailsOnlyOnNegativePage(s: Pool, q: nat)
    requires Valid(s) && q < |s.frames|
    ensures var (s1, ok) := WriteBack(s, q);
      && (!ok <==> s.frames[q].isDirty && s.frames[q].pageNumber < 0)
      && (!s.frames[q].isDirty ==> s1 == s)
      && (ok && s.frames[q].isDirty ==>
            s1.writeNumber == s.writeNumber + 1 && s.frames[q].pageNumber < |s1.file|
            && s1.file[s.frames[q].pageNumber] == s.frames[q].data)
  {
  }

  // ------------------------------------------------------------------ FIFO

  /**
   * A FIFO pin of a valid page number always reads the page, unless evicting
   * a dirty victim failed: the handle then carries page pageNum's bytes.
   */
  lemma FifoAlwaysReads(s: Pool, p: int)
    requires Valid(s) && p >= 0
    ensures var r := FifoPin(s, p);
      || (r.rc == WriteFailed && r.handle == None && r.pool.readNumber == s.readNumber)
      || (r.rc == Ok && r.pool.readNumber == s.readNumber + 1 && p < |r.pool.file|
          && r.handle == Some(PageHandle(p, r.pool.file[p])))
  {
  }

  /**
   * In a full pool, FIFO evicts the first unpinned frame q met walking from
   * tail towards head: q takes the page with one pin, becomes head, tail
   * moves past it, and no other frame changes.
   */
  lemma FifoEvictsFirstUnpinnedFromTail(s: Pool, p: int, k: nat)
    requires Valid(s) && s.framesCount >= |s.frames| && p >= 0
    requires FindUnpinnedFrom(s.frames, s.tail, 0, FifoSteps(s)) == Some(k)
    requires var f := s.frames[At(|s.frames|, s.tail, k)]; !(f.isDirty && f.pageNumber < 0)
    ensures var n := |s.frames|; var q := At(n, s.tail, k); var old_f := s.frames[q]; var r := FifoPin(s, p);
      && r.rc == Ok && |r.pool.frames| == n && p < |r.pool.file|
      && r.pool.frames[q] == Frame(p, 1, old_f.isDirty, r.pool.file[p])
      && (forall i :: 0 <= i < n && i != q ==> r.pool.frames[i] == s.frames[i])
      && r.pool.head == q && r.pool.tail == Next(n, q)
      && r.pool.readNumber == s.readNumber + 1
      && r.pool.writeNumber == s.writeNumber + (if old_f.isDirty then 1 else 0)
  {
    WriteBackFailsOnlyOnNegativePage(s, At(|s.frames|, s.tail, k));
  }

  /**
   * In a full pool whose tail has caught up with head, or whose frames are all
   * pinned, FIFO finds no victim: it reads the page into head's buffer and
   * leaves head's page number and pins as they were, so the handle's bytes
   * belong to a page the frame does not claim to cache.
   */
  lemma FifoWithoutVictimOverwritesHeadBuffer(s: Pool, p: int)
    requires Valid(s) && s.framesCount >= |s.frames| && p >= 0
    requires s.tail == s.head || forall i :: 0 <= i < |s.frames| ==> s.frames[i].fixCount != 0
    ensures var r := FifoPin(s, p);
      && r.rc == Ok && p < |r.pool.file|
      && r.pool.frames == s.frames[s.head := s.frames[s.head].(data := r.pool.file[p])]
      && r.pool.head == s.head && r.pool.tail == s.tail && r.pool.readNumber == s.readNumber + 1
      && r.handle == Some(PageHandle(p, r.pool.file[p]))
  {
    assert FindUnpinnedFrom(s.frames, s.tail, 0, FifoSteps(s)) == None;
  }

  /**
   * Once a fresh pool is full (head back at frame 0, tail at frame n-1), the
   * victim search of the next FIFO miss visits frame n-1 alone: the newest
   * page is evicted if unpinned, and no frame is rebound otherwise.
   */
  lemma FifoFirstEvictionOnlyConsidersLastFrame(s: Pool, p: int)
    requires Valid(s) && |s.frames| >= 2 && p >= 0
    requires s.head == 0 && s.tail == |s.frames| - 1 && s.framesCount == |s.frames|
    requires !(s.frames[|s.frames| - 1].isDirty && s.frames[|s.frames| - 1].pageNumber < 0)
    ensures var n := |s.frames|; var r := FifoPin(s, p);
      && r.rc == Ok && |r.pool.frames| == n
      && (forall i :: 0 <= i < n - 1 ==> r.pool.frames[i].pageNumber == s.frames[i].pageNumber)
      && r.pool.frames[n - 1].pageNumber == (if s.frames[n - 1].fixCount == 0 then p else s.frames[n - 1].pageNumber)
  {
    var n := |s.frames|;
    assert FifoSteps(s) == 1;
    if s.frames[n - 1].fixCount == 0 {
      assert At(n, s.tail, 0) == n - 1;
      FifoEvictsFirstUnpinnedFromTail(s, p, 0);
    }
  }

  /**
   * Two frames: pin 10 and 20, unpin both, pin 30. Page 20, the newer one, is
   * evicted; page 10 stays.
   */
  lemma FifoScenarioEvictsNewerPage(file: PageFile)
    ensures var s0 := PinAll(InitPool(2, file), Fifo, [10, 20]);
      var s1 := UnpinPage(UnpinPage(s0, 10), 20);
      var r := FifoPin(s1, 30);
      |r.pool.frames| == 2 && r.pool.frames[0].pageNumber == 10 && r.pool.frames[1].pageNumber == 30
  {
    FillInOrder(2, file, Fifo, [10, 20]);
    var s0 := PinAll(InitPool(2, file), Fifo, [10, 20]);
    var s1 := UnpinPage(UnpinPage(s0, 10), 20);
    assert s1.frames[1].fixCount == 0;
    FifoFirstEvictionOnlyConsidersLastFrame(s1, 30);
  }

  // ------------------------------------------------------------------- LRU

  /** No page number other than NO_PAGE is cached by two frames. */
  predicate UniqueResidency(frames: seq<Frame>)
  {
    forall i, j :: 0 <= i < j < |frames| && frames[i].pageNumber != NO_PAGE ==>
      frames[i].pageNumber != frames[j].pageNumber
  }

  /** Some frame caches pageNum. */
  predicate Resident(frames: seq<Frame>, pageNum: int)
  {
    exists i :: 0 <= i < |frames| && frames[i].pageNumber == pageNum
  }

  /** The residency search of LRU, which walks one full lap from head, finds a page exactly when it is resident. */
  lemma FindPageFindsResident(frames: seq<Frame>, start: nat, pageNum: int)
    requires start < |frames|
    ensures FindPageFrom(frames, start, 0, |frames|, pageNum).Some? <==> Resident(frames, pageNum)
  {
    if Resident(frames, pageNum) {
      var i :| 0 <= i < |frames| && frames[i].pageNumber == pageNum;
      var k := Offset(|frames|, start, i);
      assert frames[At(|frames|, start, k)].pageNumber == pageNum;
    }
  }

  /**
   * An LRU hit on the frame i caching p: i gains a pin and becomes head, tail
   * becomes the old head's successor, nothing is read or written, and the
   * handle gets the frame's bytes.
   */
  lemma LruHitPinsResidentFrame(s: Pool, p: int, i: nat)
    requires Valid(s) && UniqueResidency(s.frames) && p != NO_PAGE
    requires i < |s.frames| && s.frames[i].pageNumber == p
    ensures LruPin(s, p) == PinOutcome(
      s.(frames := s.frames[i := s.frames[i].(fixCount := s.frames[i].fixCount + 1)],
         head := i, tail := Next(|s.frames|, s.head)),
      Ok, Some(PageHandle(p, s.frames[i].data)))
  {
    var n := |s.frames|;
    FindPageFindsResident(s.frames, s.head, p);
  }

  /**
   * An LRU miss while frames remain unused goes to the frame at head, whatever
   * that frame holds: it takes the page with one more pin, and one more frame
   * counts as used.
   */
  lemma LruMissWithFreeFrameTakesHead(s: Pool, p: int)
    requires Valid(s) && s.framesCount < |s.frames| && p >= 0 && !Resident(s.frames, p)
    ensures var h := s.frames[s.head]; var r := LruPin(s, p);
      && r.rc == Ok && p < |r.pool.file|
      && r.pool.frames == s.frames[s.head := Frame(p, h.fixCount + 1, h.isDirty, r.pool.file[p])]
      && r.pool.framesCount == s.framesCount + 1 && r.pool.tail == s.tail
      && r.pool.readNumber == s.readNumber + 1 && r.pool.writeNumber == s.writeNumber
  {
    FindPageFindsResident(s.frames, s.head, p);
  }

  /**
   * An LRU miss in a full pool whose tail is not at head evicts the first
   * unpinned frame x from tail round the ring: x takes the page with one pin,
   * tail moves past x, head stays, and a dirty x is written first.
   */
  lemma LruEvictsFirstUnpinnedFromTail(s: Pool, p: int, k: nat)
    requires Valid(s) && s.framesCount >= |s.frames| && p >= 0 && !Resident(s.frames, p)
    requires s.tail != s.head
    requires FindUnpinnedFrom(s.frames, s.tail, 0, |s.frames|) == Some(k)
    requires var f := s.frames[At(|s.frames|, s.tail, k)]; !(f.isDirty && f.pageNumber < 0)
    ensures var n := |s.frames|; var x := At(n, s.tail, k); var old_f := s.frames[x]; var r := LruPin(s, p);
      && r.rc == Ok && |r.pool.frames| == n && p < |r.pool.file|
      && r.pool.frames[x] == Frame(p, 1, old_f.isDirty, r.pool.file[p])
      && (forall i :: 0 <= i < n && i != x ==> r.pool.frames[i] == s.frames[i])
      && r.pool.head == s.head && r.pool.tail == Next(n, x)
      && r.pool.readNumber == s.readNumber + 1
      && r.pool.writeNumber == s.writeNumber + (if old_f.isDirty then 1 else 0)
  {
    FindPageFindsResident(s.frames, s.head, p);
    WriteBackFailsOnlyOnNegativePage(s, At(|s.frames|, s.tail, k));
  }

  /** An LRU miss in a full pool with every frame pinned fails with RC_WRITE_FAILED and changes nothing. */
  lemma LruMissWithAllPinnedFails(s: Pool, p: int)
    requires Valid(s) && s.framesCount >= |s.frames| && !Resident(s.frames, p)
    requires forall i :: 0 <= i < |s.frames| ==> s.frames[i].fixCount != 0
    ensures LruPin(s, p) == PinOutcome(s, WriteFailed, None)
  {
    FindPageFindsResident(s.frames, s.head, p);
    assert FindUnpinnedFrom(s.frames, s.tail, 0, |s.frames|) == None;
  }

  /** LRU never lets two frames cache the same page. */
  lemma LruPinKeepsResidencyUnique(s: Pool, p: int)
    requires Valid(s) && UniqueResidency(s.frames)
    ensures UniqueResidency(LruPin(s, p).pool.frames)
  {
    FindPageFindsResident(s.frames, s.head, p);
    if !Resident(s.frames, p) {
      var x := LruMissRebindsAtMostOneFrame(s, p);
      RebindKeepsUnique(s.frames, LruPin(s, p).pool.frames, x, p);
    }
  }

  /** A miss changes the page number of at most one frame, x, and only to the page pinned. */
  lemma LruMissRebindsAtMostOneFrame(s: Pool, p: int) returns (x: nat)
    requires Valid(s) && !Resident(s.frames, p)
    ensures var r := LruPin(s, p).pool;
      && x < |s.frames| && |r.frames| == |s.frames|
      && (r.frames[x].pageNumber == p || r.frames[x].pageNumber == s.frames[x].pageNumber)
      && forall i :: 0 <= i < |s.frames| && i != x ==> r.frames[i].pageNumber == s.frames[i].pageNumber
  {
    FindPageFindsResident(s.frames, s.head, p);
    if s.framesCount < |s.frames| {
      x := s.head;
    } else {
      match FindUnpinnedFrom(s.frames, s.tail, 0, |s.frames|)
      case None => x := 0;
      case Some(k) =>
        x := VictimRebindsOneFrame(s, At(|s.frames|, s.tail, k), p);
        var (s1, victim) := ReplaceVictim(s, At(|s.frames|, s.tail, k), p);
        if victim.Some? {
          ReadIntoKeepsPages(s1, victim.value, p, ReadNonExistingPage);
        }
    }
  }

  /** Replacing the victim v rebinds one frame, x, to p and leaves every other page number. */
  lemma VictimRebindsOneFrame(s: Pool, v: nat, p: int) returns (x: nat)
    requires Valid(s) && v < |s.frames|
    ensures var r := ReplaceVictim(s, v, p);
      && x < |s.frames| && |r.0.frames| == |s.frames|
      && (r.1.Some? ==> r.1.value == x && r.0.frames[x].pageNumber == p)
      && forall i :: 0 <= i < |s.frames| && (r.1.Some? ==> i != x) ==> r.0.frames[i].pageNumber == s.frames[i].pageNumber
  {
    var (s1, written) := WriteBack(s, v);
    x := if s1.tail != s1.head then v else Next(|s.frames|, v);
  }

  /** The read that ends a pin changes a frame's bytes, not its page number. */
  lemma ReadIntoKeepsPages(s: Pool, q: nat, p: int, failRc: RC)
    requires Valid(s) && q < |s.frames|
    ensures SamePages(s.frames, ReadInto(s, q, p, failRc).pool.frames)
  {
  }

  /** Binding one frame to a page no frame caches keeps residency unique. */
  lemma RebindKeepsUnique(a: seq<Frame>, b: seq<Frame>, x: nat, p: int)
    requires UniqueResidency(a) && !Resident(a, p) && x < |a| == |b|
    requires b[x].pageNumber == p || b[x].pageNumber == a[x].pageNumber
    requires forall i :: 0 <= i < |a| && i != x ==> b[i].pageNumber == a[i].pageNumber
    ensures UniqueResidency(b)
  {
    forall i, j | 0 <= i < j < |b| && b[i].pageNumber != NO_PAGE
      ensures b[i].pageNumber != b[j].pageNumber
    {
      if i == x && b[x].pageNumber == p {
        assert a[j].pageNumber != p;
      } else if j == x && b[x].pageNumber == p {
        assert a[i].pageNumber != p;
      }
    }
  }

  /** Unpinning after an LRU hit gives every frame back the pin count it had. */
  lemma LruHitThenUnpinRestoresPins(s: Pool, p: int, i: nat)
    requires Valid(s) && UniqueResidency(s.frames) && p != NO_PAGE
    requires i < |s.frames| && s.frames[i].pageNumber == p
    ensures UnpinPage(LruPin(s, p).pool, p).frames == s.frames
  {
    LruHitPinsResidentFrame(s, p, i);
    var r := LruPin(s, p).pool;
    assert r.frames == s.frames[i := s.frames[i].(fixCount := s.frames[i].fixCount + 1)];
    var m := LowestMatch(r.frames, 0, p);
    assert m == Some(i) by {
      assert r.frames[i].pageNumber == p;
    }
  }

  /**
   * Three frames: pin 1, 2, 3, unpin all three, pin 1 again, unpin it, pin 4.
   * Page 2, the least recently used, is the one evicted.
   */
  lemma LruScenarioEvictsLeastRecentlyUsed(file: PageFile)
    ensures var s0 := PinAll(InitPool(3, file), Lru, [1, 2, 3]);
      var s1 := UnpinPage(UnpinPage(UnpinPage(s0, 1), 2), 3);
      var s2 := UnpinPage(LruPin(s1, 1).pool, 1);
      var r := LruPin(s2, 4).pool;
      |r.frames| == 3 && r.frames[0].pageNumber == 1 && r.frames[1].pageNumber == 4 && r.frames[2].pageNumber == 3
  {
    FillInOrder(3, file, Lru, [1, 2, 3]);
    var s0 := PinAll(InitPool(3, file), Lru, [1, 2, 3]);
    var a := UnpinPage(s0, 1);
    var b := UnpinPage(a, 2);
    UnpinLowest(s0, 1, 0);
    UnpinLowest(a, 2, 1);
    UnpinLowest(b, 3, 2);
    RepinThenMissEvictsSecondFrame(UnpinPage(b, 3));
  }

  /** The pool after the pages 1, ..., n were pinned into frames 0, ..., n-1 of a fresh pool and unpinned again. */
  predicate AllUnpinnedInOrder(s: Pool, n: nat)
  {
    && Valid(s) && |s.frames| == n && s.head == 0 && s.tail == n - 1 && s.framesCount == n
    && forall i :: 0 <= i < n ==> s.frames[i].pageNumber == i + 1 && s.frames[i].fixCount == 0 && !s.frames[i].isDirty
  }

  /** unpinPage of a page whose lowest frame is i takes one pin off frame i. */
  lemma UnpinLowest(s: Pool, p: int, i: nat)
    requires i < |s.frames| && s.frames[i].pageNumber == p
    requires forall j :: 0 <= j < i ==> s.frames[j].pageNumber != p
    ensures UnpinPage(s, p) == s.(frames := s.frames[i := s.frames[i].(fixCount := s.frames[i].fixCount - 1)])
  {
    assert LowestMatch(s.frames, 0, p) == Some(i);
  }

  /** The second half of LruScenarioEvictsLeastRecentlyUsed: pin and unpin page 1, then pin page 4. */
  lemma RepinThenMissEvictsSecondFrame(s1: Pool)
    requires AllUnpinnedInOrder(s1, 3)
    ensures var s2 := UnpinPage(LruPin(s1, 1).pool, 1);
      var r := LruPin(s2, 4).pool;
      |r.frames| == 3 && r.frames[0].pageNumber == 1 && r.frames[1].pageNumber == 4 && r.frames[2].pageNumber == 3
  {
    LruHitPinsResidentFrame(s1, 1, 0);
    var h := LruPin(s1, 1).pool;
    UnpinLowest(h, 1, 0);
    var s2 := UnpinPage(h, 1);
    assert s2.tail == 1 && s2.head == 0 && s2.frames[1].fixCount == 0;
    assert !Resident(s2.frames, 4);
    assert FindUnpinnedFrom(s2.frames, s2.tail, 0, 3) == Some(0);
    LruEvictsFirstUnpinnedFromTail(s2, 4, 0);
  }

  /**
   * Two frames: pin 1 and 2, unpin both, pin 3, pin 4. After the third pin
   * tail has caught up with head, so the fourth evicts the successor of the
   * unpinned frame found: page 3, still pinned, gives way to page 4, which
   * inherits its pin.
   */
  lemma LruScenarioEvictsPinnedPage(file: PageFile)
    ensures var s0 := PinAll(InitPool(2, file), Lru, [1, 2]);
      var s1 := UnpinPage(UnpinPage(s0, 1), 2);
      var s2 := LruPin(s1, 3).pool;
      var r := LruPin(s2, 4).pool;
      && |s2.frames| == 2 && s2.frames[1].pageNumber == 3 && s2.frames[1].fixCount == 1
      && |r.frames| == 2 && r.frames[0].pageNumber == 1 && r.frames[1].pageNumber == 4 && r.frames[1].fixCount == 2
  {
    FillInOrder(2, file, Lru, [1, 2]);
    var s0 := PinAll(InitPool(2, file), Lru, [1, 2]);
    var a := UnpinPage(s0, 1);
    UnpinLowest(s0, 1, 0);
    UnpinLowest(a, 2, 1);
    TwoMissesEvictPinnedPage(UnpinPage(a, 2));
  }

  /** The second half of LruScenarioEvictsPinnedPage: pin pages 3 and 4. */
  lemma TwoMissesEvictPinnedPage(s1: Pool)
    requires AllUnpinnedInOrder(s1, 2)
    ensures var s2 := LruPin(s1, 3).pool;
      var r := LruPin(s2, 4).pool;
      && |s2.frames| == 2 && s2.frames[1].pageNumber == 3 && s2.frames[1].fixCount == 1
      && |r.frames| == 2 && r.frames[0].pageNumber == 1 && r.frames[1].pageNumber == 4 && r.frames[1].fixCount == 2
  {
    assert !Resident(s1.frames, 3);
    assert FindUnpinnedFrom(s1.frames, s1.tail, 0, 2) == Some(0);
    LruEvictsFirstUnpinnedFromTail(s1, 3, 0);
    var s2 := LruPin(s1, 3).pool;
    assert s2.tail == 0 && s2.head == 0;
    assert !Resident(s2.frames, 4);
    FindPageFindsResident(s2.frames, s2.head, 4);
    assert FindUnpinnedFrom(s2.frames, s2.tail, 0, 2) == Some(0);
  }

  /**
   * Three frames: pin 1, pin 1 again, pin 2. The hit moves head back to the
   * frame holding page 1, so the miss that follows rebinds that frame: page 1
   * is gone while pinned twice, and page 2 inherits both pins.
   */
  lemma LruScenarioMissAfterHitRebindsHitFrame(file: PageFile)
    ensures var r := PinAll(InitPool(3, file), Lru, [1, 1, 2]);
      |r.frames| == 3 && r.frames[0].pageNumber == 2 && r.frames[0].fixCount == 3 && !Resident(r.frames, 1)
  {
    FillInOrder(3, file, Lru, [1]);
    var s0 := PinAll(InitPool(3, file), Lru, [1]);
    LruHitPinsResidentFrame(s0, 1, 0);
    var s1 := LruPin(s0, 1).pool;
    assert [1, 1, 2][..2] == [1, 1] && [1, 1][..1] == [1];
    assert PinAll(InitPool(3, file), Lru, [1, 1]) == s1;
    HitThenMissRebindsHitFrame(s1);
  }

  /** The last pin of LruScenarioMissAfterHitRebindsHitFrame, on the pool its hit leaves. */
  lemma HitThenMissRebindsHitFrame(s1: Pool)
    requires Valid(s1) && |s1.frames| == 3 && s1.head == 0 && s1.framesCount == 1
    requires s1.frames[0].pageNumber == 1 && s1.frames[0].fixCount == 2
    requires s1.frames[1] == EmptyFrame && s1.frames[2] == EmptyFrame
    ensures var r := LruPin(s1, 2).pool;
      |r.frames| == 3 && r.frames[0].pageNumber == 2 && r.frames[0].fixCount == 3 && !Resident(r.frames, 1)
  {
    assert !Resident(s1.frames, 2);
    LruMissWithFreeFrameTakesHead(s1, 2);
  }

  // ------------------------------------------- markDirty, forcePage, flush

  /**
   * markDirty with a handle marks the one frame caching its page and answers
   * RC_OK; an uncached page gives RC_PAGE_NOT_FOUND and a null handle
   * RC_INVALID_PARAMETER, both with no change.
   */
  lemma MarkDirtyMarksCachedFrame(s: Pool, page: Option<PageHandle>)
    requires UniqueResidency(s.frames)
    ensures page.None? ==> MarkDirty(s, page) == (s, InvalidParameter)
    ensures page.Some? && !Resident(s.frames, page.value.pageNum) ==> MarkDirty(s, page) == (s, PageNotFound)
    ensures forall i ::
      (0 <= i < |s.frames| && page.Some? && page.value.pageNum != NO_PAGE && s.frames[i].pageNumber == page.value.pageNum) ==>
        MarkDirty(s, page) == (s.(frames := s.frames[i := s.frames[i].(isDirty := true)]), Ok)
  {
    if page.Some? {
      var p := page.value.pageNum;
      var m := LowestMatch(s.frames, 0, p);
      if Resident(s.frames, p) {
        var i :| 0 <= i < |s.frames| && s.frames[i].pageNumber == p;
        assert m.Some?;
      }
    }
  }

  /**
   * forcePage of a cached page writes the handle's bytes to that page,
   * whatever the frame's pin count, and cleans the frame; an uncached page is
   * not written and the answer is RC_OK.
   */
  lemma ForcePageWritesHandle(s: Pool, page: PageHandle)
    requires UniqueResidency(s.frames)
    ensures !Resident(s.frames, page.pageNum) ==> ForcePage(s, page) == (s, Ok)
    ensures forall i :: 0 <= i < |s.frames| && page.pageNum != NO_PAGE && s.frames[i].pageNumber == page.pageNum ==>
      var (r, rc) := ForcePage(s, page);
      if 0 <= page.pageNum <= |s.file| then
        && rc == Ok && r.frames == s.frames[i := s.frames[i].(isDirty := false)]
        && page.pageNum < |r.file| && r.file[page.pageNum] == page.data
        && (forall pg :: 0 <= pg < |s.file| && pg != page.pageNum ==> r.file[pg] == s.file[pg])
        && r.writeNumber == s.writeNumber + 1
      else
        rc == WriteFailed && r == s
  {
    if Resident(s.frames, page.pageNum) {
      var i :| 0 <= i < |s.frames| && s.frames[i].pageNumber == page.pageNum;
      assert LowestMatch(s.frames, 0, page.pageNum).Some?;
    }
  }

  /** The number of frames in fs that forceFlushPool writes. */
  function CountFlushable(fs: seq<Frame>): (c: nat)
    ensures c <= |fs|
  {
    if fs == [] then 0 else (if Flushable(fs[0]) then 1 else 0) + CountFlushable(fs[1..])
  }

  /**
   * The bytes page pg holds after the frames of fs, in order, were written
   * over d: the data of the last flushable frame caching pg, or d if none.
   */
  function LastWrite(fs: seq<Frame>, pg: int, d: PageData): PageData
  {
    if fs == [] then d
    else LastWrite(fs[1..], pg, if Flushable(fs[0]) && fs[0].pageNumber == pg then fs[0].data else d)
  }

  /** Every frame from i on that forceFlushPool writes has a page number writeBlock accepts without growing the file. */
  predicate FlushSafe(frames: seq<Frame>, i: nat, file: PageFile)
  {
    forall j :: i <= j < |frames| && Flushable(frames[j]) ==> 0 <= frames[j].pageNumber < |file|
  }

  /**
   * forceFlushPool from frame i on, when every write succeeds: exactly the
   * dirty unpinned frames are cleaned, one write each, and each page ends up
   * with the bytes of the last such frame caching it.
   */
  lemma {:induction false} FlushFromWritesFlushable(s: Pool, i: nat)
    requires i <= |s.frames| && FlushSafe(s.frames, i, s.file)
    ensures var (r, rc) := FlushFrom(s, i);
      && rc == Ok && |r.frames| == |s.frames| && |r.file| == |s.file|
      && (forall j :: 0 <= j < |s.frames| ==>
            r.frames[j] == if i <= j && Flushable(s.frames[j]) then s.frames[j].(isDirty := false) else s.frames[j])
      && r.writeNumber == s.writeNumber + CountFlushable(s.frames[i..])
      && (forall pg :: 0 <= pg < |s.file| ==> r.file[pg] == LastWrite(s.frames[i..], pg, s.file[pg]))
    decreases |s.frames| - i
  {
    if i < |s.frames| {
      var f := s.frames[i];
      assert s.frames[i..][0] == f && s.frames[i..][1..] == s.frames[i + 1..];
      if Flushable(f) {
        var file1 := WriteBlock(s.file, f.pageNumber, f.data).value;
        var s' := s.(file := file1, frames := s.frames[i := f.(isDirty := false)], writeNumber := s.writeNumber + 1);
        assert s'.frames[i + 1..] == s.frames[i + 1..];
        FlushFromWritesFlushable(s', i + 1);
      } else {
        FlushFromWritesFlushable(s, i + 1);
      }
    }
  }

  /** With one flushable frame j caching pg, the flush leaves pg holding j's bytes. */
  lemma {:induction false} LastWriteOfSoleWriter(fs: seq<Frame>, pg: int, d: PageData, j: nat)
    requires j < |fs| && Flushable(fs[j]) && fs[j].pageNumber == pg
    requires forall k :: 0 <= k < |fs| && k != j ==> fs[k].pageNumber != pg
    ensures LastWrite(fs, pg, d) == fs[j].data
  {
    var d' := if Flushable(fs[0]) && fs[0].pageNumber == pg then fs[0].data else d;
    if j == 0 {
      LastWriteOfNoWriter(fs[1..], pg, d');
    } else {
      LastWriteOfSoleWriter(fs[1..], pg, d', j - 1);
    }
  }

  /** With no flushable frame caching pg, the flush leaves pg as it was. */
  lemma {:induction false} LastWriteOfNoWriter(fs: seq<Frame>, pg: int, d: PageData)
    requires forall k :: 0 <= k < |fs| ==> !(Flushable(fs[k]) && fs[k].pageNumber == pg)
    ensures LastWrite(fs, pg, d) == d
  {
    if fs != [] {
      LastWriteOfNoWriter(fs[1..], pg, d);
    }
  }

  /**
   * forceFlushPool over a pool with unique residency whose dirty unpinned
   * frames all hold pages inside the file: each of those frames' bytes reach
   * its page and the frame is clean, every other frame and every other page
   * is unchanged, and writeNumber grows by the number of frames written.
   */
  lemma ForceFlushPoolPersistsDirtyFrames(s: Pool)
    requires UniqueResidency(s.frames) && FlushSafe(s.frames, 0, s.file)
    ensures var (r, rc) := ForceFlushPool(s);
      && rc == Ok && |r.frames| == |s.frames| && |r.file| == |s.file|
      && (forall j :: 0 <= j < |s.frames| && Flushable(s.frames[j]) ==>
            r.frames[j] == s.frames[j].(isDirty := false) && r.file[s.frames[j].pageNumber] == s.frames[j].data)
      && (forall j :: 0 <= j < |s.frames| && !Flushable(s.frames[j]) ==> r.frames[j] == s.frames[j])
      && (forall pg :: 0 <= pg < |s.file| && !(exists j :: 0 <= j < |s.frames| && Flushable(s.frames[j]) && s.frames[j].pageNumber == pg) ==>
            r.file[pg] == s.file[pg])
      && r.writeNumber == s.writeNumber + CountFlushable(s.frames)
  {
    FlushFromWritesFlushable(s, 0);
    assert s.frames[0..] == s.frames;
    forall j | 0 <= j < |s.frames| && Flushable(s.frames[j])
      ensures ForceFlushPool(s).0.file[s.frames[j].pageNumber] == s.frames[j].data
    {
      assert s.frames[j].pageNumber != NO_PAGE;
      forall k | 0 <= k < |s.frames| && k != j
        ensures s.frames[k].pageNumber != s.frames[j].pageNumber
      {
      }
      LastWriteOfSoleWriter(s.frames, s.frames[j].pageNumber, s.file[s.frames[j].pageNumber], j);
    }
    forall pg | 0 <= pg < |s.file| && !(exists j :: 0 <= j < |s.frames| && Flushable(s.frames[j]) && s.frames[j].pageNumber == pg)
      ensures ForceFlushPool(s).0.file[pg] == s.file[pg]
    {
      LastWriteOfNoWriter(s.frames, pg, s.file[pg]);
    }
  }

  /** Frames before the first flushable one are skipped without effect. */
  lemma {:induction false} FlushSkipsUnflushable(s: Pool, i: nat, j: nat)
    requires i <= j <= |s.frames|
    requires forall k :: i <= k < j ==> !Flushable(s.frames[k])
    ensures FlushFrom(s, i) == FlushFrom(s, j)
    decreases j - i
  {
    if i < j {
      FlushSkipsUnflushable(s, i + 1, j);
    }
  }

  /**
   * forceFlushPool whose first dirty unpinned frame holds a page number
   * writeBlock refuses returns RC_WRITE_FAILED and changes nothing.
   */
  lemma ForceFlushPoolStopsAtFirstFailure(s: Pool, j: nat)
    requires j < |s.frames| && Flushable(s.frames[j])
    requires s.frames[j].pageNumber < 0 || s.frames[j].pageNumber > |s.file|
    requires forall k :: 0 <= k < j ==> !Flushable(s.frames[k])
    ensures ForceFlushPool(s) == (s, WriteFailed)
  {
    FlushSkipsUnflushable(s, 0, j);
  }
}
