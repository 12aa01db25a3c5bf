/**
 * The buffer pool of buffer_mgr.c as an object: an array of frames whose ring
 * links live in two arrays written only by the constructor, and the pool's
 * cursors and counters as fields. Every operation is proved to leave the
 * state that the matching function of BufferPoolSpec computes, so the lemmas
 * of BufferPoolProps hold of the object as well.
 */
module BufferMgr {
  import opened DbError
  import opened StorageMgr
  import opened BufferPoolSpec

  /** The value the C code uses for a NULL frame link while the ring is being built. */
  const NULL_LINK: int := -1

  /**
   * The frame loop of initBufferPool: every frame empty (initBMPageFrame),
   * each linked to its neighbours with NULL at both ends, then the ends
   * joined into a ring.
   */
  method BuildRing(numPages: nat) returns (fs: array<Frame>, nx: array<int>, pv: array<int>)
    requires numPages >= 1
    ensures fresh(fs) && fresh(nx) && fresh(pv) && nx != pv
    ensures fs.Length == numPages && nx.Length == numPages && pv.Length == numPages
    ensures fs[..] == EmptyFrames(numPages)
    ensures forall i :: 0 <= i < numPages ==> nx[i] == Next(numPages, i)
    ensures forall i :: 0 <= i < numPages ==> pv[i] == Prev(numPages, i)
  {
    fs := new Frame[numPages];
    nx := new int[numPages];
    pv := new int[numPages];
    for i := 0 to numPages
      invariant forall j :: 0 <= j < i ==> fs[j] == EmptyFrame
      invariant forall j :: 0 <= j < i ==> nx[j] == (if j == numPages - 1 then NULL_LINK else j + 1)
      invariant forall j :: 0 <= j < i ==> pv[j] == (if j == 0 then NULL_LINK else j - 1)
    {
      fs[i] := EmptyFrame;
      pv[i] := if i == 0 then NULL_LINK else i - 1;
      nx[i] := if i == numPages - 1 then NULL_LINK else i + 1;
    }
    nx[numPages - 1] := 0;
    pv[0] := numPages - 1;
    assert fs[..] == EmptyFrames(numPages);
  }

  class BufferPool {
    const numPages: nat
    const strategy: Strategy
    const frames: array<Frame>
    /** nextFrame of each frame, as a frame index. */
    const nextFrame: array<int>
    /** previousFrame of each frame, as a frame index. */
    const previousFrame: array<int>
    var head: nat
    var tail: nat
    var readNumber: nat
    var writeNumber: nat
    var framesCount: nat
    /** The page file the pool reads from and writes to. */
    var file: PageFile

    /** The ring is 0 -> 1 -> ... -> numPages-1 -> 0, and the cursors stay inside it. */
    predicate Valid()
      reads this, frames, nextFrame, previousFrame
    {
      && numPages >= 1 && nextFrame != previousFrame
      && frames.Length == numPages && nextFrame.Length == numPages && previousFrame.Length == numPages
      && (forall i :: 0 <= i < numPages ==> nextFrame[i] == Next(numPages, i))
      && (forall i :: 0 <= i < numPages ==> previousFrame[i] == Prev(numPages, i))
      && head < numPages && tail < numPages && framesCount <= numPages
    }

    /** The pool as a value. */
    function State(): (s: Pool)
      reads this, frames
    {
      Pool(frames[..], head, tail, readNumber, writeNumber, framesCount, file)
    }

    /**
     * initBufferPool: numPages empty frames linked in index order, the last
     * linked back to the first; head is frame 0, tail frame numPages-1, and
     * every counter is zero.
     */
    constructor(numPages: nat, strategy: Strategy, file: PageFile)
      requires numPages >= 1
      ensures Valid() && State() == InitPool(numPages, file)
      ensures this.numPages == numPages && this.strategy == strategy
      ensures forall i :: 0 <= i < numPages ==> nextFrame[i] == (i + 1) % numPages
      ensures fresh(frames) && fresh(nextFrame) && fresh(previousFrame)
    {
      this.numPages := numPages;
      this.strategy := strategy;
      var fs, nx, pv := BuildRing(numPages);
      forall i | 0 <= i < numPages
        ensures nx[i] == (i + 1) % numPages
      {
        if i + 1 == numPages {
          assert (i + 1) % numPages == 0;
        }
      }
      frames := fs;
      nextFrame := nx;
      previousFrame := pv;
      head := 0;
      tail := numPages - 1;
      readNumber := 0;
      writeNumber := 0;
      framesCount := 0;
      this.file := file;
    }

    // ----------------------------------------------------- shared steps

    /** The eviction write-back of frame q (ensureCapacity, then writeBlock if dirty); false if the write failed. */
    method WriteBackFrame(q: nat) returns (ok: bool)
      requires Valid() && q < numPages
      modifies this
      ensures Valid() && (State(), ok) == WriteBack(old(State()), q)
    {
      var f := frames[q];
      ok := true;
      if f.isDirty {
        file := EnsureCapacity(file, f.pageNumber);
        var w := WriteBlock(file, f.pageNumber, f.data);
        if w.Failure? {
          return false;
        }
        file := w.value;
        writeNumber := writeNumber + 1;
      }
    }

    /** ensureCapacity(pageNum + 1) and readBlock into frame q; on success the read is counted and the handle filled. */
    method ReadIntoFrame(q: nat, pageNum: int, failRc: RC) returns (rc: RC, handle: Option<PageHandle>)
      requires Valid() && q < numPages
      modifies this, frames
      ensures Valid() && PinOutcome(State(), rc, handle) == ReadInto(old(State()), q, pageNum, failRc)
    {
      file := EnsureCapacity(file, pageNum + 1);
      var d := ReadBlock(file, pageNum);
      if d.Failure? {
        return failRc, None;
      }
      frames[q] := frames[q].(data := d.value);
      readNumber := readNumber + 1;
      return Ok, Some(PageHandle(pageNum, d.value));
    }

    // ---------------------------------------------------------- FIFO

    /** The body of the FIFO victim loop once it meets an unpinned frame q. */
    method FifoEvict(q: nat, pageNum: int) returns (rc: RC, handle: Option<PageHandle>)
      requires Valid() && q < numPages
      modifies this, frames
      ensures Valid() && PinOutcome(State(), rc, handle) == BufferPoolSpec.FifoEvict(old(State()), q, pageNum)
    {
      var ok := WriteBackFrame(q);
      if !ok {
        return WriteFailed, None;
      }
      frames[q] := frames[q].(pageNumber := pageNum, fixCount := frames[q].fixCount + 1);
      tail := nextFrame[q];
      head := q;
      rc, handle := ReadIntoFrame(q, pageNum, Ok);
    }

    /**
     * FIFO. The residency loop of the C code starts and stops at head, so it
     * never runs and is not repeated here. A pool with a frame never handed
     * out fills it as allocateEmptyFrame does.
     */
    method Fifo(pageNum: int) returns (rc: RC, handle: Option<PageHandle>)
      requires Valid()
      modifies this, frames
      ensures Valid() && PinOutcome(State(), rc, handle) == FifoPin(old(State()), pageNum)
    {
      if framesCount >= numPages {
        rc, handle := FifoFull(pageNum);
      } else {
        var q := AllocateEmptyFrame(pageNum);
        rc, handle := ReadIntoFrame(q, pageNum, Ok);
      }
    }

    /** FIFO on a full pool: from tail up to head, evict the first unpinned frame; with none, read into head's buffer. */
    method FifoFull(pageNum: int) returns (rc: RC, handle: Option<PageHandle>)
      requires Valid() && framesCount >= numPages
      modifies this, frames
      ensures Valid() && PinOutcome(State(), rc, handle) == FifoPin(old(State()), pageNum)
    {
      ghost var steps := FifoSteps(State());
      ghost var k: nat := 0;
      var q := tail;
      while q != head
        invariant Valid() && k <= steps && q == At(numPages, tail, k)
        invariant State() == old(State())
        invariant FindUnpinnedFrom(frames[..], tail, 0, steps) == FindUnpinnedFrom(frames[..], tail, k, steps)
        decreases steps - k
      {
        if frames[q].fixCount == 0 {
          rc, handle := FifoEvict(q, pageNum);
          return;
        }
        NextAt(numPages, tail, k);
        q := nextFrame[q];
        k := k + 1;
      }
      rc, handle := ReadIntoFrame(q, pageNum, Ok);
    }

    // ----------------------------------------------------------- LRU

    /** findFrameInBufferPool: one lap of the ring from head. */
    method FindFrameInBufferPool(pageNum: int) returns (frame: Option<nat>)
      requires Valid()
      ensures frame == BufferPoolSpec.FindFrameInBufferPool(State(), pageNum)
    {
      var f := head;
      ghost var k: nat := 0;
      while true
        invariant Valid() && k < numPages && f == At(numPages, head, k)
        invariant FindPageFrom(frames[..], head, 0, numPages, pageNum) == FindPageFrom(frames[..], head, k, numPages, pageNum)
        decreases numPages - k
      {
        if frames[f].pageNumber == pageNum {
          return Some(f);
        }
        NextAt(numPages, head, k);
        f := nextFrame[f];
        k := k + 1;
        if f == head {
          break;
        }
      }
      return None;
    }

    /** updatePageAndFrame: the frame gains a pin and becomes head; the handle gets its page. */
    method UpdatePageAndFrame(frame: nat, pageNum: int) returns (handle: PageHandle)
      requires Valid() && frame < numPages
      modifies this, frames
      ensures Valid() && State() == BufferPoolSpec.UpdatePageAndFrame(old(State()), frame)
      ensures handle == PageHandle(pageNum, old(frames[frame].data))
    {
      handle := PageHandle(pageNum, frames[frame].data);
      frames[frame] := frames[frame].(fixCount := frames[frame].fixCount + 1);
      tail := nextFrame[head];
      head := frame;
    }

    /** allocateEmptyFrame: the frame at head takes the page. */
    method AllocateEmptyFrame(pageNum: int) returns (frame: nat)
      requires Valid() && framesCount < numPages
      modifies this, frames
      ensures Valid() && frame == old(head) && State() == BufferPoolSpec.AllocateEmptyFrame(old(State()), pageNum)
    {
      frame := head;
      frames[frame] := frames[frame].(pageNumber := pageNum);
      if nextFrame[frame] != head {
        head := nextFrame[frame];
      }
      frames[frame] := frames[frame].(fixCount := frames[frame].fixCount + 1);
      framesCount := framesCount + 1;
    }

    /** replacePage: one lap from tail looking for an unpinned frame. */
    method ReplacePage(pageNum: int) returns (frame: Option<nat>)
      requires Valid()
      modifies this, frames
      ensures Valid() && (State(), frame) == BufferPoolSpec.ReplacePage(old(State()), pageNum)
    {
      var f := tail;
      ghost var k: nat := 0;
      while true
        invariant Valid() && k < numPages && f == At(numPages, tail, k)
        invariant State() == old(State())
        invariant FindUnpinnedFrom(frames[..], tail, 0, numPages) == FindUnpinnedFrom(frames[..], tail, k, numPages)
        decreases numPages - k
      {
        if frames[f].fixCount == 0 {
          frame := ReplaceVictim(f, pageNum);
          return;
        }
        NextAt(numPages, tail, k);
        f := nextFrame[f];
        k := k + 1;
        if f == tail {
          break;
        }
      }
      return None;
    }

    /** The body of the replacePage loop at the unpinned frame f. */
    method ReplaceVictim(f: nat, pageNum: int) returns (frame: Option<nat>)
      requires Valid() && f < numPages
      modifies this, frames
      ensures Valid() && (State(), frame) == BufferPoolSpec.ReplaceVictim(old(State()), f, pageNum)
    {
      var ok := WriteBackFrame(f);
      if !ok {
        return None;
      }
      if tail != head {
        frames[f] := frames[f].(pageNumber := pageNum, fixCount := frames[f].fixCount + 1);
        tail := nextFrame[f];
        return Some(f);
      } else {
        var g := nextFrame[f];
        frames[g] := frames[g].(pageNumber := pageNum, fixCount := frames[g].fixCount + 1);
        head := g;
        tail := previousFrame[g];
        return Some(g);
      }
    }

    /** LRU: a hit, a fill of a free frame, or a replacement, then the read. */
    method Lru(pageNum: int) returns (rc: RC, handle: Option<PageHandle>)
      requires Valid()
      modifies this, frames
      ensures Valid() && PinOutcome(State(), rc, handle) == LruPin(old(State()), pageNum)
    {
      var hit := FindFrameInBufferPool(pageNum);
      if hit.Some? {
        var h := UpdatePageAndFrame(hit.value, pageNum);
        return Ok, Some(h);
      }
      var frame: nat;
      if framesCount < numPages {
        frame := AllocateEmptyFrame(pageNum);
      } else {
        var victim := ReplacePage(pageNum);
        if victim.None? {
          return WriteFailed, None;
        }
        frame := victim.value;
      }
      rc, handle := ReadIntoFrame(frame, pageNum, ReadNonExistingPage);
    }

    // ------------------------------------------------------ pool API

    /** pinPage: the strategy's return code is dropped; RS_CLOCK does nothing. */
    method PinPage(pageNum: int) returns (rc: RC, handle: Option<PageHandle>)
      requires Valid()
      modifies this, frames
      ensures Valid() && PinOutcome(State(), rc, handle) == BufferPoolSpec.PinPage(old(State()), strategy, pageNum)
    {
      handle := None;
      match strategy {
        case Fifo =>
          var _, h := Fifo(pageNum);
          handle := h;
        case Lru =>
          var _, h := Lru(pageNum);
          handle := h;
        case Clock =>
      }
      rc := Ok;
    }

    /** unpinPage: the lowest-index frame caching the handle's page loses a pin. */
    method UnpinPage(page: PageHandle) returns (rc: RC)
      requires Valid()
      modifies frames
      ensures Valid() && rc == Ok && State() == BufferPoolSpec.UnpinPage(old(State()), page.pageNum)
    {
      for i := 0 to numPages
        invariant frames[..] == old(frames[..])
        invariant LowestMatch(frames[..], 0, page.pageNum) == LowestMatch(frames[..], i, page.pageNum)
      {
        if frames[i].pageNumber == page.pageNum {
          frames[i] := frames[i].(fixCount := frames[i].fixCount - 1);
          return Ok;
        }
      }
      return Ok;
    }

    /** markDirty: a null handle is refused; the lowest-index frame caching the page becomes dirty. */
    method MarkDirty(page: Option<PageHandle>) returns (rc: RC)
      requires Valid()
      modifies frames
      ensures Valid() && (State(), rc) == BufferPoolSpec.MarkDirty(old(State()), page)
    {
      if page.None? {
        return InvalidParameter;
      }
      for i := 0 to numPages
        invariant frames[..] == old(frames[..])
        invariant LowestMatch(frames[..], 0, page.value.pageNum) == LowestMatch(frames[..], i, page.value.pageNum)
      {
        if frames[i].pageNumber == page.value.pageNum {
          frames[i] := frames[i].(isDirty := true);
          return Ok;
        }
      }
      return PageNotFound;
    }

    /** forcePage: writes the handle's data if some frame caches its page, and cleans the lowest such frame. */
    method ForcePage(page: PageHandle) returns (rc: RC)
      requires Valid()
      modifies this, frames
      ensures Valid() && (State(), rc) == BufferPoolSpec.ForcePage(old(State()), page)
    {
      for i := 0 to numPages
        invariant State() == old(State())
        invariant LowestMatch(frames[..], 0, page.pageNum) == LowestMatch(frames[..], i, page.pageNum)
      {
        if frames[i].pageNumber == page.pageNum {
          var w := WriteBlock(file, page.pageNum, page.data);
          if w.Failure? {
            return w.error;
          }
          file := w.value;
          frames[i] := frames[i].(isDirty := false);
          writeNumber := writeNumber + 1;
          return Ok;
        }
      }
      return Ok;
    }

    /** forceFlushPool: writes every dirty unpinned frame in index order, stopping at the first failed write. */
    method ForceFlushPool() returns (rc: RC)
      requires Valid()
      modifies this, frames
      ensures Valid() && (State(), rc) == BufferPoolSpec.ForceFlushPool(old(State()))
    {
      for i := 0 to numPages
        invariant Valid() && FlushFrom(State(), i) == FlushFrom(old(State()), 0)
      {
        var f := frames[i];
        if f.isDirty && f.fixCount == 0 {
          var w := WriteBlock(file, f.pageNumber, f.data);
          if w.Failure? {
            return w.error;
          }
          file := w.value;
          frames[i] := f.(isDirty := false);
          writeNumber := writeNumber + 1;
        }
      }
      return Ok;
    }

    // ---------------------------------------------------- statistics

    /** getFrameContents: the page cached by each frame, NO_PAGE for an empty one. */
    method GetFrameContents() returns (pageNums: array<int>)
      requires Valid()
      ensures fresh(pageNums) && pageNums.Length == numPages
      ensures forall i :: 0 <= i < numPages ==> pageNums[i] == frames[i].pageNumber
    {
      pageNums := new int[numPages];
      for i := 0 to numPages
        invariant forall j :: 0 <= j < i ==> pageNums[j] == frames[j].pageNumber
      {
        var pageNum := frames[i].pageNumber;
        pageNums[i] := if pageNum == NO_PAGE then NO_PAGE else pageNum;
      }
    }

    /** getDirtyFlags: the dirty bit of each frame. */
    method GetDirtyFlags() returns (dirtyFlags: array<bool>)
      requires Valid()
      ensures fresh(dirtyFlags) && dirtyFlags.Length == numPages
      ensures forall i :: 0 <= i < numPages ==> dirtyFlags[i] == frames[i].isDirty
    {
      dirtyFlags := new bool[numPages];
      for i := 0 to numPages
        invariant forall j :: 0 <= j < i ==> dirtyFlags[j] == frames[j].isDirty
      {
        dirtyFlags[i] := frames[i].isDirty;
      }
    }

    /** getFixCounts: the pin count of each frame. */
    method GetFixCounts() returns (fixCounts: array<int>)
      requires Valid()
      ensures fresh(fixCounts) && fixCounts.Length == numPages
      ensures forall i :: 0 <= i < numPages ==> fixCounts[i] == frames[i].fixCount
    {
      fixCounts := new int[numPages];
      for i := 0 to numPages
        invariant forall j :: 0 <= j < i ==> fixCounts[j] == frames[j].fixCount
      {
        fixCounts[i] := frames[i].fixCount;
      }
    }

    /** getNumReadIO: pages read from the file since initBufferPool. */
    method GetNumReadIO() returns (n: nat)
      ensures n == readNumber
    {
      n := readNumber;
    }

    /** getNumWriteIO: pages written to the file since initBufferPool. */
    method GetNumWriteIO() returns (n: nat)
      ensures n == writeNumber
    {
      n := writeNumber;
    }
  }
}
