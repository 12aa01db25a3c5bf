/**
 * The buffer pool of assign3_record_manager/buffer_mgr.c as values: the pool
 * state, one function per operation that computes the state the C code leaves
 * behind, and lemmas stating what those operations promise (or, where the C
 * code departs from the usual FIFO/LRU behaviour, what it does instead).
 *
 * The circular frame list is fixed after initBufferPool, so a frame is named by
 * its index and "nextFrame" is index + 1 modulo the number of frames.
 */
module BufferPoolSpec {
  import opened DbError
  import opened StorageMgr

  datatype Strategy = Fifo | Lru | Clock

  /** The page number of an empty frame. */
  const NO_PAGE: int := -1

  /** One frame: the cached page, its pin count, its dirty bit and its buffer. */
  datatype Frame = Frame(pageNumber: int, fixCount: int, isDirty: bool, data: PageData)

  /** A frame as initBMPageFrame leaves it (the malloc'd buffer is assumed to read as zero). */
  const EmptyFrame: Frame := Frame(NO_PAGE, 0, false, ZeroPage)

  /**
   * The pool: frames, the head and tail cursors (frame indices), the I/O
   * counters, the number of frames handed out so far, and the page file.
   */
  datatype Pool = Pool(
    frames: seq<Frame>,
    head: nat,
    tail: nat,
    readNumber: nat,
    writeNumber: nat,
    framesCount: nat,
    file: PageFile)

  predicate Valid(s: Pool) {
    |s.frames| >= 1 && s.head < |s.frames| && s.tail < |s.frames| && s.framesCount <= |s.frames|
  }

  /** What a client's page handle receives from pinPage: the page number and the frame's buffer. */
  datatype PageHandle = PageHandle(pageNum: int, data: PageData)

  /** The state after a pin, the strategy's return code, and the handle if the pin filled it. */
  datatype PinOutcome = PinOutcome(pool: Pool, rc: RC, handle: Option<PageHandle>)

  /** n empty frames. */
  function EmptyFrames(n: nat): (fs: seq<Frame>)
    ensures |fs| == n && forall i :: 0 <= i < n ==> fs[i] == EmptyFrame
  {
    if n == 0 then [] else EmptyFrames(n - 1) + [EmptyFrame]
  }

  /** initBufferPool: empty frames, head at the first frame, tail at the last, counters zero. */
  function InitPool(n: nat, file: PageFile): (s: Pool)
    requires n >= 1
    ensures Valid(s)
  {
    Pool(EmptyFrames(n), 0, n - 1, 0, 0, 0, file)
  }

  // ---------------------------------------------------------------- the ring

  /** The frame k steps (at most one lap) after frame start along nextFrame. */
  function At(n: nat, start: nat, k: nat): (r: nat)
    requires start < n && k <= n
    ensures r < n
  {
    if start + k < n then start + k else start + k - n
  }

  /** nextFrame of frame i. */
  function Next(n: nat, i: nat): (r: nat)
    requires i < n
    ensures r < n
  {
    if i + 1 < n then i + 1 else 0
  }

  /** previousFrame of frame i. */
  function Prev(n: nat, i: nat): (r: nat)
    requires i < n
    ensures r < n
  {
    if i == 0 then n - 1 else i - 1
  }

  /** previousFrame undoes nextFrame. */
  lemma PrevNext(n: nat, i: nat)
    requires i < n
    ensures Prev(n, Next(n, i)) == i && Next(n, Prev(n, i)) == i
  {
  }

  /** Following nextFrame from the frame k steps after start gives the frame k + 1 steps after it. */
  lemma NextAt(n: nat, start: nat, k: nat)
    requires start < n && k < n
    ensures Next(n, At(n, start, k)) == At(n, start, k + 1)
  {
  }

  /** One lap of the ring passes every frame: frame i is reached after Offset(n, start, i) steps. */
  function Offset(n: nat, start: nat, i: nat): (k: nat)
    requires start < n && i < n
    ensures k < n && At(n, start, k) == i
  {
    if i >= start then i - start else i + n - start
  }

  // -------------------------------------------------------------- searches

  /**
   * The offset, among offsets k..steps-1 from start along the ring, of the
   * first frame caching pageNum.
   */
  function FindPageFrom(frames: seq<Frame>, start: nat, k: nat, steps: nat, pageNum: int): (r: Option<nat>)
    requires start < |frames| && steps <= |frames|
    ensures r.Some? ==> k <= r.value < steps && frames[At(|frames|, start, r.value)].pageNumber == pageNum
    ensures forall j :: k <= j < steps && (r.None? || j < r.value) ==>
      frames[At(|frames|, start, j)].pageNumber != pageNum
    decreases steps - k
  {
    if k >= steps then None
    else if frames[At(|frames|, start, k)].pageNumber == pageNum then Some(k)
    else FindPageFrom(frames, start, k + 1, steps, pageNum)
  }

  /**
   * The offset, among offsets k..steps-1 from start along the ring, of the
   * first frame with fix count 0.
   */
  function FindUnpinnedFrom(frames: seq<Frame>, start: nat, k: nat, steps: nat): (r: Option<nat>)
    requires start < |frames| && steps <= |frames|
    ensures r.Some? ==> k <= r.value < steps && frames[At(|frames|, start, r.value)].fixCount == 0
    ensures forall j :: k <= j < steps && (r.None? || j < r.value) ==>
      frames[At(|frames|, start, j)].fixCount != 0
    decreases steps - k
  {
    if k >= steps then None
    else if frames[At(|frames|, start, k)].fixCount == 0 then Some(k)
    else FindUnpinnedFrom(frames, start, k + 1, steps)
  }

  /** The lowest index at or after i whose frame caches pageNum (the scan of unpinPage, markDirty, forcePage). */
  function LowestMatch(frames: seq<Frame>, i: nat, pageNum: int): (r: Option<nat>)
    ensures r.Some? ==> i <= r.value < |frames| && frames[r.value].pageNumber == pageNum
    ensures forall j :: i <= j < |frames| && (r.None? || j < r.value) ==> frames[j].pageNumber != pageNum
    decreases |frames| - i
  {
    if i >= |frames| then None
    else if frames[i].pageNumber == pageNum then Some(i)
    else LowestMatch(frames, i + 1, pageNum)
  }

  // ---------------------------------------------------- steps shared by FIFO and LRU

  /** Frame q rebound to pageNum with one more pin; its dirty bit and buffer are untouched. */
  function Rebind(frames: seq<Frame>, q: nat, pageNum: int): (r: seq<Frame>)
    requires q < |frames|
    ensures |r| == |frames| && r[q].pageNumber == pageNum && r[q].fixCount == frames[q].fixCount + 1
    ensures r[q].isDirty == frames[q].isDirty && r[q].data == frames[q].data
    ensures forall i :: 0 <= i < |frames| && i != q ==> r[i] == frames[i]
  {
    frames[q := frames[q].(pageNumber := pageNum, fixCount := frames[q].fixCount + 1)]
  }

  /**
   * Eviction write-back of frame q: nothing if it is clean, otherwise
   * ensureCapacity(pageNumber) and writeBlock(pageNumber). The dirty bit stays
   * set. The boolean is false when the write failed.
   */
  function WriteBack(s: Pool, q: nat): (r: (Pool, bool))
    requires Valid(s) && q < |s.frames|
    ensures Valid(r.0) && r.0.frames == s.frames && r.0.head == s.head && r.0.tail == s.tail
    ensures r.0.framesCount == s.framesCount && r.0.readNumber == s.readNumber
  {
    var f := s.frames[q];
    if !f.isDirty then (s, true)
    else
      var file1 := EnsureCapacity(s.file, f.pageNumber);
      match WriteBlock(file1, f.pageNumber, f.data)
      case Failure(_) => (s.(file := file1), false)
      case Success(file2) => (s.(file := file2, writeNumber := s.writeNumber + 1), true)
  }

  /**
   * ensureCapacity(pageNum + 1) and readBlock(pageNum) into frame q's buffer.
   * On success the read counter goes up and the handle is filled; on failure
   * the strategy returns failRc (RC_OK for FIFO, RC_READ_NON_EXISTING_PAGE for LRU).
   */
  function ReadInto(s: Pool, q: nat, pageNum: int, failRc: RC): (r: PinOutcome)
    requires Valid(s) && q < |s.frames|
    ensures Valid(r.pool)
  {
    var file1 := EnsureCapacity(s.file, pageNum + 1);
    match ReadBlock(file1, pageNum)
    case Failure(_) => PinOutcome(s.(file := file1), failRc, None)
    case Success(d) =>
      PinOutcome(
        s.(file := file1, frames := s.frames[q := s.frames[q].(data := d)], readNumber := s.readNumber + 1),
        Ok, Some(PageHandle(pageNum, d)))
  }

  /**
   * allocateEmptyFrame (and the identical branch of FIFO): the frame at head
   * takes the page, head moves on unless the ring has one frame, and one more
   * frame counts as handed out.
   */
  function AllocateEmptyFrame(s: Pool, pageNum: int): (r: Pool)
    requires Valid(s) && s.framesCount < |s.frames|
    ensures Valid(r)
  {
    var n := |s.frames|;
    s.(frames := Rebind(s.frames, s.head, pageNum),
       head := if Next(n, s.head) != s.head then Next(n, s.head) else s.head,
       framesCount := s.framesCount + 1)
  }

  // ------------------------------------------------------------------- FIFO

  /** The number of frames the FIFO victim search visits: from tail up to, not including, head. */
  function FifoSteps(s: Pool): (r: nat)
    requires Valid(s)
    ensures r < |s.frames|
  {
    if s.head >= s.tail then s.head - s.tail else s.head + |s.frames| - s.tail
  }

  /**
   * The FIFO eviction of victim q: write it back if dirty, rebind it to the
   * page, make it head with tail just past it, and read the page into it.
   */
  function FifoEvict(s: Pool, q: nat, pageNum: int): (r: PinOutcome)
    requires Valid(s) && q < |s.frames|
    ensures Valid(r.pool)
  {
    var (s1, written) := WriteBack(s, q);
    if !written then PinOutcome(s1, WriteFailed, None)
    else ReadInto(s1.(frames := Rebind(s1.frames, q, pageNum), tail := Next(|s.frames|, q), head := q), q, pageNum, Ok)
  }

  /**
   * FIFO. The residency loop never runs (it starts at head and stops at head),
   * so every pin is a miss. A full pool evicts the first unpinned frame from
   * tail up to head and makes it head; if there is none, the page is read into
   * head's buffer without rebinding any frame.
   */
  function FifoPin(s: Pool, pageNum: int): (r: PinOutcome)
    requires Valid(s)
    ensures Valid(r.pool)
  {
    var n := |s.frames|;
    if s.framesCount >= n then
      match FindUnpinnedFrom(s.frames, s.tail, 0, FifoSteps(s))
      case None => ReadInto(s, s.head, pageNum, Ok)
      case Some(k) => FifoEvict(s, At(n, s.tail, k), pageNum)
    else
      ReadInto(AllocateEmptyFrame(s, pageNum), s.head, pageNum, Ok)
  }

  // -------------------------------------------------------------------- LRU

  /**
   * replacePage: the first unpinned frame from tail round the whole ring is
   * written back if dirty. When tail != head that frame takes the page; when
   * tail == head its successor takes the page (whatever its pin count) and
   * becomes head. None means no unpinned frame or a failed write.
   */
  function ReplacePage(s: Pool, pageNum: int): (r: (Pool, Option<nat>))
    requires Valid(s)
    ensures Valid(r.0) && (r.1.Some? ==> r.1.value < |r.0.frames|)
  {
    var n := |s.frames|;
    match FindUnpinnedFrom(s.frames, s.tail, 0, n)
    case None => (s, None)
    case Some(k) => ReplaceVictim(s, At(n, s.tail, k), pageNum)
  }

  /**
   * The body of the replacePage loop once it meets the unpinned frame x:
   * write x back, then rebind x (tail moves past it), or, when tail is at
   * head, rebind x's successor and make it head.
   */
  function ReplaceVictim(s: Pool, x: nat, pageNum: int): (r: (Pool, Option<nat>))
    requires Valid(s) && x < |s.frames|
    ensures Valid(r.0) && (r.1.Some? ==> r.1.value < |r.0.frames|)
  {
    var n := |s.frames|;
    var (s1, written) := WriteBack(s, x);
    if !written then (s1, None)
    else if s1.tail != s1.head then
      (s1.(frames := Rebind(s1.frames, x, pageNum), tail := Next(n, x)), Some(x))
    else
      var y := Next(n, x);
      (s1.(frames := Rebind(s1.frames, y, pageNum), head := y, tail := Prev(n, y)), Some(y))
  }

  /** findFrameInBufferPool: the first frame caching pageNum on one lap from head. */
  function FindFrameInBufferPool(s: Pool, pageNum: int): (r: Option<nat>)
    requires Valid(s)
    ensures r.Some? ==> r.value < |s.frames| && s.frames[r.value].pageNumber == pageNum
  {
    match FindPageFrom(s.frames, s.head, 0, |s.frames|, pageNum)
    case None => None
    case Some(k) => Some(At(|s.frames|, s.head, k))
  }

  /** updatePageAndFrame: frame f gains a pin and becomes head; tail becomes the old head's successor. */
  function UpdatePageAndFrame(s: Pool, f: nat): (r: Pool)
    requires Valid(s) && f < |s.frames|
    ensures Valid(r)
  {
    s.(frames := s.frames[f := s.frames[f].(fixCount := s.frames[f].fixCount + 1)],
       tail := Next(|s.frames|, s.head), head := f)
  }

  /**
   * LRU. A hit gains a pin and becomes head. A miss fills the frame at head
   * while frames remain, and otherwise replaces a page.
   */
  function LruPin(s: Pool, pageNum: int): (r: PinOutcome)
    requires Valid(s)
    ensures Valid(r.pool)
  {
    var n := |s.frames|;
    match FindFrameInBufferPool(s, pageNum)
    case Some(f) =>
      PinOutcome(UpdatePageAndFrame(s, f), Ok, Some(PageHandle(pageNum, s.frames[f].data)))
    case None =>
      if s.framesCount < n then
        ReadInto(AllocateEmptyFrame(s, pageNum), s.head, pageNum, ReadNonExistingPage)
      else
        var (s1, victim) := ReplacePage(s, pageNum);
        match victim
        case None => PinOutcome(s1, WriteFailed, None)
        case Some(f) => ReadInto(s1, f, pageNum, ReadNonExistingPage)
  }

  // --------------------------------------------------------- the pool API

  /** Same number of frames, each caching the same page: nothing was evicted or rebound. */
  predicate SamePages(a: seq<Frame>, b: seq<Frame>)
  {
    |a| == |b| && forall i :: 0 <= i < |a| ==> a[i].pageNumber == b[i].pageNumber
  }

  /** pinPage: runs the strategy and discards its return code; RS_CLOCK does nothing. */
  function PinPage(s: Pool, strategy: Strategy, pageNum: int): (r: PinOutcome)
    requires Valid(s)
    ensures Valid(r.pool) && r.rc == Ok
  {
    match strategy
    case Fifo => FifoPin(s, pageNum).(rc := Ok)
    case Lru => LruPin(s, pageNum).(rc := Ok)
    case Clock => PinOutcome(s, Ok, None)
  }

  /** unpinPage: the lowest-index frame caching the page loses a pin, with no lower bound. */
  function UnpinPage(s: Pool, pageNum: int): (r: Pool)
    ensures SamePages(s.frames, r.frames) && r.head == s.head && r.tail == s.tail
    ensures r.file == s.file && r.readNumber == s.readNumber && r.writeNumber == s.writeNumber
  {
    match LowestMatch(s.frames, 0, pageNum)
    case None => s
    case Some(i) => s.(frames := s.frames[i := s.frames[i].(fixCount := s.frames[i].fixCount - 1)])
  }

  /** markDirty: a null handle is refused; otherwise the lowest-index frame caching the page becomes dirty. */
  function MarkDirty(s: Pool, page: Option<PageHandle>): (r: (Pool, RC))
    ensures SamePages(s.frames, r.0.frames) && r.0.head == s.head && r.0.tail == s.tail
    ensures r.0.file == s.file && r.0.readNumber == s.readNumber && r.0.writeNumber == s.writeNumber
  {
    match page
    case None => (s, InvalidParameter)
    case Some(h) =>
      match LowestMatch(s.frames, 0, h.pageNum)
      case None => (s, PageNotFound)
      case Some(i) => (s.(frames := s.frames[i := s.frames[i].(isDirty := true)]), Ok)
  }

  /**
   * forcePage: if some frame caches the handle's page, the handle's data is
   * written to that page whatever the pin count, and the lowest-index such
   * frame becomes clean.
   */
  function ForcePage(s: Pool, page: PageHandle): (r: (Pool, RC))
    ensures SamePages(s.frames, r.0.frames) && r.0.head == s.head && r.0.tail == s.tail
    ensures r.0.readNumber == s.readNumber
  {
    match LowestMatch(s.frames, 0, page.pageNum)
    case None => (s, Ok)
    case Some(i) =>
      match WriteBlock(s.file, page.pageNum, page.data)
      case Failure(e) => (s, e)
      case Success(file1) =>
        (s.(file := file1, frames := s.frames[i := s.frames[i].(isDirty := false)],
            writeNumber := s.writeNumber + 1), Ok)
  }

  /** Whether forceFlushPool writes frame f. */
  predicate Flushable(f: Frame) {
    f.isDirty && f.fixCount == 0
  }

  /** forceFlushPool from frame i on: writes each dirty unpinned frame in index order, stopping at a failed write. */
  function FlushFrom(s: Pool, i: nat): (r: (Pool, RC))
    ensures SamePages(s.frames, r.0.frames) && r.0.head == s.head && r.0.tail == s.tail
    ensures r.0.readNumber == s.readNumber && r.0.framesCount == s.framesCount
    decreases |s.frames| - i
  {
    if i >= |s.frames| then (s, Ok)
    else
      var f := s.frames[i];
      if Flushable(f) then
        match WriteBlock(s.file, f.pageNumber, f.data)
        case Failure(e) => (s, e)
        case Success(file1) =>
          FlushFrom(s.(file := file1, frames := s.frames[i := f.(isDirty := false)],
                       writeNumber := s.writeNumber + 1), i + 1)
      else FlushFrom(s, i + 1)
  }

  function ForceFlushPool(s: Pool): (r: (Pool, RC))
    ensures SamePages(s.frames, r.0.frames)
  {
    FlushFrom(s, 0)
  }

  /** Pins the pages of ps one after another. */
  function PinAll(s: Pool, strategy: Strategy, ps: seq<int>): (r: Pool)
    requires Valid(s)
    ensures Valid(r)
  {
    if ps == [] then s
    else PinPage(PinAll(s, strategy, ps[..|ps| - 1]), strategy, ps[|ps| - 1]).pool
  }
}
