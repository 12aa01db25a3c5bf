/**
 * The page file, seen by the buffer pool as an abstract collaborator: a
 * sequence of pages whose contents are opaque. Only the range checks and the
 * growth behaviour of readBlock, writeBlock, appendEmptyBlock and
 * ensureCapacity are modelled; stdio, the current page position and file
 * handles are not.
 */
module StorageMgr {
  import opened DbError

  const PAGE_SIZE: nat := 4096

  /** The bytes of one page. */
  type PageData = seq<bv8>

  /** n zero bytes. */
  function Zeros(n: nat): (z: seq<bv8>)
    ensures |z| == n && forall i :: 0 <= i < n ==> z[i] == 0
  {
    if n == 0 then [] else Zeros(n - 1) + [0]
  }

  /** A freshly appended page: PAGE_SIZE zero bytes. */
  const ZeroPage: PageData := Zeros(PAGE_SIZE)

  /** The page file: page i is file[i]; totalNumPages is |file|. */
  type PageFile = seq<PageData>

  /**
   * readBlock: rejects a negative page number or one past totalNumPages; a
   * page number equal to totalNumPages passes the guard but the read comes
   * back short, which is reported the same way.
   */
  function ReadBlock(file: PageFile, pageNum: int): (r: Result<PageData>)
    ensures r.Success? <==> 0 <= pageNum < |file|
    ensures r.Success? ==> r.value == file[pageNum]
    ensures r.Failure? ==> r.error == ReadNonExistingPage
  {
    if pageNum > |file| || pageNum < 0 then Failure(ReadNonExistingPage)
    else if pageNum == |file| then Failure(ReadNonExistingPage)
    else Success(file[pageNum])
  }

  /**
   * writeBlock: accepts page numbers 0..totalNumPages; writing at
   * totalNumPages extends the file by that page.
   */
  function WriteBlock(file: PageFile, pageNum: int, data: PageData): (r: Result<PageFile>)
    ensures r.Success? <==> 0 <= pageNum <= |file|
    ensures r.Failure? ==> r.error == WriteFailed
    ensures r.Success? ==>
      && |r.value| == (if pageNum == |file| then |file| + 1 else |file|)
      && r.value[pageNum] == data
      && forall i :: 0 <= i < |file| && i != pageNum ==> r.value[i] == file[i]
  {
    if 0 <= pageNum <= |file| then
      if pageNum == |file| then Success(file + [data]) else Success(file[pageNum := data])
    else Failure(WriteFailed)
  }

  /** appendEmptyBlock: one more page, all zero. */
  function AppendEmptyBlock(file: PageFile): (r: PageFile)
    ensures |r| == |file| + 1 && r[..|file|] == file && r[|file|] == ZeroPage
  {
    file + [ZeroPage]
  }

  /** ensureCapacity: appends zero pages until there are at least n. */
  function EnsureCapacity(file: PageFile, n: int): (r: PageFile)
    ensures |r| == if |file| < n then n else |file|
    ensures r[..|file|] == file
    ensures forall i :: |file| <= i < |r| ==> r[i] == ZeroPage
    decreases n - |file|
  {
    if |file| < n then EnsureCapacity(AppendEmptyBlock(file), n) else file
  }
}
