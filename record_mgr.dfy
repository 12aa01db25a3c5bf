/**
 * The record manager of assign4_b+-tree/record_mgr.c as objects: the table's
 * page-directory cache and tuple count, which insertRecord updates in place,
 * and a scan's cursor, which next() advances. Each operation is proved to
 * leave the state the matching function of RecordSpec describes.
 */
module RecordMgr {
  import opened DbError
  import opened Tables
  import opened RecordSpec

  /** getRecordSize: add up the attributes' sizes, one attribute at a time. */
  method GetRecordSize(schema: Schema) returns (size: int)
    requires WellFormedSchema(schema)
    ensures size == RecordSize(schema)
  {
    size := 0;
    for i := 0 to schema.numAttr
      invariant size == SizeOfFirst(schema, i)
    {
      match schema.dataTypes[i]
      case DtInt => size := size + SIZEOF_INT;
      case DtString => size := size + schema.typeLength[i];
      case DtBool => size := size + SIZEOF_BOOL;
      case DtFloat => size := size + SIZEOF_FLOAT;
      case Unknown(_) =>
    }
  }

  /**
   * parseKeyInfo: find the first attribute named keyInfo, then fill a fresh
   * array of numAttr key attributes with its index (or -1), and set the key
   * size to 1.
   */
  method ParseKeyInfo(schema: Schema, keyInfo: string) returns (r: Schema)
    requires |schema.attrNames| >= schema.numAttr
    ensures r == RecordSpec.ParseKeyInfo(schema, keyInfo)
  {
    var numAttr := schema.numAttr;
    var index := -1;
    var i := 0;
    while i < numAttr
      invariant i <= numAttr && index == -1
      invariant KeyIndex(schema.attrNames, numAttr, keyInfo, i) == KeyIndex(schema.attrNames, numAttr, keyInfo, 0)
    {
      if schema.attrNames[i] == keyInfo {
        index := i;
        break;
      }
      i := i + 1;
    }
    var keyAttrs := new int[numAttr];
    for k := 0 to numAttr
      invariant forall j :: 0 <= j < k ==> keyAttrs[j] == index
    {
      keyAttrs[k] := index;
    }
    r := schema.(keyAttrs := keyAttrs[..], keySize := 1);
  }

  /**
   * An open table: the page-directory cache (front to rear), the cache's
   * entry count and the tuple count, with the record size and the number of
   * directory entries per page createTable fixed.
   */
  class RecordManager {
    var entries: seq<DirEntry>
    var dirCount: int
    var tuples: int
    /** recSize: getRecordSize plus the serialised record's framing. */
    const recSize: int
    /** maxPageDirsPerPage: how many serialised entries fit in a page. */
    const dirsPerPage: nat

    ghost predicate Valid()
      reads this
    {
      TableOk(Table(entries, dirCount, tuples)) && dirsPerPage > 0
    }

    /**
     * createTable followed by openTable: one empty directory entry for the
     * first data page, no tuples, and the record size of the schema.
     * dirsPerPage depends on the directory serialiser, which is not part of
     * this model, so it is a parameter.
     */
    constructor (schema: Schema, dirsPerPage: nat)
      requires WellFormedSchema(schema) && dirsPerPage > 0
      ensures Valid() && Table(entries, dirCount, tuples) == NewTable() && Assigned(entries) == {}
      ensures recSize == RecordSize(schema) + RECORD_FRAMING && this.dirsPerPage == dirsPerPage
    {
      var size := GetRecordSize(schema);
      recSize := size + RECORD_FRAMING;
      this.dirsPerPage := dirsPerPage;
      var first := [CreatePageDirectoryNode(FIRST_DATA_PAGE)];
      assert Table(first, 1, 0) == NewTable();
      entries := first;
      dirCount := 1;
      tuples := 0;
    }

    /** getNumTuples: the number of records the directory counts. */
    method GetNumTuples() returns (n: int)
      requires Valid()
      ensures n == Total(entries)
    {
      return tuples;
    }

    /** The walk of insertRecord over the directory: the first entry with room, or |entries| if none has. */
    method FindEntryWithRoom() returns (i: nat)
      ensures i <= |entries|
      ensures i < |entries| ==> FirstWithRoom(entries, 0) == Some(i)
      ensures i == |entries| ==> FirstWithRoom(entries, 0) == None
    {
      i := 0;
      while i < |entries| && entries[i].count >= MAX_SLOTS_PER_PAGE
        invariant i <= |entries|
        invariant FirstWithRoom(entries, i) == FirstWithRoom(entries, 0)
      {
        i := i + 1;
      }
    }

    /**
     * insertRecord: walk the directory for the first entry with room; if
     * there is none, append an entry for the page after the rear's (written
     * to that page when the cache count is a multiple of dirsPerPage). The
     * record gets the chosen entry's page and first free slot, and is written
     * at offset slot * recSize of that page.
     */
    method InsertRecord() returns (rc: RC, rid: Rid, offset: int, dirPage: Option<int>)
      requires Valid()
      modifies this
      ensures Valid() && rc == Ok
      ensures var p := RecordSpec.InsertRecord(old(Table(entries, dirCount, tuples)), dirsPerPage);
        Table(entries, dirCount, tuples) == p.table && rid == p.rid && dirPage == p.dirPage
      ensures offset == rid.slot * recSize
    {
      ghost var t := Table(entries, dirCount, tuples);
      var i := FindEntryWithRoom();
      dirPage := None;
      if i == |entries| {
        var lastPageNum := entries[|entries| - 1].pageNum + 1;
        var pd := CreatePageDirectoryNode(lastPageNum);
        if dirCount % dirsPerPage == 0 {
          dirPage := Some(entries[|entries| - 1].pageNum + 1);
        }
        entries := entries + [pd];
        dirCount := dirCount + 1;
      }
      var d := entries[i];
      rid := Rid(d.pageNum, d.firstFreeSlot);
      offset := rid.slot * recSize;
      entries := entries[i := d.(count := d.count + 1, firstFreeSlot := d.firstFreeSlot + 1)];
      tuples := tuples + 1;
      rc := Ok;
      InsertRecordAssignsFreshRid(t, dirsPerPage);
    }
  }

  /** One step of next() at the end of a page: it goes on at slot 0 of the following data page. */
  lemma NextAtPageEnd(s: ScanState, maxPage: int, dirsPerPage: nat, accept: Rid -> bool)
    requires s.page <= maxPage && s.slot >= MAX_SLOTS_PER_PAGE
    ensures RecordSpec.Next(s, maxPage, dirsPerPage, accept)
      == RecordSpec.Next(ScanState(NextPage(s.page, dirsPerPage), 0), maxPage, dirsPerPage, accept)
  {
  }

  /** One step of next() at a slot whose record the condition rejects: it goes on at the next slot. */
  lemma NextPastRejected(s: ScanState, maxPage: int, dirsPerPage: nat, accept: Rid -> bool)
    requires s.page <= maxPage && s.slot < MAX_SLOTS_PER_PAGE && !accept(Rid(s.page, s.slot))
    ensures RecordSpec.Next(s, maxPage, dirsPerPage, accept)
      == RecordSpec.Next(ScanState(s.page, s.slot + 1), maxPage, dirsPerPage, accept)
  {
  }

  /** A scan's RM_ScanManagement: the page and the slot next() looks at. */
  class RecordScan {
    var page: int
    var slot: int

    /** startScan: the first data page, slot 0. */
    constructor ()
      ensures ScanState(page, slot) == StartScan()
    {
      page := FIRST_DATA_PAGE;
      slot := 0;
    }

    /**
     * next(): visit slots up to the rear entry's page until accept (what the
     * scan condition says of the record loaded from a slot) holds, wrapping
     * pages after maxSlotsPerPage slots; otherwise step the slot back and
     * report NO_MORE_TUPLES. rid is the RID whose record was loaded last.
     */
    method Next(mgr: RecordManager, accept: Rid -> bool) returns (rc: RC, rid: Option<Rid>)
      requires |mgr.entries| >= 1
      modifies this
      ensures NextResult(ScanState(page, slot), rc, rid)
        == RecordSpec.Next(old(ScanState(page, slot)), mgr.entries[|mgr.entries| - 1].pageNum, mgr.dirsPerPage, accept)
    {
      var maxPage := mgr.entries[|mgr.entries| - 1].pageNum;
      while page <= maxPage
        invariant RecordSpec.Next(ScanState(page, slot), maxPage, mgr.dirsPerPage, accept)
          == RecordSpec.Next(old(ScanState(page, slot)), maxPage, mgr.dirsPerPage, accept)
        decreases if page <= maxPage then maxPage - page + 1 else 0,
                  if slot < MAX_SLOTS_PER_PAGE then MAX_SLOTS_PER_PAGE - slot else 0
      {
        ghost var here := ScanState(page, slot);
        if slot >= MAX_SLOTS_PER_PAGE {
          slot := 0;
          page := page + 1;
          if page % (mgr.dirsPerPage + 1) == 0 {
            page := page + 1;
          }
          NextAtPageEnd(here, maxPage, mgr.dirsPerPage, accept);
          continue;
        }
        var r := Rid(page, slot);
        slot := slot + 1;
        if accept(r) {
          return Ok, Some(r);
        }
        NextPastRejected(here, maxPage, mgr.dirsPerPage, accept);
      }
      slot := slot - 1;
      return RmNoMoreTuples, None;
    }
  }
}
