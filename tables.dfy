/** Record identifiers, attribute data types and schemas. */
module Tables {

  /** A record identifier: the page holding the record and its slot in that page. */
  datatype Rid = Rid(page: int, slot: int)

  /** Attribute data types; Unknown carries any other code the C enum field may hold. */
  datatype DataType = DtInt | DtString | DtFloat | DtBool | Unknown(code: int)

  /** A table schema. numAttr is kept separately because the source loops up to it. */
  datatype Schema = Schema(
    numAttr: nat,
    attrNames: seq<string>,
    dataTypes: seq<DataType>,
    typeLength: seq<int>,
    keyAttrs: seq<int>,
    keySize: int)

  /** The three per-attribute arrays have at least numAttr entries. */
  predicate WellFormedSchema(s: Schema) {
    |s.attrNames| >= s.numAttr && |s.dataTypes| >= s.numAttr && |s.typeLength| >= s.numAttr
  }
}
