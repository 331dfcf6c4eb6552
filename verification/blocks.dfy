/**
 The data model of a document-analysis response: a flat list of typed blocks.
 Every key the service may omit from a block is an `Option`; the keys the
 table renderer reads with a default (`ColumnSpan`, `RowSpan`, `EntityTypes`,
 `Relationships`) and the keys it reads without one (`Text`, `RowIndex`,
 `ColumnIndex`) are told apart by the preconditions of the operations.
 */
module Blocks {

  datatype Option<+T> = None | Some(value: T)

  /** One entry of a block's `Relationships` list: its type and the ids it names, in order. */
  datatype Relationship = Relationship(relType: string, ids: seq<string>)

  datatype Block = Block(
    id: string,
    blockType: string,
    text: Option<string>,
    rowIndex: Option<int>,
    columnIndex: Option<int>,
    rowSpan: Option<int>,
    columnSpan: Option<int>,
    entityTypes: Option<seq<string>>,
    relationships: Option<seq<Relationship>>)

  const WordType: string := "WORD"
  const CellType: string := "CELL"
  const ColumnHeader: string := "COLUMN_HEADER"

  predicate IsWord(b: Block) {
    b.blockType == WordType
  }

  predicate IsCell(b: Block) {
    b.blockType == CellType
  }

  /** The `Relationships` list, or the empty list when the key is absent. */
  function RelationshipsOf(b: Block): seq<Relationship> {
    match b.relationships
    case Some(rels) => rels
    case None => []
  }

  /** A span value, defaulting to 1 when the key is absent. */
  function SpanOrOne(span: Option<int>): int {
    match span
    case Some(n) => n
    case None => 1
  }

  /** The sort key of a cell. Only cells that carry a `ColumnIndex` are ever sorted. */
  function ColumnKey(b: Block): int {
    match b.columnIndex
    case Some(k) => k
    case None => 0
  }
}
