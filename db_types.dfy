/** Identifiers, fields, tuples and exceptions shared by the storage engine and the operators. */
module DbTypes {
  import opened Wrappers
  import opened JavaInts

  /** A transaction; Java compares transaction objects by identity, modelled by this unique number. */
  datatype TransactionId = TransactionId(id: int)

  /** A heap page: the table (file) it belongs to and its position in that file. */
  datatype PageId = PageId(tableId: int, pageNumber: int)

  /** The slot of a tuple on a page. */
  datatype RecordId = RecordId(pageId: PageId, tupleNumber: int)

  datatype FieldType = IntType | StringType

  datatype Field = IntField(intValue: Int32) | StringField(stringValue: string)

  /** Column types and optional column names. */
  datatype TupleDesc = TupleDesc(types: seq<FieldType>, names: seq<Option<string>>)

  /** A tuple; `rid` is set once the tuple is stored on a page. */
  datatype Tuple = Tuple(desc: TupleDesc, fields: seq<Field>, rid: Option<RecordId>)

  datatype Permissions = ReadOnly | ReadWrite

  /** The exceptions the modelled code raises or lets through. */
  datatype DbError =
    | TransactionAborted  // TransactionAbortedException
    | DbException         // DbException
    | IOError             // IOException
    | NoSuchElement       // NoSuchElementException (also: an unknown table id in the catalog)
    | NullPointer         // NullPointerException
    | IllegalArgument     // IllegalArgumentException
    | Arithmetic          // ArithmeticException (integer division by zero)
    | ClassCast           // ClassCastException (a field of the other type)
}
