/** The row type of the users table (sql_processor/table.h). */
module Records {
  import opened Wrappers

  /** A stored row. C strings are sequences of characters without the terminator. */
  datatype Record = Record(id: int, name: string, age: int)

  /** A `void *` slot: null, or a pointer to a record that never changes once stored. */
  type Pointer = Option<Record>
}
