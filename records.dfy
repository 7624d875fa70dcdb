/** The one entity of the application: a row of the `qualifications` table. */
module Records {

  datatype Option<T> = None | Some(value: T)

  /** The four text columns that an UPDATE may overwrite. */
  datatype Record = Record(faculty: string, qualification: string, status: string, date: string)

  /** A row as `SELECT * FROM qualifications` returns it: the id and the four text columns. */
  datatype Row = Row(id: int, fields: Record)

  /**
   * A row of the editor's frame. A row added in the editor's dynamic mode
   * has no value in its id cell, hence the `Option`.
   */
  datatype EditedRow = EditedRow(id: Option<int>, fields: Record)

  /** The frame's columns, in table order; a styled row has one style per column. */
  const Columns: seq<string> := ["id", "faculty", "qualification", "status", "date"]
}
