/** Column kinds shared by the two versions of the `users` table. */
module Schema {
  import opened Common
  import opened Calendar

  /** The `status` column; the create routes admit only these two values. */
  datatype Status = Active | Inactive

  /** A timestamp as the database yields it (`NOW()`, `created_at`). */
  type Stamp = int

  /** A value an edit writes into one column: a field of the request body,
      once the database has read it as a value of some column kind. */
  datatype Value =
    | Num(n: int)
    | Text(s: string)
    | Day(d: Date)
    | State(st: Status)
    | Flag(b: bool)
    | Time(t: Option<Stamp>)

  /** Why an edit's UPDATE statement fails as a whole: an empty field map
      leaves `SET` without an assignment (a syntax error); some assignment
      names no writable column or carries a value of the wrong kind; or the
      database does not answer. */
  datatype EditError = EmptyFieldMap | BadAssignment | Unavailable
}
