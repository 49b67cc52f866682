/** A nullable column or an absent value. */
module Options {
  datatype Option<+T> = None | Some(value: T)

  /** Some row of a non-empty row set: SQL leaves the order of rows open. */
  method Pick<T>(rows: set<T>) returns (row: T)
    requires rows != {}
    ensures row in rows
  {
    row :| row in rows;
  }

  lemma Element<T>(rows: set<T>) returns (row: T)
    requires rows != {}
    ensures row in rows
  {
    row :| row in rows;
  }
}
