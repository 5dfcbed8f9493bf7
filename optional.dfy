/** A value that may be absent: stands for pandas' NaN in a column and for
    an optional column (the tie-break score) in a table row. */
module Optional {

  datatype Option<+T> = None | Some(value: T)
}
