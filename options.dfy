/** A value that may be missing: pandas' NaN / NaT in a column becomes None. */
module Options {

  datatype Option<+T> = None | Some(value: T)
}
