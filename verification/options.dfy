/** An optional value, used for the storage slot and for the CSV reader's failures. */
module Options {

  datatype Option<+T> = None | Some(value: T)
}
