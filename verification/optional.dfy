/** An optional value, for scans that may find nothing. */
module Optional {

  datatype Option<T> = None | Some(value: T)
}
