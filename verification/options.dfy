/** Absent and present values: Go's nil-able results and comma-ok pairs. */
module Options {
  datatype Option<+T> = None | Some(value: T)
}
