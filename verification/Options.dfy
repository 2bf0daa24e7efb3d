// A value that may be missing: a field that is not in a message, a result that there is none of.
module Options {

  datatype Option<+T> = None | Some(value: T)
}
