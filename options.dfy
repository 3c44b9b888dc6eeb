/** A value that may be absent: a form control that is not on the page, a file input with no file chosen. */
module Options {

  datatype Option<+T> = None | Some(value: T)
}
