/** The optional value used for lookups that may find nothing and for inputs
    that may be absent (a file that does not exist yet, a date not chosen). */
module Options {

  datatype Option<+T> = None | Some(value: T)
}
