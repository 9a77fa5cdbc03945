// The optional value used for a missing directory, a missing pickle file,
// an unsaved image and an unmade selection.

module Options {
  datatype Option<T> = None | Some(value: T)
}
