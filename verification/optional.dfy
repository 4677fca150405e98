/** A value that may be missing: the model's stand-in for an exception that the scripts swallow. */
module Optional {

  datatype Option<+T> = None | Some(value: T)
}
