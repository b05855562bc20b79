/** The optional-value wrapper used where the Java code returns null or throws. */
module Options {

  datatype Option<+T> = None | Some(value: T)
}
