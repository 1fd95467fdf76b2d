/** Java's nullable references, made explicit. */
module Options {

  /** `None` stands for a Java `null`. */
  datatype Option<+T> = None | Some(value: T)
}
