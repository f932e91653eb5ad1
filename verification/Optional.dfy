/** An optional value; None stands for an absent value or, where said so, for an exception. */
module Optional {
  datatype Option<T> = None | Some(value: T)
}
