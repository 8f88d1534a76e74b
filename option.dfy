/** The optional value used across the model: a missing attribute, a failed lookup, no match. */
module Options {

  datatype Option<+T> = None | Some(value: T)

}
