/** The optional value used throughout the model: an absent file location, a
    shape key that is not found, an intrinsic that sets no result type. */
module Options {

  datatype Option<+T> = None | Some(value: T)
}
