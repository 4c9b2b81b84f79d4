/** The optional-value type used throughout the model: `None` stands for
    Python's `None`, an absent file or line, or a call that raised. */
module Options {

  datatype Option<+T> = None | Some(value: T)
}
