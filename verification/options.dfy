/** The optional-value datatype shared by every decoder of the model. */
module Options {

  /** `None` stands for "this text is not the rendering of any value". */
  datatype Option<+T> = None | Some(value: T)
}
