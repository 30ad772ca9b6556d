/** An optional value: the model's stand-in for JavaScript's null, and for
    a form field or argument that was left empty. */
module Options {

  datatype Option<+T> = None | Some(value: T)
}
