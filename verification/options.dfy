/** The optional-value datatype shared by the other modules: JavaScript's
    `null`/`undefined` and "not found" results become `None`. */
module Options {

  datatype Option<+T> = None | Some(value: T)
}
