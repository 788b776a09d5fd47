/** The optional-value datatype shared by the other modules. */
module Options {

  /** Either nothing, or a value. Stands for JavaScript's `undefined`/`null`
      where the modelled code tests for a missing value. */
  datatype Option<+T> = None | Some(value: T)
}
