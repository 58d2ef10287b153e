/** The optional value the model uses for JavaScript's `undefined`/`NaN`
    results and for fields a record may lack. */
module Wrappers {

  datatype Option<+T> = None | Some(value: T) {

    /** The encapsulated value, or `default` when there is none
        (the model of JavaScript's `x || default` on a possibly-missing value). */
    function GetOr(default: T): T {
      match this
      case Some(v) => v
      case None => default
    }
  }
}
