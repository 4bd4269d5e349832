// Option and lookup outcomes shared by every module of the model.
module Wrappers {

  datatype Option<T> = None | Some(value: T)

  /** The three outcomes of a `fetch_optional` query: a row, no row, or a database error. */
  datatype Lookup<T> = Found(row: T) | Missing | Failed
  {
    /** The outcome of a read that succeeded: `Some` becomes `Found`, `None` becomes `Missing`. */
    static function Of(o: Option<T>): (l: Lookup<T>)
      ensures l.Found? <==> o.Some?
      ensures l.Found? ==> l.row == o.value
      ensures !l.Failed?
    {
      match o
      case Some(v) => Found(v)
      case None => Missing
    }
  }
}
