/** The optional value used wherever the original catches an exception and carries on. */
module Wrappers {

  /** `None` stands for a caught exception (a failed number parse, a read timeout). */
  datatype Option<+T> = None | Some(value: T)
}
