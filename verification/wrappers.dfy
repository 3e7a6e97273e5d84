/** The failure-carrying datatype shared by the de-esser model. */
module Wrappers {

  /** A value that may be absent: `None` stands for the outcomes the program
      reports by returning FALSE or by trapping. */
  datatype Option<+T> = None | Some(value: T)
}
