/** The optional reference used for every nullable pointer of the tick list
    (a spoke's head, a task's neighbours, a task's spoke). */
module Wrappers {
  datatype Option<+T> = None | Some(value: T)
}
