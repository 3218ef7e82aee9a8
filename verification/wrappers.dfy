/** Optional values, used wherever the program may produce nothing (a failed
    read, an absent row, an aborted registration). */
module Wrappers {

  datatype Option<+T> = None | Some(value: T)

}
