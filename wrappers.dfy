/** Small result types shared by every module of the model. */
module Wrappers {
  datatype Option<T> = None | Some(value: T)

  /**
   * The outcome of code guarded by a glog `CHECK`: either it returns a value,
   * or the check fails and the process aborts.
   */
  datatype Checked<T> = Returned(value: T) | CheckFailed
}
