/**
 * `fluent::StatusOr<T>`: a variant holding either a non-OK `Status` or a
 * value of type T.
 */
module CommonStatusOr {
  import opened Wrappers
  import opened CommonStatus

  datatype StatusOrRep<T> = Failed(error: Status) | Holds(value: T)

  /** The invariant the constructors enforce: a failed StatusOr never holds an OK status. */
  type StatusOr<T> = r: StatusOrRep<T> | r.Failed? ==> !Ok(r.error)
    witness Failed(StatusRep(UNKNOWN, ""))

  /** `StatusOr()`: a default StatusOr holds the status UNKNOWN with no message and no value. */
  function DefaultStatusOr<T>(): (r: StatusOr<T>)
    ensures !IsOk(r) && StatusOf(r) == MakeStatus(UNKNOWN, "")
  {
    Failed(MakeStatus(UNKNOWN, ""))
  }

  /** `StatusOr(status)`: CHECK-fails on an OK status, otherwise holds that status. */
  function FromStatus<T>(s: Status): (r: Checked<StatusOr<T>>)
    ensures r.Returned? <==> !Ok(s)
    ensures r.Returned? ==> !IsOk(r.value) && StatusOf(r.value) == s
  {
    if Ok(s) then CheckFailed else var r: StatusOr<T> := Failed(s); Returned(r)
  }

  /** `StatusOr(value)`. */
  function FromValue<T>(v: T): (r: StatusOr<T>)
    ensures IsOk(r) && ValueOrDie(r) == Returned(v)
  {
    Holds(v)
  }

  /** `status()`: the held status, or OK when a value is held. */
  function StatusOf<T>(r: StatusOr<T>): (s: Status)
    ensures Ok(s) <==> r.Holds?
  {
    if r.Failed? then r.error else DefaultStatus()
  }

  /**
   * `ok()`: true when a value is held. Its CHECK that a held status is not
   * OK never fails, by the invariant of `StatusOr`.
   */
  predicate IsOk<T>(r: StatusOr<T>)
  {
    r.Holds?
  }

  /** `ValueOrDie()`: the value, or a CHECK failure unless `ok()`. */
  function ValueOrDie<T>(r: StatusOr<T>): (v: Checked<T>)
    ensures v.Returned? <==> IsOk(r)
  {
    if r.Holds? then Returned(r.value) else CheckFailed
  }

  /** `status().ok()` and `ok()` agree on every StatusOr. */
  lemma StatusOkIffOk<T>(r: StatusOr<T>)
    ensures Ok(StatusOf(r)) <==> IsOk(r)
  {
  }
}
