/**
 * `fluent::common::Status`: an error code plus a message, where an OK status
 * never carries a message.
 */
module CommonStatus {
  import opened Wrappers

  datatype ErrorCode =
    | OK | CANCELLED | UNKNOWN | INVALID_ARGUMENT | DEADLINE_EXCEEDED
    | NOT_FOUND | ALREADY_EXISTS | PERMISSION_DENIED | RESOURCE_EXHAUSTED
    | FAILED_PRECONDITION | ABORTED | OUT_OF_RANGE | UNIMPLEMENTED | INTERNAL
    | UNAVAILABLE | DATA_LOSS

  /** The spelling of each enumerator, as `ErrorCodeToString` prints it. */
  function ErrorCodeName(c: ErrorCode): string
  {
    match c
    case OK => "OK"
    case CANCELLED => "CANCELLED"
    case UNKNOWN => "UNKNOWN"
    case INVALID_ARGUMENT => "INVALID_ARGUMENT"
    case DEADLINE_EXCEEDED => "DEADLINE_EXCEEDED"
    case NOT_FOUND => "NOT_FOUND"
    case ALREADY_EXISTS => "ALREADY_EXISTS"
    case PERMISSION_DENIED => "PERMISSION_DENIED"
    case RESOURCE_EXHAUSTED => "RESOURCE_EXHAUSTED"
    case FAILED_PRECONDITION => "FAILED_PRECONDITION"
    case ABORTED => "ABORTED"
    case OUT_OF_RANGE => "OUT_OF_RANGE"
    case UNIMPLEMENTED => "UNIMPLEMENTED"
    case INTERNAL => "INTERNAL"
    case UNAVAILABLE => "UNAVAILABLE"
    case DATA_LOSS => "DATA_LOSS"
  }

  /**
   * The code whose name has length n and starts with `first`, if any: no two
   * names share both.
   */
  function CodeOfTag(n: nat, first: char): Option<ErrorCode>
  {
    if n == 2 && first == 'O' then Some(OK)
    else if n == 9 && first == 'C' then Some(CANCELLED)
    else if n == 7 && first == 'U' then Some(UNKNOWN)
    else if n == 16 && first == 'I' then Some(INVALID_ARGUMENT)
    else if n == 17 && first == 'D' then Some(DEADLINE_EXCEEDED)
    else if n == 9 && first == 'N' then Some(NOT_FOUND)
    else if n == 14 && first == 'A' then Some(ALREADY_EXISTS)
    else if n == 17 && first == 'P' then Some(PERMISSION_DENIED)
    else if n == 18 && first == 'R' then Some(RESOURCE_EXHAUSTED)
    else if n == 19 && first == 'F' then Some(FAILED_PRECONDITION)
    else if n == 7 && first == 'A' then Some(ABORTED)
    else if n == 12 && first == 'O' then Some(OUT_OF_RANGE)
    else if n == 13 && first == 'U' then Some(UNIMPLEMENTED)
    else if n == 8 && first == 'I' then Some(INTERNAL)
    else if n == 11 && first == 'U' then Some(UNAVAILABLE)
    else if n == 9 && first == 'D' then Some(DATA_LOSS)
    else None
  }

  lemma TaggedOkToInvalid(c: ErrorCode)
    requires c.OK? || c.CANCELLED? || c.UNKNOWN? || c.INVALID_ARGUMENT?
    ensures var n := ErrorCodeName(c); |n| >= 2 && ':' !in n && CodeOfTag(|n|, n[0]) == Some(c)
  {
  }

  lemma TaggedDeadlineToDenied(c: ErrorCode)
    requires c.DEADLINE_EXCEEDED? || c.NOT_FOUND? || c.ALREADY_EXISTS? || c.PERMISSION_DENIED?
    ensures var n := ErrorCodeName(c); |n| >= 2 && ':' !in n && CodeOfTag(|n|, n[0]) == Some(c)
  {
  }

  lemma TaggedExhaustedToRange(c: ErrorCode)
    requires c.RESOURCE_EXHAUSTED? || c.FAILED_PRECONDITION? || c.ABORTED? || c.OUT_OF_RANGE?
    ensures var n := ErrorCodeName(c); |n| >= 2 && ':' !in n && CodeOfTag(|n|, n[0]) == Some(c)
  {
  }

  lemma TaggedUnimplementedToLoss(c: ErrorCode)
    requires c.UNIMPLEMENTED? || c.INTERNAL? || c.UNAVAILABLE? || c.DATA_LOSS?
    ensures var n := ErrorCodeName(c); |n| >= 2 && ':' !in n && CodeOfTag(|n|, n[0]) == Some(c)
  {
  }

  /** A code's name: at least two characters, no ':', and tagged with the code by its length and first letter. */
  lemma Tagged(c: ErrorCode)
    ensures var n := ErrorCodeName(c); |n| >= 2 && ':' !in n && CodeOfTag(|n|, n[0]) == Some(c)
  {
    if c.OK? || c.CANCELLED? || c.UNKNOWN? || c.INVALID_ARGUMENT? {
      TaggedOkToInvalid(c);
    } else if c.DEADLINE_EXCEEDED? || c.NOT_FOUND? || c.ALREADY_EXISTS? || c.PERMISSION_DENIED? {
      TaggedDeadlineToDenied(c);
    } else if c.RESOURCE_EXHAUSTED? || c.FAILED_PRECONDITION? || c.ABORTED? || c.OUT_OF_RANGE? {
      TaggedExhaustedToRange(c);
    } else {
      TaggedUnimplementedToLoss(c);
    }
  }

  /** Distinct codes print distinct names. */
  lemma ErrorCodeNameInjective(a: ErrorCode, b: ErrorCode)
    requires ErrorCodeName(a) == ErrorCodeName(b)
    ensures a == b
  {
    Tagged(a);
    Tagged(b);
  }

  /** Names are at least two characters long and hold no ':'. */
  lemma ErrorCodeNameHasNoColon(c: ErrorCode)
    ensures |ErrorCodeName(c)| >= 2 && ':' !in ErrorCodeName(c)
  {
    Tagged(c);
  }

  datatype StatusRep = StatusRep(code: ErrorCode, message: string)

  /** The class invariant the constructors establish: an OK status has no message. */
  type Status = s: StatusRep | s.code != OK || s.message == "" witness StatusRep(OK, "")

  /** `Status()`: the default status is OK with an empty message. */
  function DefaultStatus(): (s: Status)
    ensures Ok(s) && s.message == ""
  {
    StatusRep(OK, "")
  }

  /** `Status(code, message)`: the message is kept unless the code is OK. */
  function MakeStatus(code: ErrorCode, message: string): (s: Status)
    ensures s.code == code
    ensures s.message == (if code == OK then "" else message)
  {
    if code == OK then StatusRep(OK, "") else StatusRep(code, message)
  }

  predicate Ok(s: Status) { s.code == OK }

  /** Every status built with code OK equals the default one, whatever message was given. */
  lemma OkDiscardsMessage(message: string)
    ensures MakeStatus(OK, message) == DefaultStatus()
  {
  }

  /** `ToString`: "OK" for OK statuses, otherwise "<CODE>: <message>". */
  function ToString(s: Status): (r: string)
    ensures r == "OK" <==> Ok(s)
    ensures !Ok(s) ==> |r| >= |ErrorCodeName(s.code)| + 2 && r[..|ErrorCodeName(s.code)|] == ErrorCodeName(s.code)
  {
    if s.code == OK then "OK"
    else
      ErrorCodeNameHasNoColon(s.code);
      ErrorCodeName(s.code) + ": " + s.message
  }

  /** The index of the first ':' in `s`, or |s| when there is none. */
  function FirstColon(s: string): (k: nat)
    ensures k <= |s|
  {
    if s == [] || s[0] == ':' then 0 else 1 + FirstColon(s[1..])
  }

  lemma {:induction false} ColonPosition(name: string, rest: string)
    requires ':' !in name
    ensures FirstColon(name + ":" + rest) == |name|
  {
    if name != [] {
      assert (name + ":" + rest)[1..] == name[1..] + ":" + rest;
      ColonPosition(name[1..], rest);
    }
  }

  /** Two names without ':' followed by ": " and a message: the texts agree only when both parts do. */
  lemma PrefixedSplit(na: string, ma: string, nb: string, mb: string)
    requires ':' !in na && ':' !in nb
    requires na + ": " + ma == nb + ": " + mb
    ensures na == nb && ma == mb
  {
    var r := na + ": " + ma;
    ColonPosition(na, " " + ma);
    ColonPosition(nb, " " + mb);
    assert r == na + ":" + (" " + ma);
    assert r == nb + ":" + (" " + mb);
    assert na == r[..|na|] == nb;
    assert ma == r[|na| + 2..] == mb;
  }

  /** Distinct statuses (by `operator==`, code and message) print differently. */
  lemma ToStringInjective(a: Status, b: Status)
    requires ToString(a) == ToString(b)
    ensures a == b
  {
    if !Ok(a) && !Ok(b) {
      var na, nb := ErrorCodeName(a.code), ErrorCodeName(b.code);
      ErrorCodeNameHasNoColon(a.code);
      ErrorCodeNameHasNoColon(b.code);
      assert ToString(a) == na + ": " + a.message;
      assert ToString(b) == nb + ": " + b.message;
      PrefixedSplit(na, a.message, nb, b.message);
      ErrorCodeNameInjective(a.code, b.code);
    }
  }
}
