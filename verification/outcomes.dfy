/**
  Failure-carrying datatypes shared by every builder.

  A Go call returning `(string, []interface{}, error)` with a non-nil error
  always pairs it with an empty string; the builders model that triple as a
  `Result` whose `Failure` stands for `("", nil, err)`.
 */
module Outcomes {

  /** A Go pointer or interface that may be nil. */
  datatype Option<+T> = None | Some(value: T)

  datatype Result<+R> = Success(value: R) | Failure(fault: Fault)

  /** What a call can end with besides success: an `error` value carrying its
      message, or the run-time panic Go raises when a method dereferences a
      nil receiver. */
  datatype Fault = Error(msg: string) | NilDereference
}
