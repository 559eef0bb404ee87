/**
  gRPC status codes, errors with and without a status, and the (response, error)
  pair a unary handler returns.
 */
module GrpcStatus {
  import opened Wrappers
  import opened BufValidate

  datatype Code =
    | OK | Canceled | Unknown | InvalidArgument | DeadlineExceeded | NotFound
    | AlreadyExists | PermissionDenied | ResourceExhausted | FailedPrecondition
    | Aborted | OutOfRange | Unimplemented | Internal | Unavailable | DataLoss
    | Unauthenticated

  /** `codes.Code.String()`. */
  function CodeString(c: Code): string
  {
    match c
    case OK => "OK"
    case Canceled => "Canceled"
    case Unknown => "Unknown"
    case InvalidArgument => "InvalidArgument"
    case DeadlineExceeded => "DeadlineExceeded"
    case NotFound => "NotFound"
    case AlreadyExists => "AlreadyExists"
    case PermissionDenied => "PermissionDenied"
    case ResourceExhausted => "ResourceExhausted"
    case FailedPrecondition => "FailedPrecondition"
    case Aborted => "Aborted"
    case OutOfRange => "OutOfRange"
    case Unimplemented => "Unimplemented"
    case Internal => "Internal"
    case Unavailable => "Unavailable"
    case DataLoss => "DataLoss"
    case Unauthenticated => "Unauthenticated"
  }

  /** A typed detail payload: the `buf.validate.Violations` message packed in an `Any`. */
  datatype Detail = ViolationsDetail(violations: seq<Violation>)

  /**
    A Go `error`: either one that carries a gRPC status (`status.FromError` reports
    ok) or a plain error with its dynamic type name and its `Error()` text.
   */
  datatype Error =
    | StatusErr(code: Code, message: string, details: seq<Detail>)
    | PlainErr(typeName: string, text: string)

  /** `status.FromError(err)` succeeds exactly on errors that carry a status. */
  predicate HasStatus(e: Error)
  {
    e.StatusErr?
  }

  /** `err.Error()`. */
  function ErrorText(e: Error): string
  {
    match e
    case StatusErr(c, m, _) => "rpc error: code = " + CodeString(c) + " desc = " + m
    case PlainErr(_, text) => text
  }

  /** `fmt.Sprintf("%T", err)`. */
  function TypeName(e: Error): string
  {
    match e
    case StatusErr(_, _, _) => "*status.Error"
    case PlainErr(t, _) => t
  }

  /** The dynamic type of an error made by `fmt.Errorf` without `%w`. */
  const ErrorStringType: string := "*errors.errorString"

  /**
    `status.FromProto(&spb.Status{...}).Err()` (and `status.Error`, which is the same
    with no details): nil for code OK, otherwise the status error.
   */
  function NewStatusErr(code: Code, message: string, details: seq<Detail>): (e: Option<Error>)
    ensures e.None? <==> code == OK
    ensures e.Some? ==> e.value == StatusErr(code, message, details)
  {
    if code == OK then None else Some(StatusErr(code, message, details))
  }
}
