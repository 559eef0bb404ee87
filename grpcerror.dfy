/**
  The error-normalisation interceptor: errors that carry a gRPC status pass through,
  any other handler error is logged (when a logger is configured) and replaced by a
  content-free `Internal` status, so no plain error text reaches the caller.
 */
module GrpcError {
  import opened Wrappers
  import opened GrpcStatus
  import opened UnaryCall

  /** `FormatValidationError(err)`: `status.Error(codes.InvalidArgument, err.Error())`. */
  function FormatValidationError(err: Error): (r: Option<Error>)
    ensures r.Some? && HasStatus(r.value)
    ensures r.value.code == InvalidArgument && r.value.message == ErrorText(err) && r.value.details == []
  {
    NewStatusErr(InvalidArgument, ErrorText(err), [])
  }

  /** One `logger.ErrorContext(ctx, msg, args...)` call. */
  datatype LogRecord = LogRecord(msg: string, args: seq<string>)

  /** The interceptor's result together with the log calls it made, in order. */
  datatype Outcome<M> = Outcome(reply: Reply<M>, logs: seq<LogRecord>)

  /** `status.Error(codes.Internal, "Internal Error")`. */
  const InternalError: Error := StatusErr(Internal, "Internal Error", [])

  /**
    The one `logger.ErrorContext` call the interceptor makes for an error without a
    status: a fixed message with the error's dynamic type and its text as fields.
   */
  function HidingLog(e: Error): LogRecord
  {
    LogRecord("hiding unhandled error", ["errorType", TypeName(e), "error", ErrorText(e)])
  }

  /**
    The interceptor closure of `UnaryServerInterceptor(logger)` applied to one call;
    `hasLogger` is false for a nil logger.
   */
  function Intercept<M>(hasLogger: bool, req: Value<M>, handler: Value<M> -> Reply<M>): (r: Outcome<M>)
    ensures r.reply.err.Some? ==> HasStatus(r.reply.err.value) && r.reply.res == Nil
    ensures r.reply.err.None? <==> handler(req).err.None?
    ensures handler(req).err.None? ==> r.reply.res == handler(req).res && r.logs == []
    ensures handler(req).err.Some? && HasStatus(handler(req).err.value) ==> r.reply.err == handler(req).err && r.logs == []
    ensures handler(req).err.Some? && !HasStatus(handler(req).err.value) ==> r.reply.err == Some(InternalError)
    ensures |r.logs| <= 1 && (|r.logs| == 1 ==> hasLogger)
  {
    var out := handler(req);
    match out.err
    case None => Outcome(Reply(out.res, None), [])
    case Some(e) =>
      if !HasStatus(e) then
        var logs := if hasLogger then [HidingLog(e)] else [];
        Outcome(Reply(Nil, NewStatusErr(Internal, "Internal Error", [])), logs)
      else
        Outcome(Reply(Nil, Some(e)), [])
  }

  /**
    No plain error text reaches the caller: two handlers that fail with plain errors,
    of any type and any text, produce the same reply.
   */
  lemma PlainErrorsIndistinguishable<M>(hasLogger: bool, req: Value<M>, h1: Value<M> -> Reply<M>, h2: Value<M> -> Reply<M>)
    requires h1(req).err.Some? && !HasStatus(h1(req).err.value)
    requires h2(req).err.Some? && !HasStatus(h2(req).err.value)
    ensures Intercept(hasLogger, req, h1).reply == Intercept(hasLogger, req, h2).reply == Reply(Nil, Some(InternalError))
  {
  }

  /** The logger changes only the side effect, never the returned response or error. */
  lemma LoggerOnlyLogs<M>(req: Value<M>, handler: Value<M> -> Reply<M>)
    ensures Intercept(true, req, handler).reply == Intercept(false, req, handler).reply
    ensures Intercept(false, req, handler).logs == []
  {
  }

  /**
    With a logger, an unclassified error is logged exactly once, with its type name and
    its text; a status error or a success logs nothing.
   */
  lemma UnclassifiedErrorLoggedOnce<M>(req: Value<M>, handler: Value<M> -> Reply<M>)
    ensures var out := handler(req);
      Intercept(true, req, handler).logs ==
        if out.err.Some? && !HasStatus(out.err.value) then
          [LogRecord("hiding unhandled error", ["errorType", TypeName(out.err.value), "error", ErrorText(out.err.value)])]
        else []
  {
  }

  /** An error made by `FormatValidationError` is a status error and so passes through. */
  lemma FormattedValidationErrorPassesThrough<M>(hasLogger: bool, req: Value<M>, handler: Value<M> -> Reply<M>, err: Error)
    requires handler(req).err == FormatValidationError(err)
    ensures Intercept(hasLogger, req, handler).reply == Reply(Nil, FormatValidationError(err))
    ensures Intercept(hasLogger, req, handler).logs == []
  {
  }
}
