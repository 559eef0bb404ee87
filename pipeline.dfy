/**
  The two interceptors composed as a server chains them: error normalisation wrapped
  around validation, which wraps the application handler.
 */
module Pipeline {
  import opened Wrappers
  import opened BufValidate
  import opened GrpcStatus
  import opened UnaryCall
  import ProtovalidateMw
  import GrpcError

  /**
    A server configured with the normalisation interceptor outside the validation
    interceptor (the order a server lists them in; neither package chains them itself):
    the handler the normalisation interceptor sees is the validation interceptor
    wrapped around the application handler.
   */
  function Chain<V, M>(hasLogger: bool, ic: ProtovalidateMw.Interceptor<V>, eng: ProtovalidateMw.Engine<V, M>,
                       req: Value<M>, handler: Value<M> -> Reply<M>): GrpcError.Outcome<M>
  {
    GrpcError.Intercept(hasLogger, req, (r: Value<M>) => ProtovalidateMw.Intercept(ic, eng, r, handler))
  }

  /**
    A request with violations reaches the caller as the `InvalidArgument` status built
    by validation, untouched by normalisation and not logged.
   */
  lemma InvalidRequestReachesCaller<V, M>(hasLogger: bool, ic: ProtovalidateMw.Interceptor<V>,
                                          eng: ProtovalidateMw.Engine<V, M>, m: M, handler: Value<M> -> Reply<M>)
    requires eng.validate(ic.validator, m).ValidationError?
    requires eng.packError(eng.validate(ic.validator, m).violations).None?
    ensures var vs := eng.validate(ic.validator, m).violations;
      Chain(hasLogger, ic, eng, Proto(m), handler) == GrpcError.Outcome(
        Reply(Nil, Some(StatusErr(InvalidArgument, ProtovalidateMw.ViolationMessage("request", vs[0]), [ViolationsDetail(vs)]))),
        [])
  {
    ProtovalidateMw.ValidationFailureStatus(eng, ic.validator, m, "request", InvalidArgument);
  }

  /**
    A value that is not a proto message is a wiring error: the caller sees only the
    generic `Internal` status, and the logger gets the plain error.
   */
  lemma NotAProtoMessageBecomesInternal<V, M>(hasLogger: bool, ic: ProtovalidateMw.Interceptor<V>,
                                              eng: ProtovalidateMw.Engine<V, M>, req: Value<M>, handler: Value<M> -> Reply<M>)
    requires !req.Proto?
    ensures Chain(hasLogger, ic, eng, req, handler).reply == Reply(Nil, Some(GrpcError.InternalError))
    ensures Chain(hasLogger, ic, eng, req, handler).logs ==
      if hasLogger then [GrpcError.LogRecord("hiding unhandled error",
                           ["errorType", "*errors.errorString", "error", "not a proto message"])]
      else []
  {
  }
}
