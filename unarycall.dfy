/** What a unary call passes through an interceptor chain: the request and the reply pair. */
module UnaryCall {
  import opened Wrappers
  import opened GrpcStatus

  /**
    A value travelling through an interceptor as `interface{}`: a proto message, a
    value of some other Go type, or nil.
   */
  datatype Value<M> = Proto(msg: M) | NonProto(goType: string) | Nil

  /** The `(interface{}, error)` pair a unary handler or interceptor returns. */
  datatype Reply<M> = Reply(res: Value<M>, err: Option<Error>)
}
