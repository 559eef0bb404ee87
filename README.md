# gRPC server boundary: bind resolution, validation and error normalisation

This project models, in Dafny, the three decision procedures at the request-processing
boundary of a Go gRPC server library:

- **Bind-string resolution** (`urlToListener`): a bind string becomes the network
  (`"unix"` or `"tcp"`) and the address handed to the OS listener, or an error. Rules in
  priority order: empty is an error; a leading `/` is a Unix socket path; a leading `:` a
  TCP address; otherwise the string is split at the first `://` and the scheme must be
  exactly `unix` or `tcp`. The address is passed through verbatim.
- **The validation interceptor** (`protovalidatemw`): options are applied to a config in
  order (`WithReply`, `WithValidator`); each call validates the request with the
  protovalidate engine, then runs the handler, then (if `WithReply` was given) validates
  the reply. A failed validation becomes a gRPC status (`InvalidArgument` for the
  request, `Internal` for the reply) whose message renders the FIRST violation's field
  path and message, and whose one detail packs the WHOLE violation list.
- **The error-normalisation interceptor** (`grpcerror`): handler errors that carry a gRPC
  status pass through; any other error is logged (when a logger is configured) and
  replaced by `{Internal, "Internal Error"}` with no details. `FormatValidationError`
  wraps an error's text in an `InvalidArgument` status.

Files (one module each): `wrappers.dfy` (Option), `gostrings.dfy` (Go's `strings.Index`,
`SplitN(…, 2)`, `Join`, and `Split` as the inverse of `Join`), `gofmt.dfy` (`%d`, `%t`,
and a decimal reader as the inverse of `%d`), `bufvalidate.dfy` (field paths, violations,
the engine's outcome), `grpcstatus.dfy` (codes, errors with and without a status),
`unarycall.dfy` (the request value and the handler's `(response, error)` pair), `grpcbind.dfy`, `protovalidatemw.dfy`,
`grpcerror.dfy`, and `pipeline.dfy` (the two interceptors chained).

Collaborators the code calls but does not define are parameters: the protovalidate
engine and the error `anypb.New` may report are the two functions of an `Engine`; the
application handler is a function from the request to a `Reply`; the logger is a flag
saying whether one is configured, and its calls are returned as `LogRecord`s. Because
the handler is a pure function here, "the handler is never invoked" is stated as "the
result is the same whatever the handler is".

Two behaviours of the code worth stating up front:

- A value that is not a proto message is rejected before the engine is consulted
  (`protovalidatemw/protovalidate.go:72-75`), and the validation interceptor returns a
  plain `fmt.Errorf` error, not a status. It becomes `Internal` only when the
  normalisation interceptor wraps the chain (`Pipeline.NotAProtoMessageBecomesInternal`).
- An engine error that is not a validation error also comes back as a plain
  "unknown error type" error (`protovalidatemw/protovalidate.go:82-85`), not a status.

## Model

| member | source | states |
|---|---|---|
| `GrpcBind.UrlToListener` | grpcbind/grpcbind.go:10-35 | The empty string, and only it, gets the empty-address error; on success the network is `"unix"` or `"tcp"` and the address is a suffix of the input (never normalised). |
| `GrpcBind.UrlToListenerSound` | grpcbind/grpcbind.go:14-33 | Every resolution follows the bind grammar: leading `/` gives `unix` with the whole input, leading `:` gives `tcp` with the whole input, otherwise `scheme://addr` split at the first `://` with scheme `unix` or `tcp`. |
| `GrpcBind.UrlToListenerComplete` | grpcbind/grpcbind.go:14-33 | Whatever the grammar assigns to a string, the resolver returns exactly that pair (priority of `/` and `:` over the scheme form included). |
| `GrpcBind.UrlToListenerRejectsExactly` | grpcbind/grpcbind.go:11-33 | The resolver fails exactly on the strings the grammar gives no meaning. |
| `GrpcBind.UrlToListenerErrors` | grpcbind/grpcbind.go:21-32 | The missing-scheme error is returned exactly when the string starts with neither `/` nor `:` and contains no `://`; an unsupported-scheme error names a scheme other than `unix`/`tcp` that the string does start with. |
| `GrpcBind.SchemeFormSplit` | grpcbind/grpcbind.go:21 | When `bind` is `scheme://addr` with no earlier `://`, the split gives exactly `[scheme, addr]`. |
| `GrpcBind.SchemeFormRoundTrip` | grpcbind/grpcbind.go:21-30 | In scheme form, network + `://` + address gives back the input. |
| `GrpcBind.FormatThenResolve` | grpcbind/grpcbind.go:21-30 | Writing `unix` or `tcp` and any address (empty, or containing `://`) in scheme form and resolving it gives back the same pair. |
| `GrpcBind.TableCasesPrefixed` | grpcbind/grpcbind_test.go:18-24 | `:8080` resolves to `tcp`/`:8080` and `/path/to/socket` to `unix` with the same path. |
| `GrpcBind.UnixAbsolutePathCase` | grpcbind/grpcbind_test.go:26-28 | `unix:///path/to/socket` resolves to `unix`/`/path/to/socket`. |
| `GrpcBind.UnixRelativePathCase` | grpcbind/grpcbind_test.go:30-32 | `unix://../relative/path/to/socket` resolves to `unix`/`../relative/path/to/socket`. |
| `GrpcBind.TcpPortCases` | grpcbind/grpcbind_test.go:34-40 | `tcp://:8080` resolves to `tcp`/`:8080` and `tcp://:0` to `tcp`/`:0`. |
| `GrpcBind.TcpHostPortCase` | grpcbind/grpcbind_test.go:42-44 | `tcp://127.0.0.1:8080` resolves to `tcp`/`127.0.0.1:8080`. |
| `GrpcBind.TableCasesRejected` | grpcbind/grpcbind_test.go:57-66 | `""`, `"foo"` and `"s3://:8080"` are rejected, with the empty-address, missing-scheme and unsupported-scheme (`s3`) errors. |
| `GoStrings.Index` | grpcbind/grpcbind.go:21 | (`strings.Index`, run inside `strings.SplitN`.) The result is the first position where the separator occurs, or -1 exactly when it occurs nowhere. |
| `GoStrings.SplitN2` | grpcbind/grpcbind.go:21-24 | One part (the input) exactly when the separator does not occur; otherwise two parts that rejoin with the separator to the input, the first containing no occurrence. |
| `GoStrings.Join` | protovalidatemw/protovalidate.go:113 | `strings.Join`: no parts give the empty string, one part gives that part, and otherwise the result starts with the first part; `GoStrings.SplitJoin` states that it can be undone. |
| `GoStrings.SplitJoin` | protovalidatemw/protovalidate.go:113 | Joining with a one-character separator that no part contains can be undone by splitting on it. |
| `GoFmt.FormatNat` | protovalidatemw/protovalidate.go:98 | `%d` of a natural number is a non-empty digit string with no leading zero. |
| `GoFmt.FormatInt` | protovalidatemw/protovalidate.go:98-106 | `%d` is non-empty and starts with `-` exactly for negative numbers. |
| `GoFmt.FormatBool` | protovalidatemw/protovalidate.go:99-100 | `%t` gives `"true"` exactly for `true` and `"false"` otherwise. |
| `GoFmt.FormatNatRoundTrip` | protovalidatemw/protovalidate.go:98 | The digits of `n` read back as `n`. |
| `GoFmt.FormatIntRoundTrip` | protovalidatemw/protovalidate.go:98-106 | `%d` of any integer reads back as that integer. |
| `ProtovalidateMw.Config.constructor` | protovalidatemw/protovalidate.go:39 | A fresh config has reply validation off and no validator. |
| `ProtovalidateMw.Config.Apply` | protovalidatemw/protovalidate.go:26-36 | `WithReply` sets the reply flag and keeps the validator; `WithValidator(v)` sets the validator to `v`, nil included, and keeps the flag. |
| `ProtovalidateMw.UnaryServerInterceptor` | protovalidatemw/protovalidate.go:38-49 | After applying the options in order, reply validation is on exactly when some option is `WithReply` (off by default), and the validator is the one the last `WithValidator` passed, or the default when that is nil or no option passes one. |
| `ProtovalidateMw.LastValidatorNone` | protovalidatemw/protovalidate.go:39-43 | With no `WithValidator` option the validator stays nil, so the default applies. |
| `ProtovalidateMw.LastValidatorWins` | protovalidatemw/protovalidate.go:32-42 | When some option is `WithValidator`, the validator in effect is exactly what the last such option passed, nil included: later options override earlier ones. |
| `ProtovalidateMw.SubscriptSuffix` | protovalidatemw/protovalidate.go:96-107 | The suffix is empty exactly when no subscript is set, and otherwise a bracketed text; `ProtovalidateMw.SubscriptRendering` states which text. |
| `ProtovalidateMw.RenderElementShape` | protovalidatemw/protovalidate.go:95-107 | A rendered segment (`RenderElement`) starts with the field name and equals it exactly when no subscript is set. |
| `ProtovalidateMw.RenderPath` | protovalidatemw/protovalidate.go:93-109 | One rendered segment per path element, in order, each the field name followed by its subscript. |
| `ProtovalidateMw.BuildFieldPath` | protovalidatemw/protovalidate.go:93-109 | The loop appending one segment per element produces exactly the rendered path. |
| `ProtovalidateMw.SubscriptRendering` | protovalidatemw/protovalidate.go:96-107 | The suffix is empty exactly when no subscript is set; an index, int key or uint key reads back from its `%d` text, a bool key renders as `true`/`false` by its value, and a string key verbatim. |
| `ProtovalidateMw.FieldPathSplitsBack` | protovalidatemw/protovalidate.go:113 | The dotted path splits back into one segment per element whenever no segment contains a dot itself. |
| `ProtovalidateMw.StringVal` | protovalidatemw/protovalidate.go:119-124 | A nil message reads as the empty string, a set one as its text; `ProtovalidateMw.NilMessageRendersEmpty` states what that does to the status message. |
| `ProtovalidateMw.ViolationMessage` | protovalidatemw/protovalidate.go:113 | The status message starts with `invalid <part>: ` and ends with the violation's own message; `ProtovalidateMw.ValidationFailureStatus` and `ProtovalidateMw.MessageUsesFirstViolationOnly` state its use. |
| `ProtovalidateMw.ValidationStatus` | protovalidatemw/protovalidate.go:70-117 | A non-proto value gives the plain "not a proto message" error; for a non-OK code the result is nil exactly when the value is a proto message the engine accepts; an engine error of another type gives exactly the plain "unknown error type" error naming that type; a violation list whose packing fails gives that packing error unchanged, and one that packs gives the status built from the first violation with the whole list as detail. |
| `ProtovalidateMw.RunValidate` | protovalidatemw/protovalidate.go:70-117 | `runValidate`, with its field-path loop, returns exactly the error `ValidationStatus` specifies. |
| `ProtovalidateMw.ValidationFailureStatus` | protovalidatemw/protovalidate.go:87-116 | Violations become a status with the caller's code, message `invalid <part>: <path>: <message>` of the first violation, and exactly one detail holding all violations. |
| `ProtovalidateMw.MessageUsesFirstViolationOnly` | protovalidatemw/protovalidate.go:92 | Two violation lists with the same first violation give the same status message. |
| `ProtovalidateMw.NilMessageRendersEmpty` | protovalidatemw/protovalidate.go:119-124 | A violation with a nil message renders as nothing after the path's `: `. |
| `ProtovalidateMw.NotAProtoMessageFirst` | protovalidatemw/protovalidate.go:72-75 | A non-proto value fails with a plain (non-status) error whatever the engine would say, so the engine is not consulted. |
| `ProtovalidateMw.Intercept` | protovalidatemw/protovalidate.go:50-67 | Every failed call returns a nil response. |
| `ProtovalidateMw.RejectedRequestSkipsHandler` | protovalidatemw/protovalidate.go:51-53 | A request that fails validation returns that error with a nil response, and the result is the same whatever the handler is. |
| `ProtovalidateMw.HandlerErrorPassesThrough` | protovalidatemw/protovalidate.go:55-58 | A handler error is returned unchanged with a nil response, and the reply flag makes no difference (reply validation is not run). |
| `ProtovalidateMw.InvalidReplyDiscarded` | protovalidatemw/protovalidate.go:60-64 | With reply validation on, a reply that fails validation is dropped and only its error is returned. |
| `ProtovalidateMw.ReplyViolationsAreInternal` | protovalidatemw/protovalidate.go:60-64 | Violations in the reply give an `Internal` status whose message starts `invalid reply:` and whose detail holds all violations. |
| `ProtovalidateMw.InterceptSucceedsExactly` | protovalidatemw/protovalidate.go:50-67 | A call succeeds exactly when the request validates, the handler succeeds and, if enabled, the reply validates; the handler's response is then returned unchanged. |
| `GrpcStatus.NewStatusErr` | protovalidatemw/protovalidate.go:111-116 | `status.FromProto(...).Err()` and `status.Error`: nil exactly for code `OK`, otherwise a status error carrying the code, message and details given. |
| `GrpcError.FormatValidationError` | grpcerror/grpcerror.go:20-22 | The result is a status error with code `InvalidArgument`, the input's `Error()` text as message, and no details. |
| `GrpcError.Intercept` | grpcerror/grpcerror.go:30-46 | A returned error always carries a status and comes with a nil response; success passes the response through; a status error passes unchanged; any other error becomes `{Internal, "Internal Error"}`; at most one log call, and only with a logger. |
| `GrpcError.PlainErrorsIndistinguishable` | grpcerror/grpcerror.go:35-40 | Two handlers failing with plain errors of any type and text produce the same reply: no plain error text reaches the caller. |
| `GrpcError.LoggerOnlyLogs` | grpcerror/grpcerror.go:37-40 | The reply is the same with and without a logger; without one nothing is logged. |
| `GrpcError.UnclassifiedErrorLoggedOnce` | grpcerror/grpcerror.go:37-39 | With a logger, an error without a status is logged exactly once as `"hiding unhandled error"` with `errorType` and `error` fields; anything else logs nothing. |
| `GrpcError.FormattedValidationErrorPassesThrough` | grpcerror/grpcerror.go:20-22 | An error made by `FormatValidationError` passes the interceptor unchanged and unlogged. |
| `Pipeline.InvalidRequestReachesCaller` | protovalidatemw/protovalidate.go:51-53 | With normalisation wrapped around validation, a request with violations reaches the caller as the `InvalidArgument` validation status, unchanged and unlogged, because the normalisation interceptor passes errors carrying a status through (grpcerror/grpcerror.go:33-42). |
| `Pipeline.NotAProtoMessageBecomesInternal` | protovalidatemw/protovalidate.go:72-75 | With normalisation wrapped around validation, a non-proto request reaches the caller as `{Internal, "Internal Error"}`, and the logger receives the plain "not a proto message" error, because the normalisation interceptor replaces errors without a status (grpcerror/grpcerror.go:33-42). |

## Left out

- `Listen`, `Serve`, `ListenAndServe` (grpcbind/grpcbind.go:37-71): OS socket binding, the goroutine waiting for cancellation and the blocking serve loop are I/O and concurrency.
- The version interceptor (versionmw/version.go): a header call whose error is ignored, then plain delegation.
- The protovalidate engine, `anypb.New` marshalling and `status.FromProto` internals: the engine is an oracle, a marshalling failure is an arbitrary error the oracle may report, and the detail is a value holding the violation list.
- Building the default validator and its `panic` (protovalidatemw/protovalidate.go:43-49): the default validator is a parameter; the constructor's failure is not modelled.
- `fmt.Printf("THROW(a): …")` (grpcerror/grpcerror.go:36): standard output.
- Contexts, `grpc.UnaryServerInfo` and metadata: unused by the modelled logic.
- `status.FromError` recognises any error with a `GRPCStatus()` method; the model tags such errors by constructor.
- Error texts of the bind errors: each error constructor carries the value the source quotes with `%q`; Go's `%q` escaping is not modelled.
- `GoStrings.SplitN2`: models `strings.SplitN(s, sep, 2)` only for a non-empty separator, the one the source passes.
- `ProtovalidateMw.RunValidate`: a first violation without a field path (nil `Field`) or without its proto would make the source panic dereferencing `first.Proto.Field.Elements` (protovalidatemw/protovalidate.go:93-94); the model's violation always has a (possibly empty) element list, so that panic is not represented.
- A `ValidationError` with an empty violation list is excluded by its type; the source would panic on `Violations[0]`, but the engine never reports one.
- Field-path integer widths are bounded by `uint64`/`int64` subset types; nothing in the rendering depends on the bound.
- The handler and the engine are pure functions: side effects of the handler and concurrent calls sharing one config are not modelled; the config is read-only after construction, so the interceptor captures its two fields as a value.
