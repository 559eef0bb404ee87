/**
  The shapes the protovalidate engine hands back: the `buf.validate` field path of a
  violation and the outcome of one `Validate` call. The engine itself is an oracle
  passed in by the caller.
 */
module BufValidate {
  import opened Wrappers

  type uint64 = x: int | 0 <= x < 0x1_0000_0000_0000_0000
  type int64 = x: int | -0x8000_0000_0000_0000 <= x < 0x8000_0000_0000_0000

  /** The one-of `subscript` of a `FieldPathElement`; `NoSubscript` when it is unset. */
  datatype Subscript =
    | NoSubscript
    | Index(index: uint64)
    | BoolKey(boolKey: bool)
    | IntKey(intKey: int64)
    | UintKey(uintKey: uint64)
    | StringKey(stringKey: string)

  datatype FieldPathElement = FieldPathElement(fieldName: string, subscript: Subscript)

  /** One violation: the path of the offending field and an optional message. */
  datatype Violation = Violation(elements: seq<FieldPathElement>, message: Option<string>)

  /** A `ValidationError` always reports at least one violation. */
  type Violations = vs: seq<Violation> | |vs| > 0 witness [Violation([], None)]

  /**
    What `Validate` returns: nil, a `*protovalidate.ValidationError`, or an error of
    some other dynamic type (named by its Go type name).
   */
  datatype ValidateOutcome =
    | Valid
    | ValidationError(violations: Violations)
    | OtherError(typeName: string)
}
