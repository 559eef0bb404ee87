/**
  The validation interceptor: validates the request with protovalidate before the
  handler runs and, when configured, the reply after it; turns the first violation of
  a failed validation into an `InvalidArgument` (request) or `Internal` (reply) status
  that also carries the whole violation list as a detail.
 */
module ProtovalidateMw {
  import opened Wrappers
  import opened GoStrings
  import opened GoFmt
  import opened BufValidate
  import opened GrpcStatus
  import opened UnaryCall

  // ---------------------------------------------------------------------------
  // Configuration
  // ---------------------------------------------------------------------------

  /** An `Option`: `WithReply()` or `WithValidator(v)`, where `v` may be nil (`None`). */
  datatype Opt<V> = WithReply | WithValidator(validator: Option<V>)

  /** The `config` struct the options mutate; a nil validator is `None`. */
  class Config<V> {
    var reply: bool
    var validator: Option<V>

    constructor ()
      ensures !reply && validator == None
    {
      reply := false;
      validator := None;
    }

    /** `opt(cfg)`. */
    method Apply(opt: Opt<V>)
      modifies this
      ensures reply == (old(reply) || opt.WithReply?)
      ensures validator == if opt.WithValidator? then opt.validator else old(validator)
    {
      match opt
      case WithReply => reply := true;
      case WithValidator(v) => validator := v;
    }
  }

  /** The validator (possibly nil) the last `WithValidator` option passes; nil when none does. */
  function LastValidator<V>(opts: seq<Opt<V>>): Option<V>
  {
    if |opts| == 0 then None
    else if opts[|opts| - 1].WithValidator? then opts[|opts| - 1].validator
    else LastValidator(opts[..|opts| - 1])
  }

  /** With no `WithValidator` option the validator stays nil. */
  lemma {:induction false} LastValidatorNone<V>(opts: seq<Opt<V>>)
    requires forall i :: 0 <= i < |opts| ==> !opts[i].WithValidator?
    ensures LastValidator(opts) == None
  {
    if |opts| > 0 {
      var init := opts[..|opts| - 1];
      assert forall i :: 0 <= i < |init| ==> init[i] == opts[i];
      LastValidatorNone(init);
    }
  }

  /**
    Otherwise the validator in effect is exactly what the last `WithValidator` option
    passed, nil included: later options override earlier ones.
   */
  lemma {:induction false} LastValidatorWins<V>(opts: seq<Opt<V>>, k: nat)
    requires k < |opts| && opts[k].WithValidator?
    ensures exists i :: (0 <= i < |opts| && opts[i] == WithValidator(LastValidator(opts))
                         && forall j :: i < j < |opts| ==> !opts[j].WithValidator?)
  {
    var n := |opts| - 1;
    if opts[n].WithValidator? {
      assert opts[n] == WithValidator(LastValidator(opts));
    } else {
      var init := opts[..n];
      assert init[k] == opts[k];
      LastValidatorWins(init, k);
      var i :| (0 <= i < |init| && init[i] == WithValidator(LastValidator(init))
                && forall j :: i < j < |init| ==> !init[j].WithValidator?);
      assert opts[i] == init[i];
      forall j | i < j < |opts| ensures !opts[j].WithValidator? {
        if j < n {
          assert opts[j] == init[j];
        }
      }
    }
  }

  /**
    The interceptor closure with the configuration it captured: the reply flag and the
    validator in effect (the default validator when no option named one).
   */
  datatype Interceptor<V> = Interceptor(reply: bool, validator: V)

  /**
    `UnaryServerInterceptor(opts...)`: applies the options in order to a zeroed
    config, then falls back to the default validator.
   */
  method UnaryServerInterceptor<V>(opts: seq<Opt<V>>, defaultValidator: V) returns (ic: Interceptor<V>)
    ensures ic.reply <==> exists i :: 0 <= i < |opts| && opts[i].WithReply?
    ensures ic.validator == match LastValidator(opts) case Some(v) => v case None => defaultValidator
  {
    var cfg := new Config<V>();
    for k := 0 to |opts|
      invariant cfg.reply <==> exists i :: 0 <= i < k && opts[i].WithReply?
      invariant cfg.validator == LastValidator(opts[..k])
    {
      assert opts[..k + 1][..k] == opts[..k];
      cfg.Apply(opts[k]);
    }
    assert opts[..|opts|] == opts;
    var v := if cfg.validator.Some? then cfg.validator.value else defaultValidator;
    ic := Interceptor(cfg.reply, v);
  }

  // ---------------------------------------------------------------------------
  // Field-path rendering
  // ---------------------------------------------------------------------------

  /** The bracketed subscript appended to a field name, chosen by the one-of kind. */
  function SubscriptSuffix(s: Subscript): (r: string)
    ensures r == "" <==> s.NoSubscript?
    ensures r != "" ==> |r| >= 2 && r[0] == '[' && r[|r| - 1] == ']'
  {
    match s
    case NoSubscript => ""
    case Index(i) => "[" + FormatInt(i) + "]"
    case BoolKey(b) => "[" + FormatBool(b) + "]"
    case StringKey(k) => "[" + k + "]"
    case IntKey(i) => "[" + FormatInt(i) + "]"
    case UintKey(u) => "[" + FormatInt(u) + "]"
  }

  /** A path segment: the field name, then its subscript if one is set. */
  function RenderElement(e: FieldPathElement): string
  {
    e.fieldName + SubscriptSuffix(e.subscript)
  }

  /** A segment starts with the field name and is exactly the field name when no subscript is set. */
  lemma RenderElementShape(e: FieldPathElement)
    ensures e.fieldName <= RenderElement(e)
    ensures e.subscript.NoSubscript? <==> RenderElement(e) == e.fieldName
  {
    if !e.subscript.NoSubscript? {
      assert |RenderElement(e)| > |e.fieldName|;
    }
  }

  /** One rendered segment per path element, in order. */
  function RenderPath(elements: seq<FieldPathElement>): (path: seq<string>)
    ensures |path| == |elements|
    ensures forall i :: 0 <= i < |elements| ==> path[i] == RenderElement(elements[i])
  {
    if |elements| == 0 then []
    else
      var init := elements[..|elements| - 1];
      assert forall i :: 0 <= i < |init| ==> init[i] == elements[i];
      RenderPath(init) + [RenderElement(elements[|elements| - 1])]
  }

  /** The text between the brackets of a non-empty subscript. */
  function SubscriptText(s: Subscript): (t: string)
    requires !s.NoSubscript?
    ensures SubscriptSuffix(s) == "[" + t + "]"
  {
    var suffix := SubscriptSuffix(s);
    suffix[1..|suffix| - 1]
  }

  /**
    A subscript renders as nothing exactly when it is unset; otherwise as one bracketed
    text from which its value can be read back: the number for an index or an integer
    key, `true`/`false` for a boolean key, the key itself for a string key.
   */
  lemma SubscriptRendering(s: Subscript)
    ensures SubscriptSuffix(s) == "" <==> s.NoSubscript?
    ensures s.Index? ==> ParseDecimal(SubscriptText(s)) == s.index
    ensures s.IntKey? ==> ParseDecimal(SubscriptText(s)) == s.intKey
    ensures s.UintKey? ==> ParseDecimal(SubscriptText(s)) == s.uintKey
    ensures s.BoolKey? ==> (SubscriptText(s) == "true" <==> s.boolKey)
    ensures s.BoolKey? ==> (SubscriptText(s) == "false" <==> !s.boolKey)
    ensures s.StringKey? ==> SubscriptText(s) == s.stringKey
  {
    match s
    case NoSubscript =>
    case Index(i) =>
      FormatIntRoundTrip(i);
      assert SubscriptText(s) == FormatInt(i);
    case IntKey(i) =>
      FormatIntRoundTrip(i);
      assert SubscriptText(s) == FormatInt(i);
    case UintKey(u) =>
      FormatIntRoundTrip(u);
      assert SubscriptText(s) == FormatInt(u);
    case BoolKey(b) =>
      assert SubscriptText(s) == FormatBool(b);
    case StringKey(k) =>
      assert SubscriptText(s) == k;
  }

  lemma RenderPathAppend(elements: seq<FieldPathElement>, k: nat)
    requires k < |elements|
    ensures RenderPath(elements[..k + 1]) == RenderPath(elements[..k]) + [RenderElement(elements[k])]
  {
    assert elements[..k + 1][..k] == elements[..k];
  }

  /** The `for` loop over the first violation's path elements, appending to `fieldPath`. */
  method BuildFieldPath(elements: seq<FieldPathElement>) returns (fieldPath: seq<string>)
    ensures fieldPath == RenderPath(elements)
  {
    fieldPath := [];
    for k := 0 to |elements|
      invariant fieldPath == RenderPath(elements[..k])
    {
      var field := elements[k];
      var fieldName := field.fieldName;
      match field.subscript {
        case NoSubscript =>
        case Index(i) => fieldName := fieldName + ("[" + FormatInt(i) + "]");
        case BoolKey(b) => fieldName := fieldName + ("[" + FormatBool(b) + "]");
        case StringKey(key) => fieldName := fieldName + ("[" + key + "]");
        case IntKey(i) => fieldName := fieldName + ("[" + FormatInt(i) + "]");
        case UintKey(u) => fieldName := fieldName + ("[" + FormatInt(u) + "]");
      }
      assert fieldName == RenderElement(field);
      RenderPathAppend(elements, k);
      fieldPath := fieldPath + [fieldName];
    }
    assert elements[..|elements|] == elements;
  }

  /**
    The dotted path in a status message splits back into one segment per path element
    whenever no rendered segment contains a dot itself (a string key may).
   */
  lemma FieldPathSplitsBack(elements: seq<FieldPathElement>)
    requires |elements| > 0
    requires forall i :: 0 <= i < |elements| ==> '.' !in RenderElement(elements[i])
    ensures Split(Join(RenderPath(elements), "."), ".") == RenderPath(elements)
  {
    SplitJoin(RenderPath(elements), '.');
  }

  // ---------------------------------------------------------------------------
  // runValidate
  // ---------------------------------------------------------------------------

  /** `stringVal`: a nil message pointer reads as the empty string. */
  function StringVal(v: Option<string>): (s: string)
    ensures v.None? ==> s == ""
    ensures v.Some? ==> s == v.value
  {
    match v
    case None => ""
    case Some(s) => s
  }

  /**
    The status message built from one violation: it names the validated part first and
    ends with the violation's own message.
   */
  function ViolationMessage(part: string, first: Violation): (r: string)
    ensures "invalid " + part + ": " <= r
    ensures |r| >= |StringVal(first.message)|
    ensures r[|r| - |StringVal(first.message)|..] == StringVal(first.message)
  {
    "invalid " + part + ": " + Join(RenderPath(first.elements), ".") + ": " + StringVal(first.message)
  }

  /**
    The collaborators `runValidate` calls: the protovalidate engine's `Validate`, and
    the error (if any) that `anypb.New` reports when packing the violation list.
   */
  datatype Engine<!V, !M> = Engine(
    validate: (V, M) -> ValidateOutcome,
    packError: seq<Violation> -> Option<Error>)

  const NotAProtoMessage: Error := PlainErr(ErrorStringType, "not a proto message")

  /** What `runValidate(v, msg, part, code)` returns; `None` is a nil error. */
  function ValidationStatus<V, M>(eng: Engine<V, M>, v: V, msg: Value<M>, part: string, code: Code): (r: Option<Error>)
    ensures !msg.Proto? ==> r == Some(NotAProtoMessage)
    ensures code != OK ==> (r.None? <==> msg.Proto? && eng.validate(v, msg.msg).Valid?)
    ensures msg.Proto? && eng.validate(v, msg.msg).OtherError? ==>
      r == Some(PlainErr(ErrorStringType, "unknown error type " + eng.validate(v, msg.msg).typeName))
    ensures msg.Proto? && eng.validate(v, msg.msg).ValidationError? ==>
      (var vs := eng.validate(v, msg.msg).violations;
       if eng.packError(vs).Some? then r == eng.packError(vs)
       else r == NewStatusErr(code, ViolationMessage(part, vs[0]), [ViolationsDetail(vs)]))
  {
    match msg
    case Proto(m) =>
      (match eng.validate(v, m)
       case Valid => None
       case OtherError(t) => Some(PlainErr(ErrorStringType, "unknown error type " + t))
       case ValidationError(vs) =>
         match eng.packError(vs)
         case Some(e) => Some(e)
         case None => NewStatusErr(code, ViolationMessage(part, vs[0]), [ViolationsDetail(vs)]))
    case NonProto(_) => Some(NotAProtoMessage)
    case Nil => Some(NotAProtoMessage)
  }

  /** `runValidate`, building the field path with the loop of `BuildFieldPath`. */
  method RunValidate<V, M>(eng: Engine<V, M>, v: V, msg: Value<M>, part: string, code: Code)
    returns (err: Option<Error>)
    ensures err == ValidationStatus(eng, v, msg, part, code)
  {
    if !msg.Proto? {
      return Some(NotAProtoMessage);
    }
    var outcome := eng.validate(v, msg.msg);
    match outcome {
      case Valid =>
        return None;
      case OtherError(t) =>
        return Some(PlainErr(ErrorStringType, "unknown error type " + t));
      case ValidationError(vs) =>
        var packErr := eng.packError(vs);
        if packErr.Some? {
          return packErr;
        }
        var first := vs[0];
        var fieldPath := BuildFieldPath(first.elements);
        var message := "invalid " + part + ": " + Join(fieldPath, ".") + ": " + StringVal(first.message);
        return NewStatusErr(code, message, [ViolationsDetail(vs)]);
    }
  }

  /**
    A validation failure becomes a status with the caller's code whose message
    summarises the FIRST violation only and whose single detail carries ALL of them.
   */
  lemma ValidationFailureStatus<V, M>(eng: Engine<V, M>, v: V, m: M, part: string, code: Code)
    requires eng.validate(v, m).ValidationError? && eng.packError(eng.validate(v, m).violations).None?
    requires code != OK
    ensures var vs := eng.validate(v, m).violations;
      ValidationStatus(eng, v, Proto(m), part, code)
        == Some(StatusErr(code, ViolationMessage(part, vs[0]), [ViolationsDetail(vs)]))
  {
  }

  /** The message depends on the first violation alone: the rest never change it. */
  lemma MessageUsesFirstViolationOnly<V, M>(eng1: Engine<V, M>, eng2: Engine<V, M>, v: V, m: M, part: string, code: Code)
    requires eng1.validate(v, m).ValidationError? && eng2.validate(v, m).ValidationError?
    requires eng1.validate(v, m).violations[0] == eng2.validate(v, m).violations[0]
    requires eng1.packError(eng1.validate(v, m).violations).None?
    requires eng2.packError(eng2.validate(v, m).violations).None?
    requires code != OK
    ensures ValidationStatus(eng1, v, Proto(m), part, code).value.message
         == ValidationStatus(eng2, v, Proto(m), part, code).value.message
  {
  }

  /** A nil violation message renders as the empty string after the path. */
  lemma NilMessageRendersEmpty(part: string, elements: seq<FieldPathElement>)
    ensures ViolationMessage(part, Violation(elements, None))
         == "invalid " + part + ": " + Join(RenderPath(elements), ".") + ": "
  {
  }

  /**
    A value that is not a proto message fails with a plain error before the engine is
    consulted: whatever the engine would say, the answer is the same.
   */
  lemma NotAProtoMessageFirst<V, M>(eng1: Engine<V, M>, eng2: Engine<V, M>, v: V, msg: Value<M>, part: string, code: Code)
    requires !msg.Proto?
    ensures ValidationStatus(eng1, v, msg, part, code) == ValidationStatus(eng2, v, msg, part, code)
    ensures !HasStatus(ValidationStatus(eng1, v, msg, part, code).value)
  {
  }

  // ---------------------------------------------------------------------------
  // The interceptor
  // ---------------------------------------------------------------------------

  /** The interceptor closure applied to one call. */
  function Intercept<V, M>(ic: Interceptor<V>, eng: Engine<V, M>, req: Value<M>, handler: Value<M> -> Reply<M>): (r: Reply<M>)
    ensures r.err.Some? ==> r.res == Nil
  {
    match ValidationStatus(eng, ic.validator, req, "request", InvalidArgument)
    case Some(e) => Reply(Nil, Some(e))
    case None =>
      var out := handler(req);
      if out.err.Some? then Reply(Nil, out.err)
      else if !ic.reply then Reply(out.res, None)
      else
        match ValidationStatus(eng, ic.validator, out.res, "reply", Internal)
        case Some(e) => Reply(Nil, Some(e))
        case None => Reply(out.res, None)
  }

  /**
    A request that fails validation never reaches the handler: the result is the
    validation error with a nil response, whatever the handler would have done.
   */
  lemma RejectedRequestSkipsHandler<V, M>(ic: Interceptor<V>, eng: Engine<V, M>, req: Value<M>,
                                         h1: Value<M> -> Reply<M>, h2: Value<M> -> Reply<M>)
    requires ValidationStatus(eng, ic.validator, req, "request", InvalidArgument).Some?
    ensures Intercept(ic, eng, req, h1) == Reply(Nil, ValidationStatus(eng, ic.validator, req, "request", InvalidArgument))
    ensures Intercept(ic, eng, req, h1) == Intercept(ic, eng, req, h2)
  {
  }

  /**
    A handler error is returned unchanged with a nil response, and reply validation is
    not run: the reply flag makes no difference.
   */
  lemma HandlerErrorPassesThrough<V, M>(ic: Interceptor<V>, eng: Engine<V, M>, req: Value<M>, handler: Value<M> -> Reply<M>)
    requires ValidationStatus(eng, ic.validator, req, "request", InvalidArgument).None?
    requires handler(req).err.Some?
    ensures Intercept(ic, eng, req, handler) == Reply(Nil, handler(req).err)
    ensures Intercept(ic.(reply := !ic.reply), eng, req, handler) == Intercept(ic, eng, req, handler)
  {
  }

  /**
    With reply validation on, a reply that fails validation is discarded and the
    caller sees only the reply's validation error.
   */
  lemma InvalidReplyDiscarded<V, M>(ic: Interceptor<V>, eng: Engine<V, M>, req: Value<M>, handler: Value<M> -> Reply<M>)
    requires ic.reply
    requires ValidationStatus(eng, ic.validator, req, "request", InvalidArgument).None?
    requires handler(req).err.None?
    requires ValidationStatus(eng, ic.validator, handler(req).res, "reply", Internal).Some?
    ensures Intercept(ic, eng, req, handler) == Reply(Nil, ValidationStatus(eng, ic.validator, handler(req).res, "reply", Internal))
  {
  }

  /** Violations in a reply become an `Internal` status whose message names the reply. */
  lemma ReplyViolationsAreInternal<V, M>(ic: Interceptor<V>, eng: Engine<V, M>, req: Value<M>, handler: Value<M> -> Reply<M>, m: M)
    requires ic.reply
    requires ValidationStatus(eng, ic.validator, req, "request", InvalidArgument).None?
    requires handler(req) == Reply(Proto(m), None)
    requires eng.validate(ic.validator, m).ValidationError?
    requires eng.packError(eng.validate(ic.validator, m).violations).None?
    ensures var vs := eng.validate(ic.validator, m).violations;
      Intercept(ic, eng, req, handler)
        == Reply(Nil, Some(StatusErr(Internal, ViolationMessage("reply", vs[0]), [ViolationsDetail(vs)])))
  {
    ValidationFailureStatus(eng, ic.validator, m, "reply", Internal);
  }

  /**
    A call succeeds exactly when the request validates, the handler succeeds and (if
    enabled) the reply validates; the handler's response is then returned unchanged.
   */
  lemma InterceptSucceedsExactly<V, M>(ic: Interceptor<V>, eng: Engine<V, M>, req: Value<M>, handler: Value<M> -> Reply<M>)
    ensures Intercept(ic, eng, req, handler).err.None? <==>
      ValidationStatus(eng, ic.validator, req, "request", InvalidArgument).None?
      && handler(req).err.None?
      && (ic.reply ==> ValidationStatus(eng, ic.validator, handler(req).res, "reply", Internal).None?)
    ensures Intercept(ic, eng, req, handler).err.None? ==> Intercept(ic, eng, req, handler).res == handler(req).res
  {
  }
}
