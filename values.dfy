/**
 * The values the encoder is given, in place of Go's reflection: the handful of
 * exact types the dispatcher switches on, and every other type described by
 * the results of its methods and by its reflect kind. Errors are data too.
 */
module Values {
  import opened Wrappers

  /** Why the Go code would panic instead of returning an error. */
  datatype PanicSite =
    | NilPointerElem      // reflect.Value.CanInterface on the Elem of a nil pointer
    | ZeroOfNilInterface  // reflect.Value.IsZero on reflect.ValueOf(nil), under omitempty

  datatype Error =
    | UnsupportedType                                   // "unsupported type(s)"
    | Foreign(message: string)                          // returned by a value's own MarshalArgs or MarshalText
    | FieldError(fieldName: string, fieldNum: nat, err: Error)  // MarshalStructFieldError
    | Panic(site: PanicSite)                            // a run-time panic, which unwinds past every caller

  /**
   * The results of the methods a non-builtin type has, None for a method it
   * does not have: MarshalArgs (ArgsMarshaler, also when promoted from an
   * embedded ArgsMarshalerFunc), MarshalText (encoding.TextMarshaler), String
   * (fmt.Stringer), IsEmpty and IsZero.
   */
  datatype Methods = Methods(
    marshalArgs: Option<Result<seq<string>, Error>>,
    marshalText: Option<Result<string, Error>>,
    toString: Option<string>,
    isEmpty: Option<bool>,
    isZero: Option<bool>)

  const NoMethods := Methods(None, None, None, None, None)

  /** The reflect kind of a non-builtin type, with what the encoder looks at. */
  datatype Kind =
    | StructKind(fields: seq<Field>)       // fields in declaration order
    | PointerKind(target: Option<Value>)  // None for a nil pointer
    | OtherKind(isZero: bool)             // maps, numbers, funcs, named strings, ...: only their zero-ness matters

  /**
   * A struct field: its name, whether it is exported (CanInterface), its `comm`
   * tag ("" when absent), whether it is declared with an interface type, and
   * the value it holds.
   */
  datatype Field = Field(name: string, exported: bool, tag: string, iface: bool, value: Value)

  datatype Value =
    | Nil                                         // an interface holding nothing
    | Str(s: string)                              // string
    | StrPtr(sp: Option<string>)                  // *string
    | Bool(b: bool)                               // bool
    | BoolPtr(bp: Option<bool>)                   // *bool
    | Strs(ss: Option<seq<string>>)               // []string, None for a nil slice
    | StrPtrs(ps: Option<seq<Option<string>>>)    // []*string, None for a nil slice
    | Typed(methods: Methods, kind: Kind)         // a value of any other type

  /**
   * reflect.Value.IsZero: the value equals its type's zero value. A struct is
   * zero when each of its fields is; a field declared with an interface type
   * is zero only when it holds nothing. A slice is zero only when it is nil,
   * so a non-nil empty slice is not zero.
   */
  predicate IsZeroValue(v: Value) {
    match v
    case Nil => true
    case Str(s) => s == ""
    case StrPtr(p) => p == None
    case Bool(b) => !b
    case BoolPtr(p) => p == None
    case Strs(ss) => ss == None
    case StrPtrs(ps) => ps == None
    case Typed(_, kind) =>
      match kind
      case StructKind(fields) =>
        forall i :: 0 <= i < |fields| ==>
          if fields[i].iface then fields[i].value == Nil else IsZeroValue(fields[i].value)
      case PointerKind(target) => target == None
      case OtherKind(isZero) => isZero
  }

  /**
   * The omitempty check through methods: IsEmpty when the type has it, else
   * IsZero when it has that; the builtin types have neither.
   */
  predicate MethodSaysEmpty(v: Value) {
    v.Typed? &&
    match v.methods.isEmpty
    case Some(empty) => empty
    case None => v.methods.isZero == Some(true)
  }

  /** newMarshalArgFieldError: the error of field `fieldNum`, named `name`, caused by `cause`. */
  function NewFieldError(name: string, fieldNum: nat, cause: Error): (e: Error)
    ensures Unwrap(e) == Some(cause)
    ensures e.fieldName == name && e.fieldNum == fieldNum
  {
    FieldError(name, fieldNum, cause)
  }

  /** MarshalStructFieldError.Unwrap: the cause of a field error; other errors wrap nothing. */
  function Unwrap(e: Error): Option<Error> {
    match e
    case FieldError(_, _, cause) => Some(cause)
    case _ => None
  }

  /**
   * Unwrap and newMarshalArgFieldError are inverse: exactly the field errors
   * unwrap, and each is rebuilt from its name, number and cause.
   */
  lemma FieldErrorRoundTrip(e: Error)
    ensures Unwrap(e).Some? <==> e.FieldError?
    ensures e.FieldError? ==> NewFieldError(e.fieldName, e.fieldNum, Unwrap(e).value) == e
  {
  }

  /**
   * What a failure of field `fieldNum` becomes in the struct walk: a field
   * error wrapping it, unless it is a panic, which no caller sees as an error.
   */
  function FieldFailure(name: string, fieldNum: nat, cause: Error): (e: Error)
    ensures cause.Panic? ==> e == cause
    ensures !cause.Panic? ==> e.FieldError? && e.fieldName == name && e.fieldNum == fieldNum && Unwrap(e) == Some(cause)
  {
    if cause.Panic? then cause else NewFieldError(name, fieldNum, cause)
  }
}
