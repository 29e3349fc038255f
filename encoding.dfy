/**
 * The reference definition of the encoder: for every value, the arguments it
 * becomes or the error it fails with. One function per routine of marshal.go
 * (marshalArgs, marshalStructFields, marshalSpec, fieldSpec.Marshal and
 * fieldSpec.marshalArgs), mutually recursive over the structure of the value.
 * The methods in module Marshal are proved to compute exactly these.
 */
module Encoding {
  import opened Wrappers
  import opened Strings
  import opened Values
  import opened FieldSpecs
  import Ptr

  /** strconv.FormatBool. */
  function FormatBool(b: bool): string {
    if b then "true" else "false"
  }

  /**
   * marshalArgs. A value with a MarshalArgs method is encoded by it, errors
   * included, before anything else is looked at; then come the exact builtin
   * types, then MarshalText, then String, and only then the reflect kind:
   * structs are walked field by field and non-nil pointers followed.
   */
  function Encode(v: Value): Result<seq<string>, Error>
    decreases v, 1
  {
    match v
    case Nil => Ok([])
    case Str(s) => Ok([s])
    case StrPtr(p) => Ok(if p.Some? then [p.value] else [])
    case Bool(b) => Ok([FormatBool(b)])
    case BoolPtr(p) => Ok(if p.Some? then [FormatBool(p.value)] else [])
    case Strs(ss) => Ok(Ptr.F(ss, []))
    case StrPtrs(ps) => Ok(Ptr.Present(Ptr.F(ps, [])))
    case Typed(methods, kind) =>
      if methods.marshalArgs.Some? then methods.marshalArgs.value
      else if methods.marshalText.Some? then
        match methods.marshalText.value
        case Ok(text) => Ok([text])
        case Err(e) => Err(e)
      else if methods.toString.Some? then Ok([methods.toString.value])
      else
        match kind
        case StructKind(fields) => EncodeFields(fields)
        case PointerKind(target) =>
          if target.Some? then Encode(target.value) else Err(Panic(NilPointerElem))
        case OtherKind(_) => Err(UnsupportedType)
  }

  /**
   * marshalStructFields over the first |fields| fields of a struct: the
   * exported fields' arguments, concatenated in declaration order; the first
   * field that fails stops the walk with a field error carrying its index.
   */
  function EncodeFields(fields: seq<Field>): Result<seq<string>, Error>
    decreases fields, 0
  {
    if fields == [] then Ok([])
    else
      var n := |fields| - 1;
      match EncodeFields(fields[..n])
      case Err(e) => Err(e)
      case Ok(args) =>
        if !fields[n].exported then Ok(args)
        else
          match EncodeSpec(fields[n].tag, fields[n].value)
          case Err(e) => Err(FieldFailure(fields[n].name, n, e))
          case Ok(fieldArgs) => Ok(args + fieldArgs)
  }

  /** The arguments of one field's `fieldArgs`, or [] for a field that fails or is not exported. */
  function Contribution(f: Field): seq<string> {
    if f.exported && EncodeSpec(f.tag, f.value).Ok? then EncodeSpec(f.tag, f.value).value else []
  }

  /** marshalSpec: parse the tag, then apply the spec to the field's value. */
  function EncodeSpec(tag: string, v: Value): Result<seq<string>, Error>
    decreases v, 4
  {
    EncodeField(Parse(tag), v)
  }

  /**
   * fieldSpec.Marshal. An omitted field yields nothing and is never
   * dispatched; an empty result yields nothing, without its prepend and
   * append; otherwise the single-argument prefix is applied (a second time,
   * for results that fieldSpec.marshalArgs already prefixed) and the prepend
   * and append arguments are put around it.
   */
  function EncodeField(spec: FieldSpec, v: Value): Result<seq<string>, Error>
    decreases v, 3
  {
    if spec.omitField then Ok([])
    else
      match EncodeFieldArgs(spec, v)
      case Err(e) => Err(e)
      case Ok(dataArgs) =>
        if |dataArgs| == 0 then Ok([])
        else
          var data := if spec.singleArgc.Some? then Prefixed(spec.singleArgc.value, dataArgs) else dataArgs;
          Ok(spec.prepend + data + spec.append)
  }

  /**
   * fieldSpec.marshalArgs. Under omitempty an empty value yields nothing
   * (by its IsEmpty or IsZero method, and failing that by reflection, which
   * panics on a nil interface); otherwise the value is dispatched. A single
   * argument goes through boolean substitution and is returned at once; any
   * other number of arguments is joined by the separator, if there is one,
   * and then joined and prefixed when the spec has a single-argument prefix.
   */
  function EncodeFieldArgs(spec: FieldSpec, v: Value): Result<seq<string>, Error>
    decreases v, 2
  {
    if spec.omitEmpty && MethodSaysEmpty(v) then Ok([])
    else if spec.omitEmpty && v.Nil? then Err(Panic(ZeroOfNilInterface))
    else if spec.omitEmpty && IsZeroValue(v) then Ok([])
    else
      match Encode(v)
      case Err(e) => Err(e)
      case Ok(args) =>
        if |args| == 1 then Ok(SubstituteBool(spec, args[0]))
        else
          var joined := if spec.separator.Some? then [Join(args, spec.separator.value)] else args;
          Ok(if spec.singleArgc.Some? then Prefixed(spec.singleArgc.value, joined) else joined)
  }

  /**
   * The `true=` / `false=` substitution of a lone argument, a textual match:
   * "true" becomes the true text when that is non-empty; "false" becomes the
   * false text when that is non-empty, and is dropped when only the true
   * text is non-empty; anything else is kept.
   */
  function SubstituteBool(spec: FieldSpec, arg: string): (args: seq<string>)
    ensures |args| <= 1
    ensures args == [] <==> arg == "false" && Ptr.F(spec.boolFalse, "") == "" && Ptr.F(spec.boolTrue, "") != ""
  {
    var onTrue := Ptr.F(spec.boolTrue, "");
    var onFalse := Ptr.F(spec.boolFalse, "");
    if arg == "true" && onTrue != "" then [onTrue]
    else if arg == "false" then
      if onFalse != "" then [onFalse]
      else if onTrue != "" then []
      else [arg]
    else [arg]
  }

  /** The single-argument form: all arguments joined by spaces, after `prefix`, as one argument. */
  function Prefixed(prefix: string, args: seq<string>): (r: seq<string>)
    ensures r == [prefix + Join(args, " ")]
  {
    if |args| == 1 then [prefix + args[0]] else [prefix + Join(args, " ")]
  }
}
