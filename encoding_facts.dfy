/**
 * What the encoder promises, proved about its reference definition: the
 * dispatch results and their priority, the struct walk's concatenation and
 * fail-fast error, and the rules a field spec applies.
 */
module EncodingFacts {
  import opened Wrappers
  import opened Strings
  import opened Values
  import opened FieldSpecs
  import opened Encoding
  import Ptr

  // ---------------------------------------------------------------- dispatch

  /** The builtin types: one argument per string, bool or non-nil pointer, nothing for nil. */
  lemma BuiltinEncodings(s: string, b: bool, ss: seq<string>)
    ensures Encode(Nil) == Ok([])
    ensures Encode(Str(s)) == Ok([s])
    ensures Encode(StrPtr(None)) == Ok([]) && Encode(StrPtr(Some(s))) == Ok([s])
    ensures Encode(Bool(true)) == Ok(["true"]) && Encode(Bool(false)) == Ok(["false"])
    ensures Encode(BoolPtr(None)) == Ok([]) && Encode(BoolPtr(Some(b))) == Encode(Bool(b))
    ensures Encode(Strs(Some(ss))) == Ok(ss) && Encode(Strs(None)) == Ok([])
  {
  }

  /**
   * A []*string yields exactly the strings of its non-nil elements (FS of it),
   * in order: never more arguments than elements, and a string is among them
   * exactly when some element points to it.
   */
  lemma StringPointersKeepPresent(ps: seq<Option<string>>, s: string)
    ensures Encode(StrPtrs(Some(ps))) == Ok(Ptr.Present(ps))
    ensures |Encode(StrPtrs(Some(ps))).value| <= |ps|
    ensures s in Encode(StrPtrs(Some(ps))).value <==> Some(s) in ps
  {
    Ptr.PresentMembers(ps, s);
  }

  /** A type with none of the three encoding methods and no struct or pointer kind is unsupported. */
  lemma UnsupportedKind(methods: Methods, isZero: bool)
    requires methods.marshalArgs == None && methods.marshalText == None && methods.toString == None
    ensures Encode(Typed(methods, OtherKind(isZero))) == Err(UnsupportedType)
  {
  }

  /**
   * Without MarshalArgs or MarshalText: String, when present, gives its text
   * as the one argument; otherwise a struct is walked field by field and a
   * nil pointer panics.
   */
  lemma LaterDispatch(methods: Methods, fields: seq<Field>)
    requires methods.marshalArgs == None && methods.marshalText == None
    ensures methods.toString.Some? ==>
      forall kind :: Encode(Typed(methods, kind)) == Ok([methods.toString.value])
    ensures methods.toString == None ==>
      Encode(Typed(methods, StructKind(fields))) == EncodeFields(fields) &&
      Encode(Typed(methods, PointerKind(None))) == Err(Panic(NilPointerElem))
  {
  }

  /** MarshalArgs wins over everything: its result, error included, is returned as it is. */
  lemma MarshalerFirst(methods: Methods, kind: Kind)
    requires methods.marshalArgs.Some?
    ensures Encode(Typed(methods, kind)) == methods.marshalArgs.value
  {
  }

  /** Without MarshalArgs, MarshalText comes before String, and its error is passed on unchanged. */
  lemma TextBeforeString(methods: Methods, kind: Kind)
    requires methods.marshalArgs == None && methods.marshalText.Some?
    ensures methods.marshalText.value.Ok? ==> Encode(Typed(methods, kind)) == Ok([methods.marshalText.value.value])
    ensures methods.marshalText.value.Err? ==> Encode(Typed(methods, kind)) == Err(methods.marshalText.value.error)
  {
  }

  /** A struct with any of the three encoding methods is never walked: its fields do not matter. */
  lemma MethodsBeforeFields(methods: Methods, fields: seq<Field>, others: seq<Field>)
    requires methods.marshalArgs.Some? || methods.marshalText.Some? || methods.toString.Some?
    ensures Encode(Typed(methods, StructKind(fields))) == Encode(Typed(methods, StructKind(others)))
  {
  }

  /** `v` behind `n` pointers (of types without encoding methods). */
  function Behind(v: Value, n: nat): Value {
    if n == 0 then v else Typed(NoMethods, PointerKind(Some(Behind(v, n - 1))))
  }

  /** Pointers are followed all the way down: a value encodes the same behind any number of them. */
  lemma {:induction false} PointersFollowed(v: Value, n: nat)
    ensures Encode(Behind(v, n)) == Encode(v)
  {
    if n > 0 {
      PointersFollowed(v, n - 1);
    }
  }

  // ------------------------------------------------------------ struct walk

  /** Every exported field encodes without error. */
  ghost predicate AllFieldsOk(fields: seq<Field>) {
    forall i :: 0 <= i < |fields| && fields[i].exported ==> EncodeSpec(fields[i].tag, fields[i].value).Ok?
  }

  /** The reference concatenation: each field's contribution, first field first. */
  function Gathered(fields: seq<Field>): seq<string> {
    if fields == [] then [] else Contribution(fields[0]) + Gathered(fields[1..])
  }

  lemma {:induction false} GatheredSnoc(fields: seq<Field>, f: Field)
    ensures Gathered(fields + [f]) == Gathered(fields) + Contribution(f)
  {
    if fields == [] {
      assert Gathered([f]) == Contribution(f) + Gathered([]);
    } else {
      assert (fields + [f])[1..] == fields[1..] + [f];
      GatheredSnoc(fields[1..], f);
    }
  }

  /**
   * The walk succeeds exactly when every exported field does, and then its
   * arguments are the exported fields' arguments concatenated in declaration
   * order; fields that are not exported contribute nothing.
   */
  lemma {:induction false} FieldsConcatenated(fields: seq<Field>)
    ensures EncodeFields(fields).Ok? <==> AllFieldsOk(fields)
    ensures EncodeFields(fields).Ok? ==> EncodeFields(fields).value == Gathered(fields)
  {
    if fields != [] {
      var n := |fields| - 1;
      var init := fields[..n];
      FieldsConcatenated(init);
      assert fields == init + [fields[n]];
      GatheredSnoc(init, fields[n]);
      assert AllFieldsOk(fields) ==> AllFieldsOk(init);
    }
  }

  /** One step of the walk: an exported field that succeeds appends its arguments. */
  lemma WalkStep(fields: seq<Field>, k: nat, args: seq<string>, fieldArgs: seq<string>)
    requires k < |fields| && EncodeFields(fields[..k]) == Ok(args)
    requires fields[k].exported && EncodeSpec(fields[k].tag, fields[k].value) == Ok(fieldArgs)
    ensures EncodeFields(fields[..k + 1]) == Ok(args + fieldArgs)
    ensures fieldArgs == [] ==> EncodeFields(fields[..k + 1]) == Ok(args)
  {
    assert fields[..k + 1][..k] == fields[..k];
    assert fieldArgs == [] ==> args + fieldArgs == args;
  }

  /** Once a prefix of the fields fails, the whole walk fails the same way. */
  lemma {:induction false} PrefixFailureFinal(fields: seq<Field>, k: nat)
    requires k <= |fields| && EncodeFields(fields[..k]).Err?
    ensures EncodeFields(fields) == EncodeFields(fields[..k])
    decreases |fields| - k
  {
    if k < |fields| {
      assert fields[..k + 1][..k] == fields[..k];
      PrefixFailureFinal(fields, k + 1);
    } else {
      assert fields[..k] == fields;
    }
  }

  /**
   * Fail fast: when exported field `k` is the first to fail, the walk fails
   * with a field error naming it, whose FieldNum is its index among all the
   * fields and which unwraps to the field's own error; a panic is passed on
   * unwrapped. Later fields are not looked at.
   */
  lemma FirstFailureReported(fields: seq<Field>, k: nat)
    requires k < |fields| && fields[k].exported && EncodeSpec(fields[k].tag, fields[k].value).Err?
    requires AllFieldsOk(fields[..k])
    ensures var cause := EncodeSpec(fields[k].tag, fields[k].value).error;
            EncodeFields(fields) == Err(FieldFailure(fields[k].name, k, cause))
    ensures var cause := EncodeSpec(fields[k].tag, fields[k].value).error;
            !cause.Panic? ==> EncodeFields(fields).error == FieldError(fields[k].name, k, cause)
                              && Unwrap(EncodeFields(fields).error) == Some(cause)
  {
    FieldsConcatenated(fields[..k]);
    assert fields[..k + 1][..k] == fields[..k];
    PrefixFailureFinal(fields, k + 1);
  }

  // ------------------------------------------------------------ field specs

  /** The value reaches the dispatcher: omitempty is off, or the value is not empty. */
  predicate Dispatched(spec: FieldSpec, v: Value) {
    !spec.omitField && (!spec.omitEmpty || (!MethodSaysEmpty(v) && !v.Nil? && !IsZeroValue(v)))
  }

  /** An omitted field yields nothing, whatever its value, even one that cannot be encoded. */
  lemma OmittedField(spec: FieldSpec, v: Value)
    requires spec.omitField
    ensures EncodeField(spec, v) == Ok([])
  {
  }

  /**
   * omitempty: a value that its IsEmpty (or, lacking that, IsZero) method
   * calls empty yields nothing; so does any zero value, by the reflection
   * fallback that runs even after the method said non-empty; a nil interface
   * makes that fallback panic.
   */
  lemma OmitEmpty(spec: FieldSpec, v: Value)
    requires !spec.omitField && spec.omitEmpty
    ensures MethodSaysEmpty(v) ==> EncodeField(spec, v) == Ok([])
    ensures !v.Nil? && IsZeroValue(v) ==> EncodeField(spec, v) == Ok([])
    ensures v.Nil? ==> EncodeField(spec, v) == Err(Panic(ZeroOfNilInterface))
  {
  }

  /** A dispatched value's error is the field's error, unchanged. */
  lemma ErrorPassedOn(spec: FieldSpec, v: Value)
    requires Dispatched(spec, v) && Encode(v).Err?
    ensures EncodeField(spec, v) == Err(Encode(v).error)
  {
  }

  /** The single-argument prefix applied once, when there is one. */
  function PrefixedOnce(spec: FieldSpec, arg: string): string {
    if spec.singleArgc.Some? then spec.singleArgc.value + arg else arg
  }

  /**
   * One argument: "true" and "false" are substituted by the spec's bool texts
   * (only "false" with a true text and no false text is dropped, taking the
   * prepend and append arguments with it); every other argument, such as a
   * string, is kept. What remains gets the prefix once and the prepend and
   * append arguments around it.
   */
  lemma OneArgument(spec: FieldSpec, v: Value, arg: string)
    requires Dispatched(spec, v) && Encode(v) == Ok([arg])
    ensures var onTrue, onFalse := Ptr.F(spec.boolTrue, ""), Ptr.F(spec.boolFalse, "");
            EncodeField(spec, v) ==
              if arg == "true" && onTrue != "" then Ok(spec.prepend + [PrefixedOnce(spec, onTrue)] + spec.append)
              else if arg == "false" && onFalse != "" then Ok(spec.prepend + [PrefixedOnce(spec, onFalse)] + spec.append)
              else if arg == "false" && onTrue != "" then Ok([])
              else Ok(spec.prepend + [PrefixedOnce(spec, arg)] + spec.append)
  {
  }

  /**
   * No arguments: nothing, with no prepend or append arguments, unless the
   * spec has a single-argument prefix, which turns the empty list into the
   * prefix and then prefixes that again.
   */
  lemma NoArguments(spec: FieldSpec, v: Value)
    requires Dispatched(spec, v) && Encode(v) == Ok([])
    ensures spec.singleArgc == None && spec.separator == None ==> EncodeField(spec, v) == Ok([])
    ensures spec.singleArgc == None && spec.separator.Some? ==>
      EncodeField(spec, v) == Ok(spec.prepend + [""] + spec.append)
    ensures spec.singleArgc.Some? ==>
      var p := spec.singleArgc.value;
      EncodeField(spec, v) == Ok(spec.prepend + [p + p] + spec.append)
  {
    if spec.singleArgc.Some? {
      var p := spec.singleArgc.value;
      assert p + "" == p;
      assert Prefixed(p, []) == [p];
      assert Prefixed(p, [""]) == [p];
      assert Prefixed(p, [p]) == [p + p];
    }
  }

  /**
   * Two or more arguments: joined into one by the separator when there is
   * one; then, with a single-argument prefix, joined by spaces and prefixed
   * twice; then put between the prepend and append arguments.
   */
  lemma ManyArguments(spec: FieldSpec, v: Value, args: seq<string>)
    requires Dispatched(spec, v) && Encode(v) == Ok(args) && |args| >= 2
    ensures var joined := if spec.separator.Some? then [Join(args, spec.separator.value)] else args;
            EncodeField(spec, v) ==
              if spec.singleArgc.Some? then
                var p := spec.singleArgc.value;
                Ok(spec.prepend + [p + p + Join(joined, " ")] + spec.append)
              else Ok(spec.prepend + joined + spec.append)
  {
    if spec.singleArgc.Some? {
      var p := spec.singleArgc.value;
      var joined := if spec.separator.Some? then [Join(args, spec.separator.value)] else args;
      assert Prefixed(p, [p + Join(joined, " ")]) == [p + (p + Join(joined, " "))];
      assert p + (p + Join(joined, " ")) == p + p + Join(joined, " ");
    }
  }

  // ------------------------------------------------------- tags and fields

  /**
   * With a tag's own spec (which never has both a flag and a prefix, nor a
   * separator or append arguments), a `--flag=` tag turns one non-boolean
   * argument into exactly one prefixed argument, and a `--flag` tag puts the
   * flag before the field's arguments.
   */
  lemma TaggedField(tag: string, v: Value, args: seq<string>)
    requires Dispatched(Parse(tag), v) && Encode(v) == Ok(args)
    requires |args| >= 2 || (|args| == 1 && args[0] != "true" && args[0] != "false")
    ensures Parse(tag).singleArgc.Some? && |args| == 1 ==>
      EncodeSpec(tag, v) == Ok([Parse(tag).singleArgc.value + args[0]])
    ensures Parse(tag).singleArgc.Some? && |args| >= 2 ==>
      var p := Parse(tag).singleArgc.value;
      EncodeSpec(tag, v) == Ok([p + p + Join(args, " ")])
    ensures Parse(tag).singleArgc == None ==> EncodeSpec(tag, v) == Ok(Parse(tag).prepend + args)
  {
    var spec := Parse(tag);
    assert EncodeSpec(tag, v) == EncodeField(spec, v);
    PlainSpecField(spec, v, args);
  }

  /** TaggedField for any spec shaped like a parsed one. */
  lemma PlainSpecField(spec: FieldSpec, v: Value, args: seq<string>)
    requires spec.separator == None && spec.append == [] && (spec.prepend == [] || spec.singleArgc == None)
    requires Dispatched(spec, v) && Encode(v) == Ok(args)
    requires |args| >= 2 || (|args| == 1 && args[0] != "true" && args[0] != "false")
    ensures spec.singleArgc.Some? && |args| == 1 ==>
      EncodeField(spec, v) == Ok([spec.singleArgc.value + args[0]])
    ensures spec.singleArgc.Some? && |args| >= 2 ==>
      var p := spec.singleArgc.value;
      EncodeField(spec, v) == Ok([p + p + Join(args, " ")])
    ensures spec.singleArgc == None ==> EncodeField(spec, v) == Ok(spec.prepend + args)
  {
    if |args| == 1 {
      assert args == [args[0]];
      OneArgument(spec, v, args[0]);
      if spec.singleArgc.Some? {
        assert spec.prepend + [spec.singleArgc.value + args[0]] + [] == [spec.singleArgc.value + args[0]];
      } else {
        assert spec.prepend + [args[0]] + [] == spec.prepend + args;
      }
    } else {
      ManyArguments(spec, v, args);
      if spec.singleArgc.Some? {
        var p := spec.singleArgc.value;
        assert spec.prepend + [p + p + Join(args, " ")] + [] == [p + p + Join(args, " ")];
      } else {
        assert spec.prepend + args + [] == spec.prepend + args;
      }
    }
  }
}
