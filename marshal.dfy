/**
 * The encoder as marshal.go writes it: the dispatcher, the struct walk, and
 * the two halves of applying a field spec, each building its argument list
 * step by step, each proved to compute what module Encoding defines.
 *
 * The context argument is only passed along in the source and is left out;
 * the exported MarshalArgs(ctx, data) returns what MarshalArgs below returns.
 */
module Marshal {
  import opened Wrappers
  import opened Strings
  import opened Values
  import opened FieldSpecs
  import opened Encoding
  import EncodingFacts
  import Ptr

  /** marshalArgs: dispatch on the kind of value. */
  method MarshalArgs(data: Value) returns (r: Result<seq<string>, Error>)
    ensures r == Encode(data)
    decreases data, 1
  {
    match data
    case Nil =>
      return Ok([]);
    case Str(s) =>
      return Ok([s]);
    case StrPtr(p) =>
      if p.None? {
        return Ok([]);
      }
      return Ok([p.value]);
    case Bool(b) =>
      return Ok([FormatBool(b)]);
    case BoolPtr(p) =>
      if p.None? {
        return Ok([]);
      }
      return Ok([FormatBool(p.value)]);
    case Strs(ss) =>
      return Ok(Ptr.F(ss, []));
    case StrPtrs(ps) =>
      var v := Ptr.F(ps, []);
      var ds: seq<string> := [];
      for i := 0 to |v|
        invariant ds == Ptr.Present(v[..i])
      {
        assert v[..i + 1][..i] == v[..i];
        if v[i].Some? {
          ds := ds + [v[i].value];
        }
      }
      assert v[..|v|] == v;
      return Ok(ds);
    case Typed(methods, kind) =>
      if methods.marshalArgs.Some? {
        return methods.marshalArgs.value;
      }
      if methods.marshalText.Some? {
        match methods.marshalText.value {
          case Err(e) =>
            return Err(e);
          case Ok(text) =>
            return Ok([text]);
        }
      }
      if methods.toString.Some? {
        return Ok([methods.toString.value]);
      }
      match kind {
        case StructKind(fields) =>
          r := MarshalStructFields(fields);
        case PointerKind(target) =>
          if target.None? {
            return Err(Panic(NilPointerElem));
          }
          r := MarshalArgs(target.value);
        case OtherKind(_) =>
          r := Err(UnsupportedType);
      }
  }

  /** marshalStructFields: walk the fields in order, stopping at the first failure. */
  method MarshalStructFields(fields: seq<Field>) returns (r: Result<seq<string>, Error>)
    ensures r == EncodeFields(fields)
    decreases fields, 0
  {
    var marshaledArgs: seq<string> := [];
    for i := 0 to |fields|
      invariant EncodeFields(fields[..i]) == Ok(marshaledArgs)
    {
      assert fields[..i + 1][..i] == fields[..i];
      if fields[i].exported {
        var fieldArgs := MarshalSpec(fields[i].tag, fields[i].value);
        if fieldArgs.Err? {
          EncodingFacts.PrefixFailureFinal(fields, i + 1);
          return Err(FieldFailure(fields[i].name, i, fieldArgs.error));
        }
        marshaledArgs := marshaledArgs + fieldArgs.value;
      }
    }
    assert fields[..|fields|] == fields;
    return Ok(marshaledArgs);
  }

  /** marshalSpec: parse the tag and apply the spec to the value. */
  method MarshalSpec(tag: string, value: Value) returns (r: Result<seq<string>, Error>)
    ensures r == EncodeSpec(tag, value)
    decreases value, 4
  {
    var spec := ParseSpec(tag);
    r := MarshalField(spec, value);
  }

  /** fieldSpec.Marshal. */
  method MarshalField(spec: FieldSpec, data: Value) returns (r: Result<seq<string>, Error>)
    ensures r == EncodeField(spec, data)
    decreases data, 3
  {
    if spec.omitField {
      return Ok([]);
    }

    var dataArgs := MarshalFieldArgs(spec, data);
    if dataArgs.Err? {
      return Err(dataArgs.error);
    }
    var args := dataArgs.value;

    if |args| == 0 {
      return Ok([]);
    }

    if spec.singleArgc.Some? {
      if |args| == 1 {
        args := [Ptr.F(spec.singleArgc, "") + args[0]];
      } else {
        var joined := Join(args, " ");
        args := [Ptr.F(spec.singleArgc, "") + joined];
      }
    }

    args := spec.prepend + args;
    args := args + spec.append;
    return Ok(args);
  }

  /** fieldSpec.marshalArgs. */
  method MarshalFieldArgs(spec: FieldSpec, data: Value) returns (r: Result<seq<string>, Error>)
    ensures r == EncodeFieldArgs(spec, data)
    decreases data, 2
  {
    if spec.omitEmpty {
      if data.Typed? && data.methods.isEmpty.Some? {
        if data.methods.isEmpty.value {
          return Ok([]);
        }
      } else if data.Typed? && data.methods.isZero.Some? {
        if data.methods.isZero.value {
          return Ok([]);
        }
      }

      if data.Nil? {
        return Err(Panic(ZeroOfNilInterface));
      }
      if IsZeroValue(data) {
        return Ok([]);
      }
    }

    var marshaled := MarshalArgs(data);
    if marshaled.Err? {
      return Err(marshaled.error);
    }
    var args := marshaled.value;

    if |args| == 1 {
      assert args == [args[0]];
      var onTrue := Ptr.F(spec.boolTrue, "");
      var onFalse := Ptr.F(spec.boolFalse, "");
      if args[0] == "true" && onTrue != "" {
        return Ok([onTrue]);
      } else if args[0] == "false" {
        if onFalse != "" {
          return Ok([onFalse]);
        }
        if onTrue != "" {
          return Ok([]);
        }
        return Ok(args);
      } else {
        return Ok(args);
      }
    }

    if spec.separator.Some? {
      var joined := Join(args, Ptr.F(spec.separator, ""));
      args := [joined];
    }

    if spec.singleArgc.Some? {
      if |args| == 1 {
        args := [Ptr.F(spec.singleArgc, "") + args[0]];
      } else {
        var joined := Join(args, " ");
        args := [Ptr.F(spec.singleArgc, "") + joined];
      }
    }

    return Ok(args);
  }
}
