# comm: struct-to-command-line marshalling, modelled in Dafny

`comm` turns Go values into the argument list of a command line. Its
`MarshalArgs` dispatches on the value:

- a type with its own `MarshalArgs` method supplies its arguments itself;
- strings, bools, pointers to them, `[]string` and `[]*string` become one
  argument per string;
- a `TextMarshaler` or a `Stringer` becomes one argument;
- a struct is walked field by field. Each exported field is encoded
  according to its `comm:"..."` struct tag, and the fields' arguments are
  concatenated in declaration order.

A tag can do several things:

- leave a field out (`-`);
- skip an empty value (`omitempty`);
- put a flag before the value (`--flag`);
- merge all values into one `--flag=v1 v2` argument (`--flag=`);
- substitute the texts of booleans (`true=...`, `false=...`).

The helpers of `ptr.go` wrap values in pointers and unwrap them again.

The project has two layers:

- The reference definition of the encoder is a set of functions. These
  are `Parse`, `Encode`, `EncodeFields`, `EncodeSpec`, `EncodeField` and
  `EncodeFieldArgs`, and they define, for every value, the arguments it
  becomes or the error it fails with.
- The looping routines of `marshal.go` and `ptr.go` are methods: the
  dispatcher, the struct walk, parseSpec, the two halves of applying a
  field spec, `PS` and `FS`. They build their lists step by step, as the
  Go code does, and each one is proved to compute exactly its reference
  function. `P`, `F`, `newMarshalArgFieldError` and `Unwrap`, which only
  compute a value, are functions.

The properties the library promises are proved as lemmas about the
reference functions. They cover:

- the order of dispatch;
- the struct walk's concatenation and its fail-fast field error;
- omission and `omitempty`;
- boolean substitution;
- the single-argument prefix;
- the pointer helpers' round trip.

The cases of `marshal_test.go` are worked out as lemmas in module
`TestCases`.

Values are modelled as data instead of through reflection:

- The exact types the dispatcher switches on are constructors of `Value`.
- Every other type is `Typed(methods, kind)`. `methods` holds the results
  of the methods the type has (`MarshalArgs`, `MarshalText`, `String`,
  `IsEmpty`, `IsZero`). `kind` is its reflect kind: a struct with its
  fields, a pointer with its target, or anything else with only its
  zero-ness.
- Where the Go code would panic, the model returns `Error.Panic`, which
  the struct walk passes on without wrapping it. There are two such
  places:
  - `Elem().CanInterface()` on a nil pointer (marshal.go:99);
  - `reflect.ValueOf(nil).IsZero()` under `omitempty` (marshal.go:277-278).

The code has several quirks, and the model keeps them as written:

- A field spec with a `--flag=` prefix applies it twice to a result of
  several arguments. `fieldSpec.marshalArgs` joins and prefixes the
  arguments, and `fieldSpec.Marshal` prefixes the one joined argument
  again.
- A zero-argument result under such a prefix becomes `[prefix + prefix]`.
- The parser ignores `join`: it is still a TODO in the source.
- An element such as `omitempty` or `true=...` is read even when it is the
  first element of the tag.

Because of this, the "spec basic" expectations in marshal_test.go:143-153
do not hold against the code:

- `--dashconfigslice=` and `--dashconfigslicep=` yield the prefix twice
  (`TestCases.SliceWithPrefix`, `TestCases.PointerSliceWithPrefix`);
- `--dashdashcommajoined,join` yields the values unjoined, after the flag
  (`TestCases.JoinIgnored`).

## Model

| member | source | states |
|---|---|---|
| Ptr.P | ptr.go:3-5 | P always yields a non-nil pointer |
| Ptr.F | ptr.go:15-21 | reference definition: the pointee, or the explicitly passed zero value for nil |
| Ptr.FOfP | ptr.go:15-21 | F dereferences what P wrapped: F(P(v)) == v |
| Ptr.FOfNil | ptr.go:15-21 | F of a nil pointer is the zero value of the type |
| Ptr.PS | ptr.go:7-13 | PS yields one pointer per element, in order, the i-th pointing to the i-th element |
| Ptr.Present | ptr.go:23-34 | the reference definition of FS keeps at most as many values as there are pointers |
| Ptr.FS | ptr.go:23-34 | the loop with `continue` on nil computes exactly the dereferenced non-nil elements, in order |
| Ptr.PresentAppend | ptr.go:26-31 | FS distributes over concatenation, so order is kept and nothing is invented |
| Ptr.PresentMembers | ptr.go:26-31 | a value is in FS(ps) exactly when some element of ps points to it |
| Ptr.PresentAllNil | ptr.go:27-29 | an all-nil slice yields no values |
| Ptr.PresentOfWrapped | ptr.go:7-13 | FS undoes PS: unwrapping a slice of fresh pointers gives the slice back |
| Strings.HasPrefix | marshal.go:173 | reference definition of strings.HasPrefix, also used at marshal.go:159: the prefix is an initial part of the text |
| Strings.HasSuffix | marshal.go:174 | reference definition of strings.HasSuffix: the suffix is a final part of the text |
| Strings.Cut | marshal.go:188 | SplitN(s, "=", 2) has one part exactly when there is no `=`, and otherwise splits at the first one with both halves kept |
| Strings.Join | marshal.go:246 | joining a single part gives that part |
| Strings.Split | marshal.go:164 | strings.Split yields at least one piece, no piece holds the separator, and joining the pieces gives the tag back |
| FieldSpecs.DefaultSpec | marshal.go:157 | reference definition of the spec literal also built at marshal.go:169: nothing omitted, no prefix, flags, separator or bool texts |
| FieldSpecs.OmitSpec | marshal.go:160 | reference definition: the default spec with the field omitted |
| FieldSpecs.OmitsField | marshal.go:159 | reference definition: the tag is `-` or starts with `-,` |
| FieldSpecs.Parse | marshal.go:155-211 | an empty tag is the default spec; the field is omitted exactly for `-` and `-,...`, and an omitted spec carries nothing else; there is at most one prepended flag and never together with a prefix; no separator or append arguments are ever produced |
| FieldSpecs.ParseSpec | marshal.go:155-211 | the element-by-element parser computes exactly Parse(tag) |
| FieldSpecs.ScanElements | marshal.go:187-208 | the element loop records whether any element is `omitempty` and the last `true=` and `false=` texts, and changes nothing else |
| FieldSpecs.LastValueStep | marshal.go:199-206 | one more `key=value` element overwrites the text for its key and leaves the others alone |
| FieldSpecs.LastValue | marshal.go:199-206 | reference definition: the text after the first `=` of the last element whose key is the given one, None when there is none |
| FieldSpecs.LastValueWins | marshal.go:187-208 | the last `key=value` element is the one that counts, and the value keeps any further `=` |
| FieldSpecs.LastValueAbsent | marshal.go:187-208 | without a `key=` element the bool text stays nil |
| Values.NewFieldError | marshal.go:136-142 | the field error carries the field's name and index and unwraps to its cause |
| Values.Unwrap | marshal.go:351-353 | reference definition: the cause of a field error, None for any other error |
| Values.FieldErrorRoundTrip | marshal.go:351-353 | exactly the field errors unwrap, and each is rebuilt from its name, index and cause |
| Values.IsZeroValue | marshal.go:276-282 | reference definition of reflect.Value.IsZero: strings empty, bools false, pointers and slices nil, structs zero in every field (interface fields only when nil) |
| Values.MethodSaysEmpty | marshal.go:262-274 | reference definition: IsEmpty when the type has it, otherwise IsZero when it has that |
| Values.FieldFailure | marshal.go:124-127 | a failing field's error becomes a field error carrying the field's name and index that unwraps to it; a panic passes through unwrapped |
| Encoding.FormatBool | marshal.go:64 | reference definition of strconv.FormatBool, also used at marshal.go:69: "true" or "false" |
| Encoding.Encode | marshal.go:48-105 | reference definition of marshalArgs |
| Encoding.EncodeFields | marshal.go:110-134 | reference definition of marshalStructFields |
| Encoding.EncodeSpec | marshal.go:144-151 | reference definition of marshalSpec |
| Encoding.EncodeField | marshal.go:228-255 | reference definition of fieldSpec.Marshal |
| Encoding.EncodeFieldArgs | marshal.go:257-335 | reference definition of fieldSpec.marshalArgs |
| Encoding.SubstituteBool | marshal.go:290-315 | a lone argument is kept or replaced by one text, and it is dropped exactly when it is "false", the false text is empty and the true text is not |
| Encoding.Prefixed | marshal.go:242-249 | the single-argument form is one argument: the prefix followed by all arguments joined by spaces |
| EncodingFacts.BuiltinEncodings | marshal.go:49-73 | nil yields nothing; a string, a bool or a non-nil pointer to one yields one argument; a nil pointer yields none; a []string yields its elements |
| EncodingFacts.StringPointersKeepPresent | marshal.go:74-81 | a []*string yields the strings of its non-nil elements, in order, never more than its length |
| EncodingFacts.LaterDispatch | marshal.go:88-101 | without MarshalArgs or MarshalText, String gives its text as the one argument whatever the kind; lacking String, a struct is walked field by field and a nil pointer panics |
| EncodingFacts.UnsupportedKind | marshal.go:92-104 | a type that has no encoding method and is neither a struct nor a pointer is an "unsupported type" error |
| EncodingFacts.MarshalerFirst | marshal.go:53-55 | a MarshalArgs method wins over everything, and its result and error are returned as they are |
| EncodingFacts.TextBeforeString | marshal.go:82-89 | without MarshalArgs, MarshalText comes before String, and its error is passed on |
| EncodingFacts.MethodsBeforeFields | marshal.go:53-95 | a struct with an encoding method is never walked, so its fields do not matter |
| EncodingFacts.PointersFollowed | marshal.go:96-101 | a value encodes the same behind any number of pointers |
| EncodingFacts.FieldsConcatenated | marshal.go:110-134 | the walk succeeds exactly when every exported field does, and then yields the exported fields' arguments concatenated in declaration order |
| EncodingFacts.WalkStep | marshal.go:119-130 | an exported field that succeeds appends its arguments to those gathered so far |
| EncodingFacts.PrefixFailureFinal | marshal.go:124-127 | once a field fails, later fields do not change the result |
| EncodingFacts.FirstFailureReported | marshal.go:124-127 | the first failing field ends the walk with a field error naming it, indexed among all fields and unwrapping to its own error |
| EncodingFacts.OmittedField | marshal.go:228-231 | an omitted field yields nothing, even for a value that cannot be encoded |
| EncodingFacts.OmitEmpty | marshal.go:258-283 | under omitempty, a value that IsEmpty or IsZero calls empty yields nothing, so does any reflect-zero value, and a nil interface panics |
| EncodingFacts.ErrorPassedOn | marshal.go:285-288 | an encoding error of a dispatched value is the field's error, unchanged |
| EncodingFacts.OneArgument | marshal.go:290-315 | with one argument, the bool texts replace "true" and "false" (with "false" dropped when only a true text is set, together with the prepend and append arguments), other arguments are kept, and the result gets the prefix once, between prepend and append |
| EncodingFacts.NoArguments | marshal.go:238-240 | no arguments yield nothing, but a `--flag=` prefix turns them into the prefix written twice |
| EncodingFacts.ManyArguments | marshal.go:317-332 | two or more arguments are joined by the separator, if any, and under a prefix are joined by spaces and prefixed twice, then put between prepend and append |
| EncodingFacts.TaggedField | marshal.go:144-151 | with a parsed tag, `--flag=` gives one prefixed argument for one value and a doubly prefixed one for several values, and `--flag` puts the flag before the values |
| EncodingFacts.PlainSpecField | marshal.go:228-255 | the same for any spec with the shape of a parsed one |
| Marshal.MarshalArgs | marshal.go:48-105 | the dispatcher, including the []*string loop, computes exactly Encode |
| Marshal.MarshalStructFields | marshal.go:110-134 | the field loop, with its early return on the first failing field, computes exactly EncodeFields |
| Marshal.MarshalSpec | marshal.go:144-151 | parsing and then applying the spec computes exactly EncodeSpec |
| Marshal.MarshalField | marshal.go:228-255 | fieldSpec.Marshal computes exactly EncodeField |
| Marshal.MarshalFieldArgs | marshal.go:257-335 | fieldSpec.marshalArgs computes exactly EncodeFieldArgs |
| TestCases.StringPointersWithNils | marshal_test.go:34-37 | [head, nil, nil, tail, nil] yields ["head", "tail"] |
| TestCases.UnsupportedMap | marshal_test.go:80-84 | a map is an error |
| TestCases.UntaggedString | marshal_test.go:108-113 | an untagged string field yields its string |
| TestCases.OmittedTags | marshal_test.go:101-102 | `-` and `-,foo,k=v,eee,,` yield nothing |
| TestCases.TrueTextOnly | marshal_test.go:103 | a tag `true=<text>,<other>` sets only the true text |
| TestCases.DryRunFalse | marshal_test.go:103 | `true=--dry-run,eee` on false yields nothing |
| TestCases.NoValueEmpty | marshal_test.go:104 | `--no-value=,omitempty` on "" yields nothing |
| TestCases.FlagOnNilSlice | marshal_test.go:105 | `--omittedbecauseemptyslice` on a nil slice yields nothing |
| TestCases.SomeBoolTrue | marshal_test.go:107 | `true=--some-bool=yes` on true yields ["--some-bool=yes"] |
| TestCases.OmitFieldCase | marshal_test.go:99-117 | the "omit field" struct yields ["--some-bool=yes", "some field"] |
| TestCases.FlagThenValue | marshal_test.go:121-122 | `--dashdashconfig` and `-dashconfig` on any string, "true" and "false" included, yield the flag, then the value |
| TestCases.FlagEqualsValue | marshal_test.go:124-125 | `-dashconfig=` and `--dashdashconfig=` on any string, "true" and "false" included, yield the flag and value as one argument |
| TestCases.SliceWithPrefix | marshal_test.go:127 | `--dashconfigslice=` on three strings yields the prefix twice, not the expected single prefix |
| TestCases.PointerSliceWithPrefix | marshal_test.go:128 | `--dashconfigslicep=` on PS of three strings also yields the prefix twice |
| TestCases.FlagWithOption | marshal_test.go:130 | a tag `<flag>,<unknown option>` parses to the flag alone |
| TestCases.JoinIgnored | marshal_test.go:130 | `--dashdashcommajoined,join` sets no separator and yields the flag and the three values, unjoined |
| TestCases.NestedCase | marshal_test.go:156-174 | the nested struct yields ["--config", "true"], and the nil `--trailer` pointer yields nothing |
| TestCases.TrivialCase | marshal_test.go:67-78 | untagged fields yield ["one", "last"], and the nil *string yields nothing |
| TestCases.HardcodedArgsCase | marshal_test.go:90-97 | a struct with its own MarshalArgs yields ["list", "of", "args"], whatever its fields |
| TestCases.EmbedCase | marshal_test.go:176-188 | a struct with MarshalArgs promoted from an embedded ArgsMarshalerFunc yields ["called"], whatever its fields |

## Left out

- The `context.Context` argument is left out. The code only passes it along, and the tag name it selects is always `comm`.
- `MarshalArgs(ctx, data)` at marshal.go:28-30 is not modelled separately, because it only forwards to marshalArgs.
- `MarshalStructFieldError.Error` (the message text) and the text of `errors.New` are left out. Errors are compared by kind, name, index and cause.
- Go's difference between a nil and an empty result slice is left out. Both are the empty sequence, and a nil `[]string` or `[]*string` input is `None`, distinguished only where reflect-zero-ness depends on it.
- A value's own `MarshalArgs` can return arguments together with an error. The model keeps only the error. The exported `MarshalArgs` (marshal.go:29, through marshal.go:55 and marshal.go:100) would also return those arguments to its caller, while the struct walk discards them (marshal.go:285-288).
- The bodies of foreign `MarshalArgs`, `MarshalText`, `String`, `IsEmpty` and `IsZero` methods are left out. Their results are inputs of the model.
- Reflection is left out: how Go finds the methods, kinds and fields of a value. Values of named string or bool types without methods, maps, numbers and functions are all `OtherKind`.
- A cyclic value, such as a pointer that leads back to itself, cannot be written as a Dafny datatype, so such values are left out.
- Dead code is left out: `separatorRegex` (marshal.go:153), the empty-split branch (marshal.go:165-167) and the non-struct check (marshal.go:111-113). None of them can be reached.
- parseSpec's error result is always nil, so the parser is a total function.
- `append(spec.Prepend, dataArgs...)` may write into the spec's own backing array. This is not modelled, because each spec is parsed afresh for one field.
- Stack exhaustion on very deep values and integer limits are left out.
