/**
 * The cases of marshal_test.go, worked out on the model. Tags are passed as
 * parameters fixed by a `requires`, which keeps the verifier from unfolding
 * the parser on the literal text.
 */
module TestCases {
  import opened Wrappers
  import opened Strings
  import opened Values
  import opened FieldSpecs
  import opened Encoding
  import opened EncodingFacts
  import Ptr

  // ------------------------------------------------------------- primitives

  /** A []*string holding nils yields the strings of the non-nil elements only. */
  lemma StringPointersWithNils(ps: seq<Option<string>>)
    requires ps == [Some("head"), None, None, Some("tail"), None]
    ensures Encode(StrPtrs(Some(ps))) == Ok(["head", "tail"])
  {
    Ptr.PresentAppend([Some("head"), None, None], [Some("tail"), None]);
    assert [Some("head"), None, None] == [Some("head")] + [None, None];
    Ptr.PresentAppend([Some("head")], [None, None]);
    Ptr.PresentAllNil<string>([None, None]);
    Ptr.PresentAppend([Some("tail")], [None]);
    Ptr.PresentAllNil<string>([None]);
    assert ps == [Some("head"), None, None] + [Some("tail"), None];
    assert [Some("tail"), None] == [Some("tail")] + [None];
    assert [Some("head")][..0] == [] && [Some("tail")][..0] == [];
    assert Ptr.Present([Some("head")]) == ["head"];
    assert Ptr.Present([Some("tail")]) == ["tail"];
    assert Ptr.Present([Some("head"), None, None]) == ["head"];
    assert Ptr.Present([Some("tail"), None]) == ["tail"];
    assert Ptr.Present(ps) == ["head", "tail"];
    StringPointersKeepPresent(ps, "");
  }

  /** A map is not a supported kind: an error and no arguments. */
  lemma UnsupportedMap()
    ensures Encode(Typed(NoMethods, OtherKind(false))).Err?
  {
  }

  /** An untagged string field yields the string, even "true" or "false". */
  lemma UntaggedString(s: string)
    ensures EncodeSpec("", Str(s)) == Ok([s])
  {
    OneArgument(DefaultSpec, Str(s), s);
    assert [] + [s] + [] == [s];
  }

  // ----------------------------------------------------------- omit field

  /** `-` and `-,foo,k=v,eee,,` leave the field out, whatever it holds. */
  lemma OmittedTags(tag: string, v: Value)
    requires tag == "-" || tag == "-,foo,k=v,eee,,"
    ensures EncodeSpec(tag, v) == Ok([])
  {
    assert OmitsField(tag);
  }

  /** The spec of a tag `key=value,rest` whose key holds neither `,` nor `=` nor starts with `-`. */
  lemma KeyValueTag(tag: string, key: string, value: string, rest: string)
    requires tag == key + "=" + value + "," + rest
    requires key != [] && key[0] != '-' && ',' !in key && '=' !in key && ',' !in value && ',' !in rest && '=' !in rest
    requires rest != "omitempty"
    ensures Parse(tag) == DefaultSpec.(boolTrue := LastValue([key + "=" + value, rest], "true"),
                                       boolFalse := LastValue([key + "=" + value, rest], "false"))
    ensures LastValue([key + "=" + value, rest], key) == Some(value)
  {
    var first := key + "=" + value;
    assert ',' !in first;
    assert tag == first + [','] + rest;
    SplitAtFirst(first, rest, ',');
    assert Split(tag, ',') == [first, rest];
    assert first[0] == key[0];
    assert !OmitsField(tag) && !HasPrefix(first, "-");
    assert first != "omitempty" by {
      CutAtFirst(key, value, '=');
    }
    LastValueWins([first, rest], key, 0, value);
  }

  /** A tag `key=value,rest` cut into its three parts at the given positions of `=` and `,`. */
  lemma KeyValueParts(tag: string, eq: nat, comma: nat) returns (key: string, value: string, rest: string)
    requires eq < comma < |tag| && tag[eq] == '=' && tag[comma] == ','
    ensures key == tag[..eq] && value == tag[eq + 1..comma] && rest == tag[comma + 1..]
    ensures tag == key + "=" + value + "," + rest
  {
    key, value, rest := tag[..eq], tag[eq + 1..comma], tag[comma + 1..];
    assert tag == tag[..eq] + [tag[eq]] + tag[eq + 1..comma] + [tag[comma]] + tag[comma + 1..];
  }

  /** `true=--dry-run,eee` on false: "false" is dropped because only a true text is given. */
  lemma DryRunFalse(tag: string)
    requires tag == "true=--dry-run,eee"
    ensures EncodeSpec(tag, Bool(false)) == Ok([])
  {
    var key, text, rest := KeyValueParts(tag, 4, 14);
    TrueTextOnly(tag, text, rest);
    OneArgument(DefaultSpec.(boolTrue := Some(text)), Bool(false), "false");
  }

  /** A tag `true=<text>,<rest>` with a non-empty text and a plain `rest` only sets the true text. */
  lemma TrueTextOnly(tag: string, text: string, rest: string)
    requires tag == "true" + "=" + text + "," + rest
    requires text != "" && ',' !in text && ',' !in rest && '=' !in rest && rest != "omitempty"
    ensures Parse(tag) == DefaultSpec.(boolTrue := Some(text))
  {
    var key := "true";
    KeyValueTag(tag, key, text, rest);
    CutAtFirst(key, text, '=');
    assert Cut(rest, '=') == None;
    LastValueAbsent([key + "=" + text, rest], "false");
  }

  /** A tag `<flag>,omitempty` sets omitempty and does not omit the field. */
  lemma OmitEmptyFlag(tag: string, flag: string)
    requires |flag| >= 2 && flag[0] == '-' && ',' !in flag && tag == flag + ",omitempty"
    ensures !Parse(tag).omitField && Parse(tag).omitEmpty
  {
    var rest := tag[|flag| + 1..];
    assert rest == "omitempty" && ',' !in rest;
    assert tag == flag + [','] + rest;
    SplitAtFirst(flag, rest, ',');
    assert Split(rest, ',') == [rest];
    assert Split(tag, ',') == [flag, rest];
    assert tag[1] == flag[1] && flag[1] in flag;
    assert !OmitsField(tag);
  }

  /** `--no-value=,omitempty` on "": the empty string is omitted. */
  lemma NoValueEmpty(tag: string)
    requires tag == "--no-value=,omitempty"
    ensures EncodeSpec(tag, Str("")) == Ok([])
  {
    OmitEmptyFlag(tag, tag[..11]);
    OmitEmpty(Parse(tag), Str(""));
  }

  /** `--omittedbecauseemptyslice` on a nil []string: no arguments, so no flag either. */
  lemma FlagOnNilSlice(tag: string)
    requires tag == "--omittedbecauseemptyslice"
    ensures EncodeSpec(tag, Strs(None)) == Ok([])
  {
    PlainFlagSpec(tag);
    NoArguments(DefaultSpec.(prepend := [tag]), Strs(None));
  }

  /** `true=--some-bool=yes` on true: the text after the first `=`, itself holding a `=`. */
  lemma SomeBoolTrue(tag: string, key: string, value: string)
    requires key == "true" && value == "--some-bool=yes" && tag == key + "=" + value
    ensures EncodeSpec(tag, Bool(true)) == Ok([value])
  {
    assert ',' !in tag;
    assert Split(tag, ',') == [tag];
    assert tag[0] == 't' && !OmitsField(tag) && !HasPrefix(tag, "-");
    LastValueWins([tag], key, 0, value);
    CutAtFirst(key, value, '=');
    LastValueAbsent([tag], "false");
    assert tag != "omitempty";
    OneArgument(Parse(tag), Bool(true), "true");
    assert [] + [value] + [] == [value];
  }

  /** The fields of the "omit field" case, tags first. */
  predicate OmitFieldStruct(tags: seq<string>, fields: seq<Field>) {
    && tags == ["-", "-,foo,k=v,eee,,", "true=--dry-run,eee", "--no-value=,omitempty",
                "--omittedbecauseemptyslice", "true=--some-bool=yes", ""]
    && fields == [
      Field("OmittedField", true, tags[0], false, Str("omitted")),
      Field("OmittedFieldWithExtra", true, tags[1], false, Str("also omitted")),
      Field("OmittedFieldBool", true, tags[2], false, Bool(false)),
      Field("OmittedBecauseEmpty", true, tags[3], false, Str("")),
      Field("OmittedBecauseEmptySlice", true, tags[4], false, Strs(None)),
      Field("SomeBool", true, tags[5], false, Bool(true)),
      Field("SomeField", true, tags[6], false, Str("some field"))]
  }

  /** The first five fields of the "omit field" case yield nothing. */
  lemma OmittedFields(tags: seq<string>, fields: seq<Field>)
    requires OmitFieldStruct(tags, fields)
    ensures EncodeFields(fields[..5]) == Ok([])
  {
    OmittedTags(fields[0].tag, fields[0].value);
    OmittedTags(fields[1].tag, fields[1].value);
    DryRunFalse(fields[2].tag);
    NoValueEmpty(fields[3].tag);
    FlagOnNilSlice(fields[4].tag);
    assert fields[..0] == [];
    WalkStep(fields, 0, [], []);
    WalkStep(fields, 1, [], []);
    WalkStep(fields, 2, [], []);
    WalkStep(fields, 3, [], []);
    WalkStep(fields, 4, [], []);
  }

  /** The last two fields of the "omit field" case each yield their argument. */
  lemma KeptFields(tags: seq<string>, fields: seq<Field>, someBool: seq<string>, someField: seq<string>)
    requires OmitFieldStruct(tags, fields) && EncodeFields(fields[..5]) == Ok([])
    requires someBool == ["--some-bool=yes"] && someField == ["some field"]
    ensures EncodeFields(fields) == Ok(someBool + someField)
  {
    SomeBoolTrue(fields[5].tag, "true", "--some-bool=yes");
    WalkStep(fields, 5, [], someBool);
    assert [] + someBool == someBool;
    UntaggedString(fields[6].value.s);
    WalkStep(fields, 6, someBool, someField);
    assert fields[..7] == fields;
  }

  /**
   * The "omit field" case: of seven tagged fields only SomeBool and SomeField
   * yield arguments.
   */
  lemma OmitFieldCase(tags: seq<string>, fields: seq<Field>)
    requires OmitFieldStruct(tags, fields)
    ensures Encode(Typed(NoMethods, StructKind(fields))) == Ok(["--some-bool=yes", "some field"])
  {
    OmittedFields(tags, fields);
    var someBool, someField := ["--some-bool=yes"], ["some field"];
    KeptFields(tags, fields, someBool, someField);
    assert someBool + someField == ["--some-bool=yes", "some field"];
  }

  // ----------------------------------------------------------- spec basic

  /** A single-element tag starting `-`: a flag to put before the arguments, or a `--flag=` prefix. */
  lemma FlagTag(tag: string)
    requires |tag| >= 2 && tag[0] == '-' && ',' !in tag
    ensures !Parse(tag).omitField && !Parse(tag).omitEmpty
    ensures HasSuffix(tag, "=") ==> Parse(tag).singleArgc == Some(tag) && Parse(tag).prepend == []
    ensures !HasSuffix(tag, "=") ==> Parse(tag).singleArgc == None && Parse(tag).prepend == [tag]
    ensures Parse(tag).boolTrue == None && Parse(tag).boolFalse == None
  {
    FlagHasNoKey(tag, "true");
    FlagHasNoKey(tag, "false");
    assert Split(tag, ',') == [tag];
    assert tag[1] in tag;
    assert !OmitsField(tag);
    assert tag != "omitempty";
  }

  /** An element starting with `-` has no `true` or `false` key, whatever follows its `=`. */
  lemma FlagHasNoKey(tag: string, key: string)
    requires tag != [] && tag[0] == '-' && key != [] && key[0] != '-'
    ensures LastValue([tag], key) == None
  {
    match Cut(tag, '=')
    case None =>
    case Some((k, v)) =>
      assert k + "=" + v == tag;
      assert k != [] && k[0] == '-';
      assert k != key;
  }

  /** `--flag` or `-flag` with a string: the flag, then the value. */
  lemma FlagThenValue(tag: string, value: string)
    requires |tag| >= 2 && tag[0] == '-' && ',' !in tag && !HasSuffix(tag, "=")
    ensures EncodeSpec(tag, Str(value)) == Ok([tag, value])
  {
    FlagTag(tag);
    var spec := Parse(tag);
    assert spec == DefaultSpec.(prepend := [tag]);
    OneArgument(spec, Str(value), value);
    assert spec.prepend + [value] + [] == [tag, value];
  }

  /** `--flag=` or `-flag=` with a string: one argument, the flag and the value run together. */
  lemma FlagEqualsValue(tag: string, value: string)
    requires |tag| >= 2 && tag[0] == '-' && ',' !in tag && HasSuffix(tag, "=")
    ensures EncodeSpec(tag, Str(value)) == Ok([tag + value])
  {
    FlagTag(tag);
    var spec := Parse(tag);
    assert spec == DefaultSpec.(singleArgc := Some(tag));
    OneArgument(spec, Str(value), value);
    assert [] + [tag + value] + [] == [tag + value];
  }

  /**
   * `--dashconfigslice=` on three strings: the prefix is applied once while
   * the values are joined and once more on the joined argument, so the
   * result is not the single-prefixed argument marshal_test.go expects.
   */
  lemma SliceWithPrefix(tag: string, values: seq<string>, joined: string)
    requires tag == "--dashconfigslice=" && values == ["value1", "value2", "value3"]
    requires joined == "value1 value2 value3"
    ensures EncodeSpec(tag, Strs(Some(values))) == Ok([tag + tag + joined])
    ensures EncodeSpec(tag, Strs(Some(values))) != Ok([tag + joined])
  {
    PrefixedSlice(tag, Strs(Some(values)), values, joined);
    assert |tag + tag + joined| != |tag + joined|;
  }

  /** `--dashconfigslicep=` on PS of three strings behaves as the []string field does. */
  lemma PointerSliceWithPrefix(tag: string, values: seq<string>, ps: seq<Option<string>>, joined: string)
    requires tag == "--dashconfigslicep=" && values == ["value1", "value2", "value3"]
    requires |ps| == |values| && forall i :: 0 <= i < |ps| ==> ps[i] == Ptr.P(values[i])
    requires joined == "value1 value2 value3"
    ensures EncodeSpec(tag, StrPtrs(Some(ps))) == Ok([tag + tag + joined])
  {
    Ptr.PresentOfWrapped(values, ps);
    PrefixedSlice(tag, StrPtrs(Some(ps)), values, joined);
  }

  /** A `--flag=` tag on a value yielding the three strings of the "spec basic" case. */
  lemma PrefixedSlice(tag: string, v: Value, values: seq<string>, joined: string)
    requires |tag| >= 2 && tag[0] == '-' && ',' !in tag && HasSuffix(tag, "=")
    requires values == ["value1", "value2", "value3"] && joined == "value1 value2 value3"
    requires Encode(v) == Ok(values)
    ensures EncodeSpec(tag, v) == Ok([tag + tag + joined])
  {
    FlagTag(tag);
    var spec := Parse(tag);
    assert spec.singleArgc == Some(tag);
    assert Join(values[2..], " ") == "value3";
    assert Join(values[1..], " ") == "value2 value3";
    assert Join(values, " ") == joined;
    TaggedField(tag, v, values);
  }

  /**
   * `--dashdashcommajoined,join` on three strings: `join` is not an option
   * the parser knows, so the values stay separate after the flag instead of
   * being joined with commas.
   */
  lemma JoinIgnored(tag: string, flag: string, values: seq<string>)
    requires flag == "--dashdashcommajoined" && tag == flag + ",join" && values == ["value1", "value2", "value3"]
    ensures Parse(tag).separator == None
    ensures EncodeSpec(tag, Strs(Some(values))) == Ok([flag] + values)
  {
    FlagWithOption(tag, flag, tag[|flag| + 1..]);
    PlainSpecField(DefaultSpec.(prepend := [flag]), Strs(Some(values)), values);
  }

  /** A tag `<flag>,<option>` whose option the parser does not know is just the flag. */
  lemma FlagWithOption(tag: string, flag: string, option: string)
    requires |flag| >= 2 && flag[0] == '-' && ',' !in flag && '=' !in flag
    requires ',' !in option && '=' !in option && option != "omitempty"
    requires tag == flag + [','] + option
    ensures Parse(tag) == DefaultSpec.(prepend := [flag])
  {
    SplitAtFirst(flag, option, ',');
    assert Cut(option, ',') == None;
    assert Split(tag, ',') == [flag, option];
    assert tag[1] == flag[1] && flag[1] in flag;
    assert !OmitsField(tag);
    assert !HasSuffix(flag, "=") by {
      assert flag[|flag| - 1] in flag;
    }
    assert flag != "omitempty";
    assert Cut(flag, '=') == None && Cut(option, '=') == None;
    LastValueAbsent([flag, option], "true");
    LastValueAbsent([flag, option], "false");
  }

  // ---------------------------------------------------- nested and trivial

  /** A single-element tag `--flag` without `=` is just a flag put before the arguments. */
  lemma PlainFlagSpec(tag: string)
    requires |tag| >= 2 && tag[0] == '-' && ',' !in tag && '=' !in tag
    ensures Parse(tag) == DefaultSpec.(prepend := [tag])
  {
    FlagTag(tag);
    assert !HasSuffix(tag, "=") by {
      assert tag[|tag| - 1] in tag;
    }
    assert Split(tag, ',') == [tag];
    assert Cut(tag, '=') == None;
    LastValueAbsent([tag], "true");
    LastValueAbsent([tag], "false");
    assert Parse(tag).boolTrue == None && Parse(tag).boolFalse == None;
  }

  /** A `--flag` tag without bool texts on true: the flag, then "true". */
  lemma FlagThenTrue(tag: string)
    requires |tag| >= 2 && tag[0] == '-' && ',' !in tag && '=' !in tag
    ensures EncodeSpec(tag, Bool(true)) == Ok([tag, "true"])
  {
    PlainFlagSpec(tag);
    var spec := DefaultSpec.(prepend := [tag]);
    OneArgument(spec, Bool(true), "true");
    assert spec.prepend + ["true"] + [] == [tag, "true"];
  }

  /** The "nested" case: the inner struct's `--config` bool, and nothing for the nil `--trailer` pointer. */
  lemma NestedCase(config: string, trailer: string, inner: seq<Field>, fields: seq<Field>)
    requires config == "--config" && trailer == "--trailer"
    requires inner == [Field("NestedThing", true, config, false, Bool(true))]
    requires fields == [
      Field("Foo", true, "", false, Typed(NoMethods, StructKind(inner))),
      Field("TopLevelTrailer", true, trailer, false, StrPtr(None))]
    ensures Encode(Typed(NoMethods, StructKind(fields))) == Ok([config, "true"])
  {
    var configArgs := [config, "true"];
    FlagThenTrue(config);
    assert inner[..0] == [];
    WalkStep(inner, 0, [], configArgs);
    assert [] + configArgs == configArgs;
    assert inner[..1] == inner;
    assert fields[0].value == Typed(NoMethods, StructKind(inner));
    assert Encode(fields[0].value) == EncodeFields(inner);
    PlainSpecField(DefaultSpec, fields[0].value, configArgs);
    assert fields[..0] == [];
    assert EncodeSpec("", fields[0].value) == Ok(configArgs);
    WalkStep(fields, 0, [], configArgs);
    PlainFlagSpec(trailer);
    NoArguments(DefaultSpec.(prepend := [trailer]), StrPtr(None));
    WalkStep(fields, 1, configArgs, []);
    assert fields[..2] == fields;
  }

  /** The "trivial type" case: untagged fields in order, the nil *string yielding nothing. */
  lemma TrivialCase(fields: seq<Field>)
    requires fields == [
      Field("Field1", true, "", false, Str("one")),
      Field("Field2", true, "", false, StrPtr(None)),
      Field("Positional", true, "", false, Strs(Some(["last"])))]
    ensures Encode(Typed(NoMethods, StructKind(fields))) == Ok(["one", "last"])
  {
    var one, last := ["one"], ["last"];
    UntaggedString("one");
    assert fields[..0] == [];
    WalkStep(fields, 0, [], one);
    assert [] + one == one;
    NoArguments(DefaultSpec, StrPtr(None));
    WalkStep(fields, 1, one, []);
    PlainSpecField(DefaultSpec, fields[2].value, last);
    assert [] + last == last;
    WalkStep(fields, 2, one, last);
    assert fields[..3] == fields;
    assert one + last == ["one", "last"];
  }

  /**
   * The "ArgsMarshaler" case: a struct with its own MarshalArgs yields exactly
   * what that method returns; none of its fields is looked at.
   */
  lemma HardcodedArgsCase(methods: Methods, fields: seq<Field>, args: seq<string>)
    requires args == ["list", "of", "args"]
    requires methods == NoMethods.(marshalArgs := Some(Ok(args)))
    ensures Encode(Typed(methods, StructKind(fields))) == Ok(args)
  {
    MarshalerFirst(methods, StructKind(fields));
  }

  /**
   * The "embed" case: MarshalArgs promoted from an embedded ArgsMarshalerFunc
   * is the struct's own, so the struct yields what the function returns.
   */
  lemma EmbedCase(methods: Methods, fields: seq<Field>, args: seq<string>)
    requires args == ["called"]
    requires methods == NoMethods.(marshalArgs := Some(Ok(args)))
    ensures Encode(Typed(methods, StructKind(fields))) == Ok(args)
  {
    MarshalerFirst(methods, StructKind(fields));
  }
}
