/**
 * The `comm:"..."` struct-tag grammar: the field specification record and the
 * parser that builds one from a tag string (parseSpec in marshal.go).
 *
 * parseSpec's error result is always nil, so the parser is modelled as a total
 * function returning the record itself.
 */
module FieldSpecs {
  import opened Wrappers
  import opened Strings
  import Ptr

  /** fieldSpec: how one struct field is turned into arguments. */
  datatype FieldSpec = FieldSpec(
    omitField: bool,
    omitEmpty: bool,
    singleArgc: Option<string>,
    prepend: seq<string>,
    append: seq<string>,
    separator: Option<string>,
    boolTrue: Option<string>,
    boolFalse: Option<string>)

  /** The spec of an untagged field: no omission and no transformation. */
  const DefaultSpec := FieldSpec(false, false, None, [], [], None, None, None)

  /** The spec of a field tagged `-` or `-,...`. */
  const OmitSpec := DefaultSpec.(omitField := true)

  /**
   * The value part of the last element whose key (the text before its first
   * `=`) is `key`; None when no element has that key. Later elements overwrite
   * earlier ones, so the last one is the one that counts.
   */
  function LastValue(elements: seq<string>, key: string): Option<string> {
    if elements == [] then None
    else
      match Cut(elements[|elements| - 1], '=')
      case Some((k, v)) =>
        if k == key then Some(v) else LastValue(elements[..|elements| - 1], key)
      case None => LastValue(elements[..|elements| - 1], key)
  }

  /** The tag names the field to be left out entirely. */
  predicate OmitsField(tag: string) {
    tag == "-" || HasPrefix(tag, "-,")
  }

  /**
   * The reference definition of the tag grammar. The first comma-separated
   * element, when it starts with `-`, is a single-argument prefix if it ends
   * in `=` and a prepended flag otherwise; every element (the first one
   * included) is then read as `omitempty`, `true=<text>` or `false=<text>`,
   * and anything else is ignored.
   */
  function Parse(tag: string): (spec: FieldSpec)
    ensures tag == "" ==> spec == DefaultSpec
    ensures spec.omitField <==> OmitsField(tag)
    ensures spec.omitField ==> spec == OmitSpec
    ensures |spec.prepend| <= 1 && (spec.prepend != [] ==> spec.singleArgc == None)
    ensures spec.separator == None && spec.append == []
  {
    if tag == "" then DefaultSpec
    else if OmitsField(tag) then OmitSpec
    else
      var elements := Split(tag, ',');
      var first := elements[0];
      var flag := HasPrefix(first, "-");
      FieldSpec(
        omitField := false,
        omitEmpty := "omitempty" in elements,
        singleArgc := if flag && HasSuffix(first, "=") then Some(first) else None,
        prepend := if flag && !HasSuffix(first, "=") then [first] else [],
        append := [],
        separator := None,
        boolTrue := LastValue(elements, "true"),
        boolFalse := LastValue(elements, "false"))
  }

  /** parseSpec: the parser as the source writes it, updating a record element by element. */
  method ParseSpec(tag: string) returns (parsed: FieldSpec)
    ensures parsed == Parse(tag)
  {
    if tag == "" {
      return DefaultSpec;
    }
    if tag == "-" || HasPrefix(tag, "-,") {
      return OmitSpec;
    }

    var elements := Split(tag, ',');
    parsed := DefaultSpec;

    var first := elements[0];
    if HasPrefix(first, "-") {
      if HasSuffix(first, "=") {
        parsed := parsed.(singleArgc := Ptr.P(first));
      } else {
        parsed := parsed.(prepend := parsed.prepend + [first]);
      }
    }

    parsed := ScanElements(elements, parsed);
  }

  /**
   * The loop of parseSpec over all elements, the first one included: records
   * `omitempty` and the last `true=` and `false=` texts, and changes nothing else.
   */
  method ScanElements(elements: seq<string>, start: FieldSpec) returns (parsed: FieldSpec)
    requires !start.omitEmpty && start.boolTrue == None && start.boolFalse == None
    ensures parsed == start.(omitEmpty := "omitempty" in elements,
                             boolTrue := LastValue(elements, "true"),
                             boolFalse := LastValue(elements, "false"))
  {
    parsed := start;
    for i := 0 to |elements|
      invariant parsed == start.(omitEmpty := "omitempty" in elements[..i],
                                 boolTrue := LastValue(elements[..i], "true"),
                                 boolFalse := LastValue(elements[..i], "false"))
    {
      assert elements[..i + 1] == elements[..i] + [elements[i]];
      LastValueStep(elements, i, "true");
      LastValueStep(elements, i, "false");
      match Cut(elements[i], '=')
      case None =>
        if elements[i] == "omitempty" {
          parsed := parsed.(omitEmpty := true);
        }
      case Some((k, v)) =>
        assert '=' in elements[i] && '=' !in "omitempty";
        if k == "true" {
          parsed := parsed.(boolTrue := Ptr.P(v));
        } else if k == "false" {
          parsed := parsed.(boolFalse := Ptr.P(v));
        }
    }
    assert elements[..|elements|] == elements;
  }

  /** One more element: its value counts when its key matches, and otherwise nothing changes. */
  lemma LastValueStep(elements: seq<string>, i: nat, key: string)
    requires i < |elements|
    ensures LastValue(elements[..i + 1], key) ==
      match Cut(elements[i], '=')
      case Some((k, v)) => if k == key then Some(v) else LastValue(elements[..i], key)
      case None => LastValue(elements[..i], key)
  {
    assert elements[..i + 1][..i] == elements[..i];
  }

  /**
   * Key/value elements: when element `k` has key `key` and no later element
   * does, the parsed value is the text after its first `=`, even if that text
   * holds more `=` signs (`true=--some-bool=yes` gives `--some-bool=yes`).
   */
  lemma {:induction false} LastValueWins(elements: seq<string>, key: string, k: nat, value: string)
    requires k < |elements| && elements[k] == key + "=" + value && '=' !in key
    requires forall j :: k < j < |elements| ==> Cut(elements[j], '=') == None || Cut(elements[j], '=').value.0 != key
    ensures LastValue(elements, key) == Some(value)
  {
    var n := |elements| - 1;
    if k == n {
      CutAtFirst(key, value, '=');
    } else {
      assert Cut(elements[n], '=') == None || Cut(elements[n], '=').value.0 != key;
      LastValueWins(elements[..n], key, k, value);
    }
  }

  /** No element with key `key` means no value for it. */
  lemma {:induction false} LastValueAbsent(elements: seq<string>, key: string)
    requires forall j :: 0 <= j < |elements| ==> Cut(elements[j], '=') == None || Cut(elements[j], '=').value.0 != key
    ensures LastValue(elements, key) == None
  {
    if elements != [] {
      LastValueAbsent(elements[..|elements| - 1], key);
    }
  }
}
