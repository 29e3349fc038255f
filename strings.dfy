/**
 * The parts of Go's `strings` package that the tag parser and the token
 * assembly rely on: HasPrefix, HasSuffix, SplitN(s, sep, 2) (as Cut), Split
 * and Join, for a one-character separator.
 */
module Strings {
  import opened Wrappers

  predicate HasPrefix(s: string, prefix: string) {
    prefix <= s
  }

  predicate HasSuffix(s: string, suffix: string) {
    |suffix| <= |s| && s[|s| - |suffix|..] == suffix
  }

  /**
   * SplitN(s, [c], 2): the text before the first `c` and the text after it,
   * or None when `s` holds no `c` (SplitN then returns `[s]`).
   */
  function Cut(s: string, c: char): (r: Option<(string, string)>)
    ensures r.None? <==> c !in s
    ensures r.Some? ==> r.value.0 + [c] + r.value.1 == s && c !in r.value.0
  {
    if s == [] then None
    else if s[0] == c then Some(([], s[1..]))
    else
      match Cut(s[1..], c)
      case None => None
      case Some((before, after)) =>
        assert s == [s[0]] + s[1..];
        Some(([s[0]] + before, after))
  }

  /** Join: the parts, with `sep` between neighbours. */
  function Join(parts: seq<string>, sep: string): (s: string)
    ensures |parts| == 1 ==> s == parts[0]
  {
    if parts == [] then ""
    else if |parts| == 1 then parts[0]
    else parts[0] + sep + Join(parts[1..], sep)
  }

  /** Split: the maximal pieces of `s` between occurrences of `c`. */
  function Split(s: string, c: char): (parts: seq<string>)
    ensures |parts| >= 1
    ensures forall i :: 0 <= i < |parts| ==> c !in parts[i]
    ensures Join(parts, [c]) == s
    decreases |s|
  {
    match Cut(s, c)
    case None => [s]
    case Some((before, after)) =>
      var rest := Split(after, c);
      assert ([before] + rest)[1..] == rest;
      [before] + rest
  }

  /** Cutting at the first `c`, when `before` holds none, gives back `before` and `after`. */
  lemma {:induction false} CutAtFirst(before: string, after: string, c: char)
    requires c !in before
    ensures Cut(before + [c] + after, c) == Some((before, after))
  {
    if before != [] {
      assert (before + [c] + after)[1..] == before[1..] + [c] + after;
      CutAtFirst(before[1..], after, c);
      assert [before[0]] + before[1..] == before;
    }
  }

  /** Split peels off the text before the first `c` as its first piece. */
  lemma SplitAtFirst(before: string, after: string, c: char)
    requires c !in before
    ensures Split(before + [c] + after, c) == [before] + Split(after, c)
  {
    CutAtFirst(before, after, c);
  }
}
