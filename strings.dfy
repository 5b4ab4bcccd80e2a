/** The few string operations of the Kotlin and JVM standard library that the gateway relies on. */
module Strings {
  import opened Wrappers

  /** Index of the first occurrence of `c` in `s` (`String.indexOf`). */
  function IndexOf(s: string, c: char): (r: Option<nat>)
    ensures r.None? <==> c !in s
    ensures r.Some? ==> r.value < |s| && s[r.value] == c && c !in s[..r.value]
  {
    if |s| == 0 then None
    else if s[0] == c then Some(0)
    else
      match IndexOf(s[1..], c)
      case None => None
      case Some(i) =>
        assert s[..i + 1] == [s[0]] + s[1..][..i];
        Some(i + 1)
  }

  /** `IndexOf` is the first occurrence: any occurrence with none before it is the one found. */
  lemma IndexOfIsFirst(s: string, c: char, i: nat)
    requires i < |s| && s[i] == c && c !in s[..i]
    ensures IndexOf(s, c) == Some(i)
  {
  }

  /** Index of the last occurrence of `c` in `s` (`String.lastIndexOf`). */
  function LastIndexOf(s: string, c: char): (r: Option<nat>)
    ensures r.None? <==> c !in s
    ensures r.Some? ==> r.value < |s| && s[r.value] == c && c !in s[r.value + 1..]
  {
    if |s| == 0 then None
    else if s[|s| - 1] == c then Some(|s| - 1)
    else
      var r := LastIndexOf(s[..|s| - 1], c);
      assert r.Some? ==> s[r.value + 1..] == s[..|s| - 1][r.value + 1..] + [s[|s| - 1]];
      assert r.None? ==> s == s[..|s| - 1] + [s[|s| - 1]];
      r
  }

  /**
   * Kotlin's `substringAfterLast(delimiter, missingDelimiterValue)`: the text after
   * the last `delimiter`, or `missing` when `s` has no `delimiter` at all.
   */
  function SubstringAfterLast(s: string, delimiter: char, missing: string): (r: string)
    ensures delimiter !in s ==> r == missing
    ensures delimiter in s ==>
      delimiter !in r && |r| < |s| && s[|s| - |r| - 1] == delimiter && s[|s| - |r|..] == r
  {
    match LastIndexOf(s, delimiter)
    case None => missing
    case Some(i) => s[i + 1..]
  }

  /** How a Kotlin string template renders a nullable string: `null` becomes the text "null". */
  function Template(m: Option<string>): (r: string)
    ensures m.Some? ==> r == m.value
    ensures m.None? ==> r == "null"
  {
    match m
    case Some(s) => s
    case None => "null"
  }
}
