/** `truncate(str, length, suffix)` */
module Truncation {
  import opened JsValues

  /** The default `suffix` argument. */
  const DefaultSuffix: string := "..."

  function Truncate(input: Value, length: int, suffix: string): (r: string)
    ensures RejectsAsText(input) ==> r == []
  {
    if RejectsAsText(input) then []
    else if length < 0 then input.prim.s
    else if |input.prim.s| > length then input.prim.s[..length] + suffix
    else input.prim.s
  }

  /**
   * A negative length or an input that fits comes back unchanged; a longer
   * input is cut to its first `length` characters followed by the suffix,
   * so the result has length `length + |suffix|`.
   */
  lemma {:induction false} TruncateCases(s: string, length: int, suffix: string)
    requires s != []
    ensures var r := Truncate(P(Str(s)), length, suffix);
      ((length < 0 || |s| <= length) ==> r == s) &&
      (0 <= length < |s| ==>
        |r| == length + |suffix| && r[..length] == s[..length] && r[length..] == suffix)
  {
  }

  /** Length 0 leaves only the suffix. */
  lemma {:induction false} TruncateToZero(s: string, suffix: string)
    requires s != []
    ensures Truncate(P(Str(s)), 0, suffix) == suffix
  {
  }

  /** The result always starts with a prefix of the input, whatever the length. */
  lemma {:induction false} TruncateKeepsPrefix(s: string, length: int, suffix: string)
    requires s != []
    ensures var r := Truncate(P(Str(s)), length, suffix);
      (r == s) || (0 <= length < |s| && r == s[..length] + suffix)
  {
  }
}
