/**
 * `camelCase`, `kebabCase`, `snakeCase` and `pascalCase`: regular-expression
 * replace chains re-expressed as functions over ASCII character sequences.
 */
module CaseConversion {
  import opened Ascii
  import opened JsValues
  import opened Text

  /** The class `[\s_-]`. */
  predicate IsWordSeparator(c: char) { IsSpace(c) || c == '_' || c == '-' }

  predicate IsWordChar(c: char) { !IsWordSeparator(c) }

  /** `/^[a-z][a-zA-Z]*$/` */
  predicate IsCamelWord(s: string)
  {
    |s| > 0 && IsLower(s[0]) && forall i :: 1 <= i < |s| ==> IsAlpha(s[i])
  }

  /** How camelCase rewrites a segment after the first: upper-case first character, camel words keep the rest. */
  function CamelSegment(part: string): (r: string)
    ensures |r| == |part|
    ensures part != [] ==> r[0] == ToUpper(part[0])
    ensures Lower(r) == Lower(part)
    ensures forall i :: 1 <= i < |r| ==> r[i] == part[i] || !IsUpper(r[i])
    ensures IsCamelWord(part) ==> forall i :: 1 <= i < |r| ==> r[i] == part[i]
  {
    if part == [] then []
    else if IsCamelWord(part) then [ToUpper(part[0])] + part[1..]
    else [ToUpper(part[0])] + Lower(part[1..])
  }

  function CamelSegments(parts: seq<string>): (r: seq<string>)
    ensures |r| == |parts|
    ensures forall k :: 0 <= k < |r| ==> r[k] == CamelSegment(parts[k])
  {
    seq(|parts|, k requires 0 <= k < |parts| => CamelSegment(parts[k]))
  }

  /** `str.replace(/^[\s_-]+/, '').split(/[\s_-]+/)` */
  function CamelParts(str: string): seq<string>
  {
    SplitRuns(DropWhile(str, IsWordSeparator), IsWordSeparator)
  }

  /** `camelCase(str)` */
  function CamelCase(input: Value): (r: string)
    ensures RejectsAsText(input) ==> r == []
  {
    if RejectsAsText(input) then [] else CamelWords(DropWhile(input.prim.s, IsWordSeparator))
  }

  /** camelCase once the leading separators are gone. */
  function CamelWords(trimmed: string): string
  {
    if trimmed == [] then []
    else if IsCamelWord(trimmed) then trimmed
    else
      var parts := SplitRuns(trimmed, IsWordSeparator);
      if |parts| == 1 then Lower(parts[0]) else Joined(parts)
  }

  /** Input already in camel form comes back unchanged. */
  lemma {:induction false} CamelCaseFastPath(s: string)
    requires IsCamelWord(s)
    ensures CamelCase(P(Str(s))) == s
  {
    assert !IsWordSeparator(s[0]);
    DropWhileNoop(s, IsWordSeparator);
  }

  lemma {:induction false} LowerAppend(a: string, b: string)
    ensures Lower(a + b) == Lower(a) + Lower(b)
  {
  }

  lemma {:induction false} LowerConcatSegments(parts: seq<string>)
    ensures Lower(Concat(CamelSegments(parts))) == Lower(Concat(parts))
  {
    if parts != [] {
      var segs := CamelSegments(parts);
      assert segs[1..] == CamelSegments(parts[1..]);
      LowerConcatSegments(parts[1..]);
      LowerAppend(segs[0], Concat(segs[1..]));
      LowerAppend(parts[0], Concat(parts[1..]));
    }
  }

  lemma {:induction false} ConcatSameLengths(xs: seq<string>, ys: seq<string>)
    requires |xs| == |ys|
    requires forall k :: 0 <= k < |xs| ==> |xs[k]| == |ys[k]|
    ensures |Concat(xs)| == |Concat(ys)|
  {
    if xs != [] {
      ConcatSameLengths(xs[1..], ys[1..]);
    }
  }

  lemma {:induction false} LowerKeepsNonSeparators(s: string)
    requires forall i :: 0 <= i < |s| ==> !IsWordSeparator(s[i])
    ensures forall i :: 0 <= i < |Lower(s)| ==> !IsWordSeparator(Lower(s)[i])
  {
  }

  lemma {:induction false} CamelWordsNoSeparators(trimmed: string)
    ensures forall i :: 0 <= i < |CamelWords(trimmed)| ==> !IsWordSeparator(CamelWords(trimmed)[i])
  {
    var r := CamelWords(trimmed);
    if trimmed != [] && !IsCamelWord(trimmed) {
      var parts := SplitRuns(trimmed, IsWordSeparator);
      LowerKeepsNonSeparators(parts[0]);
      if |parts| > 1 {
        var segs := CamelSegments(parts[1..]);
        SegmentsKeepNonSeparators(parts[1..]);
        ConcatChars(segs, c => !IsWordSeparator(c));
        assert r == Lower(parts[0]) + Concat(segs);
      } else {
        assert r == Lower(parts[0]);
      }
    }
  }

  lemma {:induction false} SegmentsKeepNonSeparators(parts: seq<string>)
    requires forall k :: 0 <= k < |parts| ==> forall i :: 0 <= i < |parts[k]| ==> !IsWordSeparator(parts[k][i])
    ensures var segs := CamelSegments(parts);
      forall k :: 0 <= k < |segs| ==> forall i :: 0 <= i < |segs[k]| ==> !IsWordSeparator(segs[k][i])
  {
    var segs := CamelSegments(parts);
    forall k | 0 <= k < |segs|
      ensures forall i :: 0 <= i < |segs[k]| ==> !IsWordSeparator(segs[k][i])
    {
      var part := parts[k];
      assert forall i :: 0 <= i < |part| ==> !IsWordSeparator(part[i]);
      assert segs[k] == CamelSegment(part);
    }
  }

  /** The output contains no whitespace, '_' or '-'. */
  lemma {:induction false} CamelCaseNoSeparators(input: Value)
    ensures forall i :: 0 <= i < |CamelCase(input)| ==> !IsWordSeparator(CamelCase(input)[i])
  {
    if !RejectsAsText(input) {
      CamelWordsNoSeparators(DropWhile(input.prim.s, IsWordSeparator));
    }
  }

  lemma {:induction false} CamelWordsLetters(trimmed: string)
    ensures Lower(CamelWords(trimmed)) == Lower(Concat(SplitRuns(trimmed, IsWordSeparator)))
  {
    var parts := SplitRuns(trimmed, IsWordSeparator);
    if trimmed == [] {
      SplitRunsLast(trimmed, IsWordSeparator);
      ConcatOne(trimmed);
    } else if IsCamelWord(trimmed) {
      CamelWordWhole(trimmed);
      ConcatOne(trimmed);
    } else if |parts| == 1 {
      assert parts == [parts[0]];
      ConcatOne(parts[0]);
    } else {
      JoinedLetters(parts);
    }
  }

  /** A camel word holds no separator, so it is a single part. */
  lemma {:induction false} CamelWordWhole(w: string)
    requires IsCamelWord(w)
    ensures SplitRuns(w, IsWordSeparator) == [w]
  {
    forall i | 0 <= i < |w|
      ensures !IsWordSeparator(w[i])
    {
      assert i == 0 || IsAlpha(w[i]);
    }
    assert FirstIndex(w, IsWordSeparator) == |w|;
    SplitRunsLast(w, IsWordSeparator);
  }

  /** Joining parts changes only letter case. */
  lemma {:induction false} JoinedLetters(parts: seq<string>)
    requires |parts| >= 1
    ensures Lower(Joined(parts)) == Lower(Concat(parts))
  {
    var segs := CamelSegments(parts[1..]);
    LowerConcatSegments(parts[1..]);
    LowerAppend(parts[0], Concat(segs));
    LowerAppend(parts[0], Concat(parts[1..]));
  }

  /**
   * camelCase only changes letter case and removes the separators:
   * case-insensitively it is the parts joined, that is, the input without
   * its whitespace, `_` and `-`.
   */
  lemma {:induction false} CamelCaseLetters(input: Value)
    requires !RejectsAsText(input)
    ensures Lower(CamelCase(input)) == Lower(Concat(CamelParts(input.prim.s)))
    ensures Lower(CamelCase(input)) == Lower(Filter(input.prim.s, IsWordChar))
  {
    var s := input.prim.s;
    var d := DropWhile(s, IsWordSeparator);
    CamelWordsLetters(d);
    SplitRunsConcat(d, IsWordSeparator, IsWordChar);
    DropWhileFilter(s, IsWordSeparator, IsWordChar);
  }

  /**
   * The layout of camelCase's output `r` over the parts it was built from:
   * it starts with the first part lower-cased; every later non-empty part
   * starts at the sum of the lengths before it, and that position holds the
   * part's first character upper-cased; only the last part can be empty.
   */
  predicate SegmentLayout(parts: seq<string>, r: string)
    requires |parts| >= 1
  {
    |parts[0]| <= |r| && r[..|parts[0]|] == Lower(parts[0]) &&
    (forall k :: 1 <= k < |parts| - 1 ==> parts[k] != []) &&
    (forall k :: 1 <= k < |parts| && parts[k] != [] ==>
      |Concat(parts[..k])| < |r| && r[|Concat(parts[..k])|] == ToUpper(parts[k][0]))
  }

  lemma {:induction false} CamelWordsSegments(trimmed: string)
    requires trimmed != [] && !IsCamelWord(trimmed) && !IsWordSeparator(trimmed[0])
    ensures SegmentLayout(SplitRuns(trimmed, IsWordSeparator), CamelWords(trimmed))
  {
    var parts := SplitRuns(trimmed, IsWordSeparator);
    var r := CamelWords(trimmed);
    forall k | 1 <= k < |parts| - 1
      ensures parts[k] != []
    {
      SplitRunsInteriorNonEmpty(trimmed, IsWordSeparator, k);
    }
    if |parts| == 1 {
      assert r == Lower(parts[0]);
    } else {
      assert r == Joined(parts);
      forall k | 1 <= k < |parts| && parts[k] != []
        ensures |Concat(parts[..k])| < |r| && r[|Concat(parts[..k])|] == ToUpper(parts[k][0])
      {
        JoinedSegmentStart(parts, k);
      }
    }
  }

  /** The first part lower-cased followed by the later parts rewritten as segments. */
  function Joined(parts: seq<string>): string
    requires |parts| >= 1
  {
    Lower(parts[0]) + Concat(CamelSegments(parts[1..]))
  }

  lemma {:induction false} JoinedSegmentStart(parts: seq<string>, k: nat)
    requires 1 <= k < |parts| && parts[k] != []
    ensures |Concat(parts[..k])| < |Joined(parts)|
    ensures Joined(parts)[|Concat(parts[..k])|] == ToUpper(parts[k][0])
  {
    var tail := parts[1..];
    var segs := CamelSegments(tail);
    var low, cs := Lower(parts[0]), Concat(segs);
    PrefixLength(parts, k);
    ConcatSameLengths(segs[..k - 1], tail[..k - 1]);
    ConcatAt(segs, k - 1, 0);
    var q := |Concat(segs[..k - 1])|;
    assert |Concat(parts[..k])| == |low| + q;
    assert Joined(parts) == low + cs;
    assert cs[q] == CamelSegment(parts[k])[0];
    assert (low + cs)[|low| + q] == cs[q];
  }

  lemma {:induction false} PrefixLength(parts: seq<string>, k: nat)
    requires 1 <= k <= |parts|
    ensures |Concat(parts[..k])| == |parts[0]| + |Concat(parts[1..][..k - 1])|
  {
    assert parts[..k] == [parts[0]] + parts[1..][..k - 1];
    ConcatAppend([parts[0]], parts[1..][..k - 1]);
    assert Concat([parts[0]]) == parts[0] + Concat([]);
  }

  /** When the input splits into several parts, the output follows their segment layout. */
  lemma {:induction false} CamelCaseSegments(input: Value)
    requires !RejectsAsText(input)
    requires var trimmed := DropWhile(input.prim.s, IsWordSeparator);
      trimmed != [] && !IsCamelWord(trimmed)
    ensures SegmentLayout(CamelParts(input.prim.s), CamelCase(input))
  {
    CamelWordsSegments(DropWhile(input.prim.s, IsWordSeparator));
  }

  /** `pascalCase(str)` */
  function PascalCase(input: Value): (r: string)
    ensures RejectsAsText(input) ==> r == []
  {
    if RejectsAsText(input) then []
    else
      var camel := CamelCase(input);
      if camel == [] then camel else [ToUpper(camel[0])] + camel[1..]
  }

  /** pascalCase is camelCase with its first character upper-cased. */
  lemma {:induction false} PascalIsCapitalisedCamel(input: Value)
    ensures var c := CamelCase(input); var r := PascalCase(input);
      |r| == |c| && (c != [] ==> r[0] == ToUpper(c[0]) && r[1..] == c[1..])
  {
  }

  /** `s.replace(/([a-z])([A-Z])/g, '$1' + d + '$2')` */
  function SplitHumps(s: string, d: char): (r: string)
    decreases |s|
  {
    if |s| >= 2 && IsLower(s[0]) && IsUpper(s[1]) then [s[0], d, s[1]] + SplitHumps(s[2..], d)
    else if s == [] then []
    else [s[0]] + SplitHumps(s[1..], d)
  }

  /** Without upper-case letters there is no hump to split. */
  lemma {:induction false} SplitHumpsNoop(s: string, d: char)
    requires forall i :: 0 <= i < |s| ==> !IsUpper(s[i])
    ensures SplitHumps(s, d) == s
    decreases |s|
  {
    if s != [] {
      SplitHumpsNoop(s[1..], d);
    }
  }

  /** The chain shared by kebabCase and snakeCase: split humps with `d`, turn runs of `p` into `d`, lower-case. */
  function Delimit(s: string, d: char, p: char -> bool): string
  {
    Lower(CollapseRuns(SplitHumps(s, d), p, [d]))
  }

  /** Delimit leaves no character of the collapsed class and no upper-case letter. */
  lemma {:induction false} DelimitShape(s: string, d: char, p: char -> bool)
    requires !p(d)
    requires forall c :: IsLower(c) ==> !p(c)
    ensures var r := Delimit(s, d, p);
      forall i :: 0 <= i < |r| ==> !p(r[i]) && !IsUpper(r[i])
  {
    var h := SplitHumps(s, d);
    CollapseRunsChars(h, p, [d], c => !p(c));
  }

  /** Delimit applied to its own output changes nothing. */
  lemma {:induction false} DelimitIdempotent(s: string, d: char, p: char -> bool)
    requires !p(d)
    requires forall c :: IsLower(c) ==> !p(c)
    ensures Delimit(Delimit(s, d, p), d, p) == Delimit(s, d, p)
  {
    var t := Delimit(s, d, p);
    DelimitShape(s, d, p);
    SplitHumpsNoop(t, d);
    CollapseRunsNoop(t, p, [d]);
  }

  /** The class `[\s_]`. */
  predicate IsSpaceOrUnderscore(c: char) { IsSpace(c) || c == '_' }

  /** The class `[\s-]`. */
  predicate IsSpaceOrDash(c: char) { IsSpace(c) || c == '-' }

  /** `kebabCase(str)` */
  function KebabCase(input: Value): (r: string)
    ensures RejectsAsText(input) ==> r == []
  {
    if RejectsAsText(input) then [] else Delimit(input.prim.s, '-', IsSpaceOrUnderscore)
  }

  /** `snakeCase(str)` */
  function SnakeCase(input: Value): (r: string)
    ensures RejectsAsText(input) ==> r == []
  {
    if RejectsAsText(input) then [] else Delimit(input.prim.s, '_', IsSpaceOrDash)
  }

  lemma {:induction false} KebabCaseShape(input: Value)
    ensures var r := KebabCase(input);
      forall i :: 0 <= i < |r| ==> !IsSpace(r[i]) && r[i] != '_' && !IsUpper(r[i])
  {
    if !RejectsAsText(input) {
      DelimitShape(input.prim.s, '-', IsSpaceOrUnderscore);
    }
  }

  lemma {:induction false} SnakeCaseShape(input: Value)
    ensures var r := SnakeCase(input);
      forall i :: 0 <= i < |r| ==> !IsSpace(r[i]) && r[i] != '-' && !IsUpper(r[i])
  {
    if !RejectsAsText(input) {
      DelimitShape(input.prim.s, '_', IsSpaceOrDash);
    }
  }

  lemma {:induction false} KebabCaseIdempotent(input: Value)
    ensures KebabCase(P(Str(KebabCase(input)))) == KebabCase(input)
  {
    if !RejectsAsText(input) {
      DelimitIdempotent(input.prim.s, '-', IsSpaceOrUnderscore);
    }
  }

  lemma {:induction false} SnakeCaseIdempotent(input: Value)
    ensures SnakeCase(P(Str(SnakeCase(input)))) == SnakeCase(input)
  {
    if !RejectsAsText(input) {
      DelimitIdempotent(input.prim.s, '_', IsSpaceOrDash);
    }
  }
}
