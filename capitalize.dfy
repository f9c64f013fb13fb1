/** `capitalize(str, allWords)` over ASCII character sequences. */
module Capitalization {
  import opened Ascii
  import opened JsValues
  import opened Text

  /** The class `[_-]` that allWords mode turns into spaces. */
  predicate IsWordJoiner(c: char) { c == '_' || c == '-' }

  /** `str.replace(/[_-]/g, ' ')` */
  function JoinersToSpaces(s: string): (r: string)
    ensures |r| == |s|
    ensures forall i :: 0 <= i < |s| ==> r[i] == if IsWordJoiner(s[i]) then ' ' else s[i]
  {
    seq(|s|, i requires 0 <= i < |s| => if IsWordJoiner(s[i]) then ' ' else s[i])
  }

  /** The first character upper-cased and the rest lower-cased. */
  function UpperFirst(w: string): (r: string)
    requires w != []
  {
    [ToUpper(w[0])] + Lower(w[1..])
  }

  /** The callback given to `map`: whitespace runs and words not starting with a letter are kept. */
  function CapitalizeToken(w: string): string
  {
    if w != [] && (forall i :: 0 <= i < |w| ==> IsSpace(w[i])) then w
    else if w != [] && IsAlpha(w[0]) then UpperFirst(w)
    else w
  }

  function CapitalizeTokens(ws: seq<string>): (r: seq<string>)
    ensures |r| == |ws|
    ensures forall k :: 0 <= k < |ws| ==> r[k] == CapitalizeToken(ws[k])
  {
    seq(|ws|, k requires 0 <= k < |ws| => CapitalizeToken(ws[k]))
  }

  /** The tokens of allWords mode: `normalized.split(/(\s+)/)`. */
  function Tokens(s: string): seq<string>
  {
    SplitKeepingRuns(JoinersToSpaces(s), IsSpace)
  }

  /** `capitalize(str, allWords)` */
  function Capitalize(input: Value, allWords: bool): (r: string)
    ensures RejectsAsText(input) ==> r == []
  {
    if RejectsAsText(input) then []
    else if allWords then Concat(CapitalizeTokens(Tokens(input.prim.s)))
    else UpperFirst(input.prim.s)
  }

  /**
   * Character `c` of the output stands where `d` stood: whitespace is kept
   * exactly, anything else stays non-whitespace and equal up to case.
   */
  predicate SameUpToCase(d: char, c: char)
  {
    (IsSpace(d) ==> c == d) && (!IsSpace(d) ==> !IsSpace(c) && ToLower(c) == ToLower(d))
  }

  lemma {:induction false} UpperFirstUpToCase(w: string)
    requires w != []
    ensures |UpperFirst(w)| == |w|
    ensures forall i :: 0 <= i < |w| ==> SameUpToCase(w[i], UpperFirst(w)[i])
  {
    var r := UpperFirst(w);
    forall i | 0 <= i < |w|
      ensures SameUpToCase(w[i], r[i])
    {
      CaseInsensitive(w[i]);
    }
  }

  lemma {:induction false} CapitalizeTokenUpToCase(w: string)
    ensures |CapitalizeToken(w)| == |w|
    ensures forall i :: 0 <= i < |w| ==> SameUpToCase(w[i], CapitalizeToken(w)[i])
  {
    if w != [] && !(forall i :: 0 <= i < |w| ==> IsSpace(w[i])) && IsAlpha(w[0]) {
      UpperFirstUpToCase(w);
    }
  }

  lemma {:induction false} ConcatTokensUpToCase(ws: seq<string>)
    ensures |Concat(CapitalizeTokens(ws))| == |Concat(ws)|
    ensures forall i :: 0 <= i < |Concat(ws)| ==> SameUpToCase(Concat(ws)[i], Concat(CapitalizeTokens(ws))[i])
  {
    if ws != [] {
      var cs := CapitalizeTokens(ws);
      assert cs[1..] == CapitalizeTokens(ws[1..]);
      ConcatTokensUpToCase(ws[1..]);
      CapitalizeTokenUpToCase(ws[0]);
      var a := Concat(ws);
      var b := Concat(cs);
      assert a == ws[0] + Concat(ws[1..]);
      assert b == cs[0] + Concat(cs[1..]);
      forall i | 0 <= i < |a|
        ensures SameUpToCase(a[i], b[i])
      {
        if i >= |ws[0]| {
          assert a[i] == Concat(ws[1..])[i - |ws[0]|];
          assert b[i] == Concat(cs[1..])[i - |ws[0]|];
        }
      }
    }
  }

  /**
   * allWords mode keeps the input's length, turns every '_' and '-' into a
   * space, keeps every whitespace character in place, and changes nothing
   * else but letter case.
   */
  lemma {:induction false} AllWordsPointwise(s: string)
    requires s != []
    ensures var r := Capitalize(P(Str(s)), true);
      |r| == |s| &&
      forall i :: 0 <= i < |s| ==>
        (IsWordJoiner(s[i]) ==> r[i] == ' ') &&
        (IsSpace(s[i]) ==> r[i] == s[i]) &&
        (!IsWordJoiner(s[i]) && !IsSpace(s[i]) ==> !IsSpace(r[i]) && ToLower(r[i]) == ToLower(s[i]))
  {
    AllWordsUpToCase(s);
    var n := JoinersToSpaces(s);
    var r := Capitalize(P(Str(s)), true);
    forall i | 0 <= i < |s|
      ensures (IsWordJoiner(s[i]) ==> r[i] == ' ') &&
        (IsSpace(s[i]) ==> r[i] == s[i]) &&
        (!IsWordJoiner(s[i]) && !IsSpace(s[i]) ==> !IsSpace(r[i]) && ToLower(r[i]) == ToLower(s[i]))
    {
      assert SameUpToCase(n[i], r[i]);
    }
  }

  /** allWords mode changes the joiner-normalised text only up to case, keeping its whitespace. */
  lemma {:induction false} AllWordsUpToCase(s: string)
    requires s != []
    ensures var r := Capitalize(P(Str(s)), true); var n := JoinersToSpaces(s);
      |r| == |n| && forall i :: 0 <= i < |n| ==> SameUpToCase(n[i], r[i])
  {
    var n, ws := JoinersToSpaces(s), Tokens(s);
    var r := Concat(CapitalizeTokens(ws));
    assert Capitalize(P(Str(s)), true) == r;
    SplitKeepingRunsConcat(n, IsSpace);
    assert Concat(ws) == n;
    ConcatTokensUpToCase(ws);
    assert |r| == |n| && forall i :: 0 <= i < |n| ==> SameUpToCase(n[i], r[i]);
  }

  /** Each token is a whitespace run, kept as is, or a word holding no whitespace, capitalised when it starts with a letter. */
  lemma {:induction false} AllWordsTokens(s: string, k: nat)
    requires s != [] && k < |Tokens(s)|
    ensures var w := Tokens(s)[k]; var c := CapitalizeToken(w);
      (w != [] && (forall i :: 0 <= i < |w| ==> IsSpace(w[i])) && c == w) ||
      ((forall i :: 0 <= i < |w| ==> !IsSpace(w[i])) &&
       (w != [] && IsAlpha(w[0]) ==> c == [ToUpper(w[0])] + Lower(w[1..])) &&
       (w == [] || !IsAlpha(w[0]) ==> c == w))
  {
    SplitKeepingRunsPieces(JoinersToSpaces(s), IsSpace, k);
    var w := Tokens(s)[k];
    if w != [] && IsAlpha(w[0]) {
      assert !IsSpace(w[0]);
    }
  }

  /** Default mode: the first character upper-cased, the rest lower-cased, the length kept. */
  lemma {:induction false} FirstLetterMode(s: string)
    requires s != []
    ensures var r := Capitalize(P(Str(s)), false);
      |r| == |s| && r[0] == ToUpper(s[0]) &&
      (forall i :: 1 <= i < |s| ==> r[i] == ToLower(s[i]) && !IsUpper(r[i]))
  {
  }
}
