/** The optional value used wherever a lookup may find nothing. */
module Wrappers {
  datatype Option<+T> = None | Some(value: T)
}

/**
 * ASCII character classes and case mapping.  The library's regular
 * expressions (`[a-z]`, `\d`, `\s`) and `toLowerCase`/`toUpperCase` are
 * modelled on ASCII only: a character outside ASCII has no case here and is
 * never whitespace.
 */
module Ascii {
  predicate IsLower(c: char) { 'a' <= c <= 'z' }
  predicate IsUpper(c: char) { 'A' <= c <= 'Z' }
  predicate IsAlpha(c: char) { IsLower(c) || IsUpper(c) }
  /** `\d` in a regular expression without the `u` flag. */
  predicate IsDigit(c: char) { '0' <= c <= '9' }
  predicate IsAlnum(c: char) { IsAlpha(c) || IsDigit(c) }

  /** The ASCII members of `\s`: space, tab, line feed, vertical tab, form feed, carriage return. */
  predicate IsSpace(c: char) {
    c == ' ' || c == '\t' || c == '\n' || c == '\r' || c as int == 0x0B || c as int == 0x0C
  }

  function ToLower(c: char): (d: char)
    ensures IsUpper(c) ==> IsLower(d)
    ensures !IsUpper(c) ==> d == c
    ensures !IsUpper(d)
  {
    if IsUpper(c) then (c as int + 32) as char else c
  }

  function ToUpper(c: char): (d: char)
    ensures IsLower(c) ==> IsUpper(d)
    ensures !IsLower(c) ==> d == c
    ensures !IsLower(d)
  {
    if IsLower(c) then (c as int - 32) as char else c
  }

  lemma {:induction false} CaseInsensitive(c: char)
    ensures ToLower(ToUpper(c)) == ToLower(c)
    ensures ToLower(ToLower(c)) == ToLower(c)
    ensures IsSpace(ToUpper(c)) == IsSpace(c) && IsSpace(ToLower(c)) == IsSpace(c)
  {
  }

  /** `s.toLowerCase()` */
  function Lower(s: string): (r: string)
    ensures |r| == |s|
    ensures forall i :: 0 <= i < |s| ==> r[i] == ToLower(s[i])
  {
    seq(|s|, i requires 0 <= i < |s| => ToLower(s[i]))
  }

  /** `s.trimStart()`: drops the leading whitespace run. */
  function TrimStart(s: string): (r: string)
    ensures |r| <= |s| && r == s[|s| - |r|..]
    ensures r != [] ==> !IsSpace(r[0])
    ensures forall i :: 0 <= i < |s| - |r| ==> IsSpace(s[i])
  {
    if s != [] && IsSpace(s[0]) then TrimStart(s[1..]) else s
  }

  /** `s.trimEnd()`: drops the trailing whitespace run. */
  function TrimEnd(s: string): (r: string)
    ensures |r| <= |s| && r == s[..|r|]
    ensures r != [] ==> !IsSpace(r[|r| - 1])
    ensures forall i :: |r| <= i < |s| ==> IsSpace(s[i])
  {
    if s != [] && IsSpace(s[|s| - 1]) then TrimEnd(s[..|s| - 1]) else s
  }

  /** `s.trim()` */
  function Trim(s: string): (r: string)
  {
    TrimEnd(TrimStart(s))
  }

  /** Trimming keeps only characters of the original string. */
  lemma {:induction false} TrimKeepsClass(s: string, q: char -> bool)
    requires forall i :: 0 <= i < |s| ==> q(s[i])
    ensures forall i :: 0 <= i < |Trim(s)| ==> q(Trim(s)[i])
  {
    var ts := TrimStart(s);
    var m := TrimEnd(ts);
    forall i | 0 <= i < |m|
      ensures q(m[i])
    {
      assert m[i] == ts[i];
      assert ts[i] == s[i + |s| - |ts|];
    }
  }

  lemma LowerNoop(s: string)
    requires forall i :: 0 <= i < |s| ==> !IsUpper(s[i])
    ensures Lower(s) == s
  {
  }

  /** Whitespace added around a string does not survive trimming. */
  lemma {:induction false} TrimPadded(w1: string, e: string, w2: string)
    requires forall i :: 0 <= i < |w1| ==> IsSpace(w1[i])
    requires forall i :: 0 <= i < |w2| ==> IsSpace(w2[i])
    ensures Trim(w1 + e + w2) == Trim(e)
  {
    TrimStartPadded(w1, e + w2);
    assert w1 + e + w2 == w1 + (e + w2);
    TrimStartKeepsTail(e, w2);
    TrimEndPadded(TrimStart(e), w2);
  }

  lemma {:induction false} TrimStartPadded(w: string, e: string)
    requires forall i :: 0 <= i < |w| ==> IsSpace(w[i])
    ensures TrimStart(w + e) == TrimStart(e)
  {
    if w != [] {
      assert (w + e)[1..] == w[1..] + e;
      TrimStartPadded(w[1..], e);
    } else {
      assert w + e == e;
    }
  }

  lemma {:induction false} TrimStartKeepsTail(e: string, w: string)
    requires forall i :: 0 <= i < |w| ==> IsSpace(w[i])
    ensures TrimEnd(TrimStart(e + w)) == TrimEnd(TrimStart(e) + w)
  {
    if e == [] {
      assert e + w == w;
      TrimStartPadded(w, []);
      assert w + [] == w;
      TrimEndPadded([], w);
      assert [] + w == w;
      assert TrimStart(e + w) == [] && TrimEnd(TrimStart(e) + w) == [];
    } else if IsSpace(e[0]) {
      assert (e + w)[0] == e[0] && (e + w)[1..] == e[1..] + w;
      assert TrimStart(e + w) == TrimStart(e[1..] + w);
      assert TrimStart(e) == TrimStart(e[1..]);
      TrimStartKeepsTail(e[1..], w);
    } else {
      assert (e + w)[0] == e[0];
      assert TrimStart(e + w) == e + w && TrimStart(e) == e;
    }
  }

  lemma {:induction false} TrimEndPadded(e: string, w: string)
    requires forall i :: 0 <= i < |w| ==> IsSpace(w[i])
    ensures TrimEnd(e + w) == TrimEnd(e)
  {
    if w != [] {
      assert (e + w)[..|e + w| - 1] == e + w[..|w| - 1];
      TrimEndPadded(e, w[..|w| - 1]);
    } else {
      assert e + w == e;
    }
  }
}

/** Decimal numerals: how a non-negative integer is written, and read back. */
module Numerals {
  import opened Ascii

  function DigitChar(d: nat): (c: char)
    requires d < 10
    ensures IsDigit(c)
  {
    ('0' as int + d) as char
  }

  function DigitValue(c: char): nat
  {
    if IsDigit(c) then c as int - '0' as int else 0
  }

  /** `String(n)` for a non-negative integer. */
  function NatToString(n: nat): (r: string)
    ensures |r| >= 1
    ensures forall i :: 0 <= i < |r| ==> IsDigit(r[i])
    ensures |r| > 1 ==> r[0] != '0'
    decreases n
  {
    if n < 10 then [DigitChar(n)] else NatToString(n / 10) + [DigitChar(n % 10)]
  }

  /** The value of a string of decimal digits, read left to right. */
  function ParseNat(s: string): nat
  {
    if s == [] then 0 else ParseNat(s[..|s| - 1]) * 10 + DigitValue(s[|s| - 1])
  }

  /** Reading back a written number gives the number. */
  lemma {:induction false} ParseNatToString(n: nat)
    ensures ParseNat(NatToString(n)) == n
  {
    var s := NatToString(n);
    if n < 10 {
      assert s[..|s| - 1] == [];
    } else {
      assert s[..|s| - 1] == NatToString(n / 10);
      ParseNatToString(n / 10);
    }
  }

  lemma {:induction false} NatToStringInjective(m: nat, n: nat)
    requires NatToString(m) == NatToString(n)
    ensures m == n
  {
    ParseNatToString(m);
    ParseNatToString(n);
  }
}

/** The JavaScript values the library's functions receive, without the heap. */
module JsValues {
  import opened Ascii

  /** Primitive values; numbers are modelled as integers (no NaN, no -0, no fractions). */
  datatype Prim = Undefined | Null | Bool(b: bool) | Num(n: int) | Str(s: string)

  /** A value is a primitive or a reference to a heap object (an id in the heap arena). */
  datatype Value = P(prim: Prim) | Ref(id: nat)

  /** The result of `typeof` (functions and symbols are not modelled). */
  datatype TypeTag = TUndefined | TObject | TBoolean | TNumber | TString

  function TypeOf(v: Value): TypeTag
  {
    match v
    case Ref(_) => TObject
    case P(Undefined) => TUndefined
    case P(Null) => TObject
    case P(Bool(_)) => TBoolean
    case P(Num(_)) => TNumber
    case P(Str(_)) => TString
  }

  /** `v == null` (loose equality), true for null and undefined. */
  predicate IsNullish(v: Value) { v == P(Null) || v == P(Undefined) }

  /** `!v` */
  predicate Falsy(v: Value)
  {
    v == P(Undefined) || v == P(Null) || v == P(Bool(false)) || v == P(Num(0)) || v == P(Str(""))
  }

  /** The guard `!str || typeof str !== 'string'` that the string helpers start with. */
  predicate RejectsAsText(v: Value)
    ensures !RejectsAsText(v) ==> v.P? && v.prim.Str? && v.prim.s != ""
  {
    Falsy(v) || TypeOf(v) != TString
  }

  lemma {:induction false} RejectsAsTextExactly(v: Value)
    ensures !RejectsAsText(v) <==> v.P? && v.prim.Str? && v.prim.s != ""
  {
  }
}

/** String building blocks shared by the string helpers and the validators. */
module Text {
  import opened Ascii

  /** The first index whose character satisfies `p`, or `|s|`. */
  function FirstIndex(s: string, p: char -> bool): (i: nat)
    ensures i <= |s|
    ensures i < |s| ==> p(s[i])
    ensures forall j :: 0 <= j < i ==> !p(s[j])
  {
    if s == [] then 0 else if p(s[0]) then 0 else 1 + FirstIndex(s[1..], p)
  }

  /** `s` without its leading run of characters satisfying `p`. */
  function DropWhile(s: string, p: char -> bool): (r: string)
    ensures |r| <= |s| && r == s[|s| - |r|..]
    ensures r != [] ==> !p(r[0])
    ensures s != [] && p(s[0]) ==> |r| < |s|
    ensures forall i :: 0 <= i < |s| - |r| ==> p(s[i])
  {
    s[FirstIndex(s, c => !p(c))..]
  }

  lemma {:induction false} DropWhileNoop(s: string, p: char -> bool)
    requires s == [] || !p(s[0])
    ensures DropWhile(s, p) == s
  {
  }

  function Concat(xs: seq<string>): string
  {
    if xs == [] then [] else xs[0] + Concat(xs[1..])
  }

  lemma {:induction false} ConcatOne(x: string)
    ensures Concat([x]) == x
  {
    assert Concat([x]) == x + Concat([]);
  }

  lemma {:induction false} ConcatAppend(a: seq<string>, b: seq<string>)
    ensures Concat(a + b) == Concat(a) + Concat(b)
  {
    if a == [] {
      assert a + b == b;
    } else {
      assert (a + b)[1..] == a[1..] + b;
      ConcatAppend(a[1..], b);
    }
  }

  /** Character `i` of part `k` sits in the concatenation after the parts before it. */
  lemma {:induction false} ConcatAt(xs: seq<string>, k: nat, i: nat)
    requires k < |xs| && i < |xs[k]|
    ensures |Concat(xs[..k])| + i < |Concat(xs)|
    ensures Concat(xs)[|Concat(xs[..k])| + i] == xs[k][i]
  {
    assert xs == xs[..k] + ([xs[k]] + xs[k + 1..]);
    ConcatAppend(xs[..k], [xs[k]] + xs[k + 1..]);
    assert Concat([xs[k]] + xs[k + 1..]) == xs[k] + Concat(xs[k + 1..]) by {
      assert ([xs[k]] + xs[k + 1..])[1..] == xs[k + 1..];
    }
  }

  /** Every character of a concatenation comes from one of its parts. */
  lemma {:induction false} ConcatChars(xs: seq<string>, q: char -> bool)
    requires forall k :: 0 <= k < |xs| ==> forall i :: 0 <= i < |xs[k]| ==> q(xs[k][i])
    ensures forall i :: 0 <= i < |Concat(xs)| ==> q(Concat(xs)[i])
  {
    if xs != [] {
      ConcatChars(xs[1..], q);
    }
  }

  /** `s.split(re)` where `re` is `[class]+`: the pieces between maximal runs of `p`. */
  function SplitRuns(s: string, p: char -> bool): (parts: seq<string>)
    ensures |parts| >= 1
    ensures forall k :: 0 <= k < |parts| ==> forall i :: 0 <= i < |parts[k]| ==> !p(parts[k][i])
    decreases |s|
  {
    var i := FirstIndex(s, p);
    if i == |s| then [s]
    else [s[..i]] + SplitRuns(DropWhile(s[i..], p), p)
  }

  /** Every piece after the first starts right after a separator run, so it is non-empty unless it is the last. */
  lemma {:induction false} SplitRunsInteriorNonEmpty(s: string, p: char -> bool, k: nat)
    requires s == [] || !p(s[0])
    requires 0 <= k < |SplitRuns(s, p)| - 1
    ensures SplitRuns(s, p)[k] != []
    decreases |s|
  {
    var i := FirstIndex(s, p);
    if i == |s| {
      SplitRunsLast(s, p);
    } else if k == 0 {
      SplitRunsFirstNonEmpty(s, p);
    } else {
      var rest := SplitRunsStep(s, p);
      SplitRunsInteriorNonEmpty(rest, p, k - 1);
      assert SplitRuns(s, p)[k] == SplitRuns(rest, p)[k - 1];
    }
  }

  lemma {:induction false} SplitRunsFirstNonEmpty(s: string, p: char -> bool)
    requires s != [] && !p(s[0])
    ensures SplitRuns(s, p)[0] != []
  {
    var i := FirstIndex(s, p);
    if i < |s| {
      var rest := SplitRunsStep(s, p);
      assert s[0] == s[..i][0];
    }
  }

  lemma {:induction false} SplitRunsLast(s: string, p: char -> bool)
    requires FirstIndex(s, p) == |s|
    ensures SplitRuns(s, p) == [s]
  {
  }

  lemma {:induction false} SplitRunsStep(s: string, p: char -> bool) returns (rest: string)
    requires FirstIndex(s, p) < |s|
    ensures rest == DropWhile(s[FirstIndex(s, p)..], p) && |rest| < |s| && (rest == [] || !p(rest[0]))
    ensures SplitRuns(s, p) == [s[..FirstIndex(s, p)]] + SplitRuns(rest, p)
    ensures forall k :: 0 < k < |SplitRuns(s, p)| ==> SplitRuns(s, p)[k] == SplitRuns(rest, p)[k - 1]
  {
    rest := DropWhile(s[FirstIndex(s, p)..], p);
  }

  lemma {:induction false} ConcatCons(x: string, tail: seq<string>)
    ensures Concat([x] + tail) == x + Concat(tail)
  {
    assert ([x] + tail)[1..] == tail;
  }

  /**
   * Joining the pieces of SplitRuns gives `s` back without its separator
   * characters: nothing else is lost or added. `q` is the complement of `p`.
   */
  lemma {:induction false} SplitRunsConcat(s: string, p: char -> bool, q: char -> bool)
    requires forall c :: q(c) == !p(c)
    ensures Concat(SplitRuns(s, p)) == Filter(s, q)
    decreases |s|
  {
    var i := FirstIndex(s, p);
    if i == |s| {
      FilterAll(s, q);
      ConcatOne(s);
    } else {
      var rest := SplitRunsStep(s, p);
      SplitRunsConcat(rest, p, q);
      ConcatCons(s[..i], SplitRuns(rest, p));
      FilterAtRun(s, i, p, q);
    }
  }

  /** Filtering around the first run of `p`, all of which `q` drops. */
  lemma {:induction false} FilterAtRun(s: string, i: nat, p: char -> bool, q: char -> bool)
    requires forall c :: q(c) == !p(c)
    requires i == FirstIndex(s, p) < |s|
    ensures Filter(s, q) == s[..i] + Filter(DropWhile(s[i..], p), q)
  {
    var pre, t := s[..i], s[i..];
    var rest := DropWhile(t, p);
    var run := t[..|t| - |rest|];
    assert t == run + rest;
    assert s == pre + t;
    assert forall k :: 0 <= k < |pre| ==> pre[k] == s[k];
    calc {
      Filter(s, q);
      { FilterAppend(pre, t, q); }
      Filter(pre, q) + Filter(t, q);
      { FilterAll(pre, q); FilterAppend(run, rest, q); }
      pre + (Filter(run, q) + Filter(rest, q));
      { RunFiltersOut(t, rest, p, q); assert Filter(run, q) == []; }
      pre + ([] + Filter(rest, q));
      { assert [] + Filter(rest, q) == Filter(rest, q); }
      pre + Filter(rest, q);
    }
  }

  /** The run DropWhile removes from `t` holds only characters of `p`, so `q` keeps none of them. */
  lemma {:induction false} RunFiltersOut(t: string, rest: string, p: char -> bool, q: char -> bool)
    requires forall c :: q(c) == !p(c)
    requires rest == DropWhile(t, p)
    ensures Filter(t[..|t| - |rest|], q) == []
  {
    var run := t[..|t| - |rest|];
    assert forall k :: 0 <= k < |run| ==> run[k] == t[k];
    FilterNone(run, q);
  }

  /** Dropping a leading run of `p` drops nothing `q` keeps. */
  lemma {:induction false} DropWhileFilter(s: string, p: char -> bool, q: char -> bool)
    requires forall c :: q(c) == !p(c)
    ensures Filter(DropWhile(s, p), q) == Filter(s, q)
  {
    var d := DropWhile(s, p);
    FilterDropsPrefix(s, |s| - |d|, q);
  }

  /** A prefix with nothing `q` keeps can be dropped before filtering. */
  lemma {:induction false} FilterDropsPrefix(s: string, k: nat, q: char -> bool)
    requires k <= |s| && forall i :: 0 <= i < k ==> !q(s[i])
    ensures Filter(s, q) == Filter(s[k..], q)
  {
    if k > 0 {
      assert s[1..][k - 1..] == s[k..];
      FilterDropsPrefix(s[1..], k - 1, q);
    }
  }

  /** `s.split(/(class+)/)`: like SplitRuns, but the runs themselves are kept as pieces too. */
  function SplitKeepingRuns(s: string, p: char -> bool): (parts: seq<string>)
    ensures |parts| >= 1
    decreases |s|
  {
    var i := FirstIndex(s, p);
    if i == |s| then [s]
    else
      var rest := DropWhile(s[i..], p);
      [s[..i], s[i..|s| - |rest|]] + SplitKeepingRuns(rest, p)
  }

  lemma {:induction false} Concat2(a: string, b: string, tail: seq<string>)
    ensures Concat([a, b] + tail) == a + (b + Concat(tail))
  {
    assert ([a, b] + tail)[1..] == [b] + tail;
    assert ([b] + tail)[1..] == tail;
  }

  /** Splitting while keeping the runs loses nothing. */
  lemma {:induction false} SplitKeepingRunsConcat(s: string, p: char -> bool)
    ensures Concat(SplitKeepingRuns(s, p)) == s
    decreases |s|
  {
    var i := FirstIndex(s, p);
    if i == |s| {
      ConcatOne(s);
    } else {
      var rest := DropWhile(s[i..], p);
      var j := |s| - |rest|;
      DropWhileSuffix(s, i, p);
      assert SplitKeepingRuns(s, p) == [s[..i], s[i..j]] + SplitKeepingRuns(rest, p);
      SplitKeepingRunsConcat(rest, p);
      Concat2(s[..i], s[i..j], SplitKeepingRuns(rest, p));
      SliceThree(s, i, j);
    }
  }

  /** What remains after dropping a run from position `i` is a suffix of `s`, shorter when a run starts at `i`. */
  lemma {:induction false} DropWhileSuffix(s: string, i: nat, p: char -> bool)
    requires i <= |s|
    ensures var rest := DropWhile(s[i..], p);
      |rest| <= |s| - i && rest == s[|s| - |rest|..] && (i < |s| && p(s[i]) ==> |rest| < |s| - i)
  {
    var t := s[i..];
    var rest := DropWhile(t, p);
    assert i < |s| ==> t[0] == s[i];
    assert rest == t[|t| - |rest|..];
    assert i + (|t| - |rest|) == |s| - |rest|;
  }

  lemma {:induction false} SliceThree(s: string, i: nat, j: nat)
    requires i <= j <= |s|
    ensures s == s[..i] + (s[i..j] + s[j..])
  {
  }

  /** Each kept piece is either a whole run of `p` characters or free of them. */
  lemma {:induction false} SplitKeepingRunsPieces(s: string, p: char -> bool, k: nat)
    requires k < |SplitKeepingRuns(s, p)|
    ensures var w := SplitKeepingRuns(s, p)[k];
      (forall i :: 0 <= i < |w| ==> !p(w[i])) || (w != [] && forall i :: 0 <= i < |w| ==> p(w[i]))
    decreases |s|
  {
    var i := FirstIndex(s, p);
    if i < |s| && k >= 2 {
      var rest := DropWhile(s[i..], p);
      SplitKeepingRunsPieces(rest, p, k - 2);
    }
  }

  /** `s.split(c)` for each single character satisfying `p` (no run merging). */
  function SplitEach(s: string, p: char -> bool): (parts: seq<string>)
    ensures |parts| >= 1
    ensures forall k :: 0 <= k < |parts| ==> forall i :: 0 <= i < |parts[k]| ==> !p(parts[k][i])
    decreases |s|
  {
    var i := FirstIndex(s, p);
    if i == |s| then [s] else [s[..i]] + SplitEach(s[i + 1..], p)
  }

  /**
   * Joining the pieces of SplitEach gives `s` back without the split
   * characters, and there is one piece more than there are split
   * characters. `q` is the complement of `p`.
   */
  lemma {:induction false} SplitEachConcat(s: string, p: char -> bool, q: char -> bool)
    requires forall c :: q(c) == !p(c)
    ensures Concat(SplitEach(s, p)) == Filter(s, q)
    ensures |SplitEach(s, p)| == |Filter(s, p)| + 1
    decreases |s|
  {
    var i := FirstIndex(s, p);
    if i == |s| {
      FilterAll(s, q);
      FilterNone(s, p);
      ConcatOne(s);
    } else {
      var pre, rest := s[..i], s[i + 1..];
      SplitEachCut(s, p);
      SplitEachConcat(rest, p, q);
      ConcatCons(pre, SplitEach(rest, p));
      FilterAtSplit(s, i, p, q);
    }
  }

  /** Filtering around the first character of `p`, which `q` drops and `p` keeps. */
  lemma {:induction false} FilterAtSplit(s: string, i: nat, p: char -> bool, q: char -> bool)
    requires forall c :: q(c) == !p(c)
    requires i == FirstIndex(s, p) < |s|
    ensures Filter(s, q) == s[..i] + Filter(s[i + 1..], q)
    ensures |Filter(s, p)| == 1 + |Filter(s[i + 1..], p)|
  {
    var pre, x, rest := s[..i], s[i], s[i + 1..];
    assert s == pre + [x] + rest;
    FilterAround(pre, x, rest, q);
    FilterAround(pre, x, rest, p);
    FilterAll(pre, q);
    FilterNone(pre, p);
    assert Filter([x], q) == [] && Filter([x], p) == [x];
  }

  lemma {:induction false} SplitEachNone(s: string, p: char -> bool)
    requires forall i :: 0 <= i < |s| ==> !p(s[i])
    ensures SplitEach(s, p) == [s]
  {
  }

  /** The first piece of a split ends at the first character satisfying `p`. */
  lemma {:induction false} SplitEachAt(w: string, sep: char, rest: string, p: char -> bool)
    requires p(sep) && forall i :: 0 <= i < |w| ==> !p(w[i])
    ensures SplitEach(w + [sep] + rest, p) == [w] + SplitEach(rest, p)
  {
    var s := w + [sep] + rest;
    assert s[|w|] == sep;
    assert forall j :: 0 <= j < |w| ==> s[j] == w[j];
    assert FirstIndex(s, p) == |w|;
    assert s[..|w|] == w;
    assert s[|w| + 1..] == rest;
  }

  /** A string that holds a character satisfying `p` is its first piece, that character and the rest. */
  lemma {:induction false} SplitEachCut(s: string, p: char -> bool)
    requires FirstIndex(s, p) < |s|
    ensures var i := FirstIndex(s, p);
      SplitEach(s, p) == [s[..i]] + SplitEach(s[i + 1..], p) && s == s[..i] + [s[i]] + s[i + 1..]
  {
  }

  /** `parts.filter(part => part.length > 0)` */
  function NonEmpty(parts: seq<string>): (r: seq<string>)
    ensures |r| <= |parts|
    ensures forall k :: 0 <= k < |r| ==> r[k] != [] && r[k] in parts
  {
    if parts == [] then []
    else if parts[0] == [] then NonEmpty(parts[1..])
    else [parts[0]] + NonEmpty(parts[1..])
  }

  /** `s.replace(/[^class]/g, '')`, i.e. the characters of `s` that satisfy `p`. */
  function Filter(s: string, p: char -> bool): (r: string)
    ensures |r| <= |s|
    ensures forall i :: 0 <= i < |r| ==> p(r[i])
  {
    if s == [] then [] else (if p(s[0]) then [s[0]] else []) + Filter(s[1..], p)
  }

  lemma {:induction false} FilterAll(s: string, p: char -> bool)
    requires forall i :: 0 <= i < |s| ==> p(s[i])
    ensures Filter(s, p) == s
  {
    if s != [] {
      FilterAll(s[1..], p);
    }
  }

  lemma {:induction false} FilterNone(s: string, p: char -> bool)
    requires forall i :: 0 <= i < |s| ==> !p(s[i])
    ensures Filter(s, p) == []
  {
    if s != [] {
      FilterNone(s[1..], p);
    }
  }

  /** Filtering distributes over concatenation. */
  lemma {:induction false} FilterAppend(a: string, b: string, p: char -> bool)
    ensures Filter(a + b, p) == Filter(a, p) + Filter(b, p)
  {
    if a != [] {
      assert (a + b)[1..] == a[1..] + b;
      FilterAppend(a[1..], b, p);
    } else {
      assert a + b == b;
    }
  }

  /** Filtering around one character. */
  lemma {:induction false} FilterAround(a: string, c: char, b: string, q: char -> bool)
    ensures Filter(a + [c] + b, q) == Filter(a, q) + Filter([c], q) + Filter(b, q)
  {
    FilterAppend(a, [c], q);
    FilterAppend(a + [c], b, q);
  }

  /** `s.replace(/[class]+/g, d)`: each maximal run of `p` becomes `d`. */
  function CollapseRuns(s: string, p: char -> bool, d: string): (r: string)
    decreases |s|
  {
    if s == [] then []
    else if p(s[0]) then d + CollapseRuns(DropWhile(s, p), p, d)
    else [s[0]] + CollapseRuns(s[1..], p, d)
  }

  /** What CollapseRuns emits is a character of `s` that is not in the class, or a character of `d`. */
  lemma {:induction false} CollapseRunsChars(s: string, p: char -> bool, d: string, q: char -> bool)
    requires forall i :: 0 <= i < |s| ==> p(s[i]) || q(s[i])
    requires forall i :: 0 <= i < |d| ==> q(d[i])
    ensures forall i :: 0 <= i < |CollapseRuns(s, p, d)| ==> q(CollapseRuns(s, p, d)[i])
    decreases |s|
  {
    if s != [] {
      if p(s[0]) {
        CollapseRunsChars(DropWhile(s, p), p, d, q);
      } else {
        CollapseRunsChars(s[1..], p, d, q);
      }
    }
  }

  lemma {:induction false} CollapseRunsNoop(s: string, p: char -> bool, d: string)
    requires forall i :: 0 <= i < |s| ==> !p(s[i])
    ensures CollapseRuns(s, p, d) == s
  {
    if s != [] {
      CollapseRunsNoop(s[1..], p, d);
    }
  }

  /** `s.includes(ab)` for a two-character string `ab`. */
  predicate HasPair(s: string, a: char, b: char)
  {
    exists i :: 0 <= i < |s| - 1 && s[i] == a && s[i + 1] == b
  }

  function Count(s: string, c: char): nat
  {
    if s == [] then 0 else (if s[0] == c then 1 else 0) + Count(s[1..], c)
  }

  lemma {:induction false} CountAppend(a: string, b: string, c: char)
    ensures Count(a + b, c) == Count(a, c) + Count(b, c)
  {
    if a == [] {
      assert a + b == b;
    } else {
      assert (a + b)[1..] == a[1..] + b;
      CountAppend(a[1..], b, c);
    }
  }

  lemma {:induction false} CountAbsent(s: string, c: char)
    requires forall i :: 0 <= i < |s| ==> s[i] != c
    ensures Count(s, c) == 0
  {
    if s != [] {
      CountAbsent(s[1..], c);
    }
  }
}
