/**
 * `slugify(str, separator)`: the replace chain over ASCII character
 * sequences.  Unicode NFD normalization is the identity here; the removal
 * of the combining marks U+0300..U+036F is kept as written.
 */
module Slug {
  import opened Ascii
  import opened JsValues
  import opened Text

  /** The combining diacritical marks U+0300..U+036F. */
  predicate IsCombiningMark(c: char) { 0x300 <= c as int <= 0x36F }

  predicate NotCombiningMark(c: char) { !IsCombiningMark(c) }

  /** `[a-z0-9]` */
  predicate IsSlugChar(c: char) { IsLower(c) || IsDigit(c) }

  /** `[-_]` */
  predicate IsDashOrUnderscore(c: char) { c == '-' || c == '_' }

  /** Anything but `'` and `.`. */
  predicate NotQuoteOrPeriod(c: char) { c != '\'' && c != '.' }

  /** `[a-z0-9\s-]`: the characters line 45 keeps. */
  predicate IsKept(c: char) { IsLower(c) || IsDigit(c) || IsSpace(c) || c == '-' }

  /** Lower-case, trim, normalize (the identity here) and drop the combining marks. */
  function Prepare(s: string): string
  {
    Filter(Trim(Lower(s)), NotCombiningMark)
  }

  /** `s.replace(/[-_]{2,}/g, sep)`: a maximal run of two or more becomes `sep`, a lone one stays. */
  function ReplaceLongRuns(s: string, sep: string): (r: string)
    decreases |s|
  {
    if s == [] then []
    else if IsDashOrUnderscore(s[0]) then
      var rest := DropWhile(s, IsDashOrUnderscore);
      (if |s| - |rest| >= 2 then sep else s[..1]) + ReplaceLongRuns(rest, sep)
    else [s[0]] + ReplaceLongRuns(s[1..], sep)
  }

  /** `s.replace(/[^a-z0-9\s-]/g, sep)`: each other character becomes `sep`. */
  function ReplaceOthers(s: string, sep: string): (r: string)
  {
    if s == [] then [] else (if IsKept(s[0]) then [s[0]] else sep) + ReplaceOthers(s[1..], sep)
  }

  predicate StartsWith(s: string, t: string) { |t| <= |s| && s[..|t|] == t }

  predicate EndsWith(s: string, t: string) { |t| <= |s| && s[|s| - |t|..] == t }

  /**
   * `s.replace(new RegExp(escaped + '+', 'g'), sep)`.  With every special
   * character escaped, the pattern is `sep` followed by more copies of the
   * LAST character of `sep` only.
   */
  function CollapseSeparatorRuns(s: string, sep: string): (r: string)
    requires sep != []
    decreases |s|
  {
    if s == [] then []
    else if StartsWith(s, sep) then
      sep + CollapseSeparatorRuns(DropWhile(s[|sep|..], c => c == sep[|sep| - 1]), sep)
    else [s[0]] + CollapseSeparatorRuns(s[1..], sep)
  }

  /**
   * `s.replace(new RegExp('^' + escaped + '|' + escaped + '$', 'g'), '')`:
   * one leading copy is removed, then one trailing copy that does not
   * overlap it.
   */
  function StripEdges(s: string, sep: string): (r: string)
    requires sep != []
  {
    StripTrailing(StripLeading(s, sep), sep)
  }

  function StripLeading(s: string, sep: string): string
  {
    if StartsWith(s, sep) then s[|sep|..] else s
  }

  function StripTrailing(t: string, sep: string): string
  {
    if EndsWith(t, sep) then t[..|t| - |sep|] else t
  }

  /** Lines 41-51, after the common preparation. */
  function SlugWith(t: string, sep: string): string
    requires sep != []
  {
    var a := ReplaceLongRuns(t, sep);
    var b := Filter(a, NotQuoteOrPeriod);
    var c := ReplaceOthers(b, sep);
    var d := CollapseRuns(c, IsSpace, sep);
    var e := CollapseSeparatorRuns(d, sep);
    StripEdges(e, sep)
  }

  /** `slugify(str, separator)` */
  function Slugify(input: Value, sep: string): (r: string)
    ensures RejectsAsText(input) ==> r == []
  {
    if RejectsAsText(input) then []
    else if sep == [] then Filter(Prepare(input.prim.s), IsSlugChar)
    else SlugWith(Prepare(input.prim.s), sep)
  }

  /** On a non-empty string the guard passes and the chain runs on the prepared text. */
  lemma {:induction false} SlugifyText(s: string, sep: string)
    requires s != []
    ensures sep == [] ==> Slugify(P(Str(s)), sep) == Filter(Prepare(s), IsSlugChar)
    ensures sep != [] ==> Slugify(P(Str(s)), sep) == SlugWith(Prepare(s), sep)
  {
    assert !RejectsAsText(P(Str(s)));
  }

  /** With an empty separator the slug consists of `[a-z0-9]` only. */
  lemma {:induction false} EmptySeparatorAlnum(input: Value)
    ensures forall i :: 0 <= i < |Slugify(input, [])| ==> IsSlugChar(Slugify(input, [])[i])
  {
  }

  /** A character that is a slug character, '-', or a character of the separator. */
  predicate SlugOrSep(sep: string, c: char) { IsSlugChar(c) || c == '-' || c in sep }

  lemma {:induction false} ReplaceOthersChars(s: string, sep: string)
    ensures forall i :: 0 <= i < |ReplaceOthers(s, sep)| ==>
      IsKept(ReplaceOthers(s, sep)[i]) || ReplaceOthers(s, sep)[i] in sep
  {
    if s != [] {
      ReplaceOthersChars(s[1..], sep);
    }
  }

  lemma {:induction false} CollapseSeparatorRunsChars(s: string, sep: string)
    requires sep != []
    requires forall i :: 0 <= i < |s| ==> SlugOrSep(sep, s[i])
    ensures forall i :: 0 <= i < |CollapseSeparatorRuns(s, sep)| ==> SlugOrSep(sep, CollapseSeparatorRuns(s, sep)[i])
    decreases |s|
  {
    if s != [] {
      if StartsWith(s, sep) {
        var rest := DropWhile(s[|sep|..], c => c == sep[|sep| - 1]);
        CollapseSeparatorRunsChars(rest, sep);
      } else {
        CollapseSeparatorRunsChars(s[1..], sep);
      }
    }
  }

  /**
   * With a non-empty separator every character of the slug is in `[a-z0-9]`,
   * is '-', or is a character of the separator; so when the separator has
   * none of them, no whitespace, apostrophe or period is left.
   */
  lemma {:induction false} SlugChars(input: Value, sep: string)
    requires sep != []
    ensures var r := Slugify(input, sep);
      forall i :: 0 <= i < |r| ==> SlugOrSep(sep, r[i])
  {
    if !RejectsAsText(input) {
      SlugWithChars(Prepare(input.prim.s), sep);
    }
  }

  lemma {:induction false} SlugWithChars(t: string, sep: string)
    requires sep != []
    ensures var r := SlugWith(t, sep);
      forall i :: 0 <= i < |r| ==> SlugOrSep(sep, r[i])
  {
    var a := ReplaceLongRuns(t, sep);
    var b := Filter(a, NotQuoteOrPeriod);
    var c := ReplaceOthers(b, sep);
    ReplaceOthersChars(b, sep);
    var d := CollapseRuns(c, IsSpace, sep);
    CollapseRunsChars(c, IsSpace, sep, x => SlugOrSep(sep, x));
    var e := CollapseSeparatorRuns(d, sep);
    CollapseSeparatorRunsChars(d, sep);
    assert SlugWith(t, sep) == StripEdges(e, sep);
    StripKeepsChars(e, sep);
  }

  lemma {:induction false} StripKeepsChars(e: string, sep: string)
    requires sep != []
    requires forall i :: 0 <= i < |e| ==> SlugOrSep(sep, e[i])
    ensures var r := StripEdges(e, sep); forall i :: 0 <= i < |r| ==> SlugOrSep(sep, r[i])
  {
    var u := StripLeading(e, sep);
    if StartsWith(e, sep) {
      assert forall i :: 0 <= i < |u| ==> u[i] == e[i + |sep|];
    }
    var r := StripTrailing(u, sep);
    assert forall i :: 0 <= i < |r| ==> r[i] == u[i];
  }

  lemma {:induction false} SlugHasNoSpaces(input: Value, sep: string)
    requires sep != []
    requires forall i :: 0 <= i < |sep| ==> !IsSpace(sep[i]) && NotQuoteOrPeriod(sep[i])
    ensures var r := Slugify(input, sep);
      forall i :: 0 <= i < |r| ==> !IsSpace(r[i]) && NotQuoteOrPeriod(r[i])
  {
    SlugChars(input, sep);
    SepCharsExcluded(Slugify(input, sep), sep);
  }

  lemma {:induction false} SepCharsExcluded(r: string, sep: string)
    requires forall i :: 0 <= i < |sep| ==> !IsSpace(sep[i]) && NotQuoteOrPeriod(sep[i])
    requires forall i :: 0 <= i < |r| ==> SlugOrSep(sep, r[i])
    ensures forall i :: 0 <= i < |r| ==> !IsSpace(r[i]) && NotQuoteOrPeriod(r[i])
  {
    forall i | 0 <= i < |r|
      ensures !IsSpace(r[i]) && NotQuoteOrPeriod(r[i])
    {
      if r[i] in sep {
        var j :| 0 <= j < |sep| && sep[j] == r[i];
      }
    }
  }

  /** No two adjacent copies of the character `c`. */
  predicate NoDoubled(s: string, c: char)
  {
    forall i :: 0 <= i < |s| - 1 ==> !(s[i] == c && s[i + 1] == c)
  }

  lemma {:induction false} CollapseSingle(s: string, c: char)
    ensures var r := CollapseSeparatorRuns(s, [c]);
      NoDoubled(r, c) && (r != [] <==> s != []) && (r != [] ==> (r[0] == c <==> s[0] == c))
    decreases |s|
  {
    var r := CollapseSeparatorRuns(s, [c]);
    if s != [] {
      if StartsWith(s, [c]) {
        var rest := DropWhile(s[1..], x => x == [c][0]);
        CollapseSingle(rest, c);
        assert r == [c] + CollapseSeparatorRuns(rest, [c]);
      } else {
        CollapseSingle(s[1..], c);
        assert r == [s[0]] + CollapseSeparatorRuns(s[1..], [c]);
      }
    }
  }

  /** With a one-character separator there is no doubled, leading or trailing separator. */
  lemma {:induction false} SingleSeparatorClean(input: Value, c: char)
    ensures var r := Slugify(input, [c]);
      NoDoubled(r, c) && (r != [] ==> r[0] != c && r[|r| - 1] != c)
  {
    if !RejectsAsText(input) {
      SlugWithSingle(Prepare(input.prim.s), c);
    }
  }

  lemma {:induction false} SlugWithSingle(t: string, c: char)
    ensures var r := SlugWith(t, [c]);
      NoDoubled(r, c) && (r != [] ==> r[0] != c && r[|r| - 1] != c)
  {
    var sep := [c];
    var a := ReplaceLongRuns(t, sep);
    var b := Filter(a, NotQuoteOrPeriod);
    var x := ReplaceOthers(b, sep);
    var d := CollapseRuns(x, IsSpace, sep);
    var e := CollapseSeparatorRuns(d, sep);
    assert SlugWith(t, sep) == StripEdges(e, sep);
    CollapseSingle(d, c);
    StripLeadingSingle(e, c);
    StripTrailingSingle(StripLeading(e, sep), c);
  }

  lemma {:induction false} StripLeadingSingle(e: string, c: char)
    requires NoDoubled(e, c)
    ensures var u := StripLeading(e, [c]); NoDoubled(u, c) && (u != [] ==> u[0] != c)
  {
    var u := StripLeading(e, [c]);
    if StartsWith(e, [c]) {
      assert e[0] == e[..1][0];
      assert forall i :: 0 <= i < |u| ==> u[i] == e[i + 1];
    }
  }

  lemma {:induction false} StripTrailingSingle(u: string, c: char)
    requires NoDoubled(u, c) && (u != [] ==> u[0] != c)
    ensures var r := StripTrailing(u, [c]); NoDoubled(r, c) && (r != [] ==> r[0] != c && r[|r| - 1] != c)
  {
    if EndsWith(u, [c]) {
      var r := u[..|u| - 1];
      assert u[|u| - 1] == c;
      assert |u| >= 2 ==> u[|u| - 2] != c;
      assert forall i :: 0 <= i < |r| ==> r[i] == u[i];
    }
  }

  /** Whitespace-only input gives the empty slug for every separator. */
  lemma {:induction false} BlankGivesEmpty(s: string, sep: string)
    requires s != [] && forall i :: 0 <= i < |s| ==> IsSpace(s[i])
    ensures Slugify(P(Str(s)), sep) == []
  {
    var l := Lower(s);
    assert forall i :: 0 <= i < |l| ==> IsSpace(l[i]);
    assert TrimStart(l) == [];
    assert Prepare(s) == [];
  }

  predicate IsDashUnderscoreOrSpace(c: char) { c == '-' || c == '_' || IsSpace(c) }

  lemma {:induction false} ReplaceLongRunsDashes(s: string)
    requires forall i :: 0 <= i < |s| ==> IsDashUnderscoreOrSpace(s[i])
    ensures forall i :: 0 <= i < |ReplaceLongRuns(s, "-")| ==> IsDashUnderscoreOrSpace(ReplaceLongRuns(s, "-")[i])
    decreases |s|
  {
    if s != [] {
      if IsDashOrUnderscore(s[0]) {
        ReplaceLongRunsDashes(DropWhile(s, IsDashOrUnderscore));
      } else {
        ReplaceLongRunsDashes(s[1..]);
      }
    }
  }

  lemma {:induction false} ReplaceOthersDashes(s: string)
    requires forall i :: 0 <= i < |s| ==> IsDashUnderscoreOrSpace(s[i])
    ensures forall i :: 0 <= i < |ReplaceOthers(s, "-")| ==>
      ReplaceOthers(s, "-")[i] == '-' || IsSpace(ReplaceOthers(s, "-")[i])
  {
    if s != [] {
      ReplaceOthersDashes(s[1..]);
    }
  }

  lemma {:induction false} CollapseAllDashes(s: string)
    requires forall i :: 0 <= i < |s| ==> s[i] == '-'
    ensures CollapseSeparatorRuns(s, "-") == if s == [] then [] else "-"
  {
    if s != [] {
      var rest := DropWhile(s[1..], c => c == "-"[0]);
      assert rest == [];
    }
  }

  lemma {:induction false} SlugWithDashes(t: string)
    requires forall i :: 0 <= i < |t| ==> IsDashUnderscoreOrSpace(t[i])
    ensures SlugWith(t, "-") == []
  {
    var a := ReplaceLongRuns(t, "-");
    ReplaceLongRunsDashes(t);
    var b := Filter(a, NotQuoteOrPeriod);
    FilterAll(a, NotQuoteOrPeriod);
    var x := ReplaceOthers(b, "-");
    ReplaceOthersDashes(b);
    var d := CollapseRuns(x, IsSpace, "-");
    CollapseRunsChars(x, IsSpace, "-", c => c == '-');
    CollapseAllDashes(d);
    var e := CollapseSeparatorRuns(d, "-");
    assert StripEdges(e, "-") == [];
  }

  /** Preparation keeps the characters of a string that holds no upper-case letters and no combining marks. */
  lemma {:induction false} PrepareKeepsClass(s: string, q: char -> bool)
    requires forall i :: 0 <= i < |s| ==> q(s[i]) && !IsUpper(s[i]) && NotCombiningMark(s[i])
    ensures forall i :: 0 <= i < |Prepare(s)| ==> q(Prepare(s)[i])
  {
    LowerNoop(s);
    TrimKeepsClass(s, c => q(c) && NotCombiningMark(c));
    FilterAll(Trim(s), NotCombiningMark);
  }

  /** With the default separator, input made only of '-', '_' and whitespace gives the empty slug. */
  lemma {:induction false} SeparatorOnlyGivesEmpty(s: string)
    requires s != [] && forall i :: 0 <= i < |s| ==> IsDashUnderscoreOrSpace(s[i])
    ensures Slugify(P(Str(s)), "-") == []
  {
    DashesPrepared(s);
    SlugWithDashes(Prepare(s));
    SlugifyText(s, "-");
  }

  lemma {:induction false} DashesPrepared(s: string)
    requires forall i :: 0 <= i < |s| ==> IsDashUnderscoreOrSpace(s[i])
    ensures forall i :: 0 <= i < |Prepare(s)| ==> IsDashUnderscoreOrSpace(Prepare(s)[i])
  {
    forall i | 0 <= i < |s|
      ensures IsDashUnderscoreOrSpace(s[i]) && !IsUpper(s[i]) && NotCombiningMark(s[i])
    {
      var c := s[i];
      assert IsDashUnderscoreOrSpace(c);
    }
    PrepareKeepsClass(s, IsDashUnderscoreOrSpace);
  }

  lemma {:induction false} ReplaceLongRunsNoop(s: string, sep: string)
    requires forall i :: 0 <= i < |s| ==> !IsDashOrUnderscore(s[i])
    ensures ReplaceLongRuns(s, sep) == s
  {
    if s != [] {
      ReplaceLongRunsNoop(s[1..], sep);
    }
  }

  /** Collapsing a one-character separator changes nothing where no two copies are adjacent. */
  lemma {:induction false} CollapseSingleNoop(s: string, c: char)
    requires NoDoubled(s, c)
    ensures CollapseSeparatorRuns(s, [c]) == s
    decreases |s|
  {
    if s != [] {
      assert NoDoubled(s[1..], c);
      if StartsWith(s, [c]) {
        var rest := DropWhile(s[1..], x => x == [c][0]);
        assert rest == s[1..];
        CollapseSingleNoop(s[1..], c);
      } else {
        CollapseSingleNoop(s[1..], c);
      }
    }
  }

  lemma {:induction false} ReplaceOthersNoop(s: string, sep: string)
    requires forall i :: 0 <= i < |s| ==> IsKept(s[i])
    ensures ReplaceOthers(s, sep) == s
  {
    if s != [] {
      ReplaceOthersNoop(s[1..], sep);
    }
  }

  lemma {:induction false} CollapseSeparatorRunsNoop(s: string, sep: string)
    requires sep != []
    requires forall i :: 0 <= i < |s| ==> s[i] !in sep
    ensures CollapseSeparatorRuns(s, sep) == s
  {
    if s != [] {
      assert s[0] != sep[0];
      CollapseSeparatorRunsNoop(s[1..], sep);
    }
  }

  /**
   * Apostrophes and periods are deleted, not turned into separators: a word
   * made of letters, digits, `'` and `.` comes out lower-cased with the
   * apostrophes and periods gone ("2.0" gives "20", "Don't" gives "dont").
   */
  lemma {:induction false} QuotesAndPeriodsDeleted(s: string, sep: string)
    requires sep != [] && s != []
    requires forall i :: 0 <= i < |s| ==> IsAlnum(s[i]) || s[i] == '\'' || s[i] == '.'
    requires forall i :: 0 <= i < |sep| ==> !IsSlugChar(sep[i])
    ensures Slugify(P(Str(s)), sep) == Filter(Lower(s), NotQuoteOrPeriod)
  {
    SlugifyText(s, sep);
    PrepareAlnumQuotes(s);
    SlugWithQuotes(Lower(s), sep);
  }

  lemma {:induction false} PrepareAlnumQuotes(s: string)
    requires forall i :: 0 <= i < |s| ==> IsAlnum(s[i]) || s[i] == '\'' || s[i] == '.'
    ensures Prepare(s) == Lower(s)
    ensures forall i :: 0 <= i < |Lower(s)| ==> IsSlugChar(Lower(s)[i]) || !NotQuoteOrPeriod(Lower(s)[i])
  {
    LowerAlnumQuotes(s);
    PrepareNoSpaces(Lower(s));
  }

  lemma {:induction false} LowerAlnumQuotes(s: string)
    requires forall i :: 0 <= i < |s| ==> IsAlnum(s[i]) || s[i] == '\'' || s[i] == '.'
    ensures forall i :: 0 <= i < |Lower(s)| ==> IsSlugChar(Lower(s)[i]) || !NotQuoteOrPeriod(Lower(s)[i])
  {
  }

  lemma {:induction false} SlugWithQuotes(l: string, sep: string)
    requires sep != []
    requires forall i :: 0 <= i < |l| ==> IsSlugChar(l[i]) || !NotQuoteOrPeriod(l[i])
    requires forall i :: 0 <= i < |sep| ==> !IsSlugChar(sep[i])
    ensures SlugWith(l, sep) == Filter(l, NotQuoteOrPeriod)
  {
    ApostropheFilter(l);
    ReplaceLongRunsNoop(l, sep);
    SlugTail(Filter(l, NotQuoteOrPeriod), sep);
  }

  lemma {:induction false} PrepareNoSpaces(l: string)
    requires forall i :: 0 <= i < |l| ==> IsSlugChar(l[i]) || !NotQuoteOrPeriod(l[i])
    ensures Filter(Trim(l), NotCombiningMark) == l
  {
    if l != [] {
      assert !IsSpace(l[0]) && !IsSpace(l[|l| - 1]);
    }
    assert TrimStart(l) == l;
    assert TrimEnd(l) == l;
    FilterAll(l, NotCombiningMark);
  }

  lemma {:induction false} ApostropheFilter(l: string)
    requires forall i :: 0 <= i < |l| ==> IsSlugChar(l[i]) || !NotQuoteOrPeriod(l[i])
    ensures forall i :: 0 <= i < |Filter(l, NotQuoteOrPeriod)| ==> IsSlugChar(Filter(l, NotQuoteOrPeriod)[i])
  {
    if l != [] {
      ApostropheFilter(l[1..]);
    }
  }

  lemma {:induction false} SlugTail(t: string, sep: string)
    requires sep != []
    requires forall i :: 0 <= i < |t| ==> IsSlugChar(t[i])
    requires forall i :: 0 <= i < |sep| ==> !IsSlugChar(sep[i])
    ensures var c := ReplaceOthers(t, sep); var d := CollapseRuns(c, IsSpace, sep);
      StripEdges(CollapseSeparatorRuns(d, sep), sep) == t
  {
    ReplaceOthersNoop(t, sep);
    CollapseRunsNoop(t, IsSpace, sep);
    CollapseSeparatorRunsNoop(t, sep);
    if t != [] {
      assert t[0] != sep[0];
      assert t[|t| - 1] != sep[|sep| - 1];
    }
  }

  /**
   * The `+` on line 49 repeats only the last character of a longer
   * separator, so two adjacent copies of a two-character separator survive.
   */
  lemma {:induction false} LongSeparatorKeepsDoubles(a: char, b: char)
    requires a != b
    ensures CollapseSeparatorRuns([a, b, a, b], [a, b]) == [a, b, a, b]
  {
    var sep := [a, b];
    assert StartsWith([a, b, a, b], sep);
    assert [a, b, a, b][2..] == sep;
    assert DropWhile(sep, c => c == sep[1]) == sep;
    assert DropWhile([], c => c == sep[1]) == [];
    assert CollapseSeparatorRuns(sep, sep) == sep + CollapseSeparatorRuns([], sep);
  }
}
