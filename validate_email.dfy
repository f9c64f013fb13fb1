/** `validateEmail(email)`: the regular expression becomes a split at the first '@' and a split of the domain at '.'. */
module EmailValidation {
  import opened Ascii
  import opened JsValues
  import opened Text

  /** The local-part class `[a-zA-Z0-9.!#$%&'*+/=?^_`{|}~-]`. */
  predicate IsLocalChar(c: char)
  {
    IsAlnum(c) || c in ".!#$%&'*+/=?^_`{|}~-"
  }

  predicate IsLabelChar(c: char) { IsAlnum(c) || c == '-' }

  /** `[a-zA-Z0-9](?:[a-zA-Z0-9-]{0,61}[a-zA-Z0-9])?`: 1 to 63 characters, alphanumeric at both ends. */
  predicate IsLabel(l: string)
  {
    1 <= |l| <= 63 && IsAlnum(l[0]) && IsAlnum(l[|l| - 1]) &&
    forall i :: 0 <= i < |l| ==> IsLabelChar(l[i])
  }

  predicate IsAt(c: char) { c == '@' }
  predicate IsDot(c: char) { c == '.' }

  predicate ValidLocal(l: string)
  {
    l != [] && forall i :: 0 <= i < |l| ==> IsLocalChar(l[i])
  }

  predicate AllLabels(ls: seq<string>)
  {
    forall k :: 0 <= k < |ls| ==> IsLabel(ls[k])
  }

  /**
   * The regular expression of line 22 on a whole string: a non-empty local
   * part up to the first '@' (the local class has no '@'), then a domain
   * whose '.'-separated pieces are all labels.
   */
  predicate MatchesEmailPattern(t: string)
  {
    var i := FirstIndex(t, IsAt);
    1 <= i < |t| && ValidLocal(t[..i]) && AllLabels(SplitEach(t[i + 1..], IsDot))
  }

  /** The checks of line 25 on the untrimmed input. */
  predicate RawRejects(e: string)
  {
    HasPair(e, '.', '.') || HasPair(e, '@', '@') ||
    (e != [] && e[0] == '.') || (e != [] && e[|e| - 1] == '.')
  }

  /** `validateEmail(email)` as written. */
  function ValidateEmail(input: Value): (ok: bool)
    ensures RejectsAsText(input) ==> !ok
  {
    if RejectsAsText(input) then false
    else
      var e := input.prim.s;
      !RawRejects(e) && MatchesEmailPattern(Trim(e))
  }

  /** Labels joined by single dots: the domains the pattern describes. */
  function JoinDots(ls: seq<string>): string
    requires ls != []
  {
    if |ls| == 1 then ls[0] else ls[0] + "." + JoinDots(ls[1..])
  }

  /** The address with local part `l` and domain labels `ls`. */
  function EmailOf(l: string, ls: seq<string>): string
    requires ls != []
  {
    l + "@" + JoinDots(ls)
  }

  /** Joining the pieces of a split at '.' gives the string back. */
  lemma {:induction false} JoinSplitDots(d: string)
    ensures JoinDots(SplitEach(d, IsDot)) == d
    decreases |d|
  {
    var i := FirstIndex(d, IsDot);
    if i < |d| {
      var rest := d[i + 1..];
      SplitEachCut(d, IsDot);
      JoinSplitDots(rest);
      var parts := SplitEach(d, IsDot);
      assert parts[1..] == SplitEach(rest, IsDot);
    }
  }

  /** Splitting dot-free pieces joined by dots gives the pieces back. */
  lemma {:induction false} SplitJoinDots(ls: seq<string>)
    requires ls != []
    requires forall k :: 0 <= k < |ls| ==> forall i :: 0 <= i < |ls[k]| ==> ls[k][i] != '.'
    ensures SplitEach(JoinDots(ls), IsDot) == ls
  {
    if |ls| == 1 {
      SplitEachNone(ls[0], IsDot);
    } else {
      SplitEachAt(ls[0], '.', JoinDots(ls[1..]), IsDot);
      SplitJoinDots(ls[1..]);
      assert ls == [ls[0]] + ls[1..];
    }
  }

  /** Every character of joined labels is a label character or a dot. */
  lemma {:induction false} JoinDotsChars(ls: seq<string>)
    requires ls != [] && AllLabels(ls)
    ensures forall i :: 0 <= i < |JoinDots(ls)| ==> IsLabelChar(JoinDots(ls)[i]) || JoinDots(ls)[i] == '.'
    ensures IsAlnum(JoinDots(ls)[0])
  {
    if |ls| > 1 {
      var d := JoinDots(ls);
      var rest := JoinDots(ls[1..]);
      assert d == ls[0] + "." + rest;
      JoinDotsChars(ls[1..]);
      forall i | 0 <= i < |d|
        ensures IsLabelChar(d[i]) || d[i] == '.'
      {
        if i < |ls[0]| {
          assert d[i] == ls[0][i];
        } else if i > |ls[0]| {
          assert d[i] == rest[i - |ls[0]| - 1];
        }
      }
    }
  }

  /** A matching string is its local part, '@' and its labels joined by dots. */
  lemma {:induction false} PatternDecomposes(t: string)
    requires MatchesEmailPattern(t)
    ensures var i := FirstIndex(t, IsAt); var ls := SplitEach(t[i + 1..], IsDot);
      ValidLocal(t[..i]) && AllLabels(ls) && t == EmailOf(t[..i], ls)
  {
    var i := FirstIndex(t, IsAt);
    JoinSplitDots(t[i + 1..]);
    assert t == t[..i] + "@" + t[i + 1..];
  }

  /** A valid local part followed by '@' and labels joined by dots matches. */
  lemma {:induction false} PatternOfParts(l: string, ls: seq<string>)
    requires ValidLocal(l) && ls != [] && AllLabels(ls)
    ensures MatchesEmailPattern(EmailOf(l, ls))
  {
    var t := EmailOf(l, ls);
    assert forall j :: 0 <= j < |l| ==> t[j] == l[j];
    assert t[|l|] == '@';
    assert FirstIndex(t, IsAt) == |l|;
    assert t[..|l|] == l;
    assert t[|l| + 1..] == JoinDots(ls);
    SplitJoinDots(ls);
  }

  /** The pattern describes exactly the addresses built from a valid local part and a list of labels. */
  lemma {:induction false} PatternGrammar(t: string)
    ensures MatchesEmailPattern(t) <==>
      exists l, ls :: ValidLocal(l) && ls != [] && AllLabels(ls) && t == EmailOf(l, ls)
  {
    if MatchesEmailPattern(t) {
      PatternDecomposes(t);
      var i := FirstIndex(t, IsAt);
      var ls := SplitEach(t[i + 1..], IsDot);
      assert ValidLocal(t[..i]) && ls != [] && AllLabels(ls) && t == EmailOf(t[..i], ls);
    }
    if exists l, ls :: ValidLocal(l) && ls != [] && AllLabels(ls) && t == EmailOf(l, ls) {
      var l, ls :| ValidLocal(l) && ls != [] && AllLabels(ls) && t == EmailOf(l, ls);
      PatternOfParts(l, ls);
    }
  }

  /** A matching string holds exactly one '@', no whitespace, and ends in an alphanumeric character. */
  lemma {:induction false} MatchedShape(t: string)
    requires MatchesEmailPattern(t)
    ensures Count(t, '@') == 1
    ensures forall j :: 0 <= j < |t| ==> !IsSpace(t[j])
    ensures !IsSpace(t[0]) && IsAlnum(t[|t| - 1])
  {
    PatternDecomposes(t);
    var i := FirstIndex(t, IsAt);
    PartsShape(t, t[..i], SplitEach(t[i + 1..], IsDot));
  }

  /** The shape of an address built from its parts. */
  lemma {:induction false} PartsShape(t: string, l: string, ls: seq<string>)
    requires ValidLocal(l) && ls != [] && AllLabels(ls) && t == EmailOf(l, ls)
    ensures Count(t, '@') == 1
    ensures forall j :: 0 <= j < |t| ==> !IsSpace(t[j])
    ensures !IsSpace(t[0]) && IsAlnum(t[|t| - 1])
  {
    PartsCount(l, ls);
    PartsNoSpace(l, ls);
    LastLabelChar(ls);
    var d := JoinDots(ls);
    assert t[|t| - 1] == d[|d| - 1];
  }

  /** After the local part of a built address comes its only '@', then an alphanumeric character. */
  lemma {:induction false} PartsAt(t: string, l: string, ls: seq<string>)
    requires ValidLocal(l) && ls != [] && AllLabels(ls) && t == EmailOf(l, ls)
    ensures |l| + 1 < |t| && IsAlnum(t[|l| + 1]) && forall j :: |l| < j < |t| ==> t[j] != '@'
  {
    var d := JoinDots(ls);
    JoinDotsChars(ls);
    assert forall j :: |l| < j < |t| ==> t[j] == d[j - |l| - 1];
  }

  lemma {:induction false} PartsCount(l: string, ls: seq<string>)
    requires ValidLocal(l) && ls != [] && AllLabels(ls)
    ensures Count(EmailOf(l, ls), '@') == 1
  {
    var d := JoinDots(ls);
    JoinDotsChars(ls);
    CountAbsent(l, '@');
    CountAbsent(d, '@');
    CountAppend(l, "@", '@');
    CountAppend(l + "@", d, '@');
  }

  lemma {:induction false} PartsNoSpace(l: string, ls: seq<string>)
    requires ValidLocal(l) && ls != [] && AllLabels(ls)
    ensures forall j :: 0 <= j < |EmailOf(l, ls)| ==> !IsSpace(EmailOf(l, ls)[j])
  {
    var t := EmailOf(l, ls);
    var d := JoinDots(ls);
    JoinDotsChars(ls);
    forall j | 0 <= j < |t|
      ensures !IsSpace(t[j])
    {
      if j < |l| {
        assert t[j] == l[j];
      } else if j > |l| {
        assert t[j] == d[j - |l| - 1];
      }
    }
  }

  lemma {:induction false} LastLabelChar(ls: seq<string>)
    requires ls != [] && AllLabels(ls)
    ensures IsAlnum(JoinDots(ls)[|JoinDots(ls)| - 1])
  {
    if |ls| > 1 {
      LastLabelChar(ls[1..]);
      var rest := JoinDots(ls[1..]);
      assert JoinDots(ls) == ls[0] + "." + rest;
    }
  }

  /** An accepted address, once trimmed, has exactly one '@', a valid local part and a domain of valid labels. */
  lemma {:induction false} AcceptedShape(e: string)
    requires ValidateEmail(P(Str(e)))
    ensures var t := Trim(e); var i := FirstIndex(t, IsAt);
      Count(t, '@') == 1 && ValidLocal(t[..i]) && AllLabels(SplitEach(t[i + 1..], IsDot)) &&
      t == EmailOf(t[..i], SplitEach(t[i + 1..], IsDot))
  {
    MatchedShape(Trim(e));
    PatternDecomposes(Trim(e));
  }

  /** In a matching string the only '@' is the one after the local part, and an alphanumeric character follows it. */
  lemma {:induction false} SingleAt(t: string)
    requires MatchesEmailPattern(t)
    ensures var i := FirstIndex(t, IsAt);
      i + 1 < |t| && IsAlnum(t[i + 1]) && forall j :: i < j < |t| ==> t[j] != '@'
  {
    PatternDecomposes(t);
    var i := FirstIndex(t, IsAt);
    PartsAt(t, t[..i], SplitEach(t[i + 1..], IsDot));
  }

  /** '@' directly followed by '.' anywhere rejects: either the domain starts with an empty label or it holds a second '@'. */
  lemma {:induction false} AtDotRejected(t: string)
    requires HasPair(t, '@', '.')
    ensures !MatchesEmailPattern(t)
  {
    if MatchesEmailPattern(t) {
      SingleAt(t);
    }
  }

  /** The test inputs "user@", "@example.com" and "user@.com" in general form: nothing after '@', nothing before it, or a dot right after it. */
  lemma {:induction false} MissingPartsRejected(l: string, d: string)
    ensures !MatchesEmailPattern(l + "@")
    ensures !MatchesEmailPattern("@" + d)
    ensures !MatchesEmailPattern(l + "@." + d)
  {
    var t := l + "@";
    if MatchesEmailPattern(t) {
      MatchedShape(t);
    }
    assert ("@" + d)[0] == '@';
    var u := l + "@." + d;
    assert u[|l|] == '@' && u[|l| + 1] == '.';
    AtDotRejected(u);
  }

  lemma {:induction false} TrimNoop(t: string)
    requires t != [] && !IsSpace(t[0]) && !IsSpace(t[|t| - 1])
    ensures Trim(t) == t
  {
  }

  /** A pair of a non-whitespace character is never made by whitespace around a string. */
  lemma {:induction false} PaddingAddsNoPair(w1: string, t: string, w2: string, a: char)
    requires forall i :: 0 <= i < |w1| ==> IsSpace(w1[i])
    requires forall i :: 0 <= i < |w2| ==> IsSpace(w2[i])
    requires !IsSpace(a) && !HasPair(t, a, a)
    ensures !HasPair(w1 + t + w2, a, a)
  {
  }

  /** Each check of line 25 rejects on its own, whatever the pattern says. */
  lemma {:induction false} RawChecksReject(e: string)
    ensures HasPair(e, '.', '.') ==> !ValidateEmail(P(Str(e)))
    ensures HasPair(e, '@', '@') ==> !ValidateEmail(P(Str(e)))
    ensures e != [] && e[0] == '.' ==> !ValidateEmail(P(Str(e)))
    ensures e != [] && e[|e| - 1] == '.' ==> !ValidateEmail(P(Str(e)))
  {
    TrimmedOnText(e);
  }

  /**
   * Whitespace around an address is not a reason to reject it: a string the
   * pattern matches, free of `..` and `@@`, is accepted with any whitespace
   * `w1` before it and `w2` after it, provided a leading '.' is covered by
   * `w1` (the raw checks see the padded text).
   */
  lemma {:induction false} PaddedAccepted(w1: string, t: string, w2: string)
    requires forall i :: 0 <= i < |w1| ==> IsSpace(w1[i])
    requires forall i :: 0 <= i < |w2| ==> IsSpace(w2[i])
    requires MatchesEmailPattern(t) && !HasPair(t, '.', '.') && !HasPair(t, '@', '@')
    requires t[0] != '.' || w1 != []
    ensures ValidateEmail(P(Str(w1 + t + w2)))
  {
    MatchedShape(t);
    var last := t[|t| - 1];
    assert IsAlnum(last);
    assert last != '.';
    TrimPadded(w1, t, w2);
    TrimNoop(t);
    PaddedNotRaw(w1, t, w2);
    TrimmedOnText(w1 + t + w2);
  }

  /** An accepted address stays accepted with any whitespace around it. */
  lemma {:induction false} AcceptedStaysAccepted(w1: string, t: string, w2: string)
    requires forall i :: 0 <= i < |w1| ==> IsSpace(w1[i])
    requires forall i :: 0 <= i < |w2| ==> IsSpace(w2[i])
    requires ValidateEmail(P(Str(t)))
    ensures ValidateEmail(P(Str(w1 + t + w2)))
  {
    TrimmedOnText(t);
    TrimPadded(w1, t, w2);
    PaddedNotRaw(w1, t, w2);
    TrimmedOnText(w1 + t + w2);
  }

  /** The raw checks pass on padded text when they pass on the text and its edges, where the padding is empty. */
  lemma {:induction false} PaddedNotRaw(w1: string, t: string, w2: string)
    requires forall i :: 0 <= i < |w1| ==> IsSpace(w1[i])
    requires forall i :: 0 <= i < |w2| ==> IsSpace(w2[i])
    requires t != [] && !HasPair(t, '.', '.') && !HasPair(t, '@', '@')
    requires t[0] != '.' || w1 != []
    requires t[|t| - 1] != '.' || w2 != []
    ensures !RawRejects(w1 + t + w2)
  {
    var s := w1 + t + w2;
    PaddingAddsNoPair(w1, t, w2, '.');
    PaddingAddsNoPair(w1, t, w2, '@');
    PaddedEnds(w1, t, w2);
  }

  lemma {:induction false} PaddedEnds(w1: string, t: string, w2: string)
    requires t != []
    ensures var s := w1 + t + w2;
      s[0] == (if w1 != [] then w1[0] else t[0]) &&
      s[|s| - 1] == (if w2 != [] then w2[|w2| - 1] else t[|t| - 1])
  {
  }

  /**
   * The leading-dot check of line 25 looks at the untrimmed input while the
   * pattern looks at the trimmed one, and '.' is a local-part character: an
   * address starting with '.' is rejected, yet the same address after one
   * space, such as " .user@example.com", is accepted.
   */
  lemma {:induction false} PaddedLeadingDotAccepted(t: string)
    requires MatchesEmailPattern(t) && t[0] == '.'
    requires !HasPair(t, '.', '.') && !HasPair(t, '@', '@')
    ensures !ValidateEmail(P(Str(t)))
    ensures ValidateEmail(P(Str([' '] + t)))
    ensures !ValidateEmailTrimmed(P(Str([' '] + t)))
  {
    RawChecksReject(t);
    PaddedAccepted([' '], t, []);
    assert [' '] + t + [] == [' '] + t;
    PaddedTrimmedRejected(t);
  }

  lemma {:induction false} PaddedTrimmedRejected(t: string)
    requires MatchesEmailPattern(t) && t[0] == '.'
    ensures !ValidateEmailTrimmed(P(Str([' '] + t)))
  {
    TrimmedOnText([' '] + t);
    MatchedShape(t);
    TrimSpaceBefore(t);
  }

  lemma {:induction false} TrimSpaceBefore(t: string)
    requires t != [] && !IsSpace(t[0]) && !IsSpace(t[|t| - 1])
    ensures Trim([' '] + t) == t
  {
    TrimPadded([' '], t, []);
    assert [' '] + t + [] == [' '] + t;
    TrimNoop(t);
  }

  /** `validateEmail` with the raw checks applied to the trimmed address, like the pattern. */
  function ValidateEmailTrimmed(input: Value): (ok: bool)
    ensures RejectsAsText(input) ==> !ok
  {
    if RejectsAsText(input) then false
    else
      TrimmedOk(Trim(input.prim.s))
  }

  predicate TrimmedOk(t: string) { !RawRejects(t) && MatchesEmailPattern(t) }

  /** The corrected check ignores whitespace around the address entirely. */
  lemma {:induction false} TrimmedIgnoresPadding(w1: string, e: string, w2: string)
    requires forall i :: 0 <= i < |w1| ==> IsSpace(w1[i])
    requires forall i :: 0 <= i < |w2| ==> IsSpace(w2[i])
    ensures ValidateEmailTrimmed(P(Str(w1 + e + w2))) == ValidateEmailTrimmed(P(Str(e)))
  {
    var s := w1 + e + w2;
    TrimPadded(w1, e, w2);
    TrimmedOnText(s);
    TrimmedOnText(e);
    if e == [] {
      EmptyNotMatched();
    }
  }

  lemma {:induction false} EmptyNotMatched()
    ensures !TrimmedOk(Trim([]))
  {
    assert FirstIndex([], IsAt) == 0;
  }

  /** Both checks on a string input, by its emptiness. */
  lemma {:induction false} TrimmedOnText(s: string)
    ensures s != [] ==> ValidateEmailTrimmed(P(Str(s))) == TrimmedOk(Trim(s))
    ensures s != [] ==> ValidateEmail(P(Str(s))) == (!RawRejects(s) && MatchesEmailPattern(Trim(s)))
    ensures s == [] ==> !ValidateEmailTrimmed(P(Str(s))) && !ValidateEmail(P(Str(s)))
  {
  }

  /** On an address without surrounding whitespace the corrected check is the check as written. */
  lemma {:induction false} TrimmedAgreesUnpadded(e: string)
    requires e != [] && !IsSpace(e[0]) && !IsSpace(e[|e| - 1])
    ensures ValidateEmailTrimmed(P(Str(e))) == ValidateEmail(P(Str(e)))
  {
    TrimNoop(e);
  }

  /** The corrected check never accepts an address whose trimmed form starts or ends with '.'. */
  lemma {:induction false} TrimmedRejectsEdgeDots(e: string)
    requires Trim(e) != [] && (Trim(e)[0] == '.' || Trim(e)[|Trim(e)| - 1] == '.')
    ensures !ValidateEmailTrimmed(P(Str(e)))
  {
  }
}
