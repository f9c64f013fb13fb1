/** `validatePhone(phone)`: the regular expressions become character-class predicates. */
module PhoneValidation {
  import opened Ascii
  import opened JsValues
  import opened Text

  /** `[\d+]` */
  predicate IsDigitOrPlus(c: char) { IsDigit(c) || c == '+' }

  /** `[^\d+\s]`: a separator is anything but a digit, '+' or whitespace. */
  predicate IsPhoneSeparator(c: char) { !IsDigit(c) && c != '+' && !IsSpace(c) }

  /** `[^\d]` */
  predicate NonDigit(c: char) { !IsDigit(c) }

  predicate IsPlus(c: char) { c == '+' }

  /** `/^\d{7,15}$/` */
  predicate LocalPattern(c: string)
  {
    7 <= |c| <= 15 && forall i :: 0 <= i < |c| ==> IsDigit(c[i])
  }

  /** `/^\+\d{7,15}$/` */
  predicate IntlPattern(c: string)
  {
    |c| >= 1 && c[0] == '+' && LocalPattern(c[1..])
  }

  /** `s.replace('+', '')`: a string pattern replaces only its first occurrence. */
  function RemoveFirstPlus(s: string): (r: string)
  {
    var i := FirstIndex(s, IsPlus);
    if i == |s| then s else s[..i] + s[i + 1..]
  }

  /** `/([^\d+\s]){3,}/.test(phone)` */
  predicate HasSeparatorRun(s: string)
  {
    exists i :: 0 <= i < |s| - 2 && IsPhoneSeparator(s[i]) && IsPhoneSeparator(s[i + 1]) && IsPhoneSeparator(s[i + 2])
  }

  /** `phone.split(/[^\d]/).filter(group => group.length > 0)` */
  function DigitGroups(s: string): seq<string>
  {
    NonEmpty(SplitEach(s, NonDigit))
  }

  /** The digits-and-'+' projection, `phone.replace(/[^\d+]/g, '')`. */
  function Cleaned(phone: string): string { Filter(phone, IsDigitOrPlus) }

  function SeparatorCount(phone: string): nat { |Filter(phone, IsPhoneSeparator)| }

  function DigitCount(phone: string): nat { |Filter(phone, IsDigit)| }

  predicate IsInternational(phone: string)
  {
    var c := Cleaned(phone);
    |c| > 0 && c[0] == '+'
  }

  /** The checks of lines 23-76, shared by every number. */
  predicate CommonRules(phone: string)
  {
    var cleaned := Cleaned(phone);
    var international := IsInternational(phone);
    var digitsOnly := RemoveFirstPlus(cleaned);
    (if international then IntlPattern(cleaned) else LocalPattern(cleaned)) &&
    7 <= |digitsOnly| <= 15 &&
    |Cleaned(phone)| <= 20 &&
    SeparatorCount(phone) <= 10 &&
    |phone| <= 25 &&
    !HasSeparatorRun(phone) &&
    2 * SeparatorCount(phone) <= DigitCount(phone) &&
    SeparatorCount(phone) <= 5
  }

  /** The grouping checks of lines 81-107 for a local number, as written. */
  predicate GroupRules(groups: seq<string>, digitCount: nat)
  {
    if |groups| == 1 then true
    else if exists k :: 0 <= k < |groups| && |groups[k]| > 4 then false
    else if |groups| > 4 then false
    else if |groups| == 4 && digitCount < 12 then false
    else if |groups| == 4 && digitCount == 12 then false
    else true
  }

  /** `validatePhone(phone)` as written. */
  function ValidatePhone(input: Value): (ok: bool)
    ensures RejectsAsText(input) ==> !ok
  {
    if RejectsAsText(input) then false
    else
      var phone := input.prim.s;
      CommonRules(phone) && (IsInternational(phone) || GroupRules(DigitGroups(phone), DigitCount(phone)))
  }

  /** Acceptance implies the projection is 7-15 digits, or '+' and 7-15 digits. */
  lemma {:induction false} AcceptedProjection(phone: string)
    requires ValidatePhone(P(Str(phone)))
    ensures LocalPattern(Cleaned(phone)) || IntlPattern(Cleaned(phone))
  {
  }

  /** Acceptance implies the length, separator and ratio limits. */
  lemma {:induction false} AcceptedLimits(phone: string)
    requires ValidatePhone(P(Str(phone)))
    ensures |phone| <= 25 && SeparatorCount(phone) <= 5 && !HasSeparatorRun(phone)
    ensures 2 * SeparatorCount(phone) <= DigitCount(phone)
  {
  }

  /** An accepted local number with several groups has at most four groups of at most four digits, and four groups need more than 12 digits. */
  lemma {:induction false} AcceptedGroups(phone: string)
    requires ValidatePhone(P(Str(phone))) && !IsInternational(phone)
    ensures var groups := DigitGroups(phone);
      |groups| > 1 ==>
        (forall k :: 0 <= k < |groups| ==> |groups[k]| <= 4) && |groups| <= 4 &&
        (|groups| == 4 ==> DigitCount(phone) > 12)
  {
  }

  lemma {:induction false} NoSeparatorRun(s: string)
    requires forall i :: 0 <= i < |s| ==> IsDigit(s[i])
    ensures !HasSeparatorRun(s)
  {
  }

  /** A contiguous run of 7 to 15 digits is accepted. */
  lemma {:induction false} ContiguousDigitsAccepted(s: string)
    requires 7 <= |s| <= 15
    requires forall i :: 0 <= i < |s| ==> IsDigit(s[i])
    ensures ValidatePhone(P(Str(s)))
  {
    FilterAll(s, IsDigitOrPlus);
    FilterAll(s, IsDigit);
    FilterNone(s, IsPhoneSeparator);
    NoSeparatorRun(s);
    assert Cleaned(s) == s;
    assert FirstIndex(s, IsPlus) == |s|;
    assert RemoveFirstPlus(s) == s;
    assert CommonRules(s);
    SplitEachNone(s, NonDigit);
    assert NonEmpty([s]) == [s] + NonEmpty([]);
    assert DigitGroups(s) == [s];
  }

  /** The grouping checks with the four-group limit moved to 13 digits. */
  predicate GroupRulesCorrected(groups: seq<string>, digitCount: nat)
  {
    if |groups| == 1 then true
    else if exists k :: 0 <= k < |groups| && |groups[k]| > 4 then false
    else if |groups| > 4 then false
    else if |groups| == 4 && digitCount <= 13 then false
    else true
  }

  /** `validatePhone` with the corrected four-group rule. */
  function ValidatePhoneCorrected(input: Value): (ok: bool)
    ensures RejectsAsText(input) ==> !ok
  {
    if RejectsAsText(input) then false
    else
      var phone := input.prim.s;
      CommonRules(phone) && (IsInternational(phone) || GroupRulesCorrected(DigitGroups(phone), DigitCount(phone)))
  }

  /**
   * The as-written rules accept every local number that passes the common
   * checks and splits into four groups of at most four digits holding 13
   * digits, such as "555-123-4567-890".
   */
  lemma {:induction false} FourGroupsOfThirteenAccepted(phone: string)
    requires !RejectsAsText(P(Str(phone))) && CommonRules(phone) && !IsInternational(phone)
    requires var groups := DigitGroups(phone);
      |groups| == 4 && (forall k :: 0 <= k < 4 ==> |groups[k]| <= 4) && DigitCount(phone) == 13
    ensures ValidatePhone(P(Str(phone)))
    ensures !ValidatePhoneCorrected(P(Str(phone)))
  {
  }

  /** The corrected rules accept a four-group local number only with 14 or more digits. */
  lemma {:induction false} CorrectedFourGroups(phone: string)
    requires ValidatePhoneCorrected(P(Str(phone))) && !IsInternational(phone)
    requires |DigitGroups(phone)| == 4
    ensures DigitCount(phone) >= 14
  {
  }

  /** The corrected rules differ from the as-written ones only on four-group local numbers of 13 digits. */
  lemma {:induction false} CorrectionIsLocal(phone: string)
    requires !(|DigitGroups(phone)| == 4 && DigitCount(phone) == 13 && !IsInternational(phone))
    ensures ValidatePhone(P(Str(phone))) == ValidatePhoneCorrected(P(Str(phone)))
  {
  }

  /** Digit groups joined by single dashes, as in "555-123-4567". */
  function Dashed(gs: seq<string>): string
    requires gs != []
  {
    if |gs| == 1 then gs[0] else gs[0] + "-" + Dashed(gs[1..])
  }

  predicate DigitGroupList(gs: seq<string>)
  {
    gs != [] && forall k :: 0 <= k < |gs| ==> gs[k] != [] && forall i :: 0 <= i < |gs[k]| ==> IsDigit(gs[k][i])
  }

  /** The projections of a dashed number: its digits are the groups' digits and its separators are the dashes. */
  lemma {:induction false} DashedFilters(gs: seq<string>)
    requires DigitGroupList(gs)
    ensures Filter(Dashed(gs), IsDigit) == Concat(gs)
    ensures Filter(Dashed(gs), IsDigitOrPlus) == Concat(gs)
    ensures |Filter(Dashed(gs), IsPhoneSeparator)| == |gs| - 1
  {
    DashedKeepsDigits(gs, IsDigit);
    DashedKeepsDigits(gs, IsDigitOrPlus);
    DashedSeparators(gs);
  }

  /** The first group of a list and the list of the others. */
  lemma {:induction false} DigitGroupListSplit(gs: seq<string>)
    requires DigitGroupList(gs)
    ensures forall i :: 0 <= i < |gs[0]| ==> IsDigit(gs[0][i])
    ensures |gs| > 1 ==> DigitGroupList(gs[1..])
    ensures Concat(gs) == gs[0] + Concat(gs[1..])
    ensures |gs| > 1 ==> Dashed(gs) == gs[0] + ['-'] + Dashed(gs[1..])
    ensures |gs| == 1 ==> Dashed(gs) == gs[0] && Concat(gs[1..]) == []
  {
    if |gs| > 1 {
      assert forall k :: 0 <= k < |gs| - 1 ==> gs[1..][k] == gs[k + 1];
    }
  }

  /** A filter that keeps every digit and drops '-' gives back the digits of the groups. */
  lemma {:induction false} DashedKeepsDigits(gs: seq<string>, q: char -> bool)
    requires DigitGroupList(gs)
    requires forall c :: IsDigit(c) ==> q(c)
    requires !q('-')
    ensures Filter(Dashed(gs), q) == Concat(gs)
  {
    DigitGroupListSplit(gs);
    var first := gs[0];
    assert forall i :: 0 <= i < |first| ==> q(first[i]);
    FilterAll(first, q);
    if |gs| > 1 {
      var rest := Dashed(gs[1..]);
      DashedKeepsDigits(gs[1..], q);
      FilterAround(first, '-', rest, q);
      assert Filter(['-'], q) == [];
      assert Filter(Dashed(gs), q) == first + [] + Concat(gs[1..]);
    }
  }

  /** The separators of a dashed number are its dashes, one fewer than its groups. */
  lemma {:induction false} DashedSeparators(gs: seq<string>)
    requires DigitGroupList(gs)
    ensures |Filter(Dashed(gs), IsPhoneSeparator)| == |gs| - 1
  {
    DigitGroupListSplit(gs);
    FilterNone(gs[0], IsPhoneSeparator);
    if |gs| > 1 {
      DashedSeparators(gs[1..]);
      FilterAround(gs[0], '-', Dashed(gs[1..]), IsPhoneSeparator);
      assert Filter(['-'], IsPhoneSeparator) == ['-'];
    }
  }

  /** Splitting a dashed number on non-digits gives back its groups. */
  lemma {:induction false} DashedSplit(gs: seq<string>)
    requires DigitGroupList(gs)
    ensures SplitEach(Dashed(gs), NonDigit) == gs
  {
    DigitGroupListSplit(gs);
    if |gs| == 1 {
      SplitEachNone(gs[0], NonDigit);
    } else {
      SplitEachAt(gs[0], '-', Dashed(gs[1..]), NonDigit);
      DashedSplit(gs[1..]);
      assert gs == [gs[0]] + gs[1..];
    }
  }

  lemma {:induction false} NonEmptyKeeps(gs: seq<string>)
    requires forall k :: 0 <= k < |gs| ==> gs[k] != []
    ensures NonEmpty(gs) == gs
  {
    if gs != [] {
      NonEmptyKeeps(gs[1..]);
      assert gs == [gs[0]] + gs[1..];
    }
  }

  /** A dashed number starts with a digit and never has two separators in a row. */
  lemma {:induction false} DashedIsolated(gs: seq<string>)
    requires DigitGroupList(gs)
    ensures IsDigit(Dashed(gs)[0])
    ensures forall i :: 0 <= i < |Dashed(gs)| - 1 && IsPhoneSeparator(Dashed(gs)[i]) ==> IsDigit(Dashed(gs)[i + 1])
  {
    if |gs| > 1 {
      var d := Dashed(gs);
      var rest := Dashed(gs[1..]);
      assert d == gs[0] + "-" + rest;
      assert DigitGroupList(gs[1..]);
      DashedIsolated(gs[1..]);
      assert forall j :: 0 <= j < |gs[0]| ==> d[j] == gs[0][j];
      forall i | 0 <= i < |d| - 1 && IsPhoneSeparator(d[i])
        ensures IsDigit(d[i + 1])
      {
        if i > |gs[0]| {
          assert d[i] == rest[i - |gs[0]| - 1];
          assert d[i + 1] == rest[i - |gs[0]|];
        }
      }
    }
  }

  /**
   * The structure of a dashed local number: its projection is the
   * concatenated digits, its separators are the dashes, its groups are the
   * groups it was built from, and it has no run of separators.
   */
  lemma {:induction false} DashedShape(gs: seq<string>)
    requires DigitGroupList(gs)
    ensures var d := Dashed(gs);
      Cleaned(d) == Concat(gs) && DigitCount(d) == |Concat(gs)| && SeparatorCount(d) == |gs| - 1 &&
      !IsInternational(d) && !HasSeparatorRun(d) && DigitGroups(d) == gs
  {
    var d := Dashed(gs);
    DashedFilters(gs);
    DashedSplit(gs);
    NonEmptyKeeps(gs);
    DashedIsolated(gs);
    ConcatChars(gs, IsDigit);
    if Concat(gs) != [] {
      assert IsDigit(Concat(gs)[0]);
    }
  }

  /** A dashed local number of 7 to 15 digits in at most five groups passes the common checks. */
  lemma {:induction false} DashedCommonRules(gs: seq<string>)
    requires DigitGroupList(gs) && 7 <= |Concat(gs)| <= 15 && |gs| <= 6
    requires 2 * (|gs| - 1) <= |Concat(gs)|
    ensures CommonRules(Dashed(gs))
  {
    var d := Dashed(gs);
    DashedShape(gs);
    ConcatChars(gs, IsDigit);
    assert FirstIndex(Concat(gs), IsPlus) == |Concat(gs)|;
    DashedLength(gs);
  }

  lemma {:induction false} DashedLength(gs: seq<string>)
    requires gs != []
    ensures |Dashed(gs)| == |Concat(gs)| + |gs| - 1
  {
    if |gs| == 1 {
      assert Concat(gs) == gs[0] + Concat([]);
    } else {
      DashedLength(gs[1..]);
    }
  }

  /**
   * "555-123-4567-890", which the comment at lines 103-105 counts as a
   * 12-digit number, has 13 digits: the source accepts it and the corrected
   * rule rejects it.
   */
  lemma {:induction false} ThirteenDigitExample()
    ensures ValidatePhone(P(Str("555-123-4567-890")))
    ensures !ValidatePhoneCorrected(P(Str("555-123-4567-890")))
  {
    var gs := ExampleGroups();
    DashedThirteen(gs);
  }

  /** Four dashed groups of at most four digits, 13 digits in all. */
  lemma {:induction false} DashedThirteen(gs: seq<string>)
    requires DigitGroupList(gs) && |gs| == 4 && forall k :: 0 <= k < 4 ==> |gs[k]| <= 4
    requires |Concat(gs)| == 13
    ensures ValidatePhone(P(Str(Dashed(gs)))) && !ValidatePhoneCorrected(P(Str(Dashed(gs))))
  {
    DashedShape(gs);
    DashedCommonRules(gs);
    FourGroupsOfThirteenAccepted(Dashed(gs));
  }

  /** The groups of "555-123-4567-890". */
  lemma {:induction false} ExampleGroups() returns (gs: seq<string>)
    ensures DigitGroupList(gs) && |gs| == 4 && forall k :: 0 <= k < 4 ==> |gs[k]| <= 4
    ensures Dashed(gs) == "555-123-4567-890" && |Concat(gs)| == 13
  {
    gs := ["555", "123", "4567", "890"];
    assert DigitGroupList(gs);
    assert Dashed(gs) == "555-123-4567-890" by {
      assert Dashed(gs[3..]) == "890";
      assert Dashed(gs[2..]) == "4567-890";
      assert Dashed(gs[1..]) == "123-4567-890";
    }
    assert |Concat(gs)| == 13 by {
      assert Concat(gs[3..]) == "890" + Concat([]);
      assert Concat(gs[2..]) == "4567" + Concat(gs[3..]);
      assert Concat(gs[1..]) == "123" + Concat(gs[2..]);
    }
  }
}
