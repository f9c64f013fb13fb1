/**
 * `timeAgo(date, now)`: both instants are milliseconds since the epoch and
 * `now` is always passed explicitly.
 */
module TimeAgo {
  import opened Numerals

  const MsPerMinute: nat := 60 * 1000
  const MsPerHour: nat := 60 * MsPerMinute
  const MsPerDay: nat := 24 * MsPerHour

  datatype Unit = Minute | Hour | Day | Week | Month | Year

  /** The unit word, singular exactly when the count is 1. */
  function UnitWord(u: Unit, count: nat): string
  {
    match u
    case Minute => if count == 1 then "minute" else "minutes"
    case Hour => if count == 1 then "hour" else "hours"
    case Day => if count == 1 then "day" else "days"
    case Week => if count == 1 then "week" else "weeks"
    case Month => if count == 1 then "month" else "months"
    case Year => if count == 1 then "year" else "years"
  }

  /** `${prefix}${count} ${unit}${suffix}` */
  function Phrase(isPast: bool, count: nat, u: Unit): string
  {
    (if isPast then "" else "in ") + NatToString(count) + " " + UnitWord(u, count) + (if isPast then " ago" else "")
  }

  function Abs(x: int): nat { if x < 0 then -x else x }

  /** `timeAgo(date, now)`, as the chain of floor divisions and comparisons of the source. */
  function TimeAgo(date: int, now: int): string
  {
    var diff := now - date;
    var seconds := Abs(diff) / 1000;
    var minutes := seconds / 60;
    var hours := minutes / 60;
    var days := hours / 24;
    var weeks := days / 7;
    var months := days / 30;
    var years := days / 365;
    var isPast := diff > 0;
    if seconds < 60 then "just now"
    else if minutes < 60 then Phrase(isPast, minutes, Minute)
    else if hours < 24 then Phrase(isPast, hours, Hour)
    else if days < 7 then Phrase(isPast, days, Day)
    else if weeks < 4 then Phrase(isPast, weeks, Week)
    else if months < 12 then Phrase(isPast, months, Month)
    else Phrase(isPast, years, Year)
  }

  /** The length of one unit in milliseconds; a month is 30 days and a year 365. */
  function UnitMs(u: Unit): nat
  {
    match u
    case Minute => MsPerMinute
    case Hour => MsPerHour
    case Day => MsPerDay
    case Week => 7 * MsPerDay
    case Month => 30 * MsPerDay
    case Year => 365 * MsPerDay
  }

  /** The band a distance falls in, read directly off the milliseconds. */
  function Band(ms: nat): Unit
  {
    if ms < MsPerHour then Minute
    else if ms < MsPerDay then Hour
    else if ms < 7 * MsPerDay then Day
    else if ms < 28 * MsPerDay then Week
    else if ms < 360 * MsPerDay then Month
    else Year
  }

  lemma {:induction false} DivUnique(a: nat, d: nat, q: nat, r: nat)
    requires d > 0 && a == d * q + r && r < d
    ensures a / d == q
  {
    var q' := a / d;
    var r' := a % d;
    assert a == d * q' + r';
    if q' > q {
      MulMono(d, q + 1, q');
    } else if q' < q {
      MulMono(d, q' + 1, q);
    }
  }

  lemma {:induction false} MulMono(d: nat, x: nat, y: nat)
    requires x <= y
    ensures d * x <= d * y
  {
    assert d * y == d * x + d * (y - x);
  }

  lemma {:induction false} MulAssoc(b: nat, c: nat, q2: nat, r2: nat)
    ensures b * (c * q2 + r2) == (b * c) * q2 + b * r2
  {
  }

  lemma {:induction false} MulMinusOne(b: nat, c: nat)
    requires c > 0
    ensures b * (c - 1) == b * c - b
  {
  }

  /** Dividing by `b` and then by `c` is dividing by `b * c`. */
  lemma {:induction false} DivDiv(a: nat, b: nat, c: nat)
    requires b > 0 && c > 0
    ensures a / b / c == a / (b * c)
  {
    var q := a / b;
    var r := a % b;
    var q2 := q / c;
    var r2 := q % c;
    assert a == b * q + r;
    assert q == c * q2 + r2;
    MulAssoc(b, c, q2, r2);
    MulMono(b, r2, c - 1);
    MulMinusOne(b, c);
    DivUnique(a, b * c, q2, b * r2 + r);
  }

  /** Every count of the source is a floor division of the distance in milliseconds. */
  lemma {:induction false} CountsAreFloorDivisions(ms: nat)
    ensures ms / 1000 / 60 == ms / MsPerMinute
    ensures ms / 1000 / 60 / 60 == ms / MsPerHour
    ensures ms / 1000 / 60 / 60 / 24 == ms / MsPerDay
    ensures ms / 1000 / 60 / 60 / 24 / 7 == ms / (7 * MsPerDay)
    ensures ms / 1000 / 60 / 60 / 24 / 30 == ms / (30 * MsPerDay)
    ensures ms / 1000 / 60 / 60 / 24 / 365 == ms / (365 * MsPerDay)
  {
    DivDiv(ms, 1000, 60);
    DivDiv(ms, MsPerMinute, 60);
    DivDiv(ms, MsPerHour, 24);
    DivDiv(ms, MsPerDay, 7);
    DivDiv(ms, MsPerDay, 30);
    DivDiv(ms, MsPerDay, 365);
  }

  /** A count below a bound is the same as the distance below the bound in milliseconds. */
  lemma {:induction false} FloorBelow(ms: nat, unit: nat, k: nat)
    requires unit > 0
    ensures ms / unit < k <==> ms < k * unit
  {
    if ms / unit < k {
      assert ms == unit * (ms / unit) + ms % unit;
      assert unit * (ms / unit) <= unit * (k - 1);
    } else {
      assert unit * (ms / unit) >= unit * k;
    }
  }

  /**
   * Apart from "just now", the phrase depends only on the distance
   * `|now - date|` in milliseconds: its band picks the unit, the count is the
   * distance divided by the unit's length, and the direction only chooses
   * between the " ago" suffix and the "in " prefix.
   */
  lemma {:induction false} TimeAgoBands(date: int, now: int)
    ensures var ms := Abs(now - date);
      (ms < MsPerMinute ==> TimeAgo(date, now) == "just now") &&
      (ms >= MsPerMinute ==>
        TimeAgo(date, now) == Phrase(now - date > 0, ms / UnitMs(Band(ms)), Band(ms)))
  {
    var ms := Abs(now - date);
    CountsAreFloorDivisions(ms);
    FloorBelow(ms, 1000 * 60, 1);
    FloorBelow(ms, MsPerMinute, 60);
    FloorBelow(ms, MsPerHour, 24);
    FloorBelow(ms, MsPerDay, 7);
    FloorBelow(ms, 7 * MsPerDay, 4);
    FloorBelow(ms, 30 * MsPerDay, 12);
    FloorBelow(ms / 1000, 60, 1);
  }

  /** "just now" is given exactly when the instants are less than a minute apart, in either direction. */
  lemma {:induction false} JustNowExactly(date: int, now: int)
    ensures TimeAgo(date, now) == "just now" <==> Abs(now - date) < MsPerMinute
  {
    TimeAgoBands(date, now);
    var ms := Abs(now - date);
    if ms >= MsPerMinute {
      var u := Band(ms);
      var n := ms / UnitMs(u);
      var p := Phrase(now - date > 0, n, u);
      if now - date > 0 {
        assert p[0] == NatToString(n)[0];
        assert IsDigitChar(p[0]);
      } else {
        assert p[0] == 'i';
      }
    }
  }

  predicate IsDigitChar(c: char) { '0' <= c <= '9' }

  /** A past instant reads "N units ago" and, with the instants swapped, "in N units". */
  lemma {:induction false} TimeAgoMirror(date: int, now: int)
    requires now - date >= MsPerMinute
    ensures var ms := now - date; var u := Band(ms); var n := ms / UnitMs(u);
      TimeAgo(date, now) == NatToString(n) + " " + UnitWord(u, n) + " ago" &&
      TimeAgo(now, date) == "in " + NatToString(n) + " " + UnitWord(u, n)
  {
    TimeAgoBands(date, now);
    TimeAgoBands(now, date);
    assert Abs(date - now) == Abs(now - date);
  }

  /** 28 and 29 days fall between the week band and the first full month. */
  lemma {:induction false} ZeroMonthsGap()
    ensures TimeAgo(0, 28 * MsPerDay) == "0 months ago"
  {
    TimeAgoBands(0, 28 * MsPerDay);
    assert Band(28 * MsPerDay) == Month;
    assert (28 * MsPerDay) / (30 * MsPerDay) == 0;
  }

  /** 360 to 364 days fall between the month band and the first full year. */
  lemma {:induction false} ZeroYearsGap()
    ensures TimeAgo(0, 360 * MsPerDay) == "0 years ago"
  {
    TimeAgoBands(0, 360 * MsPerDay);
    assert Band(360 * MsPerDay) == Year;
    assert (360 * MsPerDay) / (365 * MsPerDay) == 0;
  }

  /**
   * The evidently intended bands: weeks until a month has passed and months
   * until a year has passed, so no phrase counts zero units.
   */
  function TimeAgoCorrected(date: int, now: int): string
  {
    var diff := now - date;
    var seconds := Abs(diff) / 1000;
    var minutes := seconds / 60;
    var hours := minutes / 60;
    var days := hours / 24;
    var isPast := diff > 0;
    if seconds < 60 then "just now"
    else if minutes < 60 then Phrase(isPast, minutes, Minute)
    else if hours < 24 then Phrase(isPast, hours, Hour)
    else if days < 7 then Phrase(isPast, days, Day)
    else if days < 30 then Phrase(isPast, days / 7, Week)
    else if days < 365 then Phrase(isPast, days / 30, Month)
    else Phrase(isPast, days / 365, Year)
  }

  /** The corrected band of a distance: each band starts at one whole unit. */
  function BandCorrected(ms: nat): Unit
  {
    if ms < MsPerHour then Minute
    else if ms < MsPerDay then Hour
    else if ms < 7 * MsPerDay then Day
    else if ms < 30 * MsPerDay then Week
    else if ms < 365 * MsPerDay then Month
    else Year
  }

  /** Past "just now", the corrected phrase counts at least one unit of its band. */
  lemma {:induction false} CorrectedCountsAtLeastOne(date: int, now: int)
    ensures var ms := Abs(now - date); var u := BandCorrected(ms); var n := ms / UnitMs(u);
      (ms < MsPerMinute ==> TimeAgoCorrected(date, now) == "just now") &&
      (ms >= MsPerMinute ==> n >= 1 && TimeAgoCorrected(date, now) == Phrase(now - date > 0, n, u))
  {
    var ms := Abs(now - date);
    CountsAreFloorDivisions(ms);
    FloorBelow(ms, 1000 * 60, 1);
    FloorBelow(ms, MsPerMinute, 60);
    FloorBelow(ms, MsPerHour, 24);
    FloorBelow(ms, MsPerDay, 7);
    FloorBelow(ms, MsPerDay, 30);
    FloorBelow(ms, MsPerDay, 365);
    FloorBelow(ms / 1000, 60, 1);
    var u := BandCorrected(ms);
    if ms >= MsPerMinute {
      FloorBelow(ms, UnitMs(u), 1);
    }
  }

  /** Outside the two gaps (28 to 29 days, 360 to 364 days) the correction changes nothing. */
  lemma {:induction false} CorrectionOnlyInGaps(date: int, now: int)
    requires var ms := Abs(now - date);
      !(28 * MsPerDay <= ms < 30 * MsPerDay) && !(360 * MsPerDay <= ms < 365 * MsPerDay)
    ensures TimeAgoCorrected(date, now) == TimeAgo(date, now)
  {
    var ms := Abs(now - date);
    TimeAgoBands(date, now);
    CorrectedCountsAtLeastOne(date, now);
    assert ms >= MsPerMinute ==> Band(ms) == BandCorrected(ms);
  }

  /** 28 days reads as whole weeks once corrected. */
  lemma {:induction false} CorrectedFourWeeks()
    ensures TimeAgoCorrected(0, 28 * MsPerDay) == "4 weeks ago"
  {
    CorrectedCountsAtLeastOne(0, 28 * MsPerDay);
    assert BandCorrected(28 * MsPerDay) == Week;
    assert (28 * MsPerDay) / (7 * MsPerDay) == 4;
    assert NatToString(4) == "4";
  }

  /** 360 days reads as whole months once corrected. */
  lemma {:induction false} CorrectedTwelveMonths()
    ensures TimeAgoCorrected(0, 360 * MsPerDay) == "12 months ago"
  {
    CorrectedCountsAtLeastOne(0, 360 * MsPerDay);
    assert BandCorrected(360 * MsPerDay) == Month;
    assert (360 * MsPerDay) / (30 * MsPerDay) == 12;
    assert NatToString(12) == "12" by {
      assert NatToString(1) == "1";
    }
  }

  /** The unit word is singular exactly for a count of 1; every other count, 0 included, adds an "s". */
  lemma {:induction false} SingularForOne(u: Unit, count: nat)
    ensures UnitWord(u, count) == UnitWord(u, 1) <==> count == 1
    ensures count != 1 ==> UnitWord(u, count) == UnitWord(u, 1) + "s"
  {
    assert |UnitWord(u, 1) + "s"| == |UnitWord(u, 1)| + 1;
  }
}
