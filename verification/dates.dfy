/**
  Calendar dates as (year, month, day) triples, ordered the way
  `LocalDate.isBefore` orders them, and the whole-year part of
  `Period.between`, which decides the minimum-age rule.
 */
module Dates {

  datatype Date = Date(year: int, month: int, day: int)

  /** A triple a `LocalDate` could hold; day-of-month validity per month is not checked. */
  predicate ValidDate(d: Date) {
    1 <= d.month <= 12 && 1 <= d.day <= 31
  }

  /**
    A day count that grows with the date: enough room per month and per
    year that a valid triple never overlaps the next month or year.
   */
  function Ordinal(d: Date): int {
    d.year * 384 + d.month * 32 + d.day
  }

  /**
    `a.isBefore(b)`: lexicographic order on (year, month, day), which on
    valid dates is the order of their ordinals.
   */
  predicate Before(a: Date, b: Date)
    ensures ValidDate(a) && ValidDate(b) ==> (Before(a, b) <==> Ordinal(a) < Ordinal(b))
  {
    a.year < b.year
    || (a.year == b.year && a.month < b.month)
    || (a.year == b.year && a.month == b.month && a.day < b.day)
  }

  /** Java's `/` on integers: the quotient truncated toward zero. */
  function TruncDiv(a: int, b: int): (q: int)
    requires b > 0
    ensures a >= 0 ==> 0 <= a - q * b < b
    ensures a < 0 ==> -b < a - q * b <= 0
  {
    if a >= 0 then a / b else -((-a) / b)
  }

  /**
    The month count of `Period.between(start, end)` as the JDK normalises it:
    the whole months between the two dates, less one month when the day of
    month has not been reached (or one more when counting backwards).
   */
  function WholeMonths(start: Date, end: Date): int {
    var totalMonths := (end.year * 12 + end.month) - (start.year * 12 + start.month);
    var days := end.day - start.day;
    if totalMonths > 0 && days < 0 then totalMonths - 1
    else if totalMonths < 0 && days > 0 then totalMonths + 1
    else totalMonths
  }

  /**
    `Period.between(start, end).getYears()`: the month count divided by
    twelve with truncation. For valid dates with `start` on or before `end`
    it is the everyday age; for a `start` after `end` it is never positive,
    and zero within the same year.
   */
  function PeriodYears(start: Date, end: Date): (years: int)
    ensures ValidDate(start) && ValidDate(end) && !Before(end, start) ==>
      years == AgeInYears(start, end) && years >= 0
    ensures ValidDate(start) && ValidDate(end) && Before(end, start) ==>
      years <= 0 && (end.year == start.year ==> years == 0)
  {
    WholeMonthsInYears(start, end);
    TruncDiv(WholeMonths(start, end), 12)
  }

  /** The everyday reading of age: year difference, less one before the birthday. */
  function AgeInYears(birth: Date, today: Date): int {
    var beforeBirthday :=
      today.month < birth.month || (today.month == birth.month && today.day < birth.day);
    today.year - birth.year - (if beforeBirthday then 1 else 0)
  }

  lemma WholeMonthsInYears(start: Date, end: Date)
    ensures ValidDate(start) && ValidDate(end) && !Before(end, start) ==>
      TruncDiv(WholeMonths(start, end), 12) == AgeInYears(start, end) >= 0
    ensures ValidDate(start) && ValidDate(end) && Before(end, start) ==>
      WholeMonths(start, end) <= 0
      && (end.year == start.year ==> TruncDiv(WholeMonths(start, end), 12) == 0)
  {
    if ValidDate(start) && ValidDate(end) {
      var months := WholeMonths(start, end);
      if !Before(end, start) {
        var age := AgeInYears(start, end);
        assert age >= 0;
        assert 12 * age <= months < 12 * age + 12;
        TruncDivOfBracket(months, age);
      } else if end.year == start.year {
        assert -12 < months <= 0;
      }
    }
  }

  lemma TruncDivOfBracket(a: int, q: int)
    requires q >= 0
    requires 12 * q <= a < 12 * q + 12
    ensures TruncDiv(a, 12) == q
  {
  }
}
