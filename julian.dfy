/** The conversion module the calendar layer sits on (JDN <-> Gregorian,
    JDN <-> Hebrew, Hebrew year length), and the weekday of a Gregorian
    date. Their bodies are not part of this model: the layer receives them
    as a `Calendar` value, and what it relies on is stated as predicates
    over that value. */
module Julian {

  /** A weekday as a Gregorian date reports it: Monday = 0, ..., Sunday = 6. */
  type Weekday = w: int | 0 <= w < 7

  datatype GDate = GDate(year: int, month: int, day: int)

  /** A Hebrew date; month 1 is Tishrei, 7 Nissan, 8 Iyar, 9 Sivan, 13/14 Adar I/II. */
  datatype HTriple = HTriple(day: int, month: int, year: int)

  const Tishrei := 1
  const Nissan := 7
  const Iyar := 8
  const Sivan := 9

  datatype Calendar = Calendar(
    hdateToJdn: (int, int, int) -> int,  // (day, month, year) to a Julian day number
    jdnToHdate: int -> HTriple,
    gdateToJdn: GDate -> int,
    jdnToGdate: int -> GDate,
    sizeOfHebrewYear: int -> int,
    weekday: GDate -> Weekday)

  /** The six lengths a Hebrew year can have. */
  const LegalYearSizes: set<int> := {353, 354, 355, 383, 384, 385}

  /** Converting a day number to a Hebrew date and back gives the same day. */
  ghost predicate HebrewRoundTrip(cal: Calendar) {
    forall j: int :: cal.hdateToJdn(cal.jdnToHdate(j).day, cal.jdnToHdate(j).month, cal.jdnToHdate(j).year) == j
  }

  /** Leap years of the proleptic Gregorian calendar. */
  predicate IsLeapYear(y: int) {
    y % 4 == 0 && (y % 100 != 0 || y % 400 == 0)
  }

  function DaysInMonth(y: int, m: int): (n: int)
    requires 1 <= m <= 12
    ensures 28 <= n <= 31
    ensures n == 29 <==> m == 2 && IsLeapYear(y)
  {
    if m == 2 then (if IsLeapYear(y) then 29 else 28)
    else if m == 4 || m == 6 || m == 9 || m == 11 then 30
    else 31
  }

  /** A real day of the Gregorian calendar, in any year. */
  predicate IsDate(g: GDate) {
    1 <= g.month <= 12 && 1 <= g.day <= DaysInMonth(g.year, g.month)
  }

  /** What `datetime.date` accepts: a real date in the years 1..9999. */
  predicate DatetimeAccepts(g: GDate) {
    1 <= g.year <= 9999 && IsDate(g)
  }

  /** Converting a real Gregorian date to its day number and back gives the date. */
  ghost predicate GregorianRoundTrip(cal: Calendar) {
    forall g: GDate :: IsDate(g) ==> cal.jdnToGdate(cal.gdateToJdn(g)) == g
  }

  /** Converting a day number to a Gregorian date and back gives the day number. */
  ghost predicate JdnRoundTrip(cal: Calendar) {
    forall j: int :: cal.gdateToJdn(cal.jdnToGdate(j)) == j
  }

  /** Every Hebrew date the converter produces has a month in 1..14 and a day in 1..30. */
  ghost predicate HebrewFieldsInRange(cal: Calendar) {
    forall j: int :: 1 <= cal.jdnToHdate(j).month <= 14 && 1 <= cal.jdnToHdate(j).day <= 30
  }

  /** Day number 0 was a Monday, so the weekday is the day number modulo 7. */
  ghost predicate WeekdayFollowsJdn(cal: Calendar) {
    forall g: GDate :: cal.weekday(g) == cal.gdateToJdn(g) % 7
  }

  /** Within one month consecutive days have consecutive day numbers. */
  predicate DaysConsecutive(cal: Calendar, month: int, year: int) {
    forall d: int {:trigger cal.hdateToJdn(d, month, year)} ::
      1 <= d <= 30 ==> cal.hdateToJdn(d, month, year) == cal.hdateToJdn(1, month, year) + d - 1
  }
}
