/** The `HDate` object of src/hdate/date.py: a Gregorian date together with
    the Hebrew day, month and year derived from it, and the calendar rules
    resolved from those fields. */
module HebrewDate {
  import opened Julian
  import opened Outcomes
  import opened Holidays
  import opened Readings

  /** The Gregorian date `hdate_set_jdn` moves to, or the error
      `datetime.date` raises for the converted triple. */
  function GdateForJdn(cal: Calendar, jdn: int): (r: Result<GDate>)
    ensures r.Success? <==> DatetimeAccepts(cal.jdnToGdate(jdn))
    ensures r.Success? ==> r.value == cal.jdnToGdate(jdn) && 1 <= r.value.year <= 9999
    ensures r.Failure? ==>
              r.error == InvalidDate(cal.jdnToGdate(jdn).year, cal.jdnToGdate(jdn).month, cal.jdnToGdate(jdn).day)
  {
    var g := cal.jdnToGdate(jdn);
    if DatetimeAccepts(g) then Success(g) else Failure(InvalidDate(g.year, g.month, g.day))
  }

  /** The Gregorian date `hdate_set_hdate` moves to, or the error it raises.
      The day check rejects 31 although its message names 1-31. */
  function GdateForHdate(cal: Calendar, day: int, month: int, year: int): (r: Result<GDate>)
    ensures r.Success? <==>
              && 1 <= month <= 14 && 1 <= day <= 30
              && DatetimeAccepts(cal.jdnToGdate(cal.hdateToJdn(day, month, year)))
    ensures !(1 <= month <= 14) ==> r == Failure(MonthOutOfRange(month))
    ensures 1 <= month <= 14 && !(1 <= day <= 30) ==> r == Failure(DayOutOfRange(day))
    ensures 1 <= month <= 14 && 1 <= day <= 30 ==> r == GdateForJdn(cal, cal.hdateToJdn(day, month, year))
  {
    if !(0 < month < 15) then Failure(MonthOutOfRange(month))
    else if !(0 < day < 31) then Failure(DayOutOfRange(day))
    else GdateForJdn(cal, cal.hdateToJdn(day, month, year))
  }

  /** The Hebrew triple an object holding `g` carries. */
  function HebrewOf(cal: Calendar, g: GDate): HTriple {
    cal.jdnToHdate(cal.gdateToJdn(g))
  }

  class HDate {
    const cal: Calendar
    var gdate: GDate
    var hDay: int
    var hMonth: int
    var hYear: int
    var diaspora: bool
    var hebrew: bool

    /** The Gregorian date is one `datetime.date` accepts, and the Hebrew
        fields are its conversion. */
    ghost predicate Valid()
      reads this
    {
      && DatetimeAccepts(gdate)
      && HTriple(hDay, hMonth, hYear) == HebrewOf(cal, gdate)
    }

    constructor (cal: Calendar, date: GDate, diaspora: bool, hebrew: bool)
      requires DatetimeAccepts(date)
      ensures this.cal == cal && gdate == date
      ensures this.diaspora == diaspora && this.hebrew == hebrew
      ensures Valid()
    {
      this.cal := cal;
      this.hebrew := hebrew;
      this.diaspora := diaspora;
      gdate := date;
      var t := cal.jdnToHdate(cal.gdateToJdn(date));
      hDay, hMonth, hYear := t.day, t.month, t.year;
    }

    /** The `gdate` setter: store the date and re-derive the Hebrew fields. */
    method SetGdate(value: GDate)
      requires DatetimeAccepts(value)
      modifies this
      ensures gdate == value && Valid()
      ensures diaspora == old(diaspora) && hebrew == old(hebrew)
    {
      gdate := value;
      var t := cal.jdnToHdate(Jdn());
      hDay, hMonth, hYear := t.day, t.month, t.year;
    }

    /** The day number of the date: the Hebrew fields are its conversion,
        and it converts back to the date. */
    function Jdn(): (r: int)
      reads this
      ensures Valid() ==> cal.jdnToHdate(r) == HTriple(hDay, hMonth, hYear)
      ensures GregorianRoundTrip(cal) && IsDate(gdate) ==> cal.jdnToGdate(r) == gdate
    {
      cal.gdateToJdn(gdate)
    }

    /** `hdate_set_jdn`: a converted triple `datetime.date` rejects is an
        error and leaves the object as it was. */
    method SetJdn(jdn: int) returns (r: Result<()>)
      modifies this
      ensures GdateForJdn(cal, jdn).Failure? ==>
                r == Failure(GdateForJdn(cal, jdn).error) && unchanged(this)
      ensures GdateForJdn(cal, jdn).Success? ==>
                && r == Success(())
                && gdate == cal.jdnToGdate(jdn) && Valid()
                && diaspora == old(diaspora) && hebrew == old(hebrew)
    {
      var g := cal.jdnToGdate(jdn);
      if !DatetimeAccepts(g) {
        return Failure(InvalidDate(g.year, g.month, g.day));
      }
      SetGdate(GDate(g.year, g.month, g.day));
      r := Success(());
    }

    /** `hdate_set_hdate`: validate, then move to the given Hebrew date; a
        rejected date leaves the object as it was. */
    method SetHdate(day: int, month: int, year: int) returns (r: Result<()>)
      modifies this
      ensures GdateForHdate(cal, day, month, year).Failure? ==>
                r == Failure(GdateForHdate(cal, day, month, year).error) && unchanged(this)
      ensures GdateForHdate(cal, day, month, year).Success? ==>
                && r == Success(())
                && gdate == GdateForHdate(cal, day, month, year).value && Valid()
                && diaspora == old(diaspora) && hebrew == old(hebrew)
    {
      if !(0 < month < 15) {
        return Failure(MonthOutOfRange(month));
      }
      if !(0 < day < 31) {
        return Failure(DayOutOfRange(day));
      }
      var jdn := cal.hdateToJdn(day, month, year);
      r := SetJdn(jdn);
    }

    /** Day of the week with Sunday = 1; Saturday is 7. */
    function Dow(): (r: int)
      reads this
      ensures 1 <= r <= 7
      ensures r == 1 <==> cal.weekday(gdate) == 6
      ensures r == 7 <==> cal.weekday(gdate) == 5
      ensures r == (cal.weekday(gdate) + 1) % 7 + 1
    {
      if cal.weekday(gdate) != 6 then cal.weekday(gdate) + 2 else 1
    }

    /** The length of the Hebrew year the date falls in. */
    function YearSize(): (r: int)
      reads this
      ensures Valid() ==> r == cal.sizeOfHebrewYear(HebrewOf(cal, gdate).year)
    {
      cal.sizeOfHebrewYear(hYear)
    }

    /** Kislev is short exactly in the deficient years, the ones whose size
        class in the year-type key is 0. */
    function ShortKislev(): (r: bool)
      reads this
      ensures r ==> YearSize() in LegalYearSizes
      ensures YearSize() in LegalYearSizes ==> (r <==> YearSize() % 10 - 3 == 0)
    {
      YearSize() in [353, 383]
    }

    function RoshHashanaDow(): (r: int)
      reads this
      ensures 1 <= r <= 7
    {
      (cal.hdateToJdn(1, Tishrei, hYear) + 1) % 7 + 1
    }

    function PesachDow(): (r: int)
      reads this
      ensures 1 <= r <= 7
    {
      (cal.hdateToJdn(15, Nissan, hYear) + 1) % 7 + 1
    }

    /** The day of the Omer: counted from 16 Nissan, zero outside 1..49. */
    function OmerDay(): (r: int)
      reads this
      ensures r == 0 || 1 <= r <= 49
      ensures r != 0 <==> 1 <= Jdn() - cal.hdateToJdn(16, Nissan, hYear) + 1 <= 49
      ensures r != 0 ==> r == Jdn() - cal.hdateToJdn(16, Nissan, hYear) + 1
    {
      var omerDay := Jdn() - cal.hdateToJdn(16, Nissan, hYear) + 1;
      if !(0 < omerDay < 50) then 0 else omerDay
    }

    /** The year-type key of the reading table. */
    function YearType(): int
      reads this
    {
      var sizeClass := YearSize() % 10 - 3;
      (if diaspora then 1 else 0) * 1000 + RoshHashanaDow() * 100 + sizeClass * 10 + PesachDow()
    }

    function DaysSinceNewYear(): int
      reads this
    {
      Jdn() - cal.hdateToJdn(1, Tishrei, hYear)
    }

    function Weeks(): int
      reads this
    {
      (DaysSinceNewYear() + RoshHashanaDow() - 1) / 7
    }

    /** The two early returns of `get_reading` (reading 54). */
    predicate SpecialWeek()
      reads this
    {
      var days, weeks := DaysSinceNewYear(), Weeks();
      || (weeks == 3 && ((days <= 22 && diaspora && Dow() != 7) || (days <= 21 && !diaspora)))
      || (weeks == 4 && days == 22 && diaspora)
    }

    /** `get_reading`: the reading index of the date's week. */
    function Reading(rows: seq<ReadingRow>): (r: Result<int>)
      reads this
      ensures SpecialWeek() ==> r == Success(54)
      ensures r.Success? ==> r.value == 54 || r.value in Flatten(rows, YearType())
      ensures DaysSinceNewYear() >= 0 && !SpecialWeek() ==>
                r == if Weeks() < |Flatten(rows, YearType())| then Success(Flatten(rows, YearType())[Weeks()])
                     else Failure(IndexError)
    {
      if SpecialWeek() then Success(54)
      else PyIndex(Flatten(rows, YearType()), Weeks())
    }

    /** The object's fields as the holiday predicates see them. */
    function State(): DateState
      reads this
    {
      DateState(cal, gdate, hDay, hMonth, hYear, diaspora, hebrew)
    }

    /** `_holiday_entry`: fails exactly on an empty table or an ambiguous
        date; otherwise a rule of the table, a matching one if any matches
        and the first one if none does. */
    function HolidayEntry(table: seq<HolidayRule>): (r: Result<HolidayRule>)
      reads this
      ensures r.Failure? <==> table == [] || Ambiguous(table, State())
      ensures r.Failure? ==> r.error == (if table == [] then IndexError else AmbiguousHoliday)
      ensures r.Success? ==> r.value in table
      ensures r.Success? && SomeMatch(table, State()) ==> Matches(r.value, State())
      ensures r.Success? && !SomeMatch(table, State()) ==> r.value == table[0]
    {
      Resolve(table, State())
    }

    /** `holiday_type`: the type of the entry `_holiday_entry` finds. */
    function HolidayType(table: seq<HolidayRule>): (r: Result<int>)
      reads this
      ensures r.Failure? <==> table == [] || Ambiguous(table, State())
      ensures r.Success? ==> exists i :: 0 <= i < |table| && r.value == table[i].kind
      ensures r.Success? && SomeMatch(table, State()) ==>
                exists i :: 0 <= i < |table| && Matches(table[i], State()) && r.value == table[i].kind
    {
      match HolidayEntry(table)
      case Success(rule) => Success(rule.kind)
      case Failure(e) => Failure(e)
    }
  }

  /** Setting the Hebrew triple of a date `datetime.date` accepts moves to that date. */
  lemma ResetToOwnTriple(cal: Calendar, g: GDate)
    requires HebrewRoundTrip(cal) && GregorianRoundTrip(cal) && HebrewFieldsInRange(cal)
    requires DatetimeAccepts(g)
    ensures var t := HebrewOf(cal, g);
            GdateForHdate(cal, t.day, t.month, t.year) == Success(g)
  {
    var j := cal.gdateToJdn(g);
    var t := cal.jdnToHdate(j);
    assert cal.hdateToJdn(t.day, t.month, t.year) == j;
    assert cal.jdnToGdate(j) == g;
  }

  /** `hdate_set_hdate` on an object's own Hebrew fields succeeds and leaves
      the object as it was. */
  method SetOwnHdate(h: HDate) returns (r: Result<()>)
    requires h.Valid()
    requires HebrewRoundTrip(h.cal) && GregorianRoundTrip(h.cal) && HebrewFieldsInRange(h.cal)
    modifies h
    ensures r == Success(())
    ensures h.gdate == old(h.gdate)
    ensures h.hDay == old(h.hDay) && h.hMonth == old(h.hMonth) && h.hYear == old(h.hYear)
    ensures h.diaspora == old(h.diaspora) && h.hebrew == old(h.hebrew)
  {
    ResetToOwnTriple(h.cal, h.gdate);
    r := h.SetHdate(h.hDay, h.hMonth, h.hYear);
  }

  /** Moving to a Hebrew date the converter maps back to itself succeeds
      when `datetime.date` accepts its Gregorian date, and then leaves
      exactly that triple in the Hebrew fields. */
  lemma SetHdateFields(cal: Calendar, day: int, month: int, year: int)
    requires JdnRoundTrip(cal)
    requires 1 <= month <= 14 && 1 <= day <= 30
    requires cal.jdnToHdate(cal.hdateToJdn(day, month, year)) == HTriple(day, month, year)
    ensures GdateForHdate(cal, day, month, year).Success?
            <==> DatetimeAccepts(cal.jdnToGdate(cal.hdateToJdn(day, month, year)))
    ensures GdateForHdate(cal, day, month, year).Success? ==>
              HebrewOf(cal, GdateForHdate(cal, day, month, year).value) == HTriple(day, month, year)
  {
    var j := cal.hdateToJdn(day, month, year);
    assert cal.gdateToJdn(cal.jdnToGdate(j)) == j;
  }

  /** The day and month checks allow 30 days in every month and any month
      1..14 in every year, so a triple the converter does not map back to
      itself (30 Cheshvan of a deficient year, month 13 of a common year) is
      accepted and lands on a different Hebrew date. */
  lemma SetHdateLandsElsewhere(cal: Calendar, day: int, month: int, year: int)
    requires JdnRoundTrip(cal)
    requires 1 <= month <= 14 && 1 <= day <= 30
    requires cal.jdnToHdate(cal.hdateToJdn(day, month, year)) != HTriple(day, month, year)
    requires DatetimeAccepts(cal.jdnToGdate(cal.hdateToJdn(day, month, year)))
    ensures GdateForHdate(cal, day, month, year).Success?
    ensures HebrewOf(cal, GdateForHdate(cal, day, month, year).value) != HTriple(day, month, year)
  {
    var j := cal.hdateToJdn(day, month, year);
    assert cal.gdateToJdn(cal.jdnToGdate(j)) == j;
  }

  /** `dow` agrees with the `(jdn + 1) % 7 + 1` formula used for Rosh
      Hashana and Pesach, once the weekday follows the day number. */
  lemma DowMatchesJdnFormula(h: HDate)
    requires WeekdayFollowsJdn(h.cal)
    ensures h.Dow() == (h.Jdn() + 1) % 7 + 1
  {
    var w := h.cal.weekday(h.gdate);
    assert w == h.Jdn() % 7;
    var q := h.Jdn() / 7;
    assert h.Jdn() == 7 * q + w;
    if w == 6 {
      assert h.Jdn() + 1 == 7 * (q + 1);
    } else {
      assert h.Jdn() + 1 == 7 * q + (w + 1);
    }
  }

  /** On 1 Tishrei `rosh_hashana_dow` is the date's own `dow`. */
  lemma RoshHashanaDowIsDow(h: HDate)
    requires WeekdayFollowsJdn(h.cal)
    requires h.Jdn() == h.cal.hdateToJdn(1, Tishrei, h.hYear)
    ensures h.RoshHashanaDow() == h.Dow()
  {
    DowMatchesJdnFormula(h);
  }

  /** On 15 Nissan `pesach_dow` is the date's own `dow`. */
  lemma PesachDowIsDow(h: HDate)
    requires WeekdayFollowsJdn(h.cal)
    requires h.Jdn() == h.cal.hdateToJdn(15, Nissan, h.hYear)
    ensures h.PesachDow() == h.Dow()
  {
    DowMatchesJdnFormula(h);
  }

  /** The week count of `get_reading` steps up exactly after a Saturday: the
      days since Rosh Hashana, shifted by its weekday, are seven per week plus
      the weekday of the date. */
  lemma WeeksFollowWeekdays(h: HDate)
    requires WeekdayFollowsJdn(h.cal)
    ensures h.DaysSinceNewYear() + h.RoshHashanaDow() - 1 == 7 * h.Weeks() + h.Dow() - 1
  {
    DowMatchesJdnFormula(h);
    var j, j0 := h.Jdn(), h.cal.hdateToJdn(1, Tishrei, h.hYear);
    var n := h.DaysSinceNewYear() + h.RoshHashanaDow() - 1;
    assert n == (j - j0) + (j0 + 1) % 7;
    var a := (j0 + 1) / 7;
    assert j0 + 1 == 7 * a + (j0 + 1) % 7;
    assert n == (j + 1) - 7 * a;
    ModShift(j + 1, a);
    assert n % 7 == (j + 1) % 7;
    assert n == 7 * (n / 7) + n % 7;
  }

  lemma ModShift(x: int, a: int)
    ensures (x - 7 * a) % 7 == x % 7
  {
    var q, m := x / 7, x % 7;
    assert x - 7 * a == 7 * (q - a) + m;
  }

  /** Nissan d is Omer day d - 15 from the 16th on. */
  lemma OmerInNissan(h: HDate, d: int)
    requires DaysConsecutive(h.cal, Nissan, h.hYear)
    requires 16 <= d <= 30 && h.Jdn() == h.cal.hdateToJdn(d, Nissan, h.hYear)
    ensures h.OmerDay() == d - 15
  {
    assert h.cal.hdateToJdn(16, Nissan, h.hYear) == h.cal.hdateToJdn(1, Nissan, h.hYear) + 15;
  }

  /** Nissan 1..15 lie before the Omer. */
  lemma OmerBeforeNissan16(h: HDate, d: int)
    requires DaysConsecutive(h.cal, Nissan, h.hYear)
    requires 1 <= d <= 15 && h.Jdn() == h.cal.hdateToJdn(d, Nissan, h.hYear)
    ensures h.OmerDay() == 0
  {
    assert h.cal.hdateToJdn(16, Nissan, h.hYear) == h.cal.hdateToJdn(1, Nissan, h.hYear) + 15;
  }

  /** Iyar d is Omer day d + 15, Nissan having 30 days. */
  lemma OmerInIyar(h: HDate, d: int)
    requires DaysConsecutive(h.cal, Nissan, h.hYear) && DaysConsecutive(h.cal, Iyar, h.hYear)
    requires h.cal.hdateToJdn(1, Iyar, h.hYear) == h.cal.hdateToJdn(1, Nissan, h.hYear) + 30
    requires 1 <= d <= 29 && h.Jdn() == h.cal.hdateToJdn(d, Iyar, h.hYear)
    ensures h.OmerDay() == d + 15
  {
    assert h.cal.hdateToJdn(16, Nissan, h.hYear) == h.cal.hdateToJdn(1, Nissan, h.hYear) + 15;
  }

  /** Sivan d is Omer day d + 44, Iyar having 29 days: 5 Sivan is day 49 and
      Shavuot (6 Sivan) on ends the count. */
  lemma OmerInSivan(h: HDate, d: int)
    requires DaysConsecutive(h.cal, Nissan, h.hYear) && DaysConsecutive(h.cal, Sivan, h.hYear)
    requires h.cal.hdateToJdn(1, Iyar, h.hYear) == h.cal.hdateToJdn(1, Nissan, h.hYear) + 30
    requires h.cal.hdateToJdn(1, Sivan, h.hYear) == h.cal.hdateToJdn(1, Iyar, h.hYear) + 29
    requires 1 <= d <= 30 && h.Jdn() == h.cal.hdateToJdn(d, Sivan, h.hYear)
    ensures h.OmerDay() == if d <= 5 then d + 44 else 0
  {
    assert h.cal.hdateToJdn(16, Nissan, h.hYear) == h.cal.hdateToJdn(1, Nissan, h.hYear) + 15;
  }

  /** The year-type key decodes back into its four components, so distinct
      year types never share a key. */
  lemma YearTypeDecodes(h: HDate)
    requires h.YearSize() in LegalYearSizes
    ensures var key := h.YearType();
            && key / 1000 == (if h.diaspora then 1 else 0)
            && key / 100 % 10 == h.RoshHashanaDow()
            && key / 10 % 10 == h.YearSize() % 10 - 3
            && key % 10 == h.PesachDow()
            && 0 <= h.YearSize() % 10 - 3 <= 2
  {
    var d := if h.diaspora then 1 else 0;
    var c := h.YearSize() % 10 - 3;
    var rh, p := h.RoshHashanaDow(), h.PesachDow();
    assert 0 <= c <= 2;
    var key := h.YearType();
    assert key == 1000 * d + 100 * rh + 10 * c + p;
    DivMod10(key, 100 * d + 10 * rh + c, p);
    DivMod10(100 * d + 10 * rh + c, 10 * d + rh, c);
    DivMod10(10 * d + rh, d, rh);
  }

  lemma DivMod10(n: int, q: int, r: int)
    requires n == 10 * q + r && 0 <= r < 10
    ensures n / 10 == q && n % 10 == r
  {
  }

  /** From Rosh Hashana on the week count is never negative, so the reading
      table is indexed from its start. */
  lemma WeeksFromNewYear(h: HDate)
    requires h.DaysSinceNewYear() >= 0
    ensures h.Weeks() >= 0
    ensures h.Weeks() == 0 <==> h.DaysSinceNewYear() + h.RoshHashanaDow() <= 7
  {
  }

  /** With exactly one table row for the year type, an ordinary week reads
      that row's flattened list at the week count. */
  lemma ReadingOfOnlyRow(h: HDate, rows: seq<ReadingRow>, i: int)
    requires 0 <= i < |rows| && h.YearType() in rows[i].yearTypes
    requires forall j :: 0 <= j < |rows| && j != i ==> h.YearType() !in rows[j].yearTypes
    requires h.DaysSinceNewYear() >= 0 && !h.SpecialWeek()
    requires h.Weeks() < |Expand(rows[i].readings)|
    ensures h.Reading(rows) == Success(Expand(rows[i].readings)[h.Weeks()])
  {
    FlattenOnlyRow(rows, h.YearType(), i);
  }

  /** A year type missing from the table is an error outside the special weeks. */
  lemma ReadingOfMissingYearType(h: HDate, rows: seq<ReadingRow>)
    requires forall j :: 0 <= j < |rows| ==> h.YearType() !in rows[j].yearTypes
    requires !h.SpecialWeek()
    ensures h.Reading(rows) == Failure(IndexError)
  {
    FlattenNoRow(rows, h.YearType());
  }

  /** In Israel the fourth week never takes the special reading. */
  lemma IsraelWeekFour(h: HDate)
    requires !h.diaspora && h.Weeks() == 4
    ensures !h.SpecialWeek()
  {
  }

  /** `holiday_type` is the type of the one rule matching the date, the
      sentinel's type when none matches, and an error when two match. */
  lemma HolidayTypeOfMatch(h: HDate, table: seq<HolidayRule>)
    ensures forall i :: 0 <= i < |table| && Matches(table[i], h.State())
                        && (forall j :: 0 <= j < |table| && j != i ==> !Matches(table[j], h.State()))
                        ==> h.HolidayType(table) == Success(table[i].kind)
    ensures (forall i :: 0 <= i < |table| ==> !Matches(table[i], h.State())) && table != []
            ==> h.HolidayType(table) == Success(table[0].kind)
    ensures (exists i, j :: 0 <= i < j < |table| && Matches(table[i], h.State()) && Matches(table[j], h.State()))
            ==> h.HolidayType(table) == Failure(AmbiguousHoliday)
  {
  }
}
