# py-libhdate `date.py` in Dafny

This project models the core of py-libhdate's `src/hdate/date.py` and proves properties of the model.

- `HDate` object: a Gregorian date plus the Hebrew day, month and year derived from it. It has:
  - three setters that move the object to another date;
  - resolvers that read calendar facts off its fields: day of week, year size, short Kislev, Rosh Hashana and Pesach weekdays, day of the Omer, weekly Torah reading and the holiday of the date.
- `hebrew_number`: writes a number in Hebrew letters (gematria).
- `get_omer_string`: writes the Hebrew phrase counting the Omer.

Modules:

- `Outcomes` (outcomes.dfy):
  - `Error` and `Result` model the Python exceptions the core raises;
  - `PyIndex` models a Python list index, negative indices included.
- `Julian` (julian.dfy):
  - `Calendar` is a value holding the conversion functions of the `hdate_julian` module. That module is not part of this model.
  - `Calendar` also holds `datetime.date.weekday`.
  - Named predicates state the facts about those functions that some lemmas assume, such as the round trips.
  - `IsDate` is a real day of the proleptic Gregorian calendar. `DatetimeAccepts` adds the years 1..9999 that `datetime.date` allows.
- `Holidays` (holidays.dfy):
  - holiday rules and the three-stage filter of `_holiday_entry`;
  - `Resolve` is the whole lookup.
- `Readings` (readings.dfy): rows of the weekly-reading table and the flattening `get_reading` applies to them.
- `HebrewDate` (hdate.dfy): the class `HDate`, its fields and methods, and lemmas about it.
- `Numerals` (numerals.dfy): `hebrew_number` as an imperative method, proved against a description of the string it builds.
- `Gematria` (gematria.dfy): what those letters denote. The thousands letter counts thousands. The letters after it add up to the number modulo 1000, never rise in value, and never write 15 or 16 as yod-he or yod-vav.
- `Omer` (omer.dfy): `get_omer_string` as a method appending piece by piece, proved against a clause-by-clause description of the phrase.

Modelling choices:

- The holiday table (`HOLIDAYS`), reading table (`READINGS`) and numeral letters (`DIGITS`) come from `htables`, which is not part of this model. They are parameters here.
- The letters in `DIGITS` must have the shape the code indexes: ten ones, ten tens and five hundreds. The model states this as the requirement `Numerals.WellFormed`.
- Entry 0 of the tens row is the letter worth nine. `hebrew_number` uses it for 15 and 16, which it writes as nine-and-six and nine-and-seven.

## Model

| member | source | states |
|---|---|---|
| HebrewDate.HDate.constructor | src/hdate/date.py:30-36 | Given a date `datetime.date` accepts, the new object holds that date and the flags, and its Hebrew fields are the conversion of the date (`Valid`). |
| HebrewDate.HDate.SetGdate | src/hdate/date.py:74-78 | The `gdate` setter stores the date and re-derives the Hebrew day, month and year from its day number. The flags are kept. |
| HebrewDate.GdateForJdn | src/hdate/date.py:64-67 | The converted triple is accepted exactly when it is a real date in the years 1..9999, as `datetime.date` demands. Otherwise the result is the `ValueError` naming that triple. |
| HebrewDate.HDate.SetJdn | src/hdate/date.py:64-67 | `hdate_set_jdn` moves the object to the Gregorian date of the day number, keeping the fields consistent. A triple `datetime.date` rejects returns its error and leaves the object unchanged. |
| HebrewDate.HDate.Jdn | src/hdate/date.py:80-83 | The day number of the date converts to the object's Hebrew fields. It converts back to the date when the Gregorian round trip holds. |
| HebrewDate.GdateForHdate | src/hdate/date.py:53-67 | The move succeeds exactly for month 1..14, day 1..30 and a Gregorian date `datetime.date` accepts. A bad month is reported first, then a bad day, then the date error of `hdate_set_jdn`. Day 31 is rejected although the message names 1-31. |
| HebrewDate.HDate.SetHdate | src/hdate/date.py:53-62 | A rejected date returns the error and leaves the object unchanged. An accepted one moves the object to the Gregorian date of the Hebrew triple. |
| HebrewDate.ResetToOwnTriple | src/hdate/date.py:35-36 | Given the conversion round trips (the Gregorian one for real dates only), setting the Hebrew triple of an accepted date is accepted and leads back to that date. |
| HebrewDate.SetOwnHdate | src/hdate/date.py:53-78 | Calling `hdate_set_hdate` with an object's own Hebrew day, month and year succeeds and leaves its date, Hebrew fields and flags as they were. |
| HebrewDate.SetHdateFields | src/hdate/date.py:61-67 | When the converter maps a triple back to itself, moving to that triple succeeds exactly when `datetime.date` accepts its Gregorian date. It then leaves exactly that triple in the Hebrew fields. Only the day-number round trip is assumed. |
| HebrewDate.SetHdateLandsElsewhere | src/hdate/date.py:53-67 | A triple within 1..14 and 1..30 that the converter does not map back to itself is still accepted, and the object's Hebrew fields then differ from the requested triple. |
| HebrewDate.HDate.Dow | src/hdate/date.py:144-147 | The result is in 1..7 and is the weekday (Monday = 0) plus 2, wrapping Sunday to 1: Sunday = 1 (weekday 6), Monday..Friday = 2..6 and Saturday = 7 (weekday 5). The docstring's "Saturday = 6" is wrong. |
| HebrewDate.DowMatchesJdnFormula | src/hdate/date.py:144-161 | If the weekday follows the day number, `dow` equals the `(jdn + 1) % 7 + 1` formula of the Rosh Hashana and Pesach resolvers. |
| HebrewDate.HDate.RoshHashanaDow | src/hdate/date.py:153-156 | The weekday of 1 Tishrei is in 1..7. |
| HebrewDate.RoshHashanaDowIsDow | src/hdate/date.py:153-156 | On 1 Tishrei, `rosh_hashana_dow` is the date's own `dow`. |
| HebrewDate.HDate.PesachDow | src/hdate/date.py:158-161 | The weekday of 15 Nissan is in 1..7. |
| HebrewDate.PesachDowIsDow | src/hdate/date.py:158-161 | On 15 Nissan, `pesach_dow` is the date's own `dow`. |
| HebrewDate.HDate.YearSize | src/hdate/date.py:149-151 | The result is the length of the Hebrew year that contains the object's Gregorian date. |
| HebrewDate.HDate.ShortKislev | src/hdate/date.py:140-142 | A short Kislev implies a legal year size. For a legal size, Kislev is short exactly when the year is deficient (353 or 383 days), the size class 0 of the reading key. |
| HebrewDate.HDate.OmerDay | src/hdate/date.py:163-168 | The result is 0 or in 1..49. It is non-zero exactly when the day number minus that of 16 Nissan, plus one, lies in 1..49, and then equals that value. |
| HebrewDate.OmerInNissan | src/hdate/date.py:163-168 | If Nissan's days are consecutive, Nissan d (16..30) is Omer day d - 15. |
| HebrewDate.OmerBeforeNissan16 | src/hdate/date.py:163-168 | Nissan 1..15 give Omer day 0. |
| HebrewDate.OmerInIyar | src/hdate/date.py:163-168 | If Nissan has 30 days, Iyar d is Omer day d + 15. |
| HebrewDate.OmerInSivan | src/hdate/date.py:163-168 | If Iyar has 29 days, Sivan d is Omer day d + 44 for d up to 5, and 0 afterwards. |
| HebrewDate.YearTypeDecodes | src/hdate/date.py:170-177 | The year-type key decodes into its four components: the diaspora flag, the Rosh Hashana weekday, the size class 0..2 and the Pesach weekday. |
| HebrewDate.WeeksFollowWeekdays | src/hdate/date.py:180-184 | The shifted day count is 7 × weeks + dow - 1, so the week count steps up after each Saturday. |
| HebrewDate.WeeksFromNewYear | src/hdate/date.py:181-184 | From Rosh Hashana on, the week count is not negative. It is 0 exactly in the first, partial week. |
| HebrewDate.HDate.Reading | src/hdate/date.py:170-203 | The special weeks give 54. Otherwise the result is the flattened readings of the year type at the week index, following Python's indexing, or an `IndexError`. Any success is 54 or a listed reading. |
| HebrewDate.ReadingOfOnlyRow | src/hdate/date.py:196-203 | With exactly one row for the year type, an ordinary week reads that row's expanded list at the week count. |
| HebrewDate.ReadingOfMissingYearType | src/hdate/date.py:196-203 | A year type absent from the table gives an `IndexError` outside the special weeks. |
| HebrewDate.IsraelWeekFour | src/hdate/date.py:187-194 | Outside the diaspora, week four never takes the special reading. |
| Readings.ExpandAt | src/hdate/date.py:197-201 | `chain` puts entry k's ids right after those of the entries before it, in order. |
| Readings.ExpandSingles | src/hdate/date.py:197-201 | A row of single ids expands to exactly those ids, one per index. |
| Readings.FlattenOnlyRow | src/hdate/date.py:197-201 | Flattening with one row for the key gives that row's expansion. |
| Readings.FlattenNoRow | src/hdate/date.py:197-201 | Flattening with no row for the key gives the empty list. |
| Holidays.InProduct | src/hdate/date.py:118-121 | A (day, month) pair is in the product of a rule's dates exactly when the day and the month are each among the rule's candidates. |
| Holidays.AllHoldMeansEvery | src/hdate/date.py:131-133 | `all(func(self) ...)` holds exactly when every predicate of the rule holds. |
| Holidays.SurvivorsMatch | src/hdate/date.py:118-133 | The three successive filters keep exactly the rules that meet the one combined condition `Matches`. |
| Holidays.FilterEmpty | src/hdate/date.py:131-138 | A filter keeps nothing exactly when no rule passes it. |
| Holidays.FilterMany | src/hdate/date.py:131-135 | A filter keeps two or more rules exactly when two rules pass it. |
| Holidays.FilterSingle | src/hdate/date.py:131-138 | When exactly one rule passes, the filter keeps just that rule. |
| Holidays.FilterKeeps | src/hdate/date.py:116-133 | Every rule a filter keeps is a rule of its list that passes it. |
| Holidays.FilterTwice | src/hdate/date.py:118-133 | Filtering twice keeps what passes both predicates. |
| Holidays.Resolve | src/hdate/date.py:115-138 | The failed assertion happens exactly when two rules match. A unique match is returned. With no match the result is the first table entry, or an `IndexError` on an empty table. It fails exactly on an empty table or two matches. Any result is a table rule, and a matching one when some rule matches. |
| HebrewDate.HDate.HolidayEntry | src/hdate/date.py:115-138 | For the object's own fields: an error exactly on an empty table (`IndexError`) or two matching rules (the assertion). Otherwise a rule of the table: a matching one if any matches, else the first entry. |
| HebrewDate.HDate.HolidayType | src/hdate/date.py:109-113 | Fails exactly when `_holiday_entry` does. Otherwise it is the type of a table rule, and of a matching rule when one matches. |
| Holidays.RegionTagsExclusive | src/hdate/date.py:124-128 | An Israel-only rule and a diaspora-only rule never both match, and each one's match fixes the diaspora flag. |
| HebrewDate.HolidayTypeOfMatch | src/hdate/date.py:109-113 | `holiday_type` is the type of the unique matching rule, or of the first entry when nothing matches. It is an error when two rules match. |
| Numerals.HebrewNumber | src/hdate/date.py:206-236 | With `hebrew` false the result is `str(num)`. Outside 0..9999 it is a `ValueError`. Otherwise it is the thousands prefix, the 400s, hundreds, tens and ones letters, and the punctuation. |
| Numerals.SpellBelow400 | src/hdate/date.py:220-229 | The hundreds, tens and ones steps write the hundreds letter and the tens-and-ones letters, with 15 and 16 lowered by nine. |
| Numerals.DecimalRoundTrip | src/hdate/date.py:208-209 | Reading back the decimal rendering used for `hebrew=False` gives the number. |
| Numerals.PunctuationMark | src/hdate/date.py:230-235 | Unshortened output gains exactly one mark: a geresh after a single letter, or gershayim before the last letter. Removing it gives the letters back. |
| Numerals.ThousandsPrefix | src/hdate/date.py:213-216 | A number of 1000 or more starts with its thousands letter, a geresh and a space, except a whole thousand with punctuation. |
| Numerals.ExactThousands | src/hdate/date.py:213-235 | A whole thousand with punctuation ends as letter, geresh, gershayim, space. |
| Numerals.ZeroNumeral | src/hdate/date.py:210-235 | Zero is a lone geresh, or the empty string when short. |
| Numerals.SingleLetter | src/hdate/date.py:228-233 | 1..9 are the ones letter followed by a geresh. |
| Gematria.BodySpells | src/hdate/date.py:212-229 | The assembled string is the thousands prefix followed by the letters of `UnitGlyphs` for the remainder below 1000. |
| Gematria.UnitGlyphsDenote | src/hdate/date.py:217-229 | The values of the letters written for the part below 1000 add up to that part. |
| Gematria.NumeralDenotes | src/hdate/date.py:212-229 | From 1000 on, the numeral is the thousands digit's letter, a geresh and a space, then the letters for the rest. The thousands digit times 1000 plus the value of those letters is the number. |
| Gematria.FifteenSixteen | src/hdate/date.py:223-226 | 15 and 16 are written as nine plus six and nine plus seven. |
| Gematria.UnitGlyphsDescend | src/hdate/date.py:217-229 | Each letter is worth at least as much as the next one. |
| Gematria.NoDivineName | src/hdate/date.py:223-229 | Yod is never directly followed by he or vav. |
| Omer.GetOmerString | src/hdate/date.py:239-285 | Outside 1..49 the result is a `ValueError`. Otherwise it is "today is", the count of days, the weeks clause and "of the Omer". |
| Omer.AppendCount | src/hdate/date.py:243-265 | The first series of appends adds exactly the count of days. |
| Omer.AppendWeeks | src/hdate/date.py:266-283 | The second series adds the weeks clause: nothing before day 7, otherwise "which are", the weeks and the remaining days. |
| Omer.PhraseFrame | src/hdate/date.py:248-285 | Every phrase begins with "היום " and ends with "לעומר". |
| Omer.WeeksClauseShape | src/hdate/date.py:266-283 | The "שהם" clause is present exactly when omer > 6 and names omer div 7 weeks. The days part is present exactly when omer mod 7 ≠ 0. Below day 7 the phrase is just the day count. |
| Omer.DayNoun | src/hdate/date.py:255-265 | Day 1 is "יום אחד". Counts 2..10 end in the plural "ימים" and counts from 11 on in the singular "יום". |
| Omer.FirstDays | src/hdate/date.py:262-265 | Days 1 and 2 have fixed phrases. |
| Omer.ThirtyThird | src/hdate/date.py:239-285 | Day 33 reads "three and thirty days, which are four weeks and five days". |

## Left out

- The bodies of the `hdate_julian` conversions are not part of this model. They are the functions of a `Calendar` value. The facts the lemmas need (round trips, field ranges, weekday from the day number, consecutive days of a month) are stated as their requirements.
- The contents of `htables` (`HOLIDAYS`, `READINGS`, `DIGITS`, the month names) are not part of this model. They are parameters.
- `set_date` and `datetime.date.today()`: the default "today" date reads the clock, and `set_date`'s type checks are Python run-time checks. The model takes a `GDate` directly.
- Rendering functions (`__unicode__`, `__str__`, `hebrew_date`, `parasha`, `holiday_description`, `get_hebrew_date`) and `_LOGGER` output are presentation and I/O.
- Each holiday rule's `date_functions_list` is a set of arbitrary Python callables. They are modelled as opaque functions of a snapshot of the object's fields.
- Python's arbitrary-precision `int` matches Dafny's `int`, so no wrap-around is modelled.
- The spelling steps of `hebrew_number` and the two halves of `get_omer_string` are separate helper methods. The code is unchanged, only divided up.
- `hdate_set_hdate` does not check a day against the real length of its month, nor a month 13 or 14 against a leap year. Such a triple, for example 30 Cheshvan in a deficient year, is accepted. It moves the object to another Hebrew date, as `HebrewDate.SetHdateLandsElsewhere` states.
- `_holiday_entry`'s `assert` is modelled as always checked, so two matching rules give `AmbiguousHoliday`. Under `python -O` the assertion is removed and the first of the matching rules would be returned instead.
- The multiple-assignment unpacking of `jdn_to_gdate` in `hdate_set_jdn` is modelled as reading the fields of one `GDate`.
- `datetime.date` raises `ValueError` when `hdate_set_jdn` (and so `hdate_set_hdate`) converts to a triple that is not a date of the years 1..9999, for example year 20000. The model returns this as the `InvalidDate` error. The constructor and the `gdate` setter require a date in that range, because they receive a `datetime.date`.
- Although `HDate` is described as an immutable value, the code reassigns its fields in place. The model follows the code.
- A reading-table entry that lists several portions contributes each of them to the flattened list, as `chain` does.
