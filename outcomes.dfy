/** Error values and results shared by the model: an operation of the
    calendar layer either returns a value or raises one of these. */
module Outcomes {

  /** The exceptions the calendar layer can raise. */
  datatype Error =
    | MonthOutOfRange(month: int)   // hdate_set_hdate: month outside 1..14
    | DayOutOfRange(day: int)       // hdate_set_hdate: day outside 1..30
    | InvalidDate(year: int, month: int, day: int)  // datetime.date: not a date of the years 1..9999
    | AmbiguousHoliday              // more than one holiday rule survived the filters
    | IndexError                    // a list was indexed outside its bounds
    | NumberOutOfRange(num: int)    // hebrew_number: num outside 0..9999
    | InvalidOmerDay(omer: int)     // get_omer_string: omer outside 1..49

  datatype Result<T> = Success(value: T) | Failure(error: Error)

  /** Python's `s[i]` on a list: a negative index counts from the end. */
  function PyIndex(s: seq<int>, i: int): (r: Result<int>)
    ensures r.Success? <==> -|s| <= i < |s|
    ensures 0 <= i < |s| ==> r == Success(s[i])
    ensures r.Success? ==> r.value in s
  {
    if 0 <= i < |s| then Success(s[i])
    else if -|s| <= i < 0 then Success(s[|s| + i])
    else Failure(IndexError)
  }
}
