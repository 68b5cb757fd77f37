/**
 * The parts of the environment the entity validators consult: the wall clock
 * (`system_clock::now`, `localtime_s`) and the `get_time`/`mktime` date parser.
 * They are inputs of the model instead of calls into the C library.
 */
module Clock {
  import opened Wrappers

  /**
   * `now` is the current time point and `currentYear` the local calendar year
   * (`tm_year + 1900`). `parseDate` stands for parsing a text with the
   * format `%d.%m.%Y` and normalising it with `mktime`: `None` when the
   * stream fails, otherwise the time point of that date.
   */
  datatype Clock = Clock(now: int, currentYear: int, parseDate: string -> Option<int>)
}
