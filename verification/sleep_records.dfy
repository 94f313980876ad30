/** The sleep record both backfill scripts submit, and the calendar day of a time. */
module SleepRecords {

  const SecondsPerDay: int := 86400

  /** The UTC calendar day containing Unix time `t`, counted in days since 1970-01-01.
      Dafny's `/` rounds towards minus infinity for a positive divisor, as `date()`
      of a UTC datetime does for times before the epoch. */
  function Day(t: int): (d: int)
    ensures d * 86400 <= t < d * 86400 + 86400
  {
    t / SecondsPerDay
  }

  /** One night: `timestamp` is the submission time, `inBed` the time in bed in seconds,
      `start` and `end` the moments of falling asleep and waking up. */
  datatype SleepRecord = SleepRecord(timestamp: int, inBed: int, start: int, end: int)

  /** Every record the scripts build is stamped with its end and lasts from start to end. */
  predicate WellFormed(r: SleepRecord) {
    r.timestamp == r.end && r.inBed == r.end - r.start
  }

  /** The record for a sleep from `start` to `end`. */
  function MakeRecord(start: int, end: int): (r: SleepRecord)
    ensures WellFormed(r) && r.start == start && r.end == end
  {
    SleepRecord(end, end - start, start, end)
  }
}
