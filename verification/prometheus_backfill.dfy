/** The Prometheus backfill: a fixed list of query windows, one sweep per window,
    and the longest sleep per end date over all windows. */
module PrometheusBackfill {
  import opened Results
  import opened SleepRecords
  import opened EdgeDetection
  import opened LongestEntries

  /** A query range, as Unix times. */
  datatype Window = Window(start: int, end: int)

  /** Days from 1970-01-01 to the proleptic Gregorian date `y`-`m`-`d`. */
  function CivilDay(y: int, m: int, d: int): int
    requires 1 <= m <= 12 && 1 <= d <= 31
  {
    var y' := if m <= 2 then y - 1 else y;
    var era := y' / 400;
    var yearOfEra := y' - era * 400;
    var shiftedMonth := if m > 2 then m - 3 else m + 9;
    var dayOfYear := (153 * shiftedMonth + 2) / 5 + d - 1;
    var dayOfEra := yearOfEra * 365 + yearOfEra / 4 - yearOfEra / 100 + dayOfYear;
    era * 146097 + dayOfEra - 719468
  }

  /** The Unix time of midnight UTC at the start of `y`-`m`-`d`. */
  function Midnight(y: int, m: int, d: int): int
    requires 1 <= m <= 12 && 1 <= d <= 31
  {
    CivilDay(y, m, d) * SecondsPerDay
  }

  /** The Unix times of the window boundaries. */
  lemma WindowBoundaries()
    ensures Midnight(2022, 12, 1) == 1669852800
    ensures Midnight(2023, 1, 1) == 1672531200
    ensures Midnight(2023, 2, 1) == 1675209600
    ensures Midnight(2023, 3, 1) == 1677628800
    ensures Midnight(2023, 4, 1) == 1680307200
    ensures Midnight(2023, 5, 1) == 1682899200
    ensures Midnight(2023, 6, 1) == 1685577600
    ensures Midnight(2023, 7, 1) == 1688169600
    ensures Midnight(2023, 7, 4) == 1688428800
  {
    assert CivilDay(2022, 12, 1) == 19327;
    assert CivilDay(2023, 1, 1) == 19358;
    assert CivilDay(2023, 2, 1) == 19389;
    assert CivilDay(2023, 3, 1) == 19417;
    assert CivilDay(2023, 4, 1) == 19448;
    assert CivilDay(2023, 5, 1) == 19478;
    assert CivilDay(2023, 6, 1) == 19509;
    assert CivilDay(2023, 7, 1) == 19539;
    assert CivilDay(2023, 7, 4) == 19542;
  }

  /** The hard-coded query windows: calendar months from December 2022, the last
      one cut at 4 July 2023. They tile 2022-12-01T00:00Z .. 2023-07-04T00:00Z
      without gap or overlap. */
  function Windows(): (ws: seq<Window>)
    ensures |ws| == 8
    ensures ws[0].start == 1669852800 && ws[7].end == 1688428800
    ensures forall i :: 0 <= i < |ws| ==> ws[i].start < ws[i].end
    ensures forall i :: 0 <= i < |ws| - 1 ==> ws[i].end == ws[i + 1].start
  {
    WindowBoundaries();
    [ Window(Midnight(2022, 12, 1), Midnight(2023, 1, 1)),
      Window(Midnight(2023, 1, 1), Midnight(2023, 2, 1)),
      Window(Midnight(2023, 2, 1), Midnight(2023, 3, 1)),
      Window(Midnight(2023, 3, 1), Midnight(2023, 4, 1)),
      Window(Midnight(2023, 4, 1), Midnight(2023, 5, 1)),
      Window(Midnight(2023, 5, 1), Midnight(2023, 6, 1)),
      Window(Midnight(2023, 6, 1), Midnight(2023, 7, 1)),
      Window(Midnight(2023, 7, 1), Midnight(2023, 7, 4)) ]
  }

  /** What the loop over windows carries: the dictionary and `fell_asleep`. */
  datatype Progress = Progress(table: DayTable, fellAsleep: Option<int>)

  /** The loop over windows: each window's samples, as `query` returns them, are
      swept and their records reduced into the dictionary; an undefined value in any
      window aborts the whole run. */
  function Collect(ws: seq<Window>, query: Window -> seq<Sample>): (r: Result<Progress, SweepError>)
    ensures r.Ok? ==> Valid(r.value.table)
    decreases |ws|
  {
    if |ws| == 0 then Ok(Progress(Empty, None))
    else
      match Collect(ws[..|ws| - 1], query)
      case Err(e) => Err(e)
      case Ok(p) =>
        match SweepWindow(query(ws[|ws| - 1]), p.fellAsleep)
        case Err(e) => Err(e)
        case Ok(st) => Ok(Progress(Reduce(p.table, st.review), st.fellAsleep))
  }

  /** The submitted list: the dictionary's values after the last window. */
  function Backfill(query: Window -> seq<Sample>): (r: Result<seq<SleepRecord>, SweepError>)
    ensures r.Ok? ==> forall a, b :: 0 <= a < b < |r.value| ==> Day(r.value[a].end) != Day(r.value[b].end)
  {
    match Collect(Windows(), query)
    case Err(e) => Err(e)
    case Ok(p) => Ok(Values(p.table))
  }

  /** The completed sleeps of all windows, in window order. */
  ghost function AllCompleted(ws: seq<Window>, query: Window -> seq<Sample>): seq<SleepRecord>
    decreases |ws|
  {
    if |ws| == 0 then []
    else AllCompleted(ws[..|ws| - 1], query) + Completed(query(ws[|ws| - 1]))
  }

  ghost predicate AllValid(ws: seq<Window>, query: Window -> seq<Sample>) {
    forall i :: 0 <= i < |ws| ==> ValidValues(query(ws[i]))
  }

  lemma AllValidSnoc(ws: seq<Window>, query: Window -> seq<Sample>)
    requires |ws| > 0
    ensures AllValid(ws, query) <==>
              AllValid(ws[..|ws| - 1], query) && ValidValues(query(ws[|ws| - 1]))
  {
    var p := ws[..|ws| - 1];
    if AllValid(p, query) && ValidValues(query(ws[|ws| - 1])) {
      forall i | 0 <= i < |ws| ensures ValidValues(query(ws[i])) {
        if i < |p| { assert ws[i] == p[i]; }
      }
    }
  }

  /** The loop fails exactly when some window holds an undefined value, and
      otherwise holds the reduction of all windows' completed sleeps. */
  lemma {:induction false} CollectMatchesReference(ws: seq<Window>, query: Window -> seq<Sample>)
    ensures Collect(ws, query).Err? <==> !AllValid(ws, query)
    ensures Collect(ws, query).Ok? ==>
              Collect(ws, query).value.table == Reduce(Empty, AllCompleted(ws, query))
    decreases |ws|
  {
    if |ws| > 0 {
      var p := ws[..|ws| - 1];
      var samples := query(ws[|ws| - 1]);
      CollectMatchesReference(p, query);
      AllValidSnoc(ws, query);
      var prev := Collect(p, query);
      if prev.Ok? && ValidValues(samples) {
        var c := prev.value.fellAsleep;
        SweepMatchesReference(samples, c);
        var st := SweepWindow(samples, c).value;
        assert Collect(ws, query) == Ok(Progress(Reduce(prev.value.table, st.review), st.fellAsleep));
        ReduceAppend(Empty, AllCompleted(p, query), Completed(samples));
      }
    }
  }

  /** The dictionary's values after a run over any window list keep the longest
      completed sleep per end date. */
  lemma CollectKeepsLongestPerDay(ws: seq<Window>, query: Window -> seq<Sample>)
    requires AllValid(ws, query)
    ensures Collect(ws, query).Ok?
    ensures IsLongestPerDay(Values(Collect(ws, query).value.table), AllCompleted(ws, query))
  {
    CollectMatchesReference(ws, query);
    LongestPerDaySpec(AllCompleted(ws, query));
  }

  /** The Prometheus backfill's sweep fails exactly when a window holds a value
      other than "1" or "0". Otherwise the script submits the reduction of all
      completed sleeps in window order: one entry per end date, the first of the
      longest sleeps ending on that date. */
  lemma BackfillSpec(query: Window -> seq<Sample>)
    ensures Backfill(query).Err? <==> !AllValid(Windows(), query)
    ensures AllValid(Windows(), query) ==>
              Backfill(query) == Ok(LongestPerDay(AllCompleted(Windows(), query)))
    ensures Backfill(query).Ok? ==> IsLongestPerDay(Backfill(query).value, AllCompleted(Windows(), query))
  {
    CollectMatchesReference(Windows(), query);
    if AllValid(Windows(), query) {
      CollectKeepsLongestPerDay(Windows(), query);
    }
  }
}
