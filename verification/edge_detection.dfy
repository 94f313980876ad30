/** The per-window sweep of the Prometheus backfill: a stream of binary "asleep"
    samples becomes the list of completed sleeps of that window. */
module EdgeDetection {
  import opened Results
  import opened SleepRecords

  /** One value of the range query: a Unix time and the sensor value as text. */
  datatype Sample = Sample(time: int, value: string)

  /** The sweep stops, raising, at a value that is neither "1" nor "0". The raised
      exception carries no data; `sample` only records where the loop stopped. */
  datatype SweepError = StateNotDefined(sample: Sample)

  predicate ValidValue(v: string) {
    v == "1" || v == "0"
  }

  predicate ValidValues(s: seq<Sample>) {
    forall i :: 0 <= i < |s| ==> ValidValue(s[i].value)
  }

  predicate IsAsleep(x: Sample) {
    x.value == "1"
  }

  /** The state a value stands for; `None` for an undefined one. */
  function ParseState(v: string): (r: Option<bool>)
    ensures r.Some? <==> ValidValue(v)
    ensures r.Some? ==> (r.value <==> v == "1")
  {
    if v == "1" then Some(true)
    else if v == "0" then Some(false)
    else None
  }

  /** The loop-carried state: `current_state`, `fell_asleep` and `data_review`. */
  datatype Sweep = Sweep(asleep: bool, fellAsleep: Option<int>, review: seq<SleepRecord>)

  /** While asleep, the time of falling asleep is known. */
  predicate Consistent(st: Sweep) {
    st.asleep ==> st.fellAsleep.Some?
  }

  /** One iteration of the loop over a window's samples. */
  function Step(st: Sweep, x: Sample): (r: Result<Sweep, SweepError>)
    requires Consistent(st)
    ensures r.Err? <==> !ValidValue(x.value)
    ensures r.Err? ==> r.error == StateNotDefined(x)
    ensures r.Ok? ==> Consistent(r.value) && (r.value.asleep <==> IsAsleep(x))
    ensures r.Ok? && st.asleep && !IsAsleep(x) ==>
              r.value.review == st.review + [MakeRecord(st.fellAsleep.value, x.time)]
    ensures r.Ok? && !(st.asleep && !IsAsleep(x)) ==> r.value.review == st.review
    ensures r.Ok? && !st.asleep && IsAsleep(x) ==> r.value.fellAsleep == Some(x.time)
    ensures r.Ok? && !(!st.asleep && IsAsleep(x)) ==> r.value.fellAsleep == st.fellAsleep
  {
    match ParseState(x.value)
    case None => Err(StateNotDefined(x))
    case Some(now) =>
      if now == st.asleep then Ok(st)
      else if now then Ok(Sweep(true, Some(x.time), st.review))
      else Ok(Sweep(false, st.fellAsleep, st.review + [MakeRecord(st.fellAsleep.value, x.time)]))
  }

  /** The sweep over one window's samples, from the awake state the window starts in;
      `carried` is the `fell_asleep` left over from earlier windows. */
  function SweepWindow(s: seq<Sample>, carried: Option<int>): (r: Result<Sweep, SweepError>)
    ensures r.Err? <==> !ValidValues(s)
    ensures r.Ok? ==> Consistent(r.value)
    decreases |s|
  {
    if |s| == 0 then Ok(Sweep(false, carried, []))
    else
      match SweepWindow(s[..|s| - 1], carried)
      case Err(e) => Err(e)
      case Ok(st) => Step(st, s[|s| - 1])
  }

  // ---------------------------------------------------------------------------
  // Reference definition: sleeps read off the sample sequence directly.
  // ---------------------------------------------------------------------------

  /** The sample just before index `j` is asleep (a window starts awake). */
  predicate AsleepBefore(s: seq<Sample>, j: int)
    requires 0 <= j <= |s|
  {
    0 < j && IsAsleep(s[j - 1])
  }

  /** Index `i` is a rising edge: awake (or window start) then asleep. */
  predicate RisesAt(s: seq<Sample>, i: int)
    requires 0 <= i < |s|
  {
    IsAsleep(s[i]) && !AsleepBefore(s, i)
  }

  /** Index `j` is a falling edge: asleep then awake. */
  predicate FallsAt(s: seq<Sample>, j: int)
    requires 0 <= j < |s|
  {
    AsleepBefore(s, j) && !IsAsleep(s[j])
  }

  /** The first sample of the unbroken asleep run that ends just before index `j`:
      every falling edge is preceded, within the window, by the rising edge that
      opened its run. */
  function RunStart(s: seq<Sample>, j: int): (i: nat)
    requires 0 <= j <= |s| && AsleepBefore(s, j)
    ensures i < j && RisesAt(s, i)
    ensures forall k :: i <= k < j ==> IsAsleep(s[k])
    decreases j
  {
    if RisesAt(s, j - 1) then j - 1 else RunStart(s, j - 1)
  }

  /** The falling edges of `s`, in increasing order. */
  function Falls(s: seq<Sample>): (f: seq<nat>)
    ensures forall k :: 0 <= k < |f| ==> f[k] < |s| && FallsAt(s, f[k])
    ensures forall j :: 0 <= j < |s| && FallsAt(s, j) ==> j in f
    ensures forall a, b :: 0 <= a < b < |f| ==> f[a] < f[b]
    decreases |s|
  {
    if |s| == 0 then []
    else Falls(s[..|s| - 1]) + (if FallsAt(s, |s| - 1) then [|s| - 1] else [])
  }

  /** The completed sleeps of a window: one record per falling edge, from the
      rising edge that opened the run to the falling edge. */
  function Completed(s: seq<Sample>): seq<SleepRecord> {
    var f := Falls(s);
    seq(|f|, k requires 0 <= k < |f| => MakeRecord(s[RunStart(s, f[k])].time, s[f[k]].time))
  }

  /** The time of the last rising edge of `s`, or `carried` if there is none. */
  function LastRise(s: seq<Sample>, carried: Option<int>): Option<int>
    decreases |s|
  {
    if |s| == 0 then carried
    else if RisesAt(s, |s| - 1) then Some(s[|s| - 1].time)
    else LastRise(s[..|s| - 1], carried)
  }

  // ---------------------------------------------------------------------------
  // Lemmas
  // ---------------------------------------------------------------------------

  lemma {:induction false} RunStartPrefix(s: seq<Sample>, n: int, j: int)
    requires 0 <= j <= n <= |s| && AsleepBefore(s, j)
    ensures AsleepBefore(s[..n], j) && RunStart(s[..n], j) == RunStart(s, j)
    decreases j
  {
    if !RisesAt(s, j - 1) {
      RunStartPrefix(s, n, j - 1);
    }
  }

  /** The falling edges of a prefix are the leading falling edges of the whole. */
  lemma FallsSnoc(s: seq<Sample>)
    requires |s| > 0
    ensures Falls(s) == Falls(s[..|s| - 1]) + (if FallsAt(s, |s| - 1) then [|s| - 1] else [])
  {
  }

  lemma CompletedPrefixAt(s: seq<Sample>, k: int)
    requires |s| > 0 && 0 <= k < |Falls(s[..|s| - 1])|
    ensures k < |Completed(s)| && Completed(s)[k] == Completed(s[..|s| - 1])[k]
  {
    var p := s[..|s| - 1];
    FallsSnoc(s);
    var j := Falls(p)[k];
    assert Falls(s)[k] == j;
    RunStartPrefix(s, |s| - 1, j);
  }

  lemma CompletedSnoc(s: seq<Sample>)
    requires |s| > 0
    ensures Completed(s) == Completed(s[..|s| - 1]) +
              (if FallsAt(s, |s| - 1)
               then [MakeRecord(s[RunStart(s, |s| - 1)].time, s[|s| - 1].time)]
               else [])
  {
    var n := |s|;
    var p := s[..n - 1];
    FallsSnoc(s);
    var tail := if FallsAt(s, n - 1)
                then [MakeRecord(s[RunStart(s, n - 1)].time, s[n - 1].time)]
                else [];
    var lhs := Completed(s);
    var cp := Completed(p);
    assert |lhs| == |cp| + |tail|;
    forall k | 0 <= k < |cp|
      ensures lhs[k] == cp[k]
    {
      CompletedPrefixAt(s, k);
    }
    if FallsAt(s, n - 1) {
      assert Falls(s)[|cp|] == n - 1;
      assert lhs[|cp|] == tail[0];
    }
  }

  lemma {:induction false} LastRiseIsRunStart(s: seq<Sample>, carried: Option<int>)
    requires AsleepBefore(s, |s|)
    ensures LastRise(s, carried) == Some(s[RunStart(s, |s|)].time)
    decreases |s|
  {
    if !RisesAt(s, |s| - 1) {
      var p := s[..|s| - 1];
      LastRiseIsRunStart(p, carried);
      RunStartPrefix(s, |s| - 1, |s| - 1);
    }
  }

  /** The sweep computes the reference: on a well-formed window its state is
      "asleep iff the last sample is", `fell_asleep` is the last rising edge (or the
      carried value), and the records are exactly the completed sleeps. */
  lemma {:induction false} SweepMatchesReference(s: seq<Sample>, carried: Option<int>)
    requires ValidValues(s)
    ensures SweepWindow(s, carried) == Ok(Sweep(AsleepBefore(s, |s|), LastRise(s, carried), Completed(s)))
    decreases |s|
  {
    if |s| > 0 {
      var n := |s|;
      var p := s[..n - 1];
      var x := s[n - 1];
      assert ValidValues(p);
      SweepMatchesReference(p, carried);
      var st := Sweep(AsleepBefore(p, n - 1), LastRise(p, carried), Completed(p));
      assert SweepWindow(s, carried) == Step(st, x);
      assert AsleepBefore(p, n - 1) == AsleepBefore(s, n - 1);
      CompletedSnoc(s);
      if FallsAt(s, n - 1) {
        LastRiseIsRunStart(p, carried);
        RunStartPrefix(s, n - 1, n - 1);
        assert st.fellAsleep.value == s[RunStart(s, n - 1)].time;
      }
      assert Step(st, x).value.review == Completed(s);
    } else {
      assert Completed(s) == [];
    }
  }

  /** A failing sweep names the first sample whose value is undefined. */
  lemma {:induction false} SweepErrorIsFirstBadSample(s: seq<Sample>, carried: Option<int>)
    requires !ValidValues(s)
    ensures exists i :: 0 <= i < |s| && !ValidValue(s[i].value) && ValidValues(s[..i])
                        && SweepWindow(s, carried) == Err(StateNotDefined(s[i]))
    decreases |s|
  {
    var p := s[..|s| - 1];
    if ValidValues(p) {
      var i := |s| - 1;
      assert s[..i] == p;
    } else {
      SweepErrorIsFirstBadSample(p, carried);
      var i :| 0 <= i < |p| && !ValidValue(p[i].value) && ValidValues(p[..i])
               && SweepWindow(p, carried) == Err(StateNotDefined(p[i]));
      assert s[..i] == p[..i];
    }
  }

  /** `current_state` is reset at each window, so the `fell_asleep` left over from an
      earlier window never reaches a record. */
  lemma StaleFellAsleepUnused(s: seq<Sample>, c1: Option<int>, c2: Option<int>)
    ensures SweepWindow(s, c1).Ok? <==> SweepWindow(s, c2).Ok?
    ensures SweepWindow(s, c1).Ok? ==>
              SweepWindow(s, c1).value.review == SweepWindow(s, c2).value.review
  {
    if ValidValues(s) {
      SweepMatchesReference(s, c1);
      SweepMatchesReference(s, c2);
    }
  }

  /** Exactly one record per asleep-to-awake transition, holding the time of the
      rising edge that opened the run and the time of the falling edge. */
  lemma SweepRecordsAreTransitions(s: seq<Sample>, carried: Option<int>)
    requires ValidValues(s)
    ensures var r := SweepWindow(s, carried).value.review;
      && |r| == |Falls(s)|
      && forall k :: 0 <= k < |r| ==>
           && WellFormed(r[k])
           && FallsAt(s, Falls(s)[k])
           && r[k].end == s[Falls(s)[k]].time
           && r[k].start == s[RunStart(s, Falls(s)[k])].time
  {
    SweepMatchesReference(s, carried);
  }

  /** Samples after index `m` that are all asleep add no record: a sleep still in
      progress at a window's last sample is not reported. */
  lemma {:induction false} InProgressSleepNotReported(s: seq<Sample>, m: int)
    requires 0 <= m <= |s|
    requires forall k :: m <= k < |s| ==> IsAsleep(s[k])
    ensures Completed(s) == Completed(s[..m])
    decreases |s| - m
  {
    if m < |s| {
      var p := s[..|s| - 1];
      CompletedSnoc(s);
      assert p[..m] == s[..m];
      InProgressSleepNotReported(p, m);
    } else {
      assert s[..m] == s;
    }
  }

  ghost predicate IncreasingTimes(s: seq<Sample>) {
    forall a, b :: 0 <= a < b < |s| ==> s[a].time < s[b].time
  }

  /** With strictly increasing sample times, every sleep starts before it ends and
      each one ends before the next one starts. */
  lemma CompletedOrdered(s: seq<Sample>)
    requires IncreasingTimes(s)
    ensures var r := Completed(s);
      && (forall k :: 0 <= k < |r| ==> r[k].start < r[k].end)
      && (forall k, l :: 0 <= k < l < |r| ==> r[k].end < r[l].start)
  {
  }

  /** The ordering of a window's records, stated of the sweep itself. */
  lemma SweepOrdered(s: seq<Sample>, carried: Option<int>)
    requires IncreasingTimes(s)
    ensures SweepWindow(s, carried).Ok? ==>
      var r := SweepWindow(s, carried).value.review;
      && (forall k :: 0 <= k < |r| ==> r[k].start < r[k].end)
      && (forall k, l :: 0 <= k < l < |r| ==> r[k].end < r[l].start)
  {
    if ValidValues(s) {
      SweepMatchesReference(s, carried);
      CompletedOrdered(s);
    }
  }

  /** Between an asleep sample and a later awake one lies a falling edge. */
  lemma {:induction false} FallBetween(s: seq<Sample>, a: int, b: int)
    requires 0 <= a < b < |s| && IsAsleep(s[a]) && !IsAsleep(s[b])
    ensures exists k :: a < k <= b && FallsAt(s, k)
    decreases b - a
  {
    if !IsAsleep(s[a + 1]) {
      assert FallsAt(s, a + 1);
    } else {
      FallBetween(s, a + 1, b);
    }
  }

  /** Because every window starts awake, a sleep already in progress at a window's
      first sample is recorded as starting at that sample. */
  lemma SleepAtWindowStartStartsThere(s: seq<Sample>, carried: Option<int>)
    requires ValidValues(s) && |s| > 0 && IsAsleep(s[0])
    requires |SweepWindow(s, carried).value.review| > 0
    ensures SweepWindow(s, carried).value.review[0].start == s[0].time
  {
    SweepMatchesReference(s, carried);
    var f := Falls(s);
    var i := RunStart(s, f[0]);
    if i > 0 {
      FallBetween(s, 0, i - 1);
      assert false;
    }
  }
}
