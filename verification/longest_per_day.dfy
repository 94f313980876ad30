/** The reduction that keeps, for every end date, the longest sleep ending on it. */
module LongestEntries {
  import opened SleepRecords

  /** The `longest_entries` dictionary: `order` lists its keys in insertion order
      (the order in which `values()` yields them), `longest` maps each key to its entry. */
  datatype DayTable = DayTable(order: seq<int>, longest: map<int, SleepRecord>)

  /** Keys are listed once each, exactly the map's keys, and each entry ends on its key. */
  predicate Valid(t: DayTable) {
    && (forall a, b :: 0 <= a < b < |t.order| ==> t.order[a] != t.order[b])
    && (forall d :: d in t.longest ==> d in t.order)
    && (forall a :: 0 <= a < |t.order| ==> t.order[a] in t.longest)
    && (forall d :: d in t.longest ==> Day(t.longest[d].end) == d)
  }

  const Empty: DayTable := DayTable([], map[])

  /** One iteration of the loop over `data_review`: a new date is added, and an
      existing date's entry is replaced only by a strictly longer one. */
  function Insert(t: DayTable, e: SleepRecord): (r: DayTable)
    ensures Valid(t) ==> Valid(r)
    ensures r.longest.Keys == t.longest.Keys + {Day(e.end)}
    ensures forall d :: d in t.longest && d != Day(e.end) ==> r.longest[d] == t.longest[d]
    ensures r.order == if Day(e.end) in t.longest then t.order else t.order + [Day(e.end)]
  {
    var d := Day(e.end);
    if d !in t.longest then DayTable(t.order + [d], t.longest[d := e])
    else if e.inBed > t.longest[d].inBed then t.(longest := t.longest[d := e])
    else t
  }

  /** `Insert` applied to each entry in turn. */
  function Reduce(t: DayTable, es: seq<SleepRecord>): (r: DayTable)
    requires Valid(t)
    ensures Valid(r)
    decreases |es|
  {
    if |es| == 0 then t else Insert(Reduce(t, es[..|es| - 1]), es[|es| - 1])
  }

  /** `list(longest_entries.values())`. */
  function Values(t: DayTable): (vs: seq<SleepRecord>)
    requires Valid(t)
    ensures |vs| == |t.order|
    ensures forall a :: 0 <= a < |vs| ==> vs[a] == t.longest[t.order[a]]
  {
    seq(|t.order|, a requires 0 <= a < |t.order| => t.longest[t.order[a]])
  }

  /** The reduction of a whole list of entries, from an empty dictionary. */
  function LongestPerDay(es: seq<SleepRecord>): (vs: seq<SleepRecord>)
    ensures forall a, b :: 0 <= a < b < |vs| ==> Day(vs[a].end) != Day(vs[b].end)
  {
    Values(Reduce(Empty, es))
  }

  /** Reducing a concatenation is reducing its second part into the table built
      from the first: the dictionary carried from window to window. */
  lemma {:induction false} ReduceAppend(t: DayTable, xs: seq<SleepRecord>, ys: seq<SleepRecord>)
    requires Valid(t)
    ensures Reduce(t, xs + ys) == Reduce(Reduce(t, xs), ys)
    decreases |ys|
  {
    if |ys| == 0 {
      assert xs + ys == xs;
    } else {
      var ys' := ys[..|ys| - 1];
      assert (xs + ys)[..|xs + ys| - 1] == xs + ys';
      ReduceAppend(t, xs, ys');
    }
  }

  // ---------------------------------------------------------------------------
  // Specification
  // ---------------------------------------------------------------------------

  ghost function EndDays(es: seq<SleepRecord>): set<int> {
    set i | 0 <= i < |es| :: Day(es[i].end)
  }

  /** `es[i]` is the first of the longest entries ending on day `d`: every earlier
      entry of that day is strictly shorter, and no later one is longer. */
  ghost predicate FirstLongest(es: seq<SleepRecord>, d: int, i: int) {
    && 0 <= i < |es|
    && Day(es[i].end) == d
    && (forall j :: 0 <= j < i && Day(es[j].end) == d ==> es[j].inBed < es[i].inBed)
    && (forall j :: i < j < |es| && Day(es[j].end) == d ==> es[j].inBed <= es[i].inBed)
  }

  /** The tie rule picks one entry: at most one index is the first longest. */
  lemma FirstLongestUnique(es: seq<SleepRecord>, d: int, i: int, i': int)
    requires FirstLongest(es, d, i) && FirstLongest(es, d, i')
    ensures i == i'
  {
  }

  /** Under day `d`, table `t` holds the first longest entry of `es` ending on `d`. */
  ghost predicate KeepsFirstLongest(t: DayTable, es: seq<SleepRecord>, d: int)
    requires d in t.longest
  {
    exists i :: FirstLongest(es, d, i) && t.longest[d] == es[i]
  }

  /** `t` is the dictionary the loop has built after the entries `es`. */
  ghost predicate Summarises(t: DayTable, es: seq<SleepRecord>) {
    && t.longest.Keys == EndDays(es)
    && forall d :: d in t.longest ==> KeepsFirstLongest(t, es, d)
  }

  lemma EndDaysSnoc(es: seq<SleepRecord>, e: SleepRecord)
    ensures EndDays(es + [e]) == EndDays(es) + {Day(e.end)}
  {
    var s := es + [e];
    forall d | d in EndDays(s) ensures d in EndDays(es) + {Day(e.end)} {
      var i :| 0 <= i < |s| && Day(s[i].end) == d;
      if i < |es| { assert s[i] == es[i]; }
    }
    forall d | d in EndDays(es) ensures d in EndDays(s) {
      var i :| 0 <= i < |es| && Day(es[i].end) == d;
      assert s[i] == es[i];
    }
    assert s[|es|] == e;
  }

  /** An entry that is the first longest of its day stays so when a later entry of
      another day, or a no longer one, is appended. */
  lemma FirstLongestSnocKeeps(es: seq<SleepRecord>, e: SleepRecord, d: int, i: int)
    requires FirstLongest(es, d, i)
    requires Day(e.end) != d || e.inBed <= es[i].inBed
    ensures FirstLongest(es + [e], d, i)
  {
    var s := es + [e];
    forall j | 0 <= j < |s| ensures s[j] == if j < |es| then es[j] else e { }
  }

  /** An appended entry becomes the first longest of its day when it is strictly
      longer than every earlier entry of that day. */
  lemma FirstLongestSnocNew(es: seq<SleepRecord>, e: SleepRecord)
    requires forall j :: 0 <= j < |es| && Day(es[j].end) == Day(e.end) ==> es[j].inBed < e.inBed
    ensures FirstLongest(es + [e], Day(e.end), |es|)
  {
    var s := es + [e];
    forall j | 0 <= j < |s| ensures s[j] == if j < |es| then es[j] else e { }
  }

  /** The entry `Insert` leaves under day `d` is the first longest of that day. */
  lemma InsertKeepsFirstLongest(t: DayTable, es: seq<SleepRecord>, e: SleepRecord, d: int)
    requires d in t.longest ==> KeepsFirstLongest(t, es, d)
    requires Day(e.end) !in t.longest ==> forall j :: 0 <= j < |es| ==> Day(es[j].end) != Day(e.end)
    requires d in Insert(t, e).longest
    ensures KeepsFirstLongest(Insert(t, e), es + [e], d)
  {
    var s := es + [e];
    var de := Day(e.end);
    var r := Insert(t, e);
    if d != de {
      var i :| FirstLongest(es, d, i) && t.longest[d] == es[i];
      FirstLongestSnocKeeps(es, e, d, i);
      assert r.longest[d] == s[i];
    } else if de !in t.longest {
      FirstLongestSnocNew(es, e);
      assert r.longest[d] == s[|es|];
    } else {
      var i :| FirstLongest(es, d, i) && t.longest[d] == es[i];
      if e.inBed > es[i].inBed {
        FirstLongestSnocNew(es, e);
        assert r.longest[d] == s[|es|];
      } else {
        FirstLongestSnocKeeps(es, e, d, i);
        assert r.longest[d] == s[i];
      }
    }
  }

  lemma InsertSummarises(t: DayTable, es: seq<SleepRecord>, e: SleepRecord)
    requires Valid(t) && Summarises(t, es)
    ensures Summarises(Insert(t, e), es + [e])
  {
    EndDaysSnoc(es, e);
    forall j | 0 <= j < |es| ensures Day(es[j].end) in EndDays(es) { }
    forall d | d in Insert(t, e).longest
      ensures KeepsFirstLongest(Insert(t, e), es + [e], d)
    {
      InsertKeepsFirstLongest(t, es, e, d);
    }
  }

  /** The dictionary built from `es` has one key per end date of `es`, and under
      each key the first longest entry ending on that date. */
  lemma {:induction false} ReduceSpec(es: seq<SleepRecord>)
    ensures Summarises(Reduce(Empty, es), es)
    decreases |es|
  {
    if |es| == 0 {
      assert EndDays(es) == {};
    } else {
      var p := es[..|es| - 1];
      var e := es[|es| - 1];
      assert p + [e] == es;
      ReduceSpec(p);
      assert Reduce(Empty, es) == Insert(Reduce(Empty, p), e);
      InsertSummarises(Reduce(Empty, p), p, e);
    }
  }

  /** Entry `a` of the result is the one kept under the `a`-th key. */
  lemma ValuesEndOnKeys(t: DayTable)
    requires Valid(t)
    ensures forall a :: 0 <= a < |Values(t)| ==> Day(Values(t)[a].end) == t.order[a]
  {
  }

  /** The result holds one entry per end date, and those dates are exactly the end
      dates of `es`. */
  lemma LongestPerDayOnePerDay(es: seq<SleepRecord>)
    ensures var vs := LongestPerDay(es);
      && (forall a, b :: 0 <= a < b < |vs| ==> Day(vs[a].end) != Day(vs[b].end))
      && (forall d :: d in EndDays(es) <==> exists a :: 0 <= a < |vs| && Day(vs[a].end) == d)
  {
    var t := Reduce(Empty, es);
    ReduceSpec(es);
    ValuesEndOnKeys(t);
    forall d | d in EndDays(es)
      ensures exists a :: 0 <= a < |t.order| && Day(Values(t)[a].end) == d
    {
      assert d in t.order;
    }
  }

  /** Each kept entry is the first of the longest entries of `es` ending on its date. */
  lemma LongestPerDayIsFirstLongest(es: seq<SleepRecord>)
    ensures var vs := LongestPerDay(es);
      forall a :: 0 <= a < |vs| ==> exists i :: FirstLongest(es, Day(vs[a].end), i) && vs[a] == es[i]
  {
    var t := Reduce(Empty, es);
    ReduceSpec(es);
    ValuesEndOnKeys(t);
    forall a | 0 <= a < |t.order|
      ensures exists i :: FirstLongest(es, Day(Values(t)[a].end), i) && Values(t)[a] == es[i]
    {
      assert KeepsFirstLongest(t, es, t.order[a]);
    }
  }

  /** `vs` holds exactly one entry per end date of `es`, and for each date the first
      of the longest entries of `es` ending on it. */
  ghost predicate IsLongestPerDay(vs: seq<SleepRecord>, es: seq<SleepRecord>) {
    && (forall a, b :: 0 <= a < b < |vs| ==> Day(vs[a].end) != Day(vs[b].end))
    && (forall d :: d in EndDays(es) <==> exists a :: 0 <= a < |vs| && Day(vs[a].end) == d)
    && (forall a :: 0 <= a < |vs| ==> exists i :: FirstLongest(es, Day(vs[a].end), i) && vs[a] == es[i])
  }

  lemma LongestPerDaySpec(es: seq<SleepRecord>)
    ensures IsLongestPerDay(LongestPerDay(es), es)
  {
    LongestPerDayOnePerDay(es);
    LongestPerDayIsFirstLongest(es);
  }

  /** The index of the first entry of `es` that ends on day `d`. */
  ghost function FirstEnding(es: seq<SleepRecord>, d: int): (i: nat)
    requires d in EndDays(es)
    ensures i < |es| && Day(es[i].end) == d
    ensures forall j :: 0 <= j < i ==> Day(es[j].end) != d
    decreases |es|
  {
    var p := es[..|es| - 1];
    EndDaysSnoc(p, es[|es| - 1]);
    assert es == p + [es[|es| - 1]];
    if d in EndDays(p) then FirstEnding(p, d) else |es| - 1
  }

  /** Dates are listed in the order in which their first entry occurs. */
  ghost predicate InFirstSeenOrder(order: seq<int>, es: seq<SleepRecord>)
    requires forall a :: 0 <= a < |order| ==> order[a] in EndDays(es)
  {
    forall a, b :: 0 <= a < b < |order| ==> FirstEnding(es, order[a]) < FirstEnding(es, order[b])
  }

  /** Appending an entry leaves the first occurrence of every earlier date in place. */
  lemma FirstEndingSnoc(es: seq<SleepRecord>, e: SleepRecord, d: int)
    requires d in EndDays(es)
    ensures d in EndDays(es + [e]) && FirstEnding(es + [e], d) == FirstEnding(es, d)
  {
    EndDaysSnoc(es, e);
    assert (es + [e])[..|es|] == es;
  }

  lemma InsertOrder(t: DayTable, es: seq<SleepRecord>, e: SleepRecord)
    requires forall a :: 0 <= a < |t.order| ==> t.order[a] in EndDays(es)
    requires InFirstSeenOrder(t.order, es)
    requires Day(e.end) !in t.longest ==> Day(e.end) !in EndDays(es)
    ensures var r := Insert(t, e);
      && (forall a :: 0 <= a < |r.order| ==> r.order[a] in EndDays(es + [e]))
      && InFirstSeenOrder(r.order, es + [e])
  {
    var s := es + [e];
    var r := Insert(t, e);
    forall a | 0 <= a < |t.order|
      ensures t.order[a] in EndDays(s) && FirstEnding(s, t.order[a]) == FirstEnding(es, t.order[a])
    {
      FirstEndingSnoc(es, e, t.order[a]);
    }
    if Day(e.end) !in t.longest {
      EndDaysSnoc(es, e);
      assert FirstEnding(s, Day(e.end)) == |es|;
    }
  }

  lemma {:induction false} ReduceOrder(es: seq<SleepRecord>)
    ensures var t := Reduce(Empty, es);
      && (forall a :: 0 <= a < |t.order| ==> t.order[a] in EndDays(es))
      && InFirstSeenOrder(t.order, es)
    decreases |es|
  {
    if |es| > 0 {
      var p := es[..|es| - 1];
      var e := es[|es| - 1];
      assert p + [e] == es;
      ReduceOrder(p);
      ReduceSpec(p);
      assert Reduce(Empty, es) == Insert(Reduce(Empty, p), e);
      InsertOrder(Reduce(Empty, p), p, e);
    }
  }

  /** The entries are listed in the order in which their end dates first occur. */
  lemma LongestPerDayOrder(es: seq<SleepRecord>)
    ensures var vs := LongestPerDay(es);
      && (forall a :: 0 <= a < |vs| ==> Day(vs[a].end) in EndDays(es))
      && forall a, b :: 0 <= a < b < |vs| ==>
           FirstEnding(es, Day(vs[a].end)) < FirstEnding(es, Day(vs[b].end))
  {
    ReduceOrder(es);
    ValuesEndOnKeys(Reduce(Empty, es));
  }
}
