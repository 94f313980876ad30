/** The Google Fit Takeout backfill: each exported sleep session becomes a record,
    and records of nights already in the database are dropped. */
module TakeoutBackfill {
  import opened SleepRecords

  /** One exported session, with its start and end as Unix times. */
  datatype Session = Session(start: int, end: int)

  /** The record appended for each session file. */
  function ToRecords(sessions: seq<Session>): (rs: seq<SleepRecord>)
    ensures |rs| == |sessions|
    ensures forall i :: 0 <= i < |rs| ==>
              && WellFormed(rs[i])
              && rs[i].start == sessions[i].start
              && rs[i].end == sessions[i].end
  {
    seq(|sessions|, i requires 0 <= i < |sessions| => MakeRecord(sessions[i].start, sessions[i].end))
  }

  /** The end dates of the sleeps already stored. */
  function ExistingDays(storedEnds: seq<int>): (days: set<int>)
    ensures forall i :: 0 <= i < |storedEnds| ==> Day(storedEnds[i]) in days
    ensures forall d :: d in days ==> exists i :: 0 <= i < |storedEnds| && Day(storedEnds[i]) == d
  {
    set i | 0 <= i < |storedEnds| :: Day(storedEnds[i])
  }

  /** The records whose end date is not among `existing`, in their original order. */
  function DropExisting(rs: seq<SleepRecord>, existing: set<int>): (kept: seq<SleepRecord>)
    ensures forall k :: 0 <= k < |kept| ==> Day(kept[k].end) !in existing
    ensures forall k :: 0 <= k < |kept| ==> kept[k] in rs
    ensures |kept| <= |rs|
    decreases |rs|
  {
    if |rs| == 0 then []
    else
      var rest := DropExisting(rs[1..], existing);
      if Day(rs[0].end) in existing then rest else [rs[0]] + rest
  }

  /** The whole script: sessions to records, minus the nights already stored. */
  function Backfill(sessions: seq<Session>, storedEnds: seq<int>): (r: seq<SleepRecord>)
    ensures forall k, i :: 0 <= k < |r| && 0 <= i < |storedEnds| ==> Day(r[k].end) != Day(storedEnds[i])
    ensures forall k :: 0 <= k < |r| ==>
              exists i :: 0 <= i < |sessions| && r[k] == MakeRecord(sessions[i].start, sessions[i].end)
    ensures |r| <= |sessions|
  {
    DropExisting(ToRecords(sessions), ExistingDays(storedEnds))
  }

  // ---------------------------------------------------------------------------
  // Lemmas
  // ---------------------------------------------------------------------------

  /** Every record of a new night is kept, as often as it occurs; none of a stored
      night is. */
  lemma {:induction false} DropExistingCounts(rs: seq<SleepRecord>, existing: set<int>, r: SleepRecord)
    ensures multiset(DropExisting(rs, existing))[r] ==
              if Day(r.end) in existing then 0 else multiset(rs)[r]
    decreases |rs|
  {
    if |rs| > 0 {
      DropExistingCounts(rs[1..], existing, r);
      assert rs == [rs[0]] + rs[1..];
    }
  }

  /** Filtering commutes with concatenation: relative order is preserved and the
      kept records are unchanged. */
  lemma {:induction false} DropExistingAppend(xs: seq<SleepRecord>, ys: seq<SleepRecord>, existing: set<int>)
    ensures DropExisting(xs + ys, existing) == DropExisting(xs, existing) + DropExisting(ys, existing)
    decreases |xs|
  {
    if |xs| == 0 {
      assert xs + ys == ys;
    } else {
      assert (xs + ys)[1..] == xs[1..] + ys;
      DropExistingAppend(xs[1..], ys, existing);
    }
  }

  /** Filtering a list whose nights are all new changes nothing, and only then. */
  lemma {:induction false} DropExistingIdentity(rs: seq<SleepRecord>, existing: set<int>)
    ensures DropExisting(rs, existing) == rs <==>
              forall k :: 0 <= k < |rs| ==> Day(rs[k].end) !in existing
    decreases |rs|
  {
    if |rs| > 0 {
      DropExistingIdentity(rs[1..], existing);
      if Day(rs[0].end) in existing {
        assert |DropExisting(rs, existing)| <= |rs[1..]| < |rs|;
      }
    }
  }

  /** Filtering twice with the same stored nights is filtering once. */
  lemma DropExistingIdempotent(rs: seq<SleepRecord>, existing: set<int>)
    ensures DropExisting(DropExisting(rs, existing), existing) == DropExisting(rs, existing)
  {
    DropExistingIdentity(DropExisting(rs, existing), existing);
  }

  /** The Takeout backfill submits, per session, the record of that session unless a
      sleep ending on the same date is already stored. */
  lemma BackfillSpec(sessions: seq<Session>, storedEnds: seq<int>, s: Session)
    ensures var r := MakeRecord(s.start, s.end);
      multiset(Backfill(sessions, storedEnds))[r] ==
        if exists i :: 0 <= i < |storedEnds| && Day(storedEnds[i]) == Day(s.end) then 0
        else multiset(sessions)[s]
  {
    var rs := ToRecords(sessions);
    var r := MakeRecord(s.start, s.end);
    DropExistingCounts(rs, ExistingDays(storedEnds), r);
    ToRecordsCounts(sessions, s);
  }

  /** Distinct sessions give distinct records, so a record occurs as often as its session. */
  lemma {:induction false} ToRecordsCounts(sessions: seq<Session>, s: Session)
    ensures multiset(ToRecords(sessions))[MakeRecord(s.start, s.end)] == multiset(sessions)[s]
    decreases |sessions|
  {
    if |sessions| > 0 {
      var p := sessions[..|sessions| - 1];
      var x := sessions[|sessions| - 1];
      ToRecordsCounts(p, s);
      assert sessions == p + [x];
      assert ToRecords(sessions) == ToRecords(p) + [MakeRecord(x.start, x.end)];
    }
  }
}
