/** The finalizer of run.py (lines 263-301): after the reduce loop, every
    entry of the dict, in its key order, gets the truncated mean and the
    median of its run and wait time samples and its most and least frequent
    submission date; every user entry (not "all") then adds up the jobs it
    submitted on a holiday and drops its two sample lists.

    The script mutates the dict in place; here the result is a new snapshot
    holding one summary per key. A Python exception (the mean of an empty
    list, `max` of an empty dict, the `KeyError` of a user entry without
    `"holiday_count"`) ends the script, and is the
    snapshot `None`. */
module Finalizer {
  import opened Wrappers
  import opened Counters
  import opened Stats
  import opened Parser
  import opened Accumulator

  // ---------------------------------------------------------------------
  // Counting the jobs of holidays

  /** The jobs counted under the dates of `keys` that are holidays: the
      loop `for date in d: if date in holiday_date: count += d[date]`. */
  function HolidayCount(keys: seq<string>, m: map<string, int>, holidays: seq<string>): int {
    if keys == [] then 0
    else
      var k := keys[|keys| - 1];
      HolidayCount(keys[..|keys| - 1], m, holidays) + (if k in holidays then Get(m, k) else 0)
  }

  /** Some date of `keys` is a holiday. */
  predicate HolidayHit(keys: seq<string>, holidays: seq<string>) {
    exists i :: 0 <= i < |keys| && keys[i] in holidays
  }

  /** The holiday loop itself, over the dates in their insertion order. */
  method CountHolidays(date: Counter, holidays: seq<string>) returns (n: int)
    ensures n == HolidayCount(date.keys, date.counts, holidays)
  {
    n := 0;
    var i := 0;
    while i < |date.keys|
      invariant 0 <= i <= |date.keys|
      invariant n == HolidayCount(date.keys[..i], date.counts, holidays)
    {
      var k := date.keys[i];
      assert date.keys[..i + 1][..i] == date.keys[..i];
      if k in holidays {
        n := n + Get(date.counts, k);
      }
      i := i + 1;
    }
    assert date.keys[..|date.keys|] == date.keys;
  }

  /** With counts that are never negative, the holiday jobs are at least none
      and at most all the jobs of the dict. */
  lemma {:induction false} HolidayCountBounds(keys: seq<string>, m: map<string, int>, holidays: seq<string>)
    requires forall i :: 0 <= i < |keys| ==> Get(m, keys[i]) >= 0
    ensures 0 <= HolidayCount(keys, m, holidays) <= SumOver(keys, m)
  {
    if keys != [] {
      HolidayCountBounds(keys[..|keys| - 1], m, holidays);
    }
  }

  /** No date is a holiday: no holiday jobs. */
  lemma {:induction false} HolidayCountNoHit(keys: seq<string>, m: map<string, int>, holidays: seq<string>)
    requires !HolidayHit(keys, holidays)
    ensures HolidayCount(keys, m, holidays) == 0
  {
    if keys != [] {
      var init := keys[..|keys| - 1];
      assert !HolidayHit(init, holidays) by {
        forall i | 0 <= i < |init| ensures init[i] !in holidays {
          assert init[i] == keys[i];
        }
      }
      HolidayCountNoHit(init, m, holidays);
    }
  }

  /** Every date is a holiday: every job is a holiday job. */
  lemma {:induction false} HolidayCountAllHit(keys: seq<string>, m: map<string, int>, holidays: seq<string>)
    requires forall i :: 0 <= i < |keys| ==> keys[i] in holidays
    ensures HolidayCount(keys, m, holidays) == SumOver(keys, m)
  {
    if keys != [] {
      HolidayCountAllHit(keys[..|keys| - 1], m, holidays);
    }
  }

  // ---------------------------------------------------------------------
  // One entry

  /** A finalized entry: the entry with its final `holiday_count`, and the
      values the finalizer adds. `samplesKept` says whether the `runtime`
      and `wait_time` lists stay in the dict, which holds only for "all". */
  datatype Summary = Summary(
    base: Entry,
    meanRuntime: int, medianRuntime: real,
    meanWaitTime: int, medianWaitTime: real,
    mostFreqDate: string, leastFreqDate: string,
    samplesKept: bool)

  /** The `holiday_count` after the loop, or `None` as the outer option for
      the `KeyError` of a user entry without `"holiday_count"`. "all" skips
      the loop (`continue`). */
  function FinalHoliday(name: string, date: Counter, count: Option<int>, holidays: seq<string>): Option<Option<int>> {
    if name == All then Some(count)
    else
      match count
      case Some(v) => Some(Some(v + HolidayCount(date.keys, date.counts, holidays)))
      case None => if HolidayHit(date.keys, holidays) then None else Some(None)
  }

  /** The body of the finalizer loop for key `name`: `None` when it raises. */
  function Summarize(name: string, e: Entry, holidays: seq<string>): Option<Summary> {
    if |e.runtime| == 0 || |e.waitTime| == 0 || e.date.keys == [] then None
    else
      var hc := FinalHoliday(name, e.date, e.holidayCount, holidays);
      if hc.None? then None
      else
        var rs, ws := Sort(e.runtime), Sort(e.waitTime);
        Some(Summary(e.(holidayCount := hc.value),
                     MeanTrunc(rs), Median(rs), MeanTrunc(ws), Median(ws),
                     MostFrequent(e.date), LeastFrequent(e.date), name == All))
  }

  /** The holiday part of the loop body, on the entry's date dict and its
      `holiday_count`. */
  method HolidayStep(name: string, date: Counter, count: Option<int>, holidays: seq<string>)
      returns (hc: Option<Option<int>>)
    ensures hc == FinalHoliday(name, date, count, holidays)
  {
    hc := Some(count);
    if name != All {
      var n := CountHolidays(date, holidays);
      match count {
        case Some(v) =>
          hc := Some(Some(v + n));
        case None =>
          if HolidayHit(date.keys, holidays) {
            hc := None;
          }
      }
    }
  }

  /** The loop body as run.py executes it, with the holiday loop. */
  method SummarizeEntry(name: string, e: Entry, holidays: seq<string>) returns (r: Option<Summary>)
    ensures r == Summarize(name, e, holidays)
  {
    if |e.runtime| == 0 || |e.waitTime| == 0 || e.date.keys == [] {
      return None;
    }
    var hc := HolidayStep(name, e.date, e.holidayCount, holidays);
    if hc.None? {
      return None;
    }
    var rs, ws := Sort(e.runtime), Sort(e.waitTime);
    r := Some(Summary(e.(holidayCount := hc.value),
                      MeanTrunc(rs), Median(rs), MeanTrunc(ws), Median(ws),
                      MostFrequent(e.date), LeastFrequent(e.date), name == All));
  }

  /** A sample list holding `x` has a position holding `x`. */
  lemma SampleAt(s: seq<int>, x: int)
    requires x in multiset(s)
    ensures exists i :: 0 <= i < |s| && s[i] == x
  {
    assert x in s;
  }

  /** A well formed entry with at least one job (and, for a user, a
      `holiday_count`) is finalized without error. Its mean run time is its
      `runtime_sum` divided by its `jobs_count`, truncated, and its mean wait
      time the sum of its waits divided the same way; each median lies
      between the smallest and the largest sample; the dates are the most
      and the least frequent ones; a user's `holiday_count` grows by the jobs
      of its holiday dates, so by at most its job count; nothing else of the
      entry changes, and only "all" keeps its samples. */
  lemma SummaryOfEntry(name: string, e: Entry, holidays: seq<string>)
    requires EntryOk(e) && e.jobsCount > 0
    requires name != All ==> e.holidayCount.Some?
    ensures Summarize(name, e, holidays).Some?
    ensures var s := Summarize(name, e, holidays).value;
      && s.meanRuntime == TruncDiv(e.runtimeSum, e.jobsCount)
      && s.meanWaitTime == TruncDiv(Sum(e.waitTime), e.jobsCount)
      && (exists i :: 0 <= i < |e.runtime| && e.runtime[i] as real <= s.medianRuntime)
      && (exists i :: 0 <= i < |e.runtime| && s.medianRuntime <= e.runtime[i] as real)
      && (exists i :: 0 <= i < |e.waitTime| && e.waitTime[i] as real <= s.medianWaitTime)
      && (exists i :: 0 <= i < |e.waitTime| && s.medianWaitTime <= e.waitTime[i] as real)
      && s.mostFreqDate in e.date.keys && s.leastFreqDate in e.date.keys
      && (forall d :: d in e.date.keys ==> CountOf(e.date, s.leastFreqDate) <= CountOf(e.date, d) <= CountOf(e.date, s.mostFreqDate))
      && (name == All ==> s.base.holidayCount == e.holidayCount)
      && (name != All ==>
            s.base.holidayCount == Some(e.holidayCount.value + HolidayCount(e.date.keys, e.date.counts, holidays)) &&
            e.holidayCount.value <= s.base.holidayCount.value <= e.holidayCount.value + e.jobsCount)
      && s.base == e.(holidayCount := s.base.holidayCount)
      && (s.samplesKept <==> name == All)
  {
    forall i | 0 <= i < |e.date.keys| ensures Get(e.date.counts, e.date.keys[i]) >= 0 {
      assert CountOf(e.date, e.date.keys[i]) >= 0;
    }
    HolidayCountBounds(e.date.keys, e.date.counts, holidays);
    SampleSummary(e.runtime);
    SampleSummary(e.waitTime);
    var rs, ws := Sort(e.runtime), Sort(e.waitTime);
    var hc := FinalHoliday(name, e.date, e.holidayCount, holidays);
    var s := Summary(e.(holidayCount := hc.value),
                     MeanTrunc(rs), Median(rs), MeanTrunc(ws), Median(ws),
                     MostFrequent(e.date), LeastFrequent(e.date), name == All);
    assert Summarize(name, e, holidays) == Some(s);
    SummaryHoliday(name, e, holidays);
  }

  /** A summarized user entry that had a `holiday_count` has it raised by
      the jobs of its holiday dates; "all" keeps its own. */
  lemma SummaryHoliday(name: string, e: Entry, holidays: seq<string>)
    requires Summarize(name, e, holidays).Some?
    ensures name == All ==> Summarize(name, e, holidays).value.base.holidayCount == e.holidayCount
    ensures name != All && e.holidayCount.Some? ==>
      Summarize(name, e, holidays).value.base.holidayCount ==
        Some(e.holidayCount.value + HolidayCount(e.date.keys, e.date.counts, holidays))
  {
  }

  /** The statistics the finalizer takes of one sample list: the truncated
      mean of the sorted list is that of the list, and its median lies
      between two of its samples. */
  lemma SampleSummary(xs: seq<int>)
    requires |xs| > 0
    ensures MeanTrunc(Sort(xs)) == TruncDiv(Sum(xs), |xs|)
    ensures exists i :: 0 <= i < |xs| && xs[i] as real <= Median(Sort(xs))
    ensures exists i :: 0 <= i < |xs| && Median(Sort(xs)) <= xs[i] as real
  {
    var rs := Sort(xs);
    MedianSplits(rs);
    SampleAt(xs, rs[0]);
    SampleAt(xs, rs[|rs| - 1]);
  }

  /** A summary keeps every field of its entry but `holiday_count`. */
  lemma SummarizeKeeps(name: string, e: Entry, holidays: seq<string>)
    requires Summarize(name, e, holidays).Some?
    ensures var s := Summarize(name, e, holidays).value;
      s.base == e.(holidayCount := s.base.holidayCount)
  {
  }

  /** A well formed entry fails to finalize exactly when it has no job, or
      when it is a user entry without `holiday_count` that has a holiday date. */
  lemma SummarizeFails(name: string, e: Entry, holidays: seq<string>)
    requires EntryOk(e)
    ensures Summarize(name, e, holidays).None?
        <==> e.jobsCount == 0 || (name != All && e.holidayCount.None? && HolidayHit(e.date.keys, holidays))
  {
  }

  // ---------------------------------------------------------------------
  // The whole dict

  /** The dict after the finalizer: the same keys in the same order, each
      with its summary. */
  datatype Snapshot = Snapshot(order: seq<string>, summaries: map<string, Summary>)

  /** The results of `f` on `keys`, gathered into a dict, or `None` as soon
      as one of them is `None`. */
  function Collect<T>(keys: seq<string>, f: string -> Option<T>): Option<map<string, T>> {
    if keys == [] then Some(map[])
    else
      var k := keys[|keys| - 1];
      match Collect(keys[..|keys| - 1], f)
      case None => None
      case Some(done) =>
        match f(k)
        case None => None
        case Some(s) => Some(done[k := s])
  }

  /** One more key: gathering the prefix up to it fails for good when that
      key's result fails, and otherwise adds that result. */
  lemma CollectNext<T>(keys: seq<string>, i: nat, f: string -> Option<T>, done: map<string, T>)
    requires i < |keys| && Collect(keys[..i], f) == Some(done)
    ensures f(keys[i]).None? ==> Collect(keys, f).None?
    ensures f(keys[i]).Some? ==> Collect(keys[..i + 1], f) == Some(done[keys[i] := f(keys[i]).value])
  {
    assert keys[..i + 1][..i] == keys[..i];
    if f(keys[i]).None? {
      CollectSome(keys, f);
    }
  }

  /** Gathering succeeds exactly when every key's result does. */
  lemma {:induction false} CollectSome<T>(keys: seq<string>, f: string -> Option<T>)
    ensures Collect(keys, f).Some? <==> forall i :: 0 <= i < |keys| ==> f(keys[i]).Some?
  {
    if keys != [] {
      var init := keys[..|keys| - 1];
      CollectSome(init, f);
      assert forall i :: 0 <= i < |init| ==> init[i] == keys[i];
    }
  }

  /** When it succeeds, every key has its own result and nothing else has
      one. */
  lemma {:induction false} CollectContent<T>(keys: seq<string>, f: string -> Option<T>)
    requires Collect(keys, f).Some?
    ensures var done := Collect(keys, f).value;
      && (forall k :: k in done <==> k in keys)
      && (forall k :: k in done ==> f(k) == Some(done[k]))
  {
    if keys != [] {
      var init, k := keys[..|keys| - 1], keys[|keys| - 1];
      CollectContent(init, f);
      assert forall x :: x in keys <==> x in init || x == k;
    }
  }

  /** The summary of key `k` of the dict `m`. */
  function SummaryOf(m: map<string, Entry>, holidays: seq<string>): string -> Option<Summary> {
    k => Summarize(k, EntryAt(m, k), holidays)
  }

  lemma SummaryOfAt(m: map<string, Entry>, holidays: seq<string>, k: string)
    ensures SummaryOf(m, holidays)(k) == Summarize(k, EntryAt(m, k), holidays)
  {
  }

  /** The dict after the finalizer, or `None` when the script stops. */
  function FinalizeTable(t: Table, holidays: seq<string>): Option<Snapshot> {
    match Collect(t.order, SummaryOf(t.entries, holidays))
    case None => None
    case Some(m) => Some(Snapshot(t.order, m))
  }

  /** The finalizer succeeds exactly when every key's summary does, and then
      the snapshot keeps the key order and holds each key's own summary. */
  lemma FinalizeTableSpec(t: Table, holidays: seq<string>)
    ensures FinalizeTable(t, holidays).Some?
        <==> forall i :: 0 <= i < |t.order| ==> Summarize(t.order[i], EntryAt(t.entries, t.order[i]), holidays).Some?
    ensures FinalizeTable(t, holidays).Some? ==>
      var snap := FinalizeTable(t, holidays).value;
      && snap.order == t.order
      && (forall k :: k in snap.summaries <==> k in t.order)
      && (forall k :: k in snap.summaries ==> Some(snap.summaries[k]) == Summarize(k, EntryAt(t.entries, k), holidays))
  {
    var f := SummaryOf(t.entries, holidays);
    CollectSome(t.order, f);
    if Collect(t.order, f).Some? {
      CollectContent(t.order, f);
    }
  }

  /** `for user in all_dict.keys()`: the finalizer loop, stopping at the
      first key whose summary raises. */
  method Finalize(t: Table, holidays: seq<string>) returns (r: Option<Snapshot>)
    ensures r == FinalizeTable(t, holidays)
  {
    ghost var f := SummaryOf(t.entries, holidays);
    var done: map<string, Summary> := map[];
    var i := 0;
    while i < |t.order|
      invariant 0 <= i <= |t.order|
      invariant Collect(t.order[..i], f) == Some(done)
    {
      var k := t.order[i];
      var s := SummarizeEntry(k, EntryAt(t.entries, k), holidays);
      SummaryOfAt(t.entries, holidays, k);
      CollectNext(t.order, i, f, done);
      if s.None? {
        return None;
      }
      done := done[k := s.value];
      i := i + 1;
    }
    assert t.order[..|t.order|] == t.order;
    r := Some(Snapshot(t.order, done));
  }

  /** A consistent dict whose entries all hold a job is finalized. */
  lemma BusyTableFinalizes(t: Table, holidays: seq<string>)
    requires Shaped(t) && Busy(t) && AllOf(t).jobsCount > 0
    ensures FinalizeTable(t, holidays).Some?
  {
    FinalizeTableSpec(t, holidays);
    forall i | 0 <= i < |t.order| ensures Summarize(t.order[i], EntryAt(t.entries, t.order[i]), holidays).Some? {
      var k := t.order[i];
      assert k in t.entries;
      SummaryOfEntry(k, t.entries[k], holidays);
    }
  }

  /** A dict whose entry "all" holds no job fails at its first key. */
  lemma IdleTableFails(t: Table, holidays: seq<string>)
    requires Shaped(t) && AllOf(t).jobsCount == 0
    ensures FinalizeTable(t, holidays).None?
  {
    FinalizeTableSpec(t, holidays);
    SummarizeFails(All, AllOf(t), holidays);
    assert t.order[0] == All;
  }

  /** After a reduce, the finalizer succeeds exactly when there was a
      record: with none, the entry "all" has no samples and its mean divides
      by zero. A user named "all" is counted twice, which changes nothing
      here. */
  lemma ReduceFinalizes(records: seq<JobRecord>, clock: int -> LocalTime, holidays: seq<string>)
    ensures FinalizeTable(Reduce(records, clock), holidays).Some? <==> records != []
  {
    InitialConsistent();
    FoldShaped(Initial(), records, clock);
    InitialBusy();
    FoldBusy(Initial(), records, clock);
    FoldJobsAtLeast(Initial(), records, clock);
    assert AllOf(Initial()).jobsCount == 0;
    var t := Reduce(records, clock);
    if records == [] {
      IdleTableFails(t, holidays);
    } else {
      BusyTableFinalizes(t, holidays);
    }
  }
}
