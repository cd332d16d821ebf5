/** The reduce loop of run.py (lines 148-262): every job record updates the
    entry of its user, created on first sight, and then the entry "all".

    An entry holds the job count, the run and CPU time sums, histograms of
    submission dates, queues and software, the latest submission before six
    in the morning with its date, the largest run, CPU and wait times, the
    run and wait time samples, and the four time-of-day buckets. The local
    time of a submission (`extract_hms_from_timestamp`,
    `extract_md_from_timestamp`) comes from a clock given as a parameter. */
module Accumulator {
  import opened Wrappers
  import opened Counters
  import opened Parser
  import opened Stats

  /** The local time of a timestamp: the time of day as the number `HHMMSS`
      reads as (`int(strftime('%H%M%S'))`) and the date as `MMDD`. */
  datatype LocalTime = LocalTime(hms: int, md: string)

  const All: string := "all"

  /** The keys of `time_period`, in their insertion order. */
  const Periods: seq<string> := ["1-6", "7-12", "13-18", "19-24"]

  /** The bucket of a submission time. The first test is a strict range, so
      times up to 01:00:00 fall through to "7-12". */
  function Period(hms: int): (p: string)
    ensures p in Periods
    ensures p == "1-6" <==> 10000 < hms < 60000
    ensures p == "7-12" <==> hms <= 10000 || 60000 <= hms < 130000
    ensures p == "13-18" <==> 130000 <= hms < 190000
    ensures p == "19-24" <==> 190000 <= hms
  {
    if 10000 < hms < 60000 then "1-6"
    else if hms < 130000 then "7-12"
    else if hms < 190000 then "13-18"
    else "19-24"
  }

  /** One value of `all_dict`. `latest_time` is kept as the number its six
      digits read as; run.py compares it through `int()` only. The entry
      "all" has no `holiday_count` (`None`); a user entry starts at 0. */
  datatype Entry = Entry(
    jobsCount: int, runtimeSum: int, cpuTimeSum: int,
    date: Counter, queue: Counter, software: Counter,
    latestTime: int, latestTimeDate: string,
    biggestRuntime: int, biggestCpuTime: int, biggestWaitTime: int,
    runtime: seq<int>, waitTime: seq<int>,
    holidayCount: Option<int>,
    timePeriod: Counter)

  /** A new entry: all zero, `latest_time` "000000" on "0101". */
  function NewEntry(holiday: Option<int>): Entry {
    Entry(0, 0, 0, Counter([], map[]), Counter([], map[]), Counter([], map[]),
          0, "0101", 0, 0, 0, [], [], holiday, Zeroes(Periods))
  }

  /** What one record does to one entry (each field as its block of the
      loop body does it). */
  function Step(e: Entry, r: JobRecord, t: LocalTime): Entry {
    var later := t.hms > e.latestTime && t.hms < 60000;
    e.(jobsCount := e.jobsCount + 1,
       runtimeSum := e.runtimeSum + r.run,
       cpuTimeSum := e.cpuTimeSum + r.cpu,
       date := Bump(e.date, t.md),
       queue := Bump(e.queue, r.queue),
       software := Bump(e.software, r.software),
       latestTime := if later then t.hms else e.latestTime,
       latestTimeDate := if later then t.md else e.latestTimeDate,
       biggestRuntime := if r.run > e.biggestRuntime then r.run else e.biggestRuntime,
       biggestCpuTime := if r.cpu > e.biggestCpuTime then r.cpu else e.biggestCpuTime,
       biggestWaitTime := if r.wait > e.biggestWaitTime then r.wait else e.biggestWaitTime,
       runtime := e.runtime + [r.run],
       waitTime := e.waitTime + [r.wait],
       timePeriod := Bump(e.timePeriod, Period(t.hms)))
  }

  /** `e1` is `e0` after a record of local time `t`, as far as the latest
      time goes: it did not go down, it is no earlier than `t` when `t` is
      before 06:00:00, and either both fields stayed or both are `t`'s, the
      time having been strictly earlier than `t`. */
  ghost predicate LatestStep(e0: Entry, e1: Entry, t: LocalTime) {
    && e0.latestTime <= e1.latestTime
    && (t.hms < 60000 ==> t.hms <= e1.latestTime)
    && ((e1.latestTime == e0.latestTime && e1.latestTimeDate == e0.latestTimeDate)
        || (e0.latestTime < t.hms && e1.latestTime == t.hms && e1.latestTimeDate == t.md && t.hms < 60000))
  }

  /** Proof helper for `AddRecordLatest`: one step, and a second step with
      the same time (a user named "all" charges that entry twice), move the
      latest time as `LatestStep` says; the second changes nothing of it. */
  lemma StepLatest(e: Entry, r: JobRecord, t: LocalTime)
    ensures LatestStep(e, Step(e, r, t), t)
    ensures var e2 := Step(Step(e, r, t), r, t);
      e2.latestTime == Step(e, r, t).latestTime && e2.latestTimeDate == Step(e, r, t).latestTimeDate
  {
  }

  // ---------------------------------------------------------------------
  // The quantities the "all" entry aggregates

  /** The additive quantities of an entry: a count or sum, or one histogram
      cell. */
  datatype Tally = Jobs | RuntimeTotal | CpuTimeTotal
                 | DateTally(date: string) | QueueTally(queue: string)
                 | SoftwareTally(software: string) | PeriodTally(period: string)

  function TallyOf(e: Entry, a: Tally): int {
    match a
    case Jobs => e.jobsCount
    case RuntimeTotal => e.runtimeSum
    case CpuTimeTotal => e.cpuTimeSum
    case DateTally(d) => CountOf(e.date, d)
    case QueueTally(q) => CountOf(e.queue, q)
    case SoftwareTally(s) => CountOf(e.software, s)
    case PeriodTally(p) => CountOf(e.timePeriod, p)
  }

  /** What one record adds to a tally, whatever the entry. */
  function Delta(r: JobRecord, t: LocalTime, a: Tally): int {
    match a
    case Jobs => 1
    case RuntimeTotal => r.run
    case CpuTimeTotal => r.cpu
    case DateTally(d) => if d == t.md then 1 else 0
    case QueueTally(q) => if q == r.queue then 1 else 0
    case SoftwareTally(s) => if s == r.software then 1 else 0
    case PeriodTally(p) => if p == Period(t.hms) then 1 else 0
  }

  /** The running maxima of an entry. */
  datatype Peak = BiggestRuntime | BiggestCpuTime | BiggestWaitTime | LatestTime

  function PeakOf(e: Entry, p: Peak): int {
    match p
    case BiggestRuntime => e.biggestRuntime
    case BiggestCpuTime => e.biggestCpuTime
    case BiggestWaitTime => e.biggestWaitTime
    case LatestTime => e.latestTime
  }

  /** The value one record offers a maximum: its run, CPU or wait time, or
      its time of day when that is before 06:00:00. */
  function Candidate(r: JobRecord, t: LocalTime, p: Peak): Option<int> {
    match p
    case BiggestRuntime => Some(r.run)
    case BiggestCpuTime => Some(r.cpu)
    case BiggestWaitTime => Some(r.wait)
    case LatestTime => if t.hms < 60000 then Some(t.hms) else None
  }

  /** `if c > x: x = c`. */
  function Raise(x: int, c: Option<int>): (y: int)
    ensures y >= x && (c.Some? ==> y >= c.value)
    ensures y == x || (c.Some? && y == c.value)
  {
    match c
    case None => x
    case Some(v) => if v > x then v else x
  }

  /** The two sample lists of an entry. */
  datatype Sample = RuntimeSample | WaitSample

  function SamplesOf(e: Entry, s: Sample): seq<int> {
    match s
    case RuntimeSample => e.runtime
    case WaitSample => e.waitTime
  }

  function Drawn(r: JobRecord, s: Sample): int {
    match s
    case RuntimeSample => r.run
    case WaitSample => r.wait
  }

  /** The histograms of an entry are dicts, the time buckets keep their four
      keys, every histogram counts each job once, each job left one run and
      one wait sample, and the maxima never fell below their start at 0. */
  ghost predicate EntryOk(e: Entry) {
    && Valid(e.date) && NonNegative(e.date)
    && Valid(e.queue) && NonNegative(e.queue)
    && Valid(e.software) && NonNegative(e.software)
    && Valid(e.timePeriod) && NonNegative(e.timePeriod) && e.timePeriod.keys == Periods
    && Total(e.date) == e.jobsCount && Total(e.queue) == e.jobsCount
    && Total(e.software) == e.jobsCount && Total(e.timePeriod) == e.jobsCount
    && |e.runtime| == e.jobsCount && |e.waitTime| == e.jobsCount
    && Sum(e.runtime) == e.runtimeSum
    && 0 <= e.latestTime < 60000
    && e.biggestRuntime >= 0 && e.biggestCpuTime >= 0 && e.biggestWaitTime >= 0
  }

  lemma NewEntryOk(h: Option<int>)
    ensures EntryOk(NewEntry(h))
  {
    var e := NewEntry(h);
    SumOfZeroes(Periods);
    assert Distinct(Periods);
  }

  /** One record changes every tally by the same amount, whatever the entry. */
  lemma StepTally(e: Entry, r: JobRecord, t: LocalTime, a: Tally)
    ensures TallyOf(Step(e, r, t), a) == TallyOf(e, a) + Delta(r, t, a)
  {
  }

  lemma StepPeak(e: Entry, r: JobRecord, t: LocalTime, p: Peak)
    ensures PeakOf(Step(e, r, t), p) == Raise(PeakOf(e, p), Candidate(r, t, p))
  {
  }

  lemma StepKeepsHoliday(e: Entry, r: JobRecord, t: LocalTime)
    ensures Step(e, r, t).holidayCount == e.holidayCount
  {
  }

  lemma StepSample(e: Entry, r: JobRecord, t: LocalTime, s: Sample)
    ensures SamplesOf(Step(e, r, t), s) == SamplesOf(e, s) + [Drawn(r, s)]
  {
  }

  /** A record keeps an entry well formed. */
  lemma StepOk(e: Entry, r: JobRecord, t: LocalTime)
    requires EntryOk(e)
    ensures EntryOk(Step(e, r, t))
  {
    var p := Period(t.hms);
    assert p in e.timePeriod.keys;
    SumAppend(e.runtime, r.run);
  }

  // ---------------------------------------------------------------------
  // The table of entries

  /** `all_dict`: its keys in insertion order and its entries. */
  datatype Table = Table(order: seq<string>, entries: map<string, Entry>)

  function EntryAt(m: map<string, Entry>, k: string): Entry {
    if k in m then m[k] else NewEntry(None)
  }

  function AllOf(t: Table): Entry {
    EntryAt(t.entries, All)
  }

  /** The user keys: every key after "all". */
  function Users(t: Table): seq<string> {
    if t.order == [] then [] else t.order[1..]
  }

  /** The dict before the loop: the entry "all" alone. */
  function Initial(): Table {
    Table([All], map[All := NewEntry(None)])
  }

  /** `if raw_data[i][0] not in all_dict.keys()`: a new user gets a fresh
      entry at the end of the order. */
  function Admit(t: Table, name: string): Table {
    if name in t.entries then t
    else Table(t.order + [name], t.entries[name := NewEntry(Some(0))])
  }

  function Charge(t: Table, k: string, r: JobRecord, lt: LocalTime): Table {
    Table(t.order, t.entries[k := Step(EntryAt(t.entries, k), r, lt)])
  }

  /** The record's user charged first, then "all". */
  function ChargeBoth(t: Table, r: JobRecord, lt: LocalTime): Table {
    Charge(Charge(t, r.name, r, lt), All, r, lt)
  }

  /** The body of the loop for one record: its user's entry, then "all". A
      user named "all" is the entry "all" itself, which is then updated twice. */
  function AddRecord(t: Table, r: JobRecord, lt: LocalTime): Table {
    ChargeBoth(Admit(t, r.name), r, lt)
  }

  /** The loop over `records`, the local time of each taken from `clock` at
      its submission time. */
  function Fold(t: Table, records: seq<JobRecord>, clock: int -> LocalTime): Table {
    if records == [] then t
    else
      var r := records[|records| - 1];
      AddRecord(Fold(t, records[..|records| - 1], clock), r, clock(r.sub))
  }

  /** `all_dict` after the loop of run.py:164-262. */
  function Reduce(records: seq<JobRecord>, clock: int -> LocalTime): Table {
    Fold(Initial(), records, clock)
  }

  // ---------------------------------------------------------------------
  // Sums, maxima and samples over the users

  function SumUsers(keys: seq<string>, m: map<string, Entry>, a: Tally): int {
    if keys == [] then 0 else SumUsers(keys[..|keys| - 1], m, a) + TallyOf(EntryAt(m, keys[|keys| - 1]), a)
  }

  function Max(x: int, y: int): int {
    if x >= y then x else y
  }

  function MaxUsers(keys: seq<string>, m: map<string, Entry>, p: Peak): (v: int)
    ensures v >= 0
  {
    if keys == [] then 0 else Max(MaxUsers(keys[..|keys| - 1], m, p), PeakOf(EntryAt(m, keys[|keys| - 1]), p))
  }

  /** The maximum over the users bounds every user's value. */
  lemma {:induction false} MaxUsersAbove(keys: seq<string>, m: map<string, Entry>, p: Peak, i: nat)
    requires i < |keys|
    ensures PeakOf(EntryAt(m, keys[i]), p) <= MaxUsers(keys, m, p)
  {
    var init := keys[..|keys| - 1];
    if i < |init| {
      assert init[i] == keys[i];
      MaxUsersAbove(init, m, p, i);
    }
  }

  /** With at least one user and no negative value, some user's value is
      the maximum. */
  lemma {:induction false} MaxUsersAttained(keys: seq<string>, m: map<string, Entry>, p: Peak)
    requires keys != []
    requires forall i :: 0 <= i < |keys| ==> PeakOf(EntryAt(m, keys[i]), p) >= 0
    ensures exists i :: 0 <= i < |keys| && PeakOf(EntryAt(m, keys[i]), p) == MaxUsers(keys, m, p)
  {
    var init := keys[..|keys| - 1];
    var n := |keys| - 1;
    var last := PeakOf(EntryAt(m, keys[n]), p);
    assert MaxUsers(keys, m, p) == Max(MaxUsers(init, m, p), last);
    if init != [] && MaxUsers(init, m, p) > last {
      assert forall i :: 0 <= i < |init| ==> init[i] == keys[i];
      MaxUsersAttained(init, m, p);
      var j :| 0 <= j < |init| && PeakOf(EntryAt(m, init[j]), p) == MaxUsers(init, m, p);
      assert keys[j] == init[j];
    } else {
      assert init == [] ==> MaxUsers(init, m, p) == 0;
      assert PeakOf(EntryAt(m, keys[n]), p) == MaxUsers(keys, m, p);
    }
  }

  function SamplesUsers(keys: seq<string>, m: map<string, Entry>, s: Sample): multiset<int> {
    if keys == [] then multiset{}
    else SamplesUsers(keys[..|keys| - 1], m, s) + multiset(SamplesOf(EntryAt(m, keys[|keys| - 1]), s))
  }

  lemma {:induction false} SumUsersUpdate(keys: seq<string>, m: map<string, Entry>, k: string, v: Entry, a: Tally)
    requires Distinct(keys)
    ensures SumUsers(keys, m[k := v], a)
         == SumUsers(keys, m, a) + (if k in keys then TallyOf(v, a) - TallyOf(EntryAt(m, k), a) else 0)
  {
    if keys != [] {
      var init, last := keys[..|keys| - 1], keys[|keys| - 1];
      assert keys == init + [last];
      SumUsersUpdate(init, m, k, v, a);
      assert k in keys <==> k in init || k == last;
      assert last == k ==> k !in init;
    }
  }

  lemma {:induction false} MaxUsersOther(keys: seq<string>, m: map<string, Entry>, k: string, v: Entry, p: Peak)
    requires k !in keys
    ensures MaxUsers(keys, m[k := v], p) == MaxUsers(keys, m, p)
  {
    if keys != [] {
      MaxUsersOther(keys[..|keys| - 1], m, k, v, p);
    }
  }

  /** Raising one user's value raises the maximum over the users alike. */
  lemma {:induction false} MaxUsersRaise(keys: seq<string>, m: map<string, Entry>, k: string, v: Entry, p: Peak, c: Option<int>)
    requires Distinct(keys) && k in keys
    requires PeakOf(v, p) == Raise(PeakOf(EntryAt(m, k), p), c)
    ensures MaxUsers(keys, m[k := v], p) == Raise(MaxUsers(keys, m, p), c)
  {
    var init, last := keys[..|keys| - 1], keys[|keys| - 1];
    var m' := m[k := v];
    assert keys == init + [last];
    assert MaxUsers(keys, m', p) == Max(MaxUsers(init, m', p), PeakOf(EntryAt(m', last), p));
    assert MaxUsers(keys, m, p) == Max(MaxUsers(init, m, p), PeakOf(EntryAt(m, last), p));
    if last == k {
      assert k !in init by {
        assert forall i :: 0 <= i < |init| ==> init[i] == keys[i];
      }
      MaxUsersOther(init, m, k, v, p);
      assert EntryAt(m', last) == v;
    } else {
      assert k in init;
      assert Distinct(init) by {
        assert forall i :: 0 <= i < |init| ==> init[i] == keys[i];
      }
      MaxUsersRaise(init, m, k, v, p, c);
      assert EntryAt(m', last) == EntryAt(m, last);
    }
  }

  lemma {:induction false} SamplesUsersOther(keys: seq<string>, m: map<string, Entry>, k: string, v: Entry, s: Sample)
    requires k !in keys
    ensures SamplesUsers(keys, m[k := v], s) == SamplesUsers(keys, m, s)
  {
    if keys != [] {
      SamplesUsersOther(keys[..|keys| - 1], m, k, v, s);
    }
  }

  lemma {:induction false} SamplesUsersAppend(keys: seq<string>, m: map<string, Entry>, k: string, v: Entry, s: Sample, x: int)
    requires Distinct(keys) && k in keys
    requires SamplesOf(v, s) == SamplesOf(EntryAt(m, k), s) + [x]
    ensures SamplesUsers(keys, m[k := v], s) == SamplesUsers(keys, m, s) + multiset{x}
  {
    var init, last := keys[..|keys| - 1], keys[|keys| - 1];
    assert keys == init + [last];
    var m' := m[k := v];
    if last == k {
      assert k !in init;
      SamplesUsersOther(init, m, k, v, s);
      calc {
        SamplesUsers(keys, m', s);
        SamplesUsers(init, m', s) + multiset(SamplesOf(v, s));
        SamplesUsers(init, m, s) + multiset(SamplesOf(EntryAt(m, k), s) + [x]);
        SamplesUsers(init, m, s) + multiset(SamplesOf(EntryAt(m, k), s)) + multiset{x};
      }
    } else {
      assert k in init;
      SamplesUsersAppend(init, m, k, v, s, x);
      assert EntryAt(m', last) == EntryAt(m, last);
    }
  }

  // ---------------------------------------------------------------------
  // The invariant of the loop

  /** Every entry is well formed. */
  ghost predicate EntriesOk(m: map<string, Entry>) {
    forall k :: k in m ==> EntryOk(m[k])
  }

  /** The entry "all" has no `holiday_count`; every user entry has one. */
  ghost predicate HolidaysOk(m: map<string, Entry>) {
    forall k :: k in m ==> m[k].holidayCount == if k == All then None else Some(0)
  }

  /** The dict: "all" first, every key once, one entry per key, each entry
      well formed, and a `holiday_count` on the user entries only. */
  ghost predicate Shaped(t: Table) {
    && t.order != [] && t.order[0] == All && Distinct(t.order)
    && (forall k :: k in t.entries <==> k in t.order)
    && EntriesOk(t.entries)
    && HolidaysOk(t.entries)
  }

  /** The entry "all" aggregates the user entries: each of its counts, sums
      and histogram cells is the sum of the users', each of its maxima is the
      largest of the users', and its sample lists hold the users' samples. */
  ghost predicate Agrees(t: Table) {
    && (forall a :: TallyOf(AllOf(t), a) == SumUsers(Users(t), t.entries, a))
    && (forall p :: PeakOf(AllOf(t), p) == MaxUsers(Users(t), t.entries, p))
    && (forall s :: multiset(SamplesOf(AllOf(t), s)) == SamplesUsers(Users(t), t.entries, s))
  }

  ghost predicate Consistent(t: Table) {
    Shaped(t) && Agrees(t)
  }

  lemma InitialConsistent()
    ensures Consistent(Initial())
  {
    NewEntryOk(None);
    assert Users(Initial()) == [];
  }

  lemma UsersFacts(t: Table)
    requires Shaped(t)
    ensures Distinct(Users(t)) && All !in Users(t)
    ensures forall k :: k in Users(t) <==> k in t.entries && k != All
  {
    var u := Users(t);
    assert forall i :: 0 <= i < |u| ==> u[i] == t.order[i + 1];
    forall k | k in t.entries && k != All ensures k in u {
      var i :| 0 <= i < |t.order| && t.order[i] == k;
      assert i != 0;
      assert u[i - 1] == k;
    }
  }

  /** A new user with an empty entry adds nothing to the aggregates. */
  lemma AppendEmptyUser(u: seq<string>, m: map<string, Entry>, name: string, a: Tally, p: Peak, s: Sample)
    requires Distinct(u) && name !in u
    ensures SumUsers(u + [name], m[name := NewEntry(Some(0))], a) == SumUsers(u, m, a)
    ensures MaxUsers(u + [name], m[name := NewEntry(Some(0))], p) == MaxUsers(u, m, p)
    ensures SamplesUsers(u + [name], m[name := NewEntry(Some(0))], s) == SamplesUsers(u, m, s)
  {
    var ne := NewEntry(Some(0));
    assert (u + [name])[..|u|] == u;
    SumUsersUpdate(u, m, name, ne, a);
    MaxUsersOther(u, m, name, ne, p);
    SamplesUsersOther(u, m, name, ne, s);
    assert TallyOf(ne, a) == 0;
  }

  lemma AdmitShaped(t: Table, name: string)
    requires Shaped(t) && name != All
    ensures Shaped(Admit(t, name))
    ensures name in Users(Admit(t, name))
    ensures AllOf(Admit(t, name)) == AllOf(t)
  {
    UsersFacts(t);
    if name !in t.entries {
      var t1 := Admit(t, name);
      var ne := NewEntry(Some(0));
      assert t1.entries == t.entries[name := ne];
      assert t1.order == t.order + [name];
      assert Users(t1) == Users(t) + [name];
      assert Distinct(t1.order) by {
        assert name !in t.order;
      }
      NewEntryOk(Some(0));
      UpdateEntriesOk(t.entries, name, ne);
      assert forall k :: k in t1.entries <==> k in t1.order;
      assert AllOf(t1) == AllOf(t);
    }
  }

  /** Admitting a new user changes no aggregate. */
  lemma AdmitAgrees(t: Table, name: string)
    requires Agrees(t) && name != All && t.order != []
    requires Distinct(Users(t)) && (name in t.entries || name !in Users(t))
    ensures Agrees(Admit(t, name))
  {
    if name !in t.entries {
      var t1 := Admit(t, name);
      var u, m := Users(t), t.entries;
      assert t1.entries == m[name := NewEntry(Some(0))];
      assert Users(t1) == u + [name];
      assert AllOf(t1) == AllOf(t);
      forall a ensures TallyOf(AllOf(t1), a) == SumUsers(Users(t1), t1.entries, a) {
        AppendEmptyUser(u, m, name, a, BiggestRuntime, RuntimeSample);
      }
      forall p ensures PeakOf(AllOf(t1), p) == MaxUsers(Users(t1), t1.entries, p) {
        AppendEmptyUser(u, m, name, Jobs, p, RuntimeSample);
      }
      forall s ensures multiset(SamplesOf(AllOf(t1), s)) == SamplesUsers(Users(t1), t1.entries, s) {
        AppendEmptyUser(u, m, name, Jobs, BiggestRuntime, s);
      }
    }
  }

  lemma UpdateEntriesOk(m: map<string, Entry>, k: string, e: Entry)
    requires EntriesOk(m) && EntryOk(e)
    ensures EntriesOk(m[k := e])
  {
  }

  lemma UpdateHolidaysOk(m: map<string, Entry>, k: string, e: Entry)
    requires HolidaysOk(m) && k in m && e.holidayCount == m[k].holidayCount
    ensures HolidaysOk(m[k := e])
  {
  }

  /** Charging an entry keeps the dict well formed. */
  lemma ChargeShaped(t: Table, k: string, r: JobRecord, lt: LocalTime)
    requires Shaped(t) && k in t.entries
    ensures Shaped(Charge(t, k, r, lt))
  {
    var e := t.entries[k];
    assert EntryOk(e);
    StepOk(e, r, lt);
    StepKeepsHoliday(e, r, lt);
    assert EntryAt(t.entries, k) == e;
    UpdateEntriesOk(t.entries, k, Step(e, r, lt));
    UpdateHolidaysOk(t.entries, k, Step(e, r, lt));
  }

  /** The facts all three parts of `ChargeAgrees` rest on. */
  ghost predicate ChargeReady(t: Table, r: JobRecord) {
    && r.name != All && t.order != []
    && Distinct(Users(t)) && r.name in Users(t) && All !in Users(t)
  }

  /** Adding `d` to a user's tally and to the tally of "all" keeps the
      second the sum of the first over the users. */
  lemma TallyAfterCharges(u: seq<string>, m: map<string, Entry>, n: string, su: Entry, sa: Entry, a: Tally, d: int)
    requires Distinct(u) && n in u && All !in u
    requires TallyOf(su, a) == TallyOf(EntryAt(m, n), a) + d
    requires TallyOf(sa, a) == TallyOf(EntryAt(m, All), a) + d
    requires TallyOf(EntryAt(m, All), a) == SumUsers(u, m, a)
    ensures TallyOf(sa, a) == SumUsers(u, m[n := su][All := sa], a)
  {
    SumUsersUpdate(u, m, n, su, a);
    SumUsersUpdate(u, m[n := su], All, sa, a);
  }

  /** Raising a user's maximum and that of "all" by the same candidate keeps
      the second the largest of the first over the users. */
  lemma PeakAfterCharges(u: seq<string>, m: map<string, Entry>, n: string, su: Entry, sa: Entry, p: Peak, c: Option<int>)
    requires Distinct(u) && n in u && All !in u
    requires PeakOf(su, p) == Raise(PeakOf(EntryAt(m, n), p), c)
    requires PeakOf(sa, p) == Raise(PeakOf(EntryAt(m, All), p), c)
    requires PeakOf(EntryAt(m, All), p) == MaxUsers(u, m, p)
    ensures PeakOf(sa, p) == MaxUsers(u, m[n := su][All := sa], p)
  {
    MaxUsersRaise(u, m, n, su, p, c);
    MaxUsersOther(u, m[n := su], All, sa, p);
  }

  /** Appending the same sample to a user's list and to that of "all"
      keeps the second the union of the first over the users. */
  lemma SamplesAfterCharges(u: seq<string>, m: map<string, Entry>, n: string, su: Entry, sa: Entry, s: Sample, x: int)
    requires Distinct(u) && n in u && All !in u
    requires SamplesOf(su, s) == SamplesOf(EntryAt(m, n), s) + [x]
    requires SamplesOf(sa, s) == SamplesOf(EntryAt(m, All), s) + [x]
    requires multiset(SamplesOf(EntryAt(m, All), s)) == SamplesUsers(u, m, s)
    ensures multiset(SamplesOf(sa, s)) == SamplesUsers(u, m[n := su][All := sa], s)
  {
    SamplesUsersAppend(u, m, n, su, s, x);
    SamplesUsersOther(u, m[n := su], All, sa, s);
  }

  /** Charging a user and then "all" with the same record keeps the
      aggregates in step. */
  lemma ChargeAgrees(t: Table, r: JobRecord, lt: LocalTime)
    requires Agrees(t) && ChargeReady(t, r)
    ensures Agrees(ChargeBoth(t, r, lt))
  {
    var n, u, m := r.name, Users(t), t.entries;
    var eu, ea := EntryAt(m, n), AllOf(t);
    var su, sa := Step(eu, r, lt), Step(ea, r, lt);
    var t3 := ChargeBoth(t, r, lt);
    assert t3 == Table(t.order, m[n := su][All := sa]);
    assert AllOf(t3) == sa && Users(t3) == u;
    forall a ensures TallyOf(sa, a) == SumUsers(u, t3.entries, a) {
      StepTally(eu, r, lt, a);
      StepTally(ea, r, lt, a);
      TallyAfterCharges(u, m, n, su, sa, a, Delta(r, lt, a));
    }
    forall p ensures PeakOf(sa, p) == MaxUsers(u, t3.entries, p) {
      StepPeak(eu, r, lt, p);
      StepPeak(ea, r, lt, p);
      PeakAfterCharges(u, m, n, su, sa, p, Candidate(r, lt, p));
    }
    forall s ensures multiset(SamplesOf(sa, s)) == SamplesUsers(u, t3.entries, s) {
      StepSample(eu, r, lt, s);
      StepSample(ea, r, lt, s);
      SamplesAfterCharges(u, m, n, su, sa, s, Drawn(r, s));
    }
  }

  /** The loop body keeps the invariant, for a record whose user is not
      called "all". */
  lemma AddRecordConsistent(t: Table, r: JobRecord, lt: LocalTime)
    requires Consistent(t) && r.name != All
    ensures Consistent(AddRecord(t, r, lt))
  {
    var t1 := Admit(t, r.name);
    UsersFacts(t);
    AdmitShaped(t, r.name);
    AdmitAgrees(t, r.name);
    UsersFacts(t1);
    ChargeShaped(t1, r.name, r, lt);
    ChargeShaped(Charge(t1, r.name, r, lt), All, r, lt);
    ChargeAgrees(t1, r, lt);
  }

  /** No record belongs to a user called "all". */
  predicate NoneNamedAll(records: seq<JobRecord>) {
    forall i :: 0 <= i < |records| ==> records[i].name != All
  }

  lemma {:induction false} FoldConsistent(t: Table, records: seq<JobRecord>, clock: int -> LocalTime)
    requires Consistent(t) && NoneNamedAll(records)
    ensures Consistent(Fold(t, records, clock))
  {
    if records != [] {
      var r := records[|records| - 1];
      FoldConsistent(t, records[..|records| - 1], clock);
      AddRecordConsistent(Fold(t, records[..|records| - 1], clock), r, clock(r.sub));
    }
  }

  /** After the loop, the job count, run time and CPU time sums of "all" are
      the sums over the users, its histograms are the sums of theirs, and
      every histogram and the time buckets of every entry add up to that
      entry's job count. */
  lemma ReduceConsistent(records: seq<JobRecord>, clock: int -> LocalTime)
    requires NoneNamedAll(records)
    ensures Consistent(Reduce(records, clock))
  {
    InitialConsistent();
    FoldConsistent(Initial(), records, clock);
  }

  /** Every user entry holds at least one job: a user is admitted only by
      a record, which is then charged to it. */
  ghost predicate Busy(t: Table) {
    forall k :: k in t.entries && k != All ==> t.entries[k].jobsCount >= 1
  }

  lemma InitialBusy()
    ensures Busy(Initial())
  {
  }

  lemma StepJobs(e: Entry, r: JobRecord, lt: LocalTime)
    ensures Step(e, r, lt).jobsCount == e.jobsCount + 1
  {
  }

  lemma AddRecordBusy(t: Table, r: JobRecord, lt: LocalTime)
    requires Busy(t)
    ensures Busy(AddRecord(t, r, lt))
  {
    var t1 := Admit(t, r.name);
    var t2 := Charge(t1, r.name, r, lt);
    var t3 := Charge(t2, All, r, lt);
    assert AddRecord(t, r, lt) == t3;
    forall k | k in t3.entries && k != All ensures t3.entries[k].jobsCount >= 1 {
      assert t3.entries[k] == t2.entries[k];
      if k == r.name {
        var e := EntryAt(t1.entries, k);
        assert e.jobsCount >= 0 by {
          if k !in t.entries {
            assert e == NewEntry(Some(0));
          }
        }
        StepJobs(e, r, lt);
      } else {
        assert t2.entries[k] == t1.entries[k] == t.entries[k];
      }
    }
  }

  lemma {:induction false} FoldBusy(t: Table, records: seq<JobRecord>, clock: int -> LocalTime)
    requires Busy(t)
    ensures Busy(Fold(t, records, clock))
  {
    if records != [] {
      var init, r := records[..|records| - 1], records[|records| - 1];
      FoldBusy(t, init, clock);
      AddRecordBusy(Fold(t, init, clock), r, clock(r.sub));
    }
  }

  /** One record adds one job to "all", or two when its user is called
      "all" (the entry "all" is then charged as the user and again as "all"). */
  lemma AddRecordJobs(t: Table, r: JobRecord, lt: LocalTime)
    ensures AllOf(AddRecord(t, r, lt)).jobsCount == AllOf(t).jobsCount + (if r.name == All then 2 else 1)
  {
    var t1 := Admit(t, r.name);
    assert r.name != All ==> AllOf(t1) == AllOf(t);
    assert r.name == All ==> AllOf(t1).jobsCount == AllOf(t).jobsCount;
    var t2 := Charge(t1, r.name, r, lt);
    assert AllOf(t2).jobsCount == AllOf(t1).jobsCount + (if r.name == All then 1 else 0);
  }

  /** One loop pass keeps the dict shaped, whatever the record's name. */
  lemma AddRecordShaped(t: Table, r: JobRecord, lt: LocalTime)
    requires Shaped(t)
    ensures Shaped(AddRecord(t, r, lt))
  {
    var t1 := Admit(t, r.name);
    if r.name == All {
      assert t1 == t;
    } else {
      AdmitShaped(t, r.name);
      UsersFacts(t1);
    }
    ChargeShaped(t1, r.name, r, lt);
    ChargeShaped(Charge(t1, r.name, r, lt), All, r, lt);
  }

  lemma {:induction false} FoldShaped(t: Table, records: seq<JobRecord>, clock: int -> LocalTime)
    requires Shaped(t)
    ensures Shaped(Fold(t, records, clock))
  {
    if records != [] {
      var init, r := records[..|records| - 1], records[|records| - 1];
      FoldShaped(t, init, clock);
      AddRecordShaped(Fold(t, init, clock), r, clock(r.sub));
    }
  }

  /** Whatever the names, the "all" entry counts at least one job per
      record. */
  lemma {:induction false} FoldJobsAtLeast(t: Table, records: seq<JobRecord>, clock: int -> LocalTime)
    ensures AllOf(Fold(t, records, clock)).jobsCount >= AllOf(t).jobsCount + |records|
  {
    if records != [] {
      var init, r := records[..|records| - 1], records[|records| - 1];
      FoldJobsAtLeast(t, init, clock);
      AddRecordJobs(Fold(t, init, clock), r, clock(r.sub));
    }
  }

  /** The record is charged to the key: the key is its user, or "all". */
  predicate Charged(r: JobRecord, k: string) {
    r.name == k || k == All
  }

  /** `r`, charged to `k`, is where the entry's latest time and its date
      come from. */
  ghost predicate SetsLatest(r: JobRecord, k: string, clock: int -> LocalTime, e: Entry) {
    Charged(r, k) && clock(r.sub).hms < 60000
    && clock(r.sub).hms == e.latestTime && clock(r.sub).md == e.latestTimeDate
  }

  /** Record `i` of `rs` set the latest time and date of `e` (key `k`,
      starting from `e0`): it is charged to `k`, it is the first such record
      before 06:00:00 at that time, and that time is above the starting one. */
  ghost predicate FirstSetsLatest(rs: seq<JobRecord>, i: int, k: string, clock: int -> LocalTime, e0: Entry, e: Entry)
    requires 0 <= i < |rs|
  {
    && SetsLatest(rs[i], k, clock, e)
    && e0.latestTime < e.latestTime
    && forall j :: 0 <= j < i && Charged(rs[j], k) && clock(rs[j].sub).hms < 60000 ==>
         clock(rs[j].sub).hms < e.latestTime
  }

  lemma ChargeAt(t: Table, j: string, r: JobRecord, lt: LocalTime, k: string)
    ensures EntryAt(Charge(t, j, r, lt).entries, k) == if k == j then Step(EntryAt(t.entries, j), r, lt) else EntryAt(t.entries, k)
  {
  }

  lemma AdmitLatest(t: Table, name: string, k: string)
    ensures EntryAt(Admit(t, name).entries, k).latestTime == EntryAt(t.entries, k).latestTime
    ensures EntryAt(Admit(t, name).entries, k).latestTimeDate == EntryAt(t.entries, k).latestTimeDate
    ensures k != name ==> EntryAt(Admit(t, name).entries, k) == EntryAt(t.entries, k)
  {
  }

  /** One loop pass moves the latest time of each key charged by the record
      as `LatestStep` says, and leaves every other key's entry alone. */
  lemma AddRecordLatest(t: Table, r: JobRecord, lt: LocalTime, k: string)
    ensures Charged(r, k) ==> LatestStep(EntryAt(t.entries, k), EntryAt(AddRecord(t, r, lt).entries, k), lt)
    ensures !Charged(r, k) ==> EntryAt(AddRecord(t, r, lt).entries, k) == EntryAt(t.entries, k)
  {
    var t1 := Admit(t, r.name);
    var t2 := Charge(t1, r.name, r, lt);
    AdmitLatest(t, r.name, k);
    ChargeAt(t1, r.name, r, lt, k);
    ChargeAt(t2, All, r, lt, k);
    var e1 := EntryAt(t1.entries, k);
    StepLatest(e1, r, lt);
    if k == All && r.name == All {
      ChargeAt(t1, r.name, r, lt, All);
    } else if k == All {
      ChargeAt(t1, r.name, r, lt, All);
      AdmitLatest(t, r.name, All);
    }
  }

  /** What `FoldLatest` says of the entry `e` of key `k`, starting from
      `e0`, over the records `rs`. */
  ghost predicate LatestAfter(e0: Entry, e: Entry, rs: seq<JobRecord>, clock: int -> LocalTime, k: string) {
    && e0.latestTime <= e.latestTime
    && (forall i :: 0 <= i < |rs| && Charged(rs[i], k) && clock(rs[i].sub).hms < 60000 ==>
          clock(rs[i].sub).hms <= e.latestTime)
    && ((e.latestTime == e0.latestTime && e.latestTimeDate == e0.latestTimeDate)
        || exists i :: 0 <= i < |rs| && FirstSetsLatest(rs, i, k, clock, e0, e))
  }

  /** `LatestAfter` extends by one record that moves the entry as one loop
      pass does. */
  lemma LatestAfterSnoc(e0: Entry, em: Entry, e: Entry, init: seq<JobRecord>, r: JobRecord,
                        clock: int -> LocalTime, k: string)
    requires LatestAfter(e0, em, init, clock, k)
    requires Charged(r, k) ==> LatestStep(em, e, clock(r.sub))
    requires !Charged(r, k) ==> e == em
    ensures LatestAfter(e0, e, init + [r], clock, k)
  {
    var rs := init + [r];
    forall i | 0 <= i < |rs| && Charged(rs[i], k) && clock(rs[i].sub).hms < 60000
      ensures clock(rs[i].sub).hms <= e.latestTime
    {
      if i < |init| {
        assert rs[i] == init[i];
      }
    }
    if !(e.latestTime == e0.latestTime && e.latestTimeDate == e0.latestTimeDate) {
      if e.latestTime == em.latestTime && e.latestTimeDate == em.latestTimeDate {
        var i :| 0 <= i < |init| && FirstSetsLatest(init, i, k, clock, e0, em);
        assert rs[..|init|] == init;
        assert FirstSetsLatest(rs, i, k, clock, e0, e);
      } else {
        assert rs[|init|] == r;
        assert rs[..|init|] == init;
        assert FirstSetsLatest(rs, |init|, k, clock, e0, e);
      }
    }
  }

  /** `latest_time` and `latest_time_date` after the loop: the latest time
      never went down, no record charged to the key and submitted before
      06:00:00 is later, and unless both fields are as they were, the first
      such record at that strictly later time set them both. */
  lemma {:induction false} FoldLatest(t: Table, rs: seq<JobRecord>, clock: int -> LocalTime, k: string)
    ensures LatestAfter(EntryAt(t.entries, k), EntryAt(Fold(t, rs, clock).entries, k), rs, clock, k)
  {
    if rs == [] {
      assert LatestAfter(EntryAt(t.entries, k), EntryAt(t.entries, k), [], clock, k);
    } else {
      var init, r := rs[..|rs| - 1], rs[|rs| - 1];
      assert rs == init + [r];
      var tm := Fold(t, init, clock);
      FoldLatest(t, init, clock, k);
      AddRecordLatest(tm, r, clock(r.sub), k);
      LatestAfterSnoc(EntryAt(t.entries, k), EntryAt(tm.entries, k), EntryAt(Fold(t, rs, clock).entries, k),
                      init, r, clock, k);
    }
  }

  /** After the reduce, each key's `latest_time` is the latest submission
      time before 06:00:00 among the records charged to it, and
      `latest_time_date` is the date of the first record in record order
      submitted at that time; with no such record after 00:00:00 they are
      still "000000" and "0101". */
  lemma ReduceLatest(rs: seq<JobRecord>, clock: int -> LocalTime, k: string)
    ensures var e := EntryAt(Reduce(rs, clock).entries, k);
      && (forall i :: 0 <= i < |rs| && Charged(rs[i], k) && clock(rs[i].sub).hms < 60000 ==>
            clock(rs[i].sub).hms <= e.latestTime)
      && ((e.latestTime == 0 && e.latestTimeDate == "0101")
          || exists i :: 0 <= i < |rs| && SetsLatest(rs[i], k, clock, e) && 0 < e.latestTime
               && forall j :: 0 <= j < i && Charged(rs[j], k) && clock(rs[j].sub).hms < 60000 ==>
                    clock(rs[j].sub).hms < e.latestTime)
  {
    FoldLatest(Initial(), rs, clock, k);
    assert EntryAt(Initial().entries, k).latestTime == 0;
    assert EntryAt(Initial().entries, k).latestTimeDate == "0101";
  }

  /** The "all" entry counts every record once. */
  lemma {:induction false} FoldCountsRecords(t: Table, records: seq<JobRecord>, clock: int -> LocalTime)
    requires NoneNamedAll(records)
    ensures AllOf(Fold(t, records, clock)).jobsCount == AllOf(t).jobsCount + |records|
  {
    if records != [] {
      var init, r := records[..|records| - 1], records[|records| - 1];
      assert NoneNamedAll(init) && r.name != All;
      FoldCountsRecords(t, init, clock);
      AddRecordJobs(Fold(t, init, clock), r, clock(r.sub));
    }
  }

  /** A user calling themselves "all" is counted twice in the entry "all":
      one such record makes `jobs_count` 2. */
  lemma UserNamedAllCountedTwice(r: JobRecord, clock: int -> LocalTime)
    requires r.name == All
    ensures AllOf(Reduce([r], clock)).jobsCount == 2
  {
    var t := Initial();
    assert AllOf(t).jobsCount == 0;
    FoldOne(t, r, clock);
    AddRecordJobs(t, r, clock(r.sub));
  }

  /** With a user calling themselves "all", the latest time of "all" need
      not be any real user's: a record of "all" at `ta` and one of another
      user at an earlier `tb` leave "all" at `ta` and the only user at `tb`. */
  lemma UserNamedAllSetsLatest(ra: JobRecord, rb: JobRecord, clock: int -> LocalTime)
    requires ra.name == All && rb.name != All
    requires 0 < clock(rb.sub).hms < clock(ra.sub).hms < 60000
    ensures var t := Reduce([ra, rb], clock);
      && Users(t) == [rb.name]
      && AllOf(t).latestTime == clock(ra.sub).hms
      && MaxUsers(Users(t), t.entries, LatestTime) == clock(rb.sub).hms
      && AllOf(t).latestTime > MaxUsers(Users(t), t.entries, LatestTime)
  {
    TwoRecordsAllLatest(ra, rb, clock);
    TwoRecordsUserLatest(ra, rb, clock);
    TwoRecordsUsers(ra, rb, clock);
    PairUsers(Reduce([ra, rb], clock), rb.name);
  }

  lemma TwoRecordsAllLatest(ra: JobRecord, rb: JobRecord, clock: int -> LocalTime)
    requires ra.name == All
    requires clock(rb.sub).hms < clock(ra.sub).hms && 0 < clock(ra.sub).hms < 60000
    ensures AllOf(Reduce([ra, rb], clock)).latestTime == clock(ra.sub).hms
  {
    FoldLatest(Initial(), [ra, rb], clock, All);
    LatestOfTwo(ra, rb, clock, All, EntryAt(Initial().entries, All), AllOf(Reduce([ra, rb], clock)), ra);
  }

  lemma TwoRecordsUserLatest(ra: JobRecord, rb: JobRecord, clock: int -> LocalTime)
    requires ra.name == All && rb.name != All
    requires 0 < clock(rb.sub).hms < 60000
    ensures EntryAt(Reduce([ra, rb], clock).entries, rb.name).latestTime == clock(rb.sub).hms
  {
    FoldLatest(Initial(), [ra, rb], clock, rb.name);
    LatestOfTwo(ra, rb, clock, rb.name, EntryAt(Initial().entries, rb.name),
                EntryAt(Reduce([ra, rb], clock).entries, rb.name), rb);
  }

  lemma TwoRecordsUsers(ra: JobRecord, rb: JobRecord, clock: int -> LocalTime)
    requires ra.name == All && rb.name != All
    ensures Reduce([ra, rb], clock).order == [All] + [rb.name]
  {
    FoldTwoOrder(Initial(), ra, rb, clock);
  }

  /** Of two records, when `w` is charged to `k`, before 06:00:00 and
      later than the other one if that is charged too, the latest time is
      `w`'s. */
  lemma LatestOfTwo(ra: JobRecord, rb: JobRecord, clock: int -> LocalTime, k: string, e0: Entry, e: Entry, w: JobRecord)
    requires LatestAfter(e0, e, [ra, rb], clock, k) && e0.latestTime == 0
    requires (w == ra || w == rb) && Charged(w, k) && 0 < clock(w.sub).hms < 60000
    requires Charged(ra, k) && ra != w ==> clock(ra.sub).hms < clock(w.sub).hms
    requires Charged(rb, k) && rb != w ==> clock(rb.sub).hms < clock(w.sub).hms
    ensures e.latestTime == clock(w.sub).hms
  {
    var rs := [ra, rb];
    assert rs[0] == ra && rs[1] == rb;
    if w == ra {
      assert Charged(rs[0], k) && clock(rs[0].sub).hms < 60000;
    } else {
      assert Charged(rs[1], k) && clock(rs[1].sub).hms < 60000;
    }
    var i :| 0 <= i < |rs| && FirstSetsLatest(rs, i, k, clock, e0, e);
  }

  /** Two submissions of one user at the same time before 06:00:00 on
      different dates: the date of the first is kept, since the second is
      not strictly later. */
  lemma TieKeepsFirstDate(ra: JobRecord, rb: JobRecord, clock: int -> LocalTime)
    requires ra.name == rb.name && ra.name != All
    requires 0 < clock(ra.sub).hms == clock(rb.sub).hms < 60000
    ensures EntryAt(Reduce([ra, rb], clock).entries, ra.name).latestTime == clock(ra.sub).hms
    ensures EntryAt(Reduce([ra, rb], clock).entries, ra.name).latestTimeDate == clock(ra.sub).md
  {
    var rs := [ra, rb];
    var e := EntryAt(Reduce(rs, clock).entries, ra.name);
    ReduceLatest(rs, clock, ra.name);
    assert rs[0] == ra && rs[1] == rb;
    assert Charged(rs[0], ra.name) && clock(rs[0].sub).hms < 60000;
    var i :| 0 <= i < |rs| && SetsLatest(rs[i], ra.name, clock, e) && 0 < e.latestTime
      && forall j :: 0 <= j < i && Charged(rs[j], ra.name) && clock(rs[j].sub).hms < 60000 ==>
           clock(rs[j].sub).hms < e.latestTime;
  }

  /** Two passes, the first by a known user, append only the second,
      new, user. */
  lemma FoldTwoOrder(t: Table, ra: JobRecord, rb: JobRecord, clock: int -> LocalTime)
    requires ra.name in t.entries && rb.name !in t.entries && rb.name != All
    ensures Fold(t, [ra, rb], clock).order == t.order + [rb.name]
  {
    var t1 := AddRecord(t, ra, clock(ra.sub));
    AddRecordOrder(t, ra, clock(ra.sub), rb.name);
    AddRecordOrder(t1, rb, clock(rb.sub), rb.name);
    FoldTwo(t, ra, rb, clock);
  }

  lemma FoldTwo(t: Table, ra: JobRecord, rb: JobRecord, clock: int -> LocalTime)
    ensures Fold(t, [ra, rb], clock) == AddRecord(AddRecord(t, ra, clock(ra.sub)), rb, clock(rb.sub))
  {
    assert [ra, rb] == [ra] + [rb];
    FoldSnoc(t, [ra], rb, clock);
    FoldOne(t, ra, clock);
  }

  lemma FoldSnoc(t: Table, init: seq<JobRecord>, r: JobRecord, clock: int -> LocalTime)
    ensures Fold(t, init + [r], clock) == AddRecord(Fold(t, init, clock), r, clock(r.sub))
  {
    assert (init + [r])[..|init|] == init;
  }

  /** A dict keyed "all" and one user has that user alone, and its maxima
      are that user's, floored at 0. */
  lemma PairUsers(t: Table, name: string)
    requires t.order == [All] + [name]
    ensures Users(t) == [name]
    ensures MaxUsers(Users(t), t.entries, LatestTime) == Max(0, EntryAt(t.entries, name).latestTime)
  {
    assert t.order[1..] == [name];
    assert [name][..0] == [];
  }

  /** A pass appends the record's user to the key order when it is new,
      and adds no key but that user and "all". */
  lemma AddRecordOrder(t: Table, r: JobRecord, lt: LocalTime, k: string)
    ensures AddRecord(t, r, lt).order == if r.name in t.entries then t.order else t.order + [r.name]
    ensures k in AddRecord(t, r, lt).entries <==> k in t.entries || k == r.name || k == All
  {
    var t1 := Admit(t, r.name);
    var t2 := Charge(t1, r.name, r, lt);
    AdmitKeys(t, r.name, k);
    ChargeKeys(t1, r.name, r, lt, k);
    ChargeKeys(t2, All, r, lt, k);
  }

  lemma AdmitKeys(t: Table, name: string, k: string)
    ensures Admit(t, name).order == if name in t.entries then t.order else t.order + [name]
    ensures k in Admit(t, name).entries <==> k in t.entries || k == name
  {
  }

  lemma ChargeKeys(t: Table, j: string, r: JobRecord, lt: LocalTime, k: string)
    ensures Charge(t, j, r, lt).order == t.order
    ensures k in Charge(t, j, r, lt).entries <==> k in t.entries || k == j
  {
  }

  lemma FoldOne(t: Table, r: JobRecord, clock: int -> LocalTime)
    ensures Fold(t, [r], clock) == AddRecord(t, r, clock(r.sub))
  {
    assert [r][..0] == [];
  }

  // ---------------------------------------------------------------------
  // The accumulator as run.py mutates it

  class Aggregator {
    var order: seq<string>
    var entries: map<string, Entry>

    function State(): Table
      reads this
    {
      Table(order, entries)
    }

    ghost predicate Valid()
      reads this
    {
      Consistent(State())
    }

    /** `all_dict = {"all": {...}}`. */
    constructor()
      ensures State() == Initial() && Valid()
    {
      order := [All];
      entries := map[All := NewEntry(None)];
      InitialConsistent();
    }

    /** One pass of the loop body at run.py:164-262. */
    method Add(r: JobRecord, lt: LocalTime)
      modifies this
      ensures State() == AddRecord(old(State()), r, lt)
      ensures old(Valid()) && r.name != All ==> Valid()
    {
      ghost var t0 := State();
      if r.name !in entries {
        entries := entries[r.name := NewEntry(Some(0))];
        order := order + [r.name];
      }
      ghost var t1 := State();
      assert t1 == Admit(t0, r.name);
      entries := entries[r.name := Step(EntryAt(entries, r.name), r, lt)];
      assert State() == Charge(t1, r.name, r, lt);
      entries := entries[All := Step(EntryAt(entries, All), r, lt)];
      assert State() == ChargeBoth(t1, r, lt);
      if old(Valid()) && r.name != All {
        AddRecordConsistent(t0, r, lt);
      }
    }

    /** `for i in range(len(raw_data))`: every record, in order. */
    method Ingest(records: seq<JobRecord>, clock: int -> LocalTime)
      modifies this
      ensures State() == Fold(old(State()), records, clock)
      ensures old(Valid()) && NoneNamedAll(records) ==> Valid()
    {
      ghost var start := State();
      var i := 0;
      while i < |records|
        invariant 0 <= i <= |records|
        invariant State() == Fold(start, records[..i], clock)
      {
        assert records[..i + 1][..i] == records[..i];
        Add(records[i], clock(records[i].sub));
        i := i + 1;
      }
      assert records[..|records|] == records;
      if old(Valid()) && NoneNamedAll(records) {
        FoldConsistent(start, records, clock);
      }
    }
  }
}
