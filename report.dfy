/** The selection rules of report_exe/annual-report.py, on the finalized
    dict: the unit a duration is shown in, the "star" users of the group, the
    user who submitted latest at night, the busiest and quietest time of day,
    the most used queue and software, and the group's top three software and
    queues. */
module Report {
  import opened Wrappers
  import opened Counters
  import opened Accumulator
  import opened Finalizer

  // ---------------------------------------------------------------------
  // Duration units

  datatype Unit = Year | Month | Day

  /** The seconds in a unit: a year of 365 days, a month of 30. */
  function UnitSeconds(u: Unit): int {
    match u
    case Year => 31536000
    case Month => 2592000
    case Day => 86400
  }

  /** The `if/elif` chain choosing the unit of a run or CPU time sum;
      `None` is the chain's `False`, a sum shown in seconds only. */
  function DurationUnit(seconds: int): Option<Unit> {
    if seconds >= 31536000 then Some(Year)
    else if seconds >= 2592000 then Some(Month)
    else if seconds >= 86400 then Some(Day)
    else None
  }

  /** The unit chosen is the largest unit that fits in the duration at least
      once, and there is none exactly when not even a day fits. */
  lemma DurationUnitSpec(seconds: int)
    ensures DurationUnit(seconds).None? <==> forall u :: seconds < UnitSeconds(u)
    ensures DurationUnit(seconds).Some? ==>
      var u := DurationUnit(seconds).value;
      && UnitSeconds(u) <= seconds
      && (forall v :: UnitSeconds(v) <= seconds ==> UnitSeconds(v) <= UnitSeconds(u))
  {
    assert UnitSeconds(Day) == 86400;
    if DurationUnit(seconds).Some? {
      var u := DurationUnit(seconds).value;
      forall v | UnitSeconds(v) <= seconds ensures UnitSeconds(v) <= UnitSeconds(u) {
        assert v.Year? ==> u.Year?;
      }
    }
  }

  /** The seconds of a choice, 0 for none. */
  function Scale(o: Option<Unit>): int {
    match o
    case None => 0
    case Some(u) => UnitSeconds(u)
  }

  /** A longer duration is never shown in a smaller unit. */
  lemma DurationUnitMonotone(a: int, b: int)
    requires a <= b
    ensures Scale(DurationUnit(a)) <= Scale(DurationUnit(b))
  {
  }

  // ---------------------------------------------------------------------
  // The finalized dict as the report reads it

  /** Every key of the order has its summary, as in a Python dict. */
  predicate WellKeyed(snap: Snapshot) {
    forall i :: 0 <= i < |snap.order| ==> snap.order[i] in snap.summaries
  }

  /** `data[k][...]` for a count or a sum. */
  function ValueOf(snap: Snapshot, k: string, a: Tally): int
    requires k in snap.summaries
  {
    TallyOf(snap.summaries[k].base, a)
  }

  /** `data[k]["latest_time"]`. */
  function LatestOf(snap: Snapshot, k: string): int
    requires k in snap.summaries
  {
    snap.summaries[k].base.latestTime
  }

  // ---------------------------------------------------------------------
  // Star users

  /** Position `p` holds the star of tally `a`: a user (not "all") whose
      value is positive and the largest of the users', and the first user
      in key order with that value. */
  ghost predicate StarAt(snap: Snapshot, a: Tally, p: int)
    requires WellKeyed(snap)
  {
    && 0 <= p < |snap.order| && snap.order[p] != All
    && ValueOf(snap, snap.order[p], a) > 0
    && (forall j :: 0 <= j < |snap.order| && snap.order[j] != All ==>
          ValueOf(snap, snap.order[j], a) <= ValueOf(snap, snap.order[p], a))
    && (forall j :: 0 <= j < p && snap.order[j] != All ==>
          ValueOf(snap, snap.order[j], a) < ValueOf(snap, snap.order[p], a))
  }

  /** The star loops of the report (run time sum, CPU time sum, job count):
      a running best that starts at 0 and is replaced only by a strictly
      larger value. No star (the name stays unbound) exactly when no user
      has a positive value. */
  method StarUser(snap: Snapshot, a: Tally) returns (star: Option<string>)
    requires WellKeyed(snap)
    ensures star.None? <==>
      forall j :: 0 <= j < |snap.order| && snap.order[j] != All ==> ValueOf(snap, snap.order[j], a) <= 0
    ensures star.Some? ==> exists p :: StarAt(snap, a, p) && snap.order[p] == star.value
  {
    var best := 0;
    star := None;
    ghost var p := 0;
    var i := 0;
    while i < |snap.order|
      invariant 0 <= i <= |snap.order|
      invariant star.None? ==>
        best == 0 && forall j :: 0 <= j < i && snap.order[j] != All ==> ValueOf(snap, snap.order[j], a) <= 0
      invariant star.Some? ==>
        && p < i && snap.order[p] == star.value && snap.order[p] != All
        && best == ValueOf(snap, snap.order[p], a) && best > 0
        && (forall j :: 0 <= j < i && snap.order[j] != All ==> ValueOf(snap, snap.order[j], a) <= best)
        && (forall j :: 0 <= j < p && snap.order[j] != All ==> ValueOf(snap, snap.order[j], a) < best)
    {
      var user := snap.order[i];
      if user != All {
        var v := ValueOf(snap, user, a);
        if v > best {
          best := v;
          star := Some(user);
          p := i;
        }
      }
      i := i + 1;
    }
    if star.Some? {
      assert StarAt(snap, a, p);
    }
  }

  /** There is only one star: two positions holding it are the same. */
  lemma StarUnique(snap: Snapshot, a: Tally, p: int, q: int)
    requires WellKeyed(snap) && StarAt(snap, a, p) && StarAt(snap, a, q)
    ensures p == q
  {
  }

  // ---------------------------------------------------------------------
  // The latest-time user

  /** Position `p` is the last key (counting "all") whose `latest_time`
      equals that of "all". */
  ghost predicate LastLatestAt(snap: Snapshot, p: int)
    requires WellKeyed(snap) && All in snap.summaries
  {
    && 0 <= p < |snap.order|
    && LatestOf(snap, snap.order[p]) == LatestOf(snap, All)
    && forall q :: p < q < |snap.order| ==> LatestOf(snap, snap.order[q]) != LatestOf(snap, All)
  }

  /** `for user in data: if latest_time == all's: all_latest_time_user = user`.
      `None` when the name stays unbound, or when there is no "all". */
  method LatestTimeUser(snap: Snapshot) returns (u: Option<string>)
    requires WellKeyed(snap)
    ensures u.None? <==>
      All !in snap.summaries
      || forall q :: 0 <= q < |snap.order| ==> LatestOf(snap, snap.order[q]) != LatestOf(snap, All)
    ensures u.Some? ==> All in snap.summaries && exists p :: LastLatestAt(snap, p) && snap.order[p] == u.value
  {
    if All !in snap.summaries {
      return None;
    }
    var target := LatestOf(snap, All);
    u := None;
    ghost var p := 0;
    var i := 0;
    while i < |snap.order|
      invariant 0 <= i <= |snap.order|
      invariant u.None? ==> forall q :: 0 <= q < i ==> LatestOf(snap, snap.order[q]) != target
      invariant u.Some? ==>
        && p < i && snap.order[p] == u.value && LatestOf(snap, snap.order[p]) == target
        && forall q :: p < q < i ==> LatestOf(snap, snap.order[q]) != target
    {
      var user := snap.order[i];
      if LatestOf(snap, user) == target {
        u := Some(user);
        p := i;
      }
      i := i + 1;
    }
    if u.Some? {
      assert LastLatestAt(snap, p);
    }
  }

  /** `snap` lists the keys of `t` in its order, each with a summary that
      keeps the key's latest time. */
  ghost predicate KeepsLatest(t: Table, snap: Snapshot) {
    && snap.order == t.order
    && forall k :: k in t.order ==> k in snap.summaries && LatestOf(snap, k) == EntryAt(t.entries, k).latestTime
  }

  lemma SnapshotLatest(t: Table, holidays: seq<string>, k: string)
    requires FinalizeTable(t, holidays).Some?
    requires k in t.order
    ensures k in FinalizeTable(t, holidays).value.summaries
    ensures LatestOf(FinalizeTable(t, holidays).value, k) == EntryAt(t.entries, k).latestTime
  {
    FinalizeTableSpec(t, holidays);
    SummarizeKeeps(k, EntryAt(t.entries, k), holidays);
  }

  /** The finalizer keeps the key order and every latest time. */
  lemma FinalizeKeepsLatest(t: Table, holidays: seq<string>)
    requires FinalizeTable(t, holidays).Some?
    ensures KeepsLatest(t, FinalizeTable(t, holidays).value)
  {
    FinalizeTableSpec(t, holidays);
    forall k | k in t.order
      ensures && k in FinalizeTable(t, holidays).value.summaries
              && LatestOf(FinalizeTable(t, holidays).value, k) == EntryAt(t.entries, k).latestTime
    {
      SnapshotLatest(t, holidays, k);
    }
  }

  /** With at least one user and no negative latest time, the maximum
      over the users is some user's latest time, and no user's is later. */
  lemma UserHoldsLatest(users: seq<string>, m: map<string, Entry>, top: int)
    requires users != [] && top == MaxUsers(users, m, LatestTime)
    requires forall i :: 0 <= i < |users| ==> EntryAt(m, users[i]).latestTime >= 0
    ensures exists j :: 0 <= j < |users| && EntryAt(m, users[j]).latestTime == top
    ensures forall i :: 0 <= i < |users| ==> EntryAt(m, users[i]).latestTime <= top
  {
    MaxUsersAttained(users, m, LatestTime);
    forall i | 0 <= i < |users| ensures EntryAt(m, users[i]).latestTime <= top {
      MaxUsersAbove(users, m, LatestTime, i);
    }
  }

  /** The latest time of "all" is the largest of its users'. */
  lemma AllLatestIsMax(t: Table)
    requires Agrees(t)
    ensures AllOf(t).latestTime == MaxUsers(Users(t), t.entries, LatestTime)
  {
    assert PeakOf(AllOf(t), LatestTime) == MaxUsers(Users(t), t.entries, LatestTime);
  }

  /** When "all" comes first and some user matches its latest time, the
      last match is a user, and no user has a later time than it. */
  lemma LastLatestIsUser(snap: Snapshot, users: seq<string>, p: int)
    requires WellKeyed(snap) && All in snap.summaries
    requires snap.order == [All] + users && All !in users
    requires forall k :: k in users ==> k in snap.summaries
    requires exists j :: 0 <= j < |users| && LatestOf(snap, users[j]) == LatestOf(snap, All)
    requires forall i :: 0 <= i < |users| ==> LatestOf(snap, users[i]) <= LatestOf(snap, All)
    requires LastLatestAt(snap, p)
    ensures snap.order[p] != All
    ensures forall k :: k in users ==> LatestOf(snap, k) <= LatestOf(snap, snap.order[p])
  {
    var j :| 0 <= j < |users| && LatestOf(snap, users[j]) == LatestOf(snap, All);
    assert snap.order[j + 1] == users[j];
    assert p >= 1;
    assert snap.order[p] == users[p - 1];
  }

  /** A snapshot keeping the latest times of "all" and of its users, where
      "all" holds the largest of the users' non-negative latest times: some
      user's latest time is that of "all", and none is later. */
  lemma LatestFacts(users: seq<string>, m: map<string, Entry>, snap: Snapshot)
    requires users != [] && All in snap.summaries
    requires LatestOf(snap, All) == MaxUsers(users, m, LatestTime)
    requires forall i :: 0 <= i < |users| ==> users[i] in snap.summaries
    requires forall i :: 0 <= i < |users| ==> LatestOf(snap, users[i]) == EntryAt(m, users[i]).latestTime >= 0
    ensures exists j :: 0 <= j < |users| && LatestOf(snap, users[j]) == LatestOf(snap, All)
    ensures forall i :: 0 <= i < |users| ==> LatestOf(snap, users[i]) <= LatestOf(snap, All)
  {
    UserHoldsLatest(users, m, LatestOf(snap, All));
  }

  /** A snapshot that keeps the latest times of a dict listing "all" and
      then the users keeps each of them. */
  lemma KeptLatest(t: Table, snap: Snapshot)
    requires KeepsLatest(t, snap) && t.order != [] && t.order[0] == All
    ensures WellKeyed(snap) && snap.order == [All] + Users(t)
    ensures All in snap.summaries && LatestOf(snap, All) == AllOf(t).latestTime
    ensures forall i :: 0 <= i < |Users(t)| ==>
      Users(t)[i] in snap.summaries && LatestOf(snap, Users(t)[i]) == EntryAt(t.entries, Users(t)[i]).latestTime
  {
    forall i | 0 <= i < |Users(t)|
      ensures Users(t)[i] in snap.summaries && LatestOf(snap, Users(t)[i]) == EntryAt(t.entries, Users(t)[i]).latestTime
    {
      assert t.order[i + 1] == Users(t)[i];
    }
    assert t.order == [All] + Users(t);
  }

  /** After the reduce (which keeps the dict shaped and "all" holding the
      largest latest time, by `AllLatestIsMax`), with at least one user, the
      latest-time user of a snapshot that keeps the dict's latest times (as
      the finalizer's does, by `FinalizeKeepsLatest`) is a user and not
      "all": some user's latest time is the group's, so the last match comes
      after "all", and the user it names submitted no earlier in the night
      than any other user. */
  lemma LatestTimeUserIsUser(t: Table, snap: Snapshot, p: int)
    requires Shaped(t) && Users(t) != [] && KeepsLatest(t, snap)
    requires AllOf(t).latestTime == MaxUsers(Users(t), t.entries, LatestTime)
    ensures WellKeyed(snap) && All in snap.summaries
    ensures LastLatestAt(snap, p) ==>
      && snap.order[p] != All
      && forall k :: k in Users(t) ==> LatestOf(snap, k) <= LatestOf(snap, snap.order[p])
  {
    var users := Users(t);
    UsersFacts(t);
    KeptLatest(t, snap);
    assert forall i :: 0 <= i < |users| ==> EntryAt(t.entries, users[i]).latestTime >= 0 by {
      assert EntriesOk(t.entries);
      assert forall i :: 0 <= i < |users| ==> users[i] in t.entries;
    }
    LatestFacts(users, t.entries, snap);
    if LastLatestAt(snap, p) {
      LastLatestIsUser(snap, users, p);
    }
  }

  // ---------------------------------------------------------------------
  // Picks from the histograms

  /** `max`/`min` over a dict: the chosen key sits at a position whose
      count is the largest (smallest) and strictly beats every earlier one. */
  lemma FrequentChoice(c: Counter)
    requires c.keys != []
    ensures exists i ::
      && 0 <= i < |c.keys| && MostFrequent(c) == c.keys[i]
      && (forall j :: 0 <= j < |c.keys| ==> CountOf(c, c.keys[j]) <= CountOf(c, c.keys[i]))
      && (forall j :: 0 <= j < i ==> CountOf(c, c.keys[j]) < CountOf(c, c.keys[i]))
    ensures exists i ::
      && 0 <= i < |c.keys| && LeastFrequent(c) == c.keys[i]
      && (forall j :: 0 <= j < |c.keys| ==> CountOf(c, c.keys[i]) <= CountOf(c, c.keys[j]))
      && (forall j :: 0 <= j < i ==> CountOf(c, c.keys[i]) < CountOf(c, c.keys[j]))
  {
    var i := FirstMaxIndex(c.keys, c.counts);
    var k := FirstMinIndex(c.keys, c.counts);
    assert MostFrequent(c) == c.keys[i];
    assert LeastFrequent(c) == c.keys[k];
  }

  /** The busiest and the quietest time of day of an entry: the time
      buckets are "1-6", "7-12", "13-18", "19-24" in that order, each a key
      of the dict, and `max`/`min` choose among them as `FrequentChoice`
      says, so a tie goes to the earlier bucket. */
  lemma PeriodChoice(e: Entry)
    requires EntryOk(e)
    ensures e.timePeriod.keys == Periods
    ensures MostFrequent(e.timePeriod) in Periods && LeastFrequent(e.timePeriod) in Periods
    ensures forall p :: p in Periods ==>
      CountOf(e.timePeriod, LeastFrequent(e.timePeriod)) <= CountOf(e.timePeriod, p) <= CountOf(e.timePeriod, MostFrequent(e.timePeriod))
  {
  }

  /** An entry with a job has a date, a queue and a software, so `max` over
      its histograms (the most used queue and software of the report) has
      something to choose from. */
  lemma HistogramsFilled(e: Entry)
    requires EntryOk(e) && e.jobsCount > 0
    ensures e.date.keys != [] && e.queue.keys != [] && e.software.keys != []
  {
  }

  /** `heapq.nlargest(3, d, key=d.get)` for the group's software and queues:
      three distinct keys of the dict (fewer when it has fewer), largest
      count first; no key left out counts more than one picked; and ties,
      within the picks and at the cut, go to the key first seen. */
  lemma TopThree(c: Counter)
    requires Valid(c)
    ensures var r := Largest(c.keys, c.counts, 3);
      && |r| == (if |c.keys| < 3 then |c.keys| else 3)
      && Distinct(r) && (forall k :: k in r ==> k in c.keys)
      && Descending(r, c.counts)
      && Dominates(r, c.keys, c.counts)
      && StableWithin(r, c.keys, c.counts)
      && StableCutoff(r, c.keys, c.counts)
  {
    LargestMembers(c.keys, c.counts, 3);
    LargestDescending(c.keys, c.counts, 3);
    LargestDominates(c.keys, c.counts, 3);
    LargestStable(c.keys, c.counts, 3);
    LargestStableCutoff(c.keys, c.counts, 3);
  }
}
