# annual-report: a verified model of the batch-scheduler accounting core

annual-report turns the accounting logs of an LSF batch cluster (`lsb.acct*`
files, one `JOB_FINISH` line per finished job) into a per-user yearly
summary. Three scripts make up its core:

- `run.py` reads every log file of a directory, turns each line into a job
  record, labels it with the software it ran by an ordered keyword rule
  table, and reduces the records into a dict keyed by user name. Every
  entry holds job counts, time sums, maxima, samples and histograms. A
  separate entry `"all"` aggregates the whole group. A finalizer then adds
  means, medians and the most and least busy dates to every entry, and a
  holiday job count to every user entry.
- `find_outliers.py` scans the same logs for jobs that ran, or waited in the
  queue, longer than thirty days.
- `report_exe/annual-report.py` reads the finalized dict. It picks the unit
  a duration is shown in, the group's "star" users, the user who submitted
  latest in the night, the busiest and quietest time of day, the most used
  queue and software, and the group's top three software and queues.

The Dafny modules follow that structure:

| module | models |
|---|---|
| `Wrappers` | `Option`, standing for a Python step that may raise |
| `Text` | `in`, `str.split()`, `str.strip('"')`, `int()` and `str()` on tokens |
| `Classifier` | the software rule table of `read_in_data`, applied first match first |
| `Parser` | `check_timestamp_is_inside`, `read_in_data`, the reading of all files, the holiday filter |
| `Counters` | insertion-ordered count dicts: `+= 1`, `max`/`min` with `key=d.get`, `heapq.nlargest` |
| `Stats` | `sorted`, `sum`, the truncated mean `int(sum / len)`, the median |
| `Accumulator` | the per-user entries, one record's update, the reduce loop (functions, and the class `Aggregator` that mutates the dict) |
| `Finalizer` | the loop that summarizes every entry and counts holiday jobs |
| `Outliers` | `find_outliers.py` |
| `Report` | the selection rules of `annual-report.py` |

The main properties proved:

- **Parsing.** Splitting undoes joining, and `int(str(n)) == n`. A line
  yields a record exactly when its tokens are accepted, and a line rendered
  from a job's fields reads back as exactly that job.
- **Classification.** The classifier gives the first matching rule's label,
  or `"others"`.
- **Reduce.** When no user is named `"all"`, every record keeps the
  `"all"` entry equal to the aggregate of the users: its counts, sums and
  histogram cells are the users' sums, its maxima the users' maxima, and
  its samples the union of theirs.
- **Finalizer.** After the reduce, it succeeds exactly when at least one
  record was read, even when a user is named `"all"`.
- **Outliers.** A run report exists exactly when a run exceeds thirty days.
  A wait report exists exactly when a wait exceeds thirty days, unless the
  line's run report raised while converting its timestamps to local time.
- **Report.** The selections pick first maxima, and `nlargest` is a stable
  selection of the three largest. When no user is named `"all"` and the
  group has a user, the latest-time user is a real user and no one
  submitted later in the night. A user named `"all"` breaks this: its
  records also raise the latest time of `"all"` above every real user's
  (`Accumulator.UserNamedAllSetsLatest`).

Some behaviours of the code worth knowing:

- `run.py` reads the files one after the other, never tests for
  `JOB_FINISH` and never caps a duration; the model does the same.
- For a year with no record, the finalizer computes `sum([]) / len([])` on
  the `"all"` entry, which raises. The model gives `None`
  (`Finalizer.IdleTableFails`, `Finalizer.ReduceFinalizes`).

The model keeps these modelling conventions:

- **Local time.** Local time is a parameter: `clock: int -> LocalTime`
  gives the `HHMMSS` number and `MMDD` date of a timestamp. The year window
  is given as its two timestamps.
- **Exceptions.** A caught exception in a line loop is the line's `None`,
  which skips it, as in the code. An uncaught one (in the finalizer) makes
  the whole result `None`.
- **Dicts.** A Python dict is an insertion-ordered key sequence plus a map,
  so `for k in d`, `max(d, key=d.get)` and ties follow the same order as in
  Python.

## Model

| member | source | states |
|---|---|---|
| Text.ContainsIff | run.py:50-107 | `sub in s` holds exactly when `sub` occurs at some offset of `s` |
| Text.Split | run.py:40 | every token of `split()` is non-empty and free of whitespace |
| Text.SplitAtSpace | run.py:40 | a whitespace character separates: the tokens of `a`, a space and `b` are those of `a` then those of `b`, so a run of whitespace is one separator and leading or trailing whitespace gives no token |
| Text.SplitNewline | run.py:36-40 | the newline ending a line read from a file gives no token |
| Text.SplitJoinedLine | run.py:36-40 | words joined by single spaces and ended by a newline split back into exactly those words |
| Text.SplitJoinWords | run.py:40 | splitting tokens joined by spaces gives back the same tokens: none lost, split or merged |
| Text.StripQuotes | run.py:41-42 | `strip('"')` cuts only quotes, from both ends, and leaves no quote at either end |
| Text.StripQuotesOfQuoted | run.py:41-42 | a quote-wrapped field loses exactly its wrapping |
| Text.ParseInt | run.py:43-48 | `int(tok)` succeeds exactly on an optional sign followed by digits with single underscores between digits |
| Text.ParseShow | run.py:43-48 | `int(str(n)) == n` for every integer |
| Classifier.FirstMatchSpec | run.py:50-112 | of `FirstMatch`: the label is `"others"` with no rule matching, or the label of a matching rule with no earlier rule matching |
| Classifier.ClassifyLabel | run.py:50-112 | every line gets one label of the table or `"others"` |
| Classifier.LabelsDistinct | run.py:50-112 | the labels are pairwise different and none is `"others"` |
| Classifier.ClassifyIs | run.py:50-112 | of `Classify`: a line gets rule k's label iff rule k matches and no earlier rule does |
| Classifier.ClassifyOthers | run.py:110-112 | a line is `"others"` iff no rule matches |
| Classifier.GaussianRule | run.py:50-52 | Gaussian iff "g16" or "g09", or "g03" together with ".gjf" (`and` binds tighter) |
| Classifier.OrcaRule | run.py:77-79 | past the first nine rules, ORCA iff "ORCA", or "orca" together with "openmpi" |
| Parser.InsideInclusive | run.py:19-23 | both ends of the window are inside, and nothing outside it |
| Parser.ParseLineAccepts | run.py:37-118 | of `ParseLine`: a line yields a record iff its tokens are accepted, and then it is the job they describe, labelled by the classifier |
| Parser.BuildAccepts | run.py:38-116 | of `Build`: the token step yields a record iff the tokens are accepted, with the fields of that job |
| Parser.ShortLineSkipped | run.py:40-42 | a line with fewer than 13 tokens gives no record (the IndexError is caught) |
| Parser.UnstartedSkipped | run.py:44-46 | a job with start time 0 gives no record |
| Parser.OutsideWindowSkipped | run.py:113-114 | a job submitted outside the year gives no record |
| Parser.BuildFields | run.py:38-116 | tokens rendered from a job's fields give exactly that job, with wait, run and CPU times derived |
| Parser.ParseRendered | run.py:37-116 | a log line rendered from a job's fields, with or without its trailing newline, reads back as exactly that job |
| Parser.ParseAllAppend | run.py:37-118 | the records of two pieces of a log are those of the first followed by those of the second |
| Parser.ParseAllSound | run.py:37-119 | no more records than lines; every record comes from a line of the input and was submitted inside the window |
| Parser.ReadInData | run.py:31-119 | the loop collects the records of the lines in line order |
| Parser.ReadAllFiles | run.py:133-135 | the records of all files are the records of their concatenated lines |
| Parser.HolidaysOfMembers | run.py:142-145 | a date is a holiday iff some line splits into exactly the year and that date |
| Parser.ReadHolidays | run.py:142-145 | the loop collects those dates in file order |
| Counters.Zeroes | run.py:162 | the four time buckets start in order, each at 0 |
| Counters.Bump | run.py:196-203 | a new key goes last and counts 1, a present key goes up by 1, all others stay; the total grows by 1 |
| Counters.MostFrequent | run.py:284 | `max(d, key=d.get)`: a key of the dict with the largest count |
| Counters.LeastFrequent | run.py:285 | `min(d, key=d.get)`: a key of the dict with the smallest count |
| Counters.FrequentTieBreak | run.py:284-285 | on a tie the first key in insertion order is chosen |
| Counters.Largest | report_exe/annual-report.py:96-98 | `nlargest(n, ...)` returns `min(n, len(d))` keys |
| Counters.LargestMembers | report_exe/annual-report.py:96-98 | the picks are distinct keys of the dict |
| Counters.LargestDescending | report_exe/annual-report.py:96-98 | the picks come largest count first |
| Counters.LargestDominates | report_exe/annual-report.py:96-98 | no key left out counts more than any pick |
| Counters.LargestStable | report_exe/annual-report.py:96-98 | equal-count picks keep their insertion order |
| Counters.LargestStableCutoff | report_exe/annual-report.py:96-98 | a key left out that ties a pick comes after it in insertion order |
| Stats.Sort | run.py:265 | `sorted(xs)` is ascending, a permutation of `xs`, with the same length and sum |
| Stats.SortedUnique | run.py:265 | two ascending lists with the same values are equal, so the sort is determined |
| Stats.SortIgnoresOrder | run.py:265 | sorting forgets the order the samples were appended in |
| Stats.SumAppend | run.py:245-246 | appending a sample adds it to the sum |
| Stats.TruncDiv | run.py:266 | `int(a / b)` truncates toward zero, negative quotients included |
| Stats.MeanTruncBounds | run.py:266 | the truncated mean is within one unit of the exact mean, on the side of zero |
| Stats.MedianSplits | run.py:267-270 | the median is at least the lower half and at most the upper half of the sorted list |
| Stats.MedianOfSorted | run.py:267-270 | the median depends only on the multiset of samples |
| Stats.MedianOfFour | run.py:267-268 | samples 10, 20, 30, 40 in any order have median 25.0 (the even case averages) |
| Stats.MedianOfThree | run.py:269-270 | samples 10, 20, 30 in any order have median 20 (the odd case) |
| Accumulator.Period | run.py:251-262 | the time-of-day bucket, each exactly on its range; times up to 01:00:00 fall to "7-12" |
| Accumulator.NewEntryOk | run.py:167-183 | a new entry satisfies the entry invariant |
| Accumulator.AddRecordLatest | run.py:164-228 | one pass moves the latest time of the entries it charges (the user's and "all") only up, to at least the record's time when before 06:00:00; it changes the time and its date only to the record's, and only when the record's time is strictly later than the old one; every other entry is unchanged |
| Accumulator.FoldLatest | run.py:164-228 | after the loop, every entry's latest time is at least every charged record's before 06:00:00; it is either the starting one with its date, or a strictly later time whose date is that of the first charged record, in record order, submitted at that time before 06:00:00 |
| Accumulator.ReduceLatest | run.py:148-228 | from the initial table, an entry's latest time is 0 with date "0101", or the largest local time before 06:00:00 of the records charged to it, with the date of the first of them submitted at that time |
| Accumulator.TieKeepsFirstDate | run.py:223-228 | two submissions of one user at the same time before 06:00:00 leave the date of the first: the second is not strictly later |
| Accumulator.StepTally | run.py:186-221 | each count, sum and histogram cell grows by what the record adds |
| Accumulator.StepPeak | run.py:229-243 | proof helper: unfolds the maxima updates of `Step`, each raised to the record's value when that is larger |
| Accumulator.StepSample | run.py:244-249 | proof helper: unfolds the sample updates of `Step`, which append the record's run and wait times |
| Accumulator.StepOk | run.py:186-262 | of `Step`: a record keeps the entry invariant: sample lengths equal the job count, histogram totals equal it too, the sample sum is the run time sum |
| Accumulator.MaxUsersAbove | run.py:229-243 | the maximum over the users bounds every user's value |
| Accumulator.MaxUsersAttained | run.py:229-243 | with at least one user and no negative value, some user holds the maximum |
| Accumulator.InitialConsistent | run.py:148-163 | the dict before the loop holds only "all", consistent with no users |
| Accumulator.AdmitShaped | run.py:166-183 | a new user is appended to the key order with a fresh entry; "all" is unchanged |
| Accumulator.ChargeAgrees | run.py:186-249 | charging the user and then "all" keeps "all" the aggregate of the users |
| Accumulator.AddRecordConsistent | run.py:164-262 | of `AddRecord`: when the record's user is not named "all", one loop pass keeps the dict consistent: shaped, and "all" agrees with the users' sums, maxima and samples |
| Accumulator.FoldConsistent | run.py:164-262 | of `Fold`: when no record's user is named "all", the loop keeps the dict consistent |
| Accumulator.ReduceConsistent | run.py:148-262 | of `Reduce`: the dict after the loop is consistent when no user is named "all" |
| Accumulator.AddRecordBusy | run.py:166-187 | every user entry holds at least one job after a loop pass |
| Accumulator.FoldBusy | run.py:164-187 | the loop keeps every user entry holding at least one job |
| Accumulator.AddRecordJobs | run.py:186-187 | one record adds one job to "all", or two when the user is named "all" |
| Accumulator.AddRecordShaped | run.py:164-187 | one loop pass keeps the dict shaped ("all" first, distinct keys, one well formed entry per key), whatever the record's user is named |
| Accumulator.FoldShaped | run.py:164-262 | the loop keeps the dict shaped, whatever the names |
| Accumulator.FoldJobsAtLeast | run.py:164-187 | whatever the names, "all" counts at least one job per record |
| Accumulator.FoldCountsRecords | run.py:164-187 | "all" counts every record once when no user is named "all" |
| Accumulator.UserNamedAllSetsLatest | run.py:164-228 | a record of a user named "all" followed by one of another user earlier in the night (both after 00:00:00 and before 06:00:00) leaves the latest time of "all" above that of the only real user |
| Accumulator.UserNamedAllCountedTwice | run.py:166-187 | a single record of a user named "all" makes the group count 2 |
| Accumulator.Aggregator.constructor | run.py:148-163 | the dict starts as the entry "all" alone, consistent |
| Accumulator.Aggregator.Add | run.py:165-262 | one loop pass mutates the dict into `AddRecord` of the old one, keeping it consistent when the record's user is not named "all" |
| Accumulator.Aggregator.Ingest | run.py:164-262 | the loop leaves the dict as the fold of all records, consistent when no record's user is named "all" |
| Finalizer.CountHolidays | run.py:293-295 | the loop adds up the jobs of the dates that are holidays |
| Finalizer.HolidayCountBounds | run.py:293-295 | the holiday jobs are between 0 and the entry's dated jobs |
| Finalizer.HolidayCountNoHit | run.py:293-295 | with no holiday date the count adds 0 |
| Finalizer.HolidayCountAllHit | run.py:293-295 | with every date a holiday it adds all the dated jobs |
| Finalizer.HolidayStep | run.py:290-295 | imperative rendering of `FinalHoliday`, the holiday loop with its counter and early exit |
| Finalizer.SummarizeEntry | run.py:265-301 | imperative rendering of `Summarize`: one pass of the finalizer loop, as statements |
| Finalizer.SummaryOfEntry | run.py:265-301 | of `Summarize`: a busy entry is summarized: both means truncated from sum and count, each median between two samples, most/least frequent dates with extreme counts, a user's holiday count raised by exactly its holiday-date jobs (so within its job count), other fields unchanged, samples dropped for users only |
| Finalizer.SampleSummary | run.py:272-281 | the truncated mean of a sorted sample list is that of the list, and its median lies between two samples |
| Finalizer.SummaryHoliday | run.py:290-295 | "all" keeps its `holiday_count`; a user's grows by the jobs counted on its holiday dates |
| Finalizer.SummarizeKeeps | run.py:265-301 | the summary keeps every field of the entry apart from the holiday count |
| Finalizer.SummarizeFails | run.py:265-295 | the pass raises iff the entry has no job, or a user without a holiday count has a holiday date |
| Finalizer.FinalizeTableSpec | run.py:264-301 | of `FinalizeTable`: the finalizer succeeds iff every key's pass does; it keeps the key order and summarizes each key |
| Finalizer.Finalize | run.py:264-301 | the loop over the keys computes that snapshot, or stops at the first key that raises |
| Finalizer.BusyTableFinalizes | run.py:264-301 | a well-shaped dict whose users all hold a job, and whose "all" holds at least one, finalizes |
| Finalizer.IdleTableFails | run.py:264-266 | with no job, the mean of "all" divides by zero and the finalizer fails |
| Finalizer.ReduceFinalizes | run.py:148-301 | after the reduce the finalizer succeeds iff at least one record was read, for any user names, "all" included |
| Outliers.AccountingFilesMembers | find_outliers.py:23 | exactly the directory entries whose name contains "lsb.acct" are read |
| Outliers.ReportsSpec | find_outliers.py:48-68 | of `Reports`: a run report iff the run is strictly over 30 days; a wait report iff the wait is and no run report failed to convert its two timestamps; the run report first; each carries the job, the file and its two timestamps |
| Outliers.TokensReports | find_outliers.py:32-68 | of `CheckTokens`: tokens give nothing when there are fewer than 15, when one of the three times is not an integer, or when the job never started; otherwise the two checks on those times |
| Outliers.SkippedLines | find_outliers.py:28-46 | of `CheckLine`: a line that is not a started, well-formed finish line reports nothing |
| Outliers.ScanFile | find_outliers.py:26-68 | the reports of the lines of one file, in line order |
| Outliers.Scan | find_outliers.py:23-68 | the reports of all accounting files, file by file, in order |
| Outliers.ScanFilesMembers | find_outliers.py:25-68 | a report is in the scan iff some line of some file gives it |
| Outliers.ScanReports | find_outliers.py:23-68 | a report is in the scan iff some line of an "lsb.acct" file of the directory gives it |
| Report.DurationUnitSpec | report_exe/annual-report.py:31-38 | of `DurationUnit`: the unit is the largest of year, month and day that fits; none iff not even a day fits |
| Report.DurationUnitMonotone | report_exe/annual-report.py:41-48 | a longer duration is never shown in a smaller unit |
| Report.StarUser | report_exe/annual-report.py:72-89 | no star iff no user has a positive value; otherwise the first user with the largest value, never "all" |
| Report.StarUnique | report_exe/annual-report.py:72-89 | the star position is unique |
| Report.LatestTimeUser | report_exe/annual-report.py:90-92 | no user iff "all" is missing or nothing matches; otherwise the last key whose latest time equals that of "all" |
| Report.AllLatestIsMax | run.py:226-228 | for a table built with no user named "all" (`Agrees`), the latest time of "all" is the largest of the users' |
| Report.FinalizeKeepsLatest | run.py:264-301 | the finalized snapshot keeps the key order and every latest time |
| Report.LatestTimeUserIsUser | report_exe/annual-report.py:90-94 | with at least one user and the latest time of "all" equal to the users' largest (so when no user is named "all"), the latest-time user is a user, submitting no earlier in the night than any other |
| Report.FrequentChoice | report_exe/annual-report.py:55-62 | `max`/`min` with `key=d.get` pick the first key with the largest (smallest) count |
| Report.PeriodChoice | report_exe/annual-report.py:55-56 | the busiest and quietest time of day is one of the four buckets, bounding all of them |
| Report.HistogramsFilled | report_exe/annual-report.py:61-62 | an entry with a job has a date, queue and software to choose from |
| Report.TopThree | report_exe/annual-report.py:96-98 | the top three are distinct keys, largest first, none left out counting more, ties in insertion order |

## Left out

- Reading files, `os.listdir`, `pickle`, `argparse`, `whoami`, `os._exit` and every `print` are left out. Files arrive as sequences of lines in listing order, and `os.path.basename` of a listed file is its entry name.
- `time.localtime`, `strftime` and `mktime` are left out. The local clock is the parameter `clock`, and the year window is given as two timestamps.
- The report's lookups of the user's own values (`data[username][...]`), the missing-user exit and the printed text are left out. So are `round(x, 2)` and the float divisions of the printed durations, since floating point is not modelled.
- The finalizer mutates the dict in place, and the model returns a new snapshot. The `del` of the two sample lists is the flag `samplesKept`.
- `latest_time` is stored as six-digit text. run.py:223-228 compares it through `int()`, and report_exe/annual-report.py:91 compares two such texts with `==`; for six-digit texts both agree with comparing the numbers, so the model keeps the number.
- The median is a real (Python gives a float for the even case). `int(sum / len)` is modelled as exact division truncated toward zero: float rounding of very large sums is left out.
- `int()` of Unicode digits other than ASCII, and tokens with surrounding whitespace, are left out. Tokens of `split()` have no whitespace.
- `soft_mark == 0` is always true where the rule table tests it, so the rules leave it out.
- The star users' and the latest-time user's unbound names (a later `NameError`) are `None` in the results of `Report.StarUser` and `Report.LatestTimeUser`.
- Finalizer.SummaryOfEntry: states only that each median lies between two samples, not which middle element it is. The median is `Stats.Median` of the sorted samples by definition (the middle sample, or the mean of the two middle ones); `Stats.MedianSplits` bounds it by the two halves, which pins it for an odd count, and `Stats.MedianOfSorted` shows it depends only on the multiset of samples.
- The text printed by `find_outliers.py` (the `timestamp_2_mytime` strings and the day counts) is left out. A report carries the raw seconds and timestamps. Which timestamps `time.localtime` converts is the parameter `converts`; a report whose own conversion raises was already partly printed, and the model keeps it.
