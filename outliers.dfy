/** find_outliers.py: a scan of the accounting logs of a directory for jobs
    that ran, or waited in the queue, longer than thirty days.

    Only files whose name contains "lsb.acct" are read. A line is looked at
    only when it contains "JOB_FINISH" and splits into at least 15 tokens;
    its end, submit and start times (tokens 2, 7 and 10) must read as
    integers and the start time must not be 0, or the line is passed over.
    The run check and the wait check are made one after the other, so a line
    can give two reports, one or none. A run report prints its start and end
    times through `time.localtime`; a timestamp it cannot convert raises,
    and the `except` then moves on to the next line, so the wait check of
    that line is not made. Which timestamps convert is the parameter
    `converts`. */
module Outliers {
  import opened Text
  import opened Parser

  const AbnormalDays := 30
  /** `ABNORMAL_DAYS * 24 * 3600`, that is 2592000. */
  const AbnormalSeconds := AbnormalDays * 24 * 3600

  const TokJobId := 3

  /** A directory entry, by its name, with its lines. */
  datatype LogFile = LogFile(name: string, lines: seq<string>)

  datatype Kind = RunTooLong | WaitTooLong

  /** One report: who, which queue and job, how long the run or the wait
      lasted in seconds, the two timestamps it lasted between, and the file. */
  datatype Anomaly = Anomaly(
    kind: Kind, user: string, queue: string, jobId: string,
    seconds: int, from: int, to: int, file: string)

  // ---------------------------------------------------------------------
  // The files

  /** `[f for f in os.listdir(dir) if "lsb.acct" in f]`, in listing order. */
  function AccountingFiles(dir: seq<LogFile>): seq<LogFile> {
    if dir == [] then []
    else
      var f := dir[|dir| - 1];
      AccountingFiles(dir[..|dir| - 1]) + (if Contains(f.name, "lsb.acct") then [f] else [])
  }

  /** Exactly the entries whose name contains "lsb.acct" are read. */
  lemma {:induction false} AccountingFilesMembers(dir: seq<LogFile>, f: LogFile)
    ensures f in AccountingFiles(dir) <==> f in dir && Contains(f.name, "lsb.acct")
  {
    if dir != [] {
      var init := dir[..|dir| - 1];
      AccountingFilesMembers(init, f);
      assert dir == init + [dir[|dir| - 1]];
    }
  }

  // ---------------------------------------------------------------------
  // One line

  /** The tokens carry the three times as integers and the job has started. */
  ghost predicate Timed(toks: seq<string>) {
    && |toks| >= 15
    && IntAt(toks, TokEnd) && IntAt(toks, TokSub) && IntAt(toks, TokStart)
    && IntOf(toks, TokStart) != 0
  }

  /** The two checks on the times of a started job: a run report when the
      run lasted strictly more than `AbnormalSeconds`, then, unless printing
      that run report raised, a wait report when the wait did. */
  function Reports(user: string, queue: string, jobId: string, end: int, submit: int, start: int, file: string,
                   converts: int -> bool): seq<Anomaly> {
    var run, wait := end - start, start - submit;
    var runTooLong := run > AbnormalSeconds;
    var goesOn := !runTooLong || (converts(start) && converts(end));
    (if runTooLong then [Anomaly(RunTooLong, user, queue, jobId, run, start, end, file)] else [])
    + (if goesOn && wait > AbnormalSeconds then [Anomaly(WaitTooLong, user, queue, jobId, wait, submit, start, file)] else [])
  }

  /** The body of the `try` block on split tokens: the reports of one line. */
  function CheckTokens(toks: seq<string>, file: string, converts: int -> bool): seq<Anomaly> {
    if |toks| < 15 then []
    else
      var queue, user, jobId := StripQuotes(toks[TokQueue]), StripQuotes(toks[TokUser]), toks[TokJobId];
      if !IntAt(toks, TokEnd) || !IntAt(toks, TokSub) || !IntAt(toks, TokStart) then []
      else
        var end, submit, start := IntOf(toks, TokEnd), IntOf(toks, TokSub), IntOf(toks, TokStart);
        if start == 0 then [] else Reports(user, queue, jobId, end, submit, start, file, converts)
  }

  /** The body of `for line in f`. */
  function CheckLine(line: string, file: string, converts: int -> bool): seq<Anomaly> {
    if !Contains(line, "JOB_FINISH") then [] else CheckTokens(Split(line), file, converts)
  }

  predicate HasKind(r: seq<Anomaly>, k: Kind) {
    exists i :: 0 <= i < |r| && r[i].kind == k
  }

  /** What the two checks report: a run report exactly when the run lasted
      strictly more than thirty days; a wait report exactly when the wait
      did and no run report raised on converting its timestamps; the run
      report first. Each report carries the names and the file, and lasts
      from its first timestamp to its second. */
  lemma ReportsSpec(user: string, queue: string, jobId: string, end: int, submit: int, start: int, file: string,
                    converts: int -> bool)
    ensures var r := Reports(user, queue, jobId, end, submit, start, file, converts);
      && (HasKind(r, RunTooLong) <==> end - start > AbnormalSeconds)
      && (HasKind(r, WaitTooLong) <==>
            && start - submit > AbnormalSeconds
            && (end - start > AbnormalSeconds ==> converts(start) && converts(end)))
      && |r| <= 2
      && (|r| == 2 ==> r[0].kind == RunTooLong && r[1].kind == WaitTooLong)
      && (forall a :: a in r ==>
            && a.file == file && a.jobId == jobId && a.user == user && a.queue == queue
            && a.seconds == a.to - a.from && a.seconds > AbnormalSeconds
            && (a.kind == RunTooLong ==> a.from == start && a.to == end)
            && (a.kind == WaitTooLong ==> a.from == submit && a.to == start))
  {
    var run, wait := end - start, start - submit;
    var goesOn := run <= AbnormalSeconds || (converts(start) && converts(end));
    var x := if run > AbnormalSeconds then [Anomaly(RunTooLong, user, queue, jobId, run, start, end, file)] else [];
    var y := if goesOn && wait > AbnormalSeconds then [Anomaly(WaitTooLong, user, queue, jobId, wait, submit, start, file)] else [];
    var r := x + y;
    assert r == Reports(user, queue, jobId, end, submit, start, file, converts);
    assert forall i :: 0 <= i < |r| ==> r[i] in x || r[i] in y;
    if run > AbnormalSeconds {
      assert r[0].kind == RunTooLong;
    }
    if goesOn && wait > AbnormalSeconds {
      assert r[|x|].kind == WaitTooLong;
    }
  }

  /** What split tokens report: nothing unless there are 15 of them, the
      three times read as integers and the job started; then the two checks
      on those times, with the user and queue unquoted and job token 3. */
  lemma TokensReports(toks: seq<string>, file: string, converts: int -> bool)
    ensures !Timed(toks) ==> CheckTokens(toks, file, converts) == []
    ensures Timed(toks) ==>
      CheckTokens(toks, file, converts) ==
        Reports(StripQuotes(toks[TokUser]), StripQuotes(toks[TokQueue]), toks[TokJobId],
                IntOf(toks, TokEnd), IntOf(toks, TokSub), IntOf(toks, TokStart), file, converts)
  {
  }

  /** A line without "JOB_FINISH", with fewer than 15 tokens, with an
      unreadable time or with start time 0 reports nothing. */
  lemma SkippedLines(line: string, file: string, converts: int -> bool)
    ensures !Contains(line, "JOB_FINISH") || !Timed(Split(line)) ==> CheckLine(line, file, converts) == []
  {
    TokensReports(Split(line), file, converts);
  }

  // ---------------------------------------------------------------------
  // The scan

  /** The concatenation of `f` over `xs`, in order. */
  function FlatMap<A, B>(xs: seq<A>, f: A -> seq<B>): seq<B> {
    if xs == [] then [] else FlatMap(xs[..|xs| - 1], f) + f(xs[|xs| - 1])
  }

  lemma {:induction false} FlatMapMembers<A, B>(xs: seq<A>, f: A -> seq<B>, b: B)
    ensures b in FlatMap(xs, f) <==> exists i :: 0 <= i < |xs| && b in f(xs[i])
  {
    if xs != [] {
      var init := xs[..|xs| - 1];
      FlatMapMembers(init, f, b);
      assert forall i :: 0 <= i < |init| ==> init[i] == xs[i];
    }
  }

  function LineCheck(file: string, converts: int -> bool): string -> seq<Anomaly> {
    line => CheckLine(line, file, converts)
  }

  /** The reports of the lines of one file, in line order. */
  function ScanLines(lines: seq<string>, file: string, converts: int -> bool): seq<Anomaly> {
    FlatMap(lines, LineCheck(file, converts))
  }

  function FileScan(converts: int -> bool): LogFile -> seq<Anomaly> {
    (f: LogFile) => ScanLines(f.lines, f.name, converts)
  }

  /** The reports of the files, in file order. */
  function ScanFiles(files: seq<LogFile>, converts: int -> bool): seq<Anomaly> {
    FlatMap(files, FileScan(converts))
  }

  /** `for line in f`: the reports of every line of one file, in order. */
  method ScanFile(f: LogFile, converts: int -> bool) returns (found: seq<Anomaly>)
    ensures found == ScanLines(f.lines, f.name, converts)
  {
    ghost var check := LineCheck(f.name, converts);
    found := [];
    var j := 0;
    while j < |f.lines|
      invariant 0 <= j <= |f.lines|
      invariant found == FlatMap(f.lines[..j], check)
    {
      var here := CheckLine(f.lines[j], f.name, converts);
      assert here == check(f.lines[j]);
      assert f.lines[..j + 1][..j] == f.lines[..j];
      found := found + here;
      j := j + 1;
    }
    assert f.lines[..|f.lines|] == f.lines;
  }

  /** `main` after its directory check: every line of every accounting
      file, in order, with the reports of each. */
  method Scan(dir: seq<LogFile>, converts: int -> bool) returns (reports: seq<Anomaly>)
    ensures reports == ScanFiles(AccountingFiles(dir), converts)
  {
    var files := AccountingFiles(dir);
    reports := [];
    var i := 0;
    while i < |files|
      invariant 0 <= i <= |files|
      invariant reports == FlatMap(files[..i], FileScan(converts))
    {
      var found := ScanFile(files[i], converts);
      assert found == FileScan(converts)(files[i]);
      assert files[..i + 1][..i] == files[..i];
      reports := reports + found;
      i := i + 1;
    }
    assert files[..|files|] == files;
  }

  /** A report of the scan comes from a line of a file that was read. */
  lemma ScanFilesMembers(files: seq<LogFile>, a: Anomaly, converts: int -> bool)
    ensures a in ScanFiles(files, converts) <==>
      exists i, j :: 0 <= i < |files| && 0 <= j < |files[i].lines| && a in CheckLine(files[i].lines[j], files[i].name, converts)
  {
    FlatMapMembers(files, FileScan(converts), a);
    forall i | 0 <= i < |files|
      ensures a in ScanLines(files[i].lines, files[i].name, converts) <==>
        exists j :: 0 <= j < |files[i].lines| && a in CheckLine(files[i].lines[j], files[i].name, converts)
    {
      FlatMapMembers(files[i].lines, LineCheck(files[i].name, converts), a);
    }
  }

  /** Every report of the scan is one a line of an accounting file of the
      directory gives, and every such line's reports are in the scan. */
  lemma ScanReports(dir: seq<LogFile>, a: Anomaly, converts: int -> bool)
    ensures a in ScanFiles(AccountingFiles(dir), converts) <==>
      exists f, j :: f in dir && Contains(f.name, "lsb.acct") && 0 <= j < |f.lines| && a in CheckLine(f.lines[j], f.name, converts)
  {
    var files := AccountingFiles(dir);
    ScanFilesMembers(files, a, converts);
    forall f | f in dir && Contains(f.name, "lsb.acct")
      ensures f in files
    {
      AccountingFilesMembers(dir, f);
    }
    forall f | f in files
      ensures f in dir && Contains(f.name, "lsb.acct")
    {
      AccountingFilesMembers(dir, f);
    }
  }
}
