/** `read_in_data` of run.py: one accounting-log line becomes one job record,
    or nothing. The line is split on whitespace and read by position (end
    time at token 2, cores at 6, submit time at 7, start time at 10, user at
    11, queue at 12); any failure to read a field, a start time of 0 or a
    submit time outside the year window drops the line and the scan goes on.
    Also here: the loop of `main` that concatenates the records of every log
    file, and the filter that reads the holiday list. */
module Parser {
  import opened Wrappers
  import opened Text
  import opened Classifier

  /** `[name, queue, timesub_stamp, cores, software, wait_time_s, run_time_s,
      cpu_time_s]`, the list `read_in_data` stores per job. */
  datatype JobRecord = JobRecord(
    name: string, queue: string, sub: int, cores: int, software: string,
    wait: int, run: int, cpu: int)

  /** The year window: the timestamps of the first and the last second of the
      year, which run.py obtains from the local clock. */
  datatype Window = Window(start: int, end: int)

  const TokUser := 11
  const TokQueue := 12
  const TokSub := 7
  const TokStart := 10
  const TokEnd := 2
  const TokCores := 6

  /** `check_timestamp_is_inside`: the target lies in the window, both ends
      included. */
  predicate CheckTimestampIsInside(start: int, end: int, target: int) {
    start <= target <= end
  }

  /** Both ends of the window are accepted, and nothing outside it. */
  lemma InsideInclusive(start: int, end: int, t: int)
    requires start <= end
    ensures CheckTimestampIsInside(start, end, start) && CheckTimestampIsInside(start, end, end)
    ensures t < start || t > end ==> !CheckTimestampIsInside(start, end, t)
  {
  }

  /** Token `k` of `toks` is an integer. */
  predicate IntAt(toks: seq<string>, k: nat) {
    k < |toks| && ParseInt(toks[k]).Some?
  }

  function IntOf(toks: seq<string>, k: nat): int
    requires IntAt(toks, k)
  {
    ParseInt(toks[k]).value
  }

  /** When the tokens of a line are accepted, stated without the order of
      the steps: enough tokens, the four time and core fields are integers,
      the job has started, and it was submitted inside the window. */
  ghost predicate Accepted(toks: seq<string>, w: Window) {
    && |toks| >= 13
    && IntAt(toks, TokSub) && IntAt(toks, TokStart) && IntAt(toks, TokEnd) && IntAt(toks, TokCores)
    && IntOf(toks, TokStart) != 0
    && w.start <= IntOf(toks, TokSub) <= w.end
  }

  /** The record accepted tokens stand for: the quoted user and queue names
      unwrapped, the waiting time from submission to start, the run time
      from start to end, the CPU time as cores times the run time, and the
      software label `sw`. */
  ghost predicate RecordOf(toks: seq<string>, sw: string, r: JobRecord)
    requires Accepted(toks, Window(r.sub, r.sub))
  {
    var sub, start, end, cores := IntOf(toks, TokSub), IntOf(toks, TokStart), IntOf(toks, TokEnd), IntOf(toks, TokCores);
    && r.name == StripQuotes(toks[TokUser])
    && r.queue == StripQuotes(toks[TokQueue])
    && r.sub == sub && r.cores == cores
    && r.software == sw
    && r.wait == start - sub
    && r.run == end - start
    && r.cpu == cores * (end - start)
  }

  /** One pass of the body of the loop in `read_in_data`, in its order, on
      the tokens of the line and the label the classifier gives the whole
      line: `None` where the line is skipped, whether by an exception or by
      a `continue`. */
  function Build(toks: seq<string>, sw: string, w: Window): Option<JobRecord> {
    if |toks| < 13 then None
    else
      var name := StripQuotes(toks[TokUser]);
      var queue := StripQuotes(toks[TokQueue]);
      match ParseInt(toks[TokSub])
      case None => None
      case Some(sub) =>
        match ParseInt(toks[TokStart])
        case None => None
        case Some(start) =>
          if start == 0 then None
          else
            match ParseInt(toks[TokEnd])
            case None => None
            case Some(end) =>
              match ParseInt(toks[TokCores])
              case None => None
              case Some(cores) =>
                if !CheckTimestampIsInside(w.start, w.end, sub) then None
                else Some(JobRecord(name, queue, sub, cores, sw, start - sub, end - start, cores * (end - start)))
  }

  /** The record of one log line. The classifier runs on the raw line; it
      cannot fail, so running it before the fields are read changes nothing. */
  function ParseLine(line: string, w: Window): Option<JobRecord> {
    Build(Split(line), Classify(line), w)
  }

  /** A line yields a record exactly when its tokens are accepted, and the
      record is the one they stand for, labelled by the classifier. */
  lemma ParseLineAccepts(line: string, w: Window)
    ensures ParseLine(line, w).Some? <==> Accepted(Split(line), w)
    ensures ParseLine(line, w).Some? ==> var r := ParseLine(line, w).value;
      Accepted(Split(line), Window(r.sub, r.sub)) && RecordOf(Split(line), Classify(line), r)
  {
    BuildAccepts(Split(line), Classify(line), w);
  }

  lemma BuildAccepts(toks: seq<string>, sw: string, w: Window)
    ensures Build(toks, sw, w).Some? <==> Accepted(toks, w)
    ensures Build(toks, sw, w).Some? ==> var r := Build(toks, sw, w).value;
      Accepted(toks, Window(r.sub, r.sub)) && RecordOf(toks, sw, r)
  {
  }

  /** A line too short to hold a queue name is skipped. */
  lemma ShortLineSkipped(line: string, w: Window)
    requires |Split(line)| < 13
    ensures ParseLine(line, w) == None
  {
  }

  /** A job that never started (start time 0) is skipped. */
  lemma UnstartedSkipped(line: string, w: Window)
    requires |Split(line)| >= 13 && ParseInt(Split(line)[TokStart]) == Some(0)
    ensures ParseLine(line, w) == None
  {
  }

  /** A job submitted outside the year window is skipped. */
  lemma OutsideWindowSkipped(line: string, w: Window, sub: int)
    requires |Split(line)| >= 13 && ParseInt(Split(line)[TokSub]) == Some(sub)
    requires sub < w.start || sub > w.end
    ensures ParseLine(line, w) == None
  {
  }

  /** `'"' + s + '"'`: a quoted field of the log. */
  function Quote(s: string): string {
    "\"" + s + "\""
  }

  /** Tokens holding, at the read positions, the decimal times and core
      count and the quoted user and queue are read as exactly that job, with
      the derived wait, run and CPU times. */
  lemma BuildFields(toks: seq<string>, sw: string, w: Window, name: string, queue: string,
                    sub: int, start: int, end: int, cores: int)
    requires |toks| >= 13
    requires toks[TokEnd] == Show(end) && toks[TokCores] == Show(cores)
    requires toks[TokSub] == Show(sub) && toks[TokStart] == Show(start)
    requires name == [] || (name[0] != '"' && name[|name| - 1] != '"')
    requires queue == [] || (queue[0] != '"' && queue[|queue| - 1] != '"')
    requires toks[TokUser] == Quote(name) && toks[TokQueue] == Quote(queue)
    requires start != 0 && w.start <= sub <= w.end
    ensures Build(toks, sw, w)
         == Some(JobRecord(name, queue, sub, cores, sw, start - sub, end - start, cores * (end - start)))
  {
    ParseShow(sub);
    ParseShow(start);
    ParseShow(end);
    ParseShow(cores);
    StripQuotesOfQuoted(name);
    StripQuotesOfQuoted(queue);
  }

  /** A log line rendered from its fields (single spaces between them, with
      or without the newline that ends a line read from a file) is read back
      as exactly the job they describe, labelled by the classifier. */
  lemma ParseRendered(ws: seq<string>, w: Window, name: string, queue: string,
                      sub: int, start: int, end: int, cores: int)
    requires forall i :: 0 <= i < |ws| ==> IsWord(ws[i])
    requires |ws| >= 13
    requires ws[TokEnd] == Show(end) && ws[TokCores] == Show(cores)
    requires ws[TokSub] == Show(sub) && ws[TokStart] == Show(start)
    requires name == [] || (name[0] != '"' && name[|name| - 1] != '"')
    requires queue == [] || (queue[0] != '"' && queue[|queue| - 1] != '"')
    requires ws[TokUser] == Quote(name) && ws[TokQueue] == Quote(queue)
    requires start != 0 && w.start <= sub <= w.end
    ensures ParseLine(JoinWords(ws), w)
         == Some(JobRecord(name, queue, sub, cores, Classify(JoinWords(ws)), start - sub, end - start, cores * (end - start)))
    ensures var line := JoinWords(ws) + "\n";
      ParseLine(line, w)
         == Some(JobRecord(name, queue, sub, cores, Classify(line), start - sub, end - start, cores * (end - start)))
  {
    SplitJoinWords(ws);
    SplitJoinedLine(ws);
    BuildFields(ws, Classify(JoinWords(ws)), w, name, queue, sub, start, end, cores);
    BuildFields(ws, Classify(JoinWords(ws) + "\n"), w, name, queue, sub, start, end, cores);
  }

  // ---------------------------------------------------------------------
  // The scan of one file, and of all files

  /** The records of `lines`, in line order. */
  function ParseAll(lines: seq<string>, w: Window): seq<JobRecord> {
    if lines == [] then []
    else
      var init := ParseAll(lines[..|lines| - 1], w);
      match ParseLine(lines[|lines| - 1], w)
      case Some(r) => init + [r]
      case None => init
  }

  /** The scan is line by line: the records of two pieces of a log are the
      records of the first followed by those of the second. */
  lemma {:induction false} ParseAllAppend(a: seq<string>, b: seq<string>, w: Window)
    ensures ParseAll(a + b, w) == ParseAll(a, w) + ParseAll(b, w)
    decreases |b|
  {
    if b == [] {
      assert a + b == a;
    } else {
      var b' := b[..|b| - 1];
      assert (a + b)[..|a + b| - 1] == a + b';
      assert (a + b)[|a + b| - 1] == b[|b| - 1];
      ParseAllAppend(a, b', w);
    }
  }

  /** Every record comes from an accepted line of the input, so each was
      submitted inside the window, and there are no more records than lines. */
  lemma {:induction false} ParseAllSound(lines: seq<string>, w: Window)
    ensures |ParseAll(lines, w)| <= |lines|
    ensures forall r :: r in ParseAll(lines, w) ==> w.start <= r.sub <= w.end
    ensures forall r :: r in ParseAll(lines, w) ==> exists i :: 0 <= i < |lines| && ParseLine(lines[i], w) == Some(r)
  {
    if lines != [] {
      var init := lines[..|lines| - 1];
      ParseAllSound(init, w);
      ParseLineAccepts(lines[|lines| - 1], w);
      forall r | r in ParseAll(init, w) ensures exists i :: 0 <= i < |lines| && ParseLine(lines[i], w) == Some(r) {
        var i :| 0 <= i < |init| && ParseLine(init[i], w) == Some(r);
        assert lines[i] == init[i];
      }
    }
  }

  /** `read_in_data` on the lines of one file. */
  method ReadInData(lines: seq<string>, w: Window) returns (records: seq<JobRecord>)
    ensures records == ParseAll(lines, w)
  {
    records := [];
    var i := 0;
    while i < |lines|
      invariant 0 <= i <= |lines|
      invariant records == ParseAll(lines[..i], w)
    {
      assert lines[..i + 1][..i] == lines[..i];
      var r := ParseLine(lines[i], w);
      if r.Some? {
        records := records + [r.value];
      }
      i := i + 1;
    }
    assert lines[..|lines|] == lines;
  }

  /** The lines of all files, one file after the other. */
  function Concat(files: seq<seq<string>>): seq<string> {
    if files == [] then [] else Concat(files[..|files| - 1]) + files[|files| - 1]
  }

  /** `raw_data += read_in_data(file, year)` for every file of the log
      directory, in directory order: the records of the concatenated logs. */
  method ReadAllFiles(files: seq<seq<string>>, w: Window) returns (raw: seq<JobRecord>)
    ensures raw == ParseAll(Concat(files), w)
  {
    raw := [];
    var i := 0;
    while i < |files|
      invariant 0 <= i <= |files|
      invariant raw == ParseAll(Concat(files[..i]), w)
    {
      var more := ReadInData(files[i], w);
      assert files[..i + 1][..i] == files[..i];
      ParseAllAppend(Concat(files[..i]), files[i], w);
      raw := raw + more;
      i := i + 1;
    }
    assert files[..|files|] == files;
  }

  // ---------------------------------------------------------------------
  // The holiday list

  /** The dates of the holiday list for `year`, the text of the year: the
      second token of every line made of exactly two tokens whose first is
      the year. */
  function HolidaysOf(lines: seq<string>, year: string): seq<string> {
    if lines == [] then []
    else
      var init := HolidaysOf(lines[..|lines| - 1], year);
      var toks := Split(lines[|lines| - 1]);
      if |toks| == 2 && toks[0] == year then init + [toks[1]] else init
  }

  /** A date is listed exactly when some line reads `<year> <date>`. */
  lemma {:induction false} HolidaysOfMembers(lines: seq<string>, year: string, d: string)
    ensures d in HolidaysOf(lines, year) <==> exists i :: 0 <= i < |lines| && Split(lines[i]) == [year, d]
  {
    if lines != [] {
      var init := lines[..|lines| - 1];
      HolidaysOfMembers(init, year, d);
      if exists i :: 0 <= i < |init| && Split(init[i]) == [year, d] {
        var i :| 0 <= i < |init| && Split(init[i]) == [year, d];
        assert lines[i] == init[i];
      }
      if exists i :: 0 <= i < |lines| && Split(lines[i]) == [year, d] {
        var i :| 0 <= i < |lines| && Split(lines[i]) == [year, d];
        if i < |init| {
          assert init[i] == lines[i];
        }
      }
    }
  }

  /** The filter of `main` over the lines of `holidays.txt`. */
  method ReadHolidays(lines: seq<string>, year: int) returns (dates: seq<string>)
    ensures dates == HolidaysOf(lines, Show(year))
  {
    dates := [];
    var i := 0;
    while i < |lines|
      invariant 0 <= i <= |lines|
      invariant dates == HolidaysOf(lines[..i], Show(year))
    {
      assert lines[..i + 1][..i] == lines[..i];
      var toks := Split(lines[i]);
      if |toks| == 2 {
        if toks[0] == Show(year) {
          dates := dates + [toks[1]];
        }
      }
      i := i + 1;
    }
    assert lines[..|lines|] == lines;
  }
}
