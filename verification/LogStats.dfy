/** What dbstats.py prints for two logs, in terms of their commands and traces. */
module LogStats {
  import opened Text
  import opened Streams
  import opened LogReader
  import opened XcatLogs
  import opened CommandLog
  import opened Analysis
  import opened Accounting
  import opened LogJoin

  // ----- windows in seconds -----

  /**
   * From the start of a command to one second after its elapsed time, whose fraction does not count: that of a negative
   * time is cut towards zero.
   */
  predicate InTime(start: int, elapsed: real, stamp: int) {
    && start <= stamp
    && if elapsed >= 0.0 then (stamp - start - 1) as real <= elapsed else (stamp - start - 1) as real < elapsed + 1.0
  }

  /** The date parses, and the elapsed time is above -2 seconds. */
  predicate Timed(lib: Library, c: Command) {
    lib.commandTime(c.date).Some? && c.elapsed > -2.0
  }

  lemma FloorBelow(x: real, n: int)
    ensures n <= x.Floor <==> n as real <= x
  {
  }

  lemma TruncateBelow(x: real, n: int)
    ensures n <= Truncate(x) <==> if x >= 0.0 then n as real <= x else n as real < x + 1.0
  {
    if x >= 0.0 {
      FloorBelow(x, n);
    } else {
      FloorBelow(-x, 1 - n);
    }
  }

  /** The window of a command holds exactly the traces in its time. */
  lemma WindowIsTime(lib: Library, c: Command, stamp: int)
    requires lib.commandTime(c.date).Some?
    ensures var start, w := lib.commandTime(c.date).value, WindowOf(lib, c);
            w.Some? && w.value.start == start
            && (start <= stamp <= w.value.end <==> InTime(start, c.elapsed, stamp))
  {
    var start := lib.commandTime(c.date).value;
    TruncateBelow(c.elapsed, stamp - start - 1);
  }

  lemma TimedHasWindow(lib: Library, c: Command)
    ensures HasWindow(lib, c) <==> Timed(lib, c)
  {
    TruncateBelow(c.elapsed, -1);
  }

  // ----- the traces of a command -----

  predicate AllTimed(lib: Library, cs: seq<Command>) {
    forall i :: 0 <= i < |cs| ==> Timed(lib, cs[i])
  }

  function StartOf(lib: Library, c: Command): int
    requires Timed(lib, c)
  {
    lib.commandTime(c.date).value
  }

  /** Command `i` is the first one that starts no later than this second, which is still in its time. */
  predicate Takes(lib: Library, cs: seq<Command>, i: nat, stamp: int)
    requires AllTimed(lib, cs) && i < |cs|
  {
    && (forall k :: 0 <= k < i ==> stamp < StartOf(lib, cs[k]))
    && InTime(StartOf(lib, cs[i]), cs[i].elapsed, stamp)
  }

  /** The traces that belong to command `i`. */
  function Taken(lib: Library, cs: seq<Command>, i: nat, ts: seq<Trace>): seq<Trace>
    requires AllTimed(lib, cs) && i < |cs|
  {
    if ts == [] then [] else (if Takes(lib, cs, i, ts[0].stamp) then [ts[0]] else []) + Taken(lib, cs, i, ts[1..])
  }

  lemma TimedHaveWindows(lib: Library, cs: seq<Command>)
    requires AllTimed(lib, cs)
    ensures AllHaveWindows(lib, cs)
  {
    forall i | 0 <= i < |cs| ensures HasWindow(lib, cs[i]) {
      TimedHasWindow(lib, cs[i]);
    }
  }

  lemma OwnerTakes(lib: Library, cs: seq<Command>, i: nat, stamp: int)
    requires AllTimed(lib, cs) && AllHaveWindows(lib, cs) && i < |cs|
    ensures var ws := Windows(lib, cs);
            Owner(ws, stamp) == i && stamp <= ws[i].end <==> Takes(lib, cs, i, stamp)
  {
    var ws := Windows(lib, cs);
    forall k | 0 <= k < |cs| ensures ws[k].start == StartOf(lib, cs[k]) {
      WindowIsTime(lib, cs[k], stamp);
    }
    WindowIsTime(lib, cs[i], stamp);
  }

  lemma {:induction false} OwnedIsTaken(lib: Library, cs: seq<Command>, i: nat, ts: seq<Trace>)
    requires AllTimed(lib, cs) && AllHaveWindows(lib, cs) && i < |cs|
    ensures Owned(Windows(lib, cs), i, ts) == Taken(lib, cs, i, ts)
  {
    if ts != [] {
      OwnerTakes(lib, cs, i, ts[0].stamp);
      OwnedIsTaken(lib, cs, i, ts[1..]);
    }
  }

  // ----- the printed row of a command -----

  /** The row names the command, and its times and counters are those of these traces. */
  predicate RowSays(lib: Library, row: Row, c: Command, ts: seq<Trace>) {
    && row.command == c.request + "(" + c.date + ")" && row.elapsed == c.elapsed
    && row.getSqlTime == TotalTime(lib, ts, "end_sql", "xCAT::Table::get")
    && row.setSqlTime == TotalTime(lib, ts, "end_sql", "xCAT::Table::set")
    && row.delSqlTime == TotalTime(lib, ts, "end_sql", "xCAT::Table::del")
    && row.getSubTime == TotalTime(lib, ts, "end", "xCAT::Table::get")
    && row.setSubTime == TotalTime(lib, ts, "end", "xCAT::Table::set")
    && row.delSubTime == TotalTime(lib, ts, "end", "xCAT::Table::del")
  }

  predicate TablesSay(lib: Library, row: Row, ts: seq<Trace>, table: string) {
    && Tallied(row.getTables, table) == Touches(lib, ts, "start_sql", "xCAT::Table::get", table)
    && Tallied(row.setTables, table) == Touches(lib, ts, "start_sql", "xCAT::Table::set", table)
    && Tallied(row.delTables, table) == Touches(lib, ts, "start_sql", "xCAT::Table::del", table)
    && Tallied(row.buildCache, table) == Touches(lib, ts, "build_cache", "", table)
    && Tallied(row.cacheHit, table) == Touches(lib, ts, "cache_hit", "", table)
  }

  lemma RowIs(lib: Library, c: Command, ts: seq<Trace>)
    ensures var row := CountedAll(lib, NewRow(c), ts);
            RowSays(lib, row, c, ts) && forall table :: TablesSay(lib, row, ts, table)
  {
    TimesAddUp(lib, NewRow(c), ts);
    forall table ensures TablesSay(lib, CountedAll(lib, NewRow(c), ts), ts, table) {
      TalliesAddUp(lib, NewRow(c), ts, table);
    }
  }

  /** The exception of the first message that cannot be counted. */
  function FirstBad(lib: Library, ts: seq<Trace>): Option<Error> {
    if ts == [] then None
    else if CanCount(lib, ts[0].db) then FirstBad(lib, ts[1..])
    else Some(if Seconds(lib, ts[0].db) == None then ValueError else KeyError)
  }

  lemma {:induction false} RefusalIsText(lib: Library, ts: seq<Trace>)
    ensures FirstRefusal(lib, ts) == FirstBad(lib, ts)
  {
    if ts != [] {
      TallyIsText(lib, ts[0].db);
      RefusalIsText(lib, ts[1..]);
    }
  }

  /** The row is that of command `i` and the traces that belong to it, all of which can be counted. */
  ghost predicate TellsOf(lib: Library, row: Row, cs: seq<Command>, i: nat, ts: seq<Trace>)
    requires AllTimed(lib, cs) && i < |cs|
  {
    var own := Taken(lib, cs, i, ts);
    && FirstBad(lib, own) == None
    && RowSays(lib, row, cs[i], own) && forall table :: TablesSay(lib, row, own, table)
  }

  /**
   * The rows are those of the commands in order. The report has all of them, or ends with the exception of the first
   * message that belongs to the next command and cannot be counted.
   */
  ghost predicate ReportSays(lib: Library, report: Report, cs: seq<Command>, ts: seq<Trace>)
    requires AllTimed(lib, cs)
  {
    var n := |report.rows|;
    && n <= |cs| && (forall i :: 0 <= i < n ==> TellsOf(lib, report.rows[i], cs, i, ts))
    && (report.error == None <==> n == |cs|)
    && (n < |cs| ==> report.error == FirstBad(lib, Taken(lib, cs, n, ts)))
  }

  lemma RightRowTells(lib: Library, row: Row, cs: seq<Command>, i: nat, ts: seq<Trace>)
    requires AllTimed(lib, cs) && AllHaveWindows(lib, cs) && i < |cs|
    requires RightRow(lib, row, cs[i], Owned(Windows(lib, cs), i, ts))
    ensures TellsOf(lib, row, cs, i, ts)
  {
    OwnedIsTaken(lib, cs, i, ts);
    RefusalIsText(lib, Taken(lib, cs, i, ts));
    RowIs(lib, cs[i], Taken(lib, cs, i, ts));
  }

  lemma RightRunSays(lib: Library, report: Report, cs: seq<Command>, ts: seq<Trace>)
    requires AllTimed(lib, cs) && AllHaveWindows(lib, cs) && RightRun(lib, report, cs, ts)
    ensures ReportSays(lib, report, cs, ts)
  {
    var n := |report.rows|;
    forall i | 0 <= i < n ensures TellsOf(lib, report.rows[i], cs, i, ts) {
      RightRowTells(lib, report.rows[i], cs, i, ts);
    }
    if n < |cs| {
      OwnedIsTaken(lib, cs, n, ts);
      RefusalIsText(lib, Taken(lib, cs, n, ts));
    }
  }

  // ----- end to end -----

  /** The records whose date line is delivered, read newest first. */
  function Recorded(lib: Library, rs: seq<LogRecord>): seq<Command>
    requires AllWellFormed(lib, rs)
  {
    NewestFirst(lib, if DateLineWithheld(rs, BUF_SIZE) then rs[1..] else rs)
  }

  /**
   * The statistics of a printed command log and any cluster log whose traces decode and are in time order: a row for
   * every processed command, newest first, that adds up the traces in its time that do not belong to a later command.
   */
  lemma StatisticsOfLogs(lib: Library, rs: seq<LogRecord>, clusterLog: string, specific: Option<string>)
    requires AllWellFormed(lib, rs) && AllTimed(lib, Selection(Recorded(lib, rs), specific))
    requires var traces := Traces(lib, clusterLog, BUF_SIZE);
             EndsWell(traces) && NewestTraceFirst(Items(traces))
    ensures ReportSays(lib, ProcessReport(lib, LogText(rs), clusterLog, None, specific),
                       Selection(Recorded(lib, rs), specific), Items(Traces(lib, clusterLog, BUF_SIZE)))
  {
    var cs, traces := Selection(Recorded(lib, rs), specific), Traces(lib, clusterLog, BUF_SIZE);
    ReadBack(lib, rs, BUF_SIZE);
    ItemsOfSeq(Recorded(lib, rs));
    TimedHaveWindows(lib, cs);
    JoinIsFirstMatch(lib, FromSeq(Recorded(lib, rs)), traces, specific, 0);
    RightRunSays(lib, ProcessReport(lib, LogText(rs), clusterLog, None, specific), cs, Items(traces));
  }

  /** A limit of at least one row takes so many rows of the report, a filter switches it off. */
  lemma LimitOfLogs(lib: Library, commandLog: string, clusterLog: string, n: int, specific: Option<string>)
    ensures var all := ProcessReport(lib, commandLog, clusterLog, None, specific);
            ProcessReport(lib, commandLog, clusterLog, Some(n), specific)
            == if specific == None && 1 <= n <= |all.rows| then Report(all.rows[..n], None) else all
  {
    LatestIsPrefix(lib, Commands(lib, commandLog, BUF_SIZE), Traces(lib, clusterLog, BUF_SIZE), n, specific, 0);
  }

  /** The row of the only command in a log: all traces in its time, and no others. */
  lemma OneCommand(lib: Library, commandLog: string, c: Command, clusterLog: string)
    requires Commands(lib, commandLog, BUF_SIZE) == FromSeq([c]) && Timed(lib, c)
    requires var traces := Traces(lib, clusterLog, BUF_SIZE);
             EndsWell(traces) && NewestTraceFirst(Items(traces))
    ensures var report := ProcessReport(lib, commandLog, clusterLog, None, None);
            var held := Within(StartOf(lib, c), c.elapsed, Items(Traces(lib, clusterLog, BUF_SIZE)));
            && report.error == FirstBad(lib, held)
            && (report.error == None ==>
                  && |report.rows| == 1 && RowSays(lib, report.rows[0], c, held)
                  && forall table :: TablesSay(lib, report.rows[0], held, table))
  {
    var cs, traces := [c], Traces(lib, clusterLog, BUF_SIZE);
    ItemsOfSeq(cs);
    assert Selection(cs, None) == cs;
    TimedHaveWindows(lib, cs);
    JoinIsFirstMatch(lib, FromSeq(cs), traces, None, 0);
    var report := ProcessReport(lib, commandLog, clusterLog, None, None);
    RightRunSays(lib, report, cs, Items(traces));
    TakenByOne(lib, c, Items(traces));
    assert report.error == None ==> TellsOf(lib, report.rows[0], cs, 0, Items(traces));
  }

  /** The traces in this time. */
  function Within(start: int, elapsed: real, ts: seq<Trace>): seq<Trace> {
    if ts == [] then []
    else (if InTime(start, elapsed, ts[0].stamp) then [ts[0]] else []) + Within(start, elapsed, ts[1..])
  }

  lemma {:induction false} TakenByOne(lib: Library, c: Command, ts: seq<Trace>)
    requires Timed(lib, c)
    ensures Taken(lib, [c], 0, ts) == Within(StartOf(lib, c), c.elapsed, ts)
  {
    if ts != [] {
      TakenByOne(lib, c, ts[1..]);
    }
  }
}
