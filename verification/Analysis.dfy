/** The statistics of xCAT-probe/scripts/dbstats.py: accounting and streaming join. */
module Analysis {
  import opened Text
  import opened Streams
  import opened LogReader
  import opened XcatLogs

  // ----- accounting of one record -----

  /** The content of a `record` dictionary; its `%.3f` rounding and CSV form are not part of it. */
  datatype Row = Row(
    command: string, elapsed: real,
    getSqlTime: real, setSqlTime: real, delSqlTime: real,
    getSubTime: real, setSubTime: real, delSubTime: real,
    getTables: map<string, nat>, setTables: map<string, nat>, delTables: map<string, nat>,
    buildCache: map<string, nat>, cacheHit: map<string, nat>)

  const GET := "xCAT::Table::get"
  const SET := "xCAT::Table::set"
  const DEL := "xCAT::Table::del"

  function NewRow(c: Command): Row {
    Row(c.request + "(" + c.date + ")", c.elapsed, 0.0, 0.0, 0.0, 0.0, 0.0, 0.0, map[], map[], map[], map[], map[])
  }

  function Bump(m: map<string, nat>, table: string): map<string, nat> {
    m[table := if table in m then m[table] + 1 else 1]
  }

  /** The values of `data['type']` that are told apart. */
  datatype Kind = EndSql | EndSub | StartSql | BuildCache | CacheHit | OtherKind

  function KindOf(text: string): Kind {
    if text == "end_sql" then EndSql
    else if text == "end" then EndSub
    else if text == "start_sql" then StartSql
    else if text == "build_cache" then BuildCache
    else if text == "cache_hit" then CacheHit
    else OtherKind
  }

  /** The method prefixes that are told apart. */
  datatype Family = Get | Set | Del | OtherMethod

  function FamilyOf(methodName: string): Family {
    if GET <= methodName then Get
    else if SET <= methodName then Set
    else if DEL <= methodName then Del
    else OtherMethod
  }

  /** What `_stat` takes from a message, or the exception that it raises on it. */
  datatype Tally = Tally(kind: Kind, family: Family, table: string, elapsed: real) | Refused(error: Error)

  /** `float(data['elapsed'][:-1])`, 0 without an elapsed time. */
  function ElapsedOf(lib: Library, db: Message): Option<real> {
    if db.elapsed.None? then Some(0.0)
    else lib.toFloat(if db.elapsed.value == [] then [] else db.elapsed.value[..|db.elapsed.value| - 1])
  }

  predicate UsesMethod(kind: Kind) {
    kind == EndSql || kind == EndSub || kind == StartSql
  }

  predicate UsesTable(kind: Kind, family: Family) {
    kind == BuildCache || kind == CacheHit || (kind == StartSql && family != OtherMethod)
  }

  function TallyOf(lib: Library, db: Message): Tally {
    if ElapsedOf(lib, db).None? then Refused(ValueError)
    else if db.kind.None? then Refused(KeyError)
    else TallyOfKind(KindOf(db.kind.value), db.methodName, db.table, ElapsedOf(lib, db).value)
  }

  function TallyOfKind(kind: Kind, methodName: Option<string>, table: Option<string>, elapsed: real): Tally {
    if UsesMethod(kind) && methodName.None? then Refused(KeyError) else
      var family := if UsesMethod(kind) then FamilyOf(methodName.value) else OtherMethod;
      if UsesTable(kind, family) && table.None? then Refused(KeyError)
      else Tally(kind, family, if table.Some? then table.value else "", elapsed)
  }

  /** A row after a message of this kind and family was counted. */
  function AddTo(r: Row, kind: Kind, family: Family, table: string, elapsed: real): Row {
    match (kind, family)
    case (EndSql, Get) => r.(getSqlTime := r.getSqlTime + elapsed)
    case (EndSql, Set) => r.(setSqlTime := r.setSqlTime + elapsed)
    case (EndSql, Del) => r.(delSqlTime := r.delSqlTime + elapsed)
    case (EndSub, Get) => r.(getSubTime := r.getSubTime + elapsed)
    case (EndSub, Set) => r.(setSubTime := r.setSubTime + elapsed)
    case (EndSub, Del) => r.(delSubTime := r.delSubTime + elapsed)
    case (StartSql, Get) => r.(getTables := Bump(r.getTables, table))
    case (StartSql, Set) => r.(setTables := Bump(r.setTables, table))
    case (StartSql, Del) => r.(delTables := Bump(r.delTables, table))
    case (BuildCache, _) => r.(buildCache := Bump(r.buildCache, table))
    case (CacheHit, _) => r.(cacheHit := Bump(r.cacheHit, table))
    case _ => r
  }

  function Add(r: Row, t: Tally): Row {
    if t.Refused? then r else AddTo(r, t.kind, t.family, t.table, t.elapsed)
  }

  function CountedAll(lib: Library, r: Row, ts: seq<Trace>): Row
    decreases ts
  {
    if ts == [] then r else CountedAll(lib, Add(r, TallyOf(lib, ts[0].db)), ts[1..])
  }

  class StatRecord {
    const command: string
    const elapsed: real
    var getSqlTime: real
    var setSqlTime: real
    var delSqlTime: real
    var getSubTime: real
    var setSubTime: real
    var delSubTime: real
    var getTables: map<string, nat>
    var setTables: map<string, nat>
    var delTables: map<string, nat>
    var buildCache: map<string, nat>
    var cacheHit: map<string, nat>

    function View(): Row
      reads this
    {
      Row(command, elapsed, getSqlTime, setSqlTime, delSqlTime, getSubTime, setSubTime, delSubTime,
          getTables, setTables, delTables, buildCache, cacheHit)
    }

    constructor (c: Command)
      ensures View() == NewRow(c)
    {
      command, elapsed := c.request + "(" + c.date + ")", c.elapsed;
      getSqlTime, setSqlTime, delSqlTime := 0.0, 0.0, 0.0;
      getSubTime, setSubTime, delSubTime := 0.0, 0.0, 0.0;
      getTables, setTables, delTables := map[], map[], map[];
      buildCache, cacheHit := map[], map[];
    }

    /** `_stat`; an exception leaves the record alone. */
    method Stat(lib: Library, db: Message) returns (error: Option<Error>)
      modifies this
      ensures var t := TallyOf(lib, db);
              error == (if t.Refused? then Some(t.error) else None) && View() == Add(old(View()), t)
    {
      var elapsed := 0.0;
      if db.elapsed.Some? {
        var number := ElapsedOf(lib, db);
        if number.None? {
          return Some(ValueError);
        }
        elapsed := number.value;
      }
      if db.kind.None? {
        return Some(KeyError);
      }
      error := StatKind(KindOf(db.kind.value), db.methodName, db.table, elapsed);
    }

    /** The tests of `_stat` before a counter is touched, and the branch for the type. */
    method StatKind(kind: Kind, methodName: Option<string>, table: Option<string>, elapsed: real)
      returns (error: Option<Error>)
      modifies this
      ensures var t := TallyOfKind(kind, methodName, table, elapsed);
              error == (if t.Refused? then Some(t.error) else None) && View() == Add(old(View()), t)
    {
      if UsesMethod(kind) && methodName.None? {
        return Some(KeyError);
      }
      var family := if UsesMethod(kind) then FamilyOf(methodName.value) else OtherMethod;
      if UsesTable(kind, family) && table.None? {
        return Some(KeyError);
      }
      Count(Tally(kind, family, if table.Some? then table.value else "", elapsed));
      return None;
    }

    /** The assignments of `_stat`. */
    method Count(t: Tally)
      requires t.Tally?
      modifies this
      ensures View() == Add(old(View()), t)
    {
      match (t.kind, t.family) {
        case (EndSql, Get) => getSqlTime := getSqlTime + t.elapsed;
        case (EndSql, Set) => setSqlTime := setSqlTime + t.elapsed;
        case (EndSql, Del) => delSqlTime := delSqlTime + t.elapsed;
        case (EndSub, Get) => getSubTime := getSubTime + t.elapsed;
        case (EndSub, Set) => setSubTime := setSubTime + t.elapsed;
        case (EndSub, Del) => delSubTime := delSubTime + t.elapsed;
        case (StartSql, Get) => getTables := Bump(getTables, t.table);
        case (StartSql, Set) => setTables := Bump(setTables, t.table);
        case (StartSql, Del) => delTables := Bump(delTables, t.table);
        case (BuildCache, _) => buildCache := Bump(buildCache, t.table);
        case (CacheHit, _) => cacheHit := Bump(cacheHit, t.table);
        case _ =>
      }
    }
  }

  // ----- the join -----

  /** A command's window of seconds, both ends included: the class `TimeStamp`. */
  datatype Window = Window(start: int, end: int)

  /** `int(x)` of Python: the fraction is cut off. */
  function Truncate(x: real): int {
    if x >= 0.0 then x.Floor else -((-x).Floor)
  }

  /** The window of a command, `None` when its date does not parse. */
  function WindowOf(lib: Library, c: Command): Option<Window> {
    match lib.commandTime(c.date)
    case None => None
    case Some(start) => Some(Window(start, start + Truncate(c.elapsed) + 1))
  }

  /** Whether the `-c` option keeps a command. */
  predicate Selected(c: Command, specific: Option<string>) {
    specific.Some? ==> specific.value <= c.request
  }

  function SkipLater(s: Stream<Trace>, end: int): Stream<Trace> {
    if s.More? && s.head.stamp > end then SkipLater(s.tail, end) else s
  }

  function TakeWhileIn(s: Stream<Trace>, start: int): seq<Trace> {
    if s.More? && s.head.stamp >= start then [s.head] + TakeWhileIn(s.tail, start) else []
  }

  /** What is left behind the traces in the window; a message that cannot be counted ends the run. */
  function SkipWhileIn(lib: Library, s: Stream<Trace>, start: int): Stream<Trace> {
    if s.More? && s.head.stamp >= start then
      var t := TallyOf(lib, s.head.db);
      if t.Refused? then Fail(t.error) else SkipWhileIn(lib, s.tail, start)
    else s
  }

  /** One command's row with the traces left for older commands, or the exception that stopped it. */
  datatype Turn = Attributed(row: Row, older: Stream<Trace>) | Stopped(error: Error)

  /** The traces after the window are dropped, those in it are counted. */
  function Attribute(lib: Library, c: Command, ts: Stream<Trace>): Turn {
    match WindowOf(lib, c)
    case None => Stopped(ValueError)
    case Some(w) =>
      var inWindow := SkipLater(ts, w.end);
      var older := SkipWhileIn(lib, inWindow, w.start);
      if older.Fail? then Stopped(older.error)
      else Attributed(CountedAll(lib, NewRow(c), TakeWhileIn(inWindow, w.start)), older)
  }

  /** The printed rows and the exception, if any, that ended the run. */
  datatype Report = Report(rows: seq<Row>, error: Option<Error>)

  /** The run of `process` on what the two readers deliver, from the `index`-th printed row on. */
  function Run(lib: Library, cs: Stream<Command>, ts: Stream<Trace>, latest: Option<int>,
               specific: Option<string>, index: nat): Report
  {
    match cs
    case End => Report([], None)
    case Fail(e) => Report([], Some(e))
    case More(c, rest) =>
      if !Selected(c, specific) then Run(lib, rest, ts, latest, specific, index) else
        match Attribute(lib, c, ts)
        case Stopped(e) => Report([], Some(e))
        case Attributed(row, older) =>
          if latest == Some(index + 1) then Report([row], None) else
            var later := Run(lib, rest, older, latest, specific, index + 1);
            Report([row] + later.rows, later.error)
  }

  /** `r` with rows printed before it. */
  function After(rows: seq<Row>, r: Report): Report {
    Report(rows + r.rows, r.error)
  }

  /** One printed row of a run. */
  lemma RunPrints(lib: Library, c: Command, rest: Stream<Command>, ts: Stream<Trace>, latest: Option<int>,
                  specific: Option<string>, index: nat, printed: seq<Row>)
    requires Selected(c, specific) && Attribute(lib, c, ts).Attributed?
    ensures var turn := Attribute(lib, c, ts);
            After(printed, Run(lib, More(c, rest), ts, latest, specific, index))
            == After(printed + [turn.row],
                     if latest == Some(index + 1) then Report([], None)
                     else Run(lib, rest, turn.older, latest, specific, index + 1))
  {
    var turn := Attribute(lib, c, ts);
    if latest != Some(index + 1) {
      var later := Run(lib, rest, turn.older, latest, specific, index + 1);
      assert printed + ([turn.row] + later.rows) == printed + [turn.row] + later.rows;
    }
  }

  class Printer {
    var rows: seq<Row>

    constructor ()
      ensures rows == []
    {
      rows := [];
    }

    /** `_print_csv` */
    method Print(row: Row)
      modifies this
      ensures rows == old(rows) + [row]
    {
      rows := rows + [row];
    }
  }

  /** What `process` computes for two log texts and its two options. */
  function ProcessReport(lib: Library, commandLog: string, clusterLog: string,
                         latest: Option<int>, specific: Option<string>): Report
  {
    Run(lib, Commands(lib, commandLog, BUF_SIZE), Traces(lib, clusterLog, BUF_SIZE),
        if specific.Some? then None else latest, specific, 0)
  }

  /** What the cursor `trace` and the reader behind it still hold. */
  function Ahead(trace: Option<Trace>, rest: Stream<Trace>): Stream<Trace> {
    if trace.Some? then More(trace.value, rest) else rest
  }

  /** `trace = db_reader.get_next()`; an exception leaves the cursor alone. */
  method Advance(reader: TraceReader) returns (trace: Option<Trace>, error: Option<Error>)
    requires reader.Valid()
    modifies reader
    ensures reader.Valid()
    ensures error == if old(reader.rest).Fail? then Some(old(reader.rest).error) else None
    ensures error.None? ==> Ahead(trace, reader.rest) == old(reader.rest)
    ensures error.None? && trace.None? ==> reader.rest == End
  {
    var f := reader.GetNext();
    match f {
      case Got(t) =>
        return Some(t), None;
      case Nothing =>
        assert reader.atBlock == reader.state;
        return None, None;
      case Raised(e) =>
        return None, Some(e);
    }
  }

  /** `while trace and trace['stamp'] > stamp.end` */
  method SkipLaterTraces(reader: TraceReader, trace0: Option<Trace>, end: int)
    returns (trace: Option<Trace>, error: Option<Error>)
    requires reader.Valid() && (trace0.None? ==> reader.rest == End)
    modifies reader
    ensures reader.Valid()
    ensures var left := SkipLater(old(Ahead(trace0, reader.rest)), end);
            && (error.Some? <==> left.Fail?)
            && (error.Some? ==> error.value == left.error)
            && (error.None? ==> Ahead(trace, reader.rest) == left)
    ensures error.None? && trace.None? ==> reader.rest == End
  {
    trace, error := trace0, None;
    while trace.Some? && trace.value.stamp > end
      invariant reader.Valid() && error.None? && (trace.None? ==> reader.rest == End)
      invariant SkipLater(Ahead(trace, reader.rest), end) == SkipLater(old(Ahead(trace0, reader.rest)), end)
      decreases Ahead(trace, reader.rest)
    {
      trace, error := Advance(reader);
      if error.Some? {
        return;
      }
    }
  }

  /** `while trace and trace['stamp'] >= stamp.start` */
  method CountTraces(lib: Library, reader: TraceReader, trace0: Option<Trace>, start: int, record: StatRecord)
    returns (trace: Option<Trace>, error: Option<Error>)
    requires reader.Valid() && (trace0.None? ==> reader.rest == End)
    modifies reader, record
    ensures reader.Valid()
    ensures var ahead := old(Ahead(trace0, reader.rest));
            var left := SkipWhileIn(lib, ahead, start);
            && (error.Some? <==> left.Fail?)
            && (error.Some? ==> error.value == left.error)
            && (error.None? ==> Ahead(trace, reader.rest) == left)
            && (error.None? ==> record.View() == CountedAll(lib, old(record.View()), TakeWhileIn(ahead, start)))
    ensures error.None? && trace.None? ==> reader.rest == End
  {
    trace, error := trace0, None;
    ghost var ahead := Ahead(trace0, reader.rest);
    while trace.Some? && trace.value.stamp >= start
      invariant reader.Valid() && error.None? && (trace.None? ==> reader.rest == End)
      invariant SkipWhileIn(lib, Ahead(trace, reader.rest), start) == SkipWhileIn(lib, ahead, start)
      invariant CountedAll(lib, record.View(), TakeWhileIn(Ahead(trace, reader.rest), start))
                == CountedAll(lib, old(record.View()), TakeWhileIn(ahead, start))
      decreases Ahead(trace, reader.rest)
    {
      error := record.Stat(lib, trace.value.db);
      if error.Some? {
        return;
      }
      trace, error := Advance(reader);
      if error.Some? {
        return;
      }
    }
  }

  /** The part of the loop body of `process` that fills one record. */
  method FillRecord(lib: Library, c: Command, reader: TraceReader, trace0: Option<Trace>)
    returns (trace: Option<Trace>, row: Option<Row>, error: Option<Error>)
    requires reader.Valid()
    modifies reader
    ensures reader.Valid()
    ensures var turn := Attribute(lib, c, old(Ahead(trace0, reader.rest)));
            && (turn.Stopped? ==> error == Some(turn.error))
            && (turn.Attributed? ==>
                  error == None && row == Some(turn.row) && Ahead(trace, reader.rest) == turn.older)
  {
    trace, row, error := trace0, None, None;
    var window := WindowOf(lib, c);
    if window.None? {
      error := Some(ValueError);
      return;
    }
    if trace.None? {
      trace, error := Advance(reader);
      if error.Some? {
        return;
      }
    }
    trace, error := SkipLaterTraces(reader, trace, window.value.end);
    if error.Some? {
      return;
    }
    var record := new StatRecord(c);
    trace, error := CountTraces(lib, reader, trace, window.value.start, record);
    if error.None? {
      row := Some(record.View());
    }
  }

  /** The stream whose next `get_next` already gave `f`. */
  function Fetched(f: Fetch<Command>, rest: Stream<Command>): Stream<Command> {
    match f
    case Got(c) => More(c, rest)
    case Nothing => End
    case Raised(e) => Fail(e)
  }

  /** `cmd = cmd_reader.get_next()`, with the other reader untouched. */
  method NextCommand(cmdReader: CommandReader, ghost dbReader: TraceReader) returns (cmd: Fetch<Command>)
    requires cmdReader.Valid() && dbReader.Valid() && cmdReader as object != dbReader as object
    modifies cmdReader
    ensures cmdReader.Valid() && dbReader.Valid() && dbReader.rest == old(dbReader.rest)
    ensures Fetched(cmd, if cmd.Got? then cmdReader.rest else End) == old(cmdReader.rest)
  {
    cmd := cmdReader.GetNext();
  }

  /** The loop of `process`: rows are printed as they are computed, and an exception ends the run. */
  method JoinLogs(lib: Library, cmdReader: CommandReader, dbReader: TraceReader, latest: Option<int>,
                  specific: Option<string>, out: Printer) returns (error: Option<Error>)
    requires cmdReader.Valid() && dbReader.Valid() && cmdReader as object != dbReader as object
    modifies cmdReader, dbReader, out
    ensures Report(out.rows, error)
            == old(After(out.rows, Run(lib, cmdReader.rest, dbReader.rest, latest, specific, 0)))
  {
    ghost var report := After(out.rows, Run(lib, cmdReader.rest, dbReader.rest, latest, specific, 0));
    var cmd := NextCommand(cmdReader, dbReader);
    var trace, row, index := None, None, 0;
    while cmd.Got?
      invariant cmdReader.Valid() && dbReader.Valid()
      invariant report == After(out.rows, Run(lib, Fetched(cmd, cmdReader.rest), Ahead(trace, dbReader.rest),
                                              latest, specific, index))
      decreases Fetched(cmd, cmdReader.rest)
    {
      if specific.Some? && !(specific.value <= cmd.value.request) {
        cmd := NextCommand(cmdReader, dbReader);
        continue;
      }
      ghost var printed, ahead := out.rows, Ahead(trace, dbReader.rest);
      trace, row, error := FillRecord(lib, cmd.value, dbReader, trace);
      if error.Some? {
        return;
      }
      RunPrints(lib, cmd.value, cmdReader.rest, ahead, latest, specific, index, printed);
      out.Print(row.value);
      index := index + 1;
      if latest.Some? && index == latest.value {
        break;
      }
      cmd := NextCommand(cmdReader, dbReader);
    }
    error := if cmd.Raised? then Some(cmd.error) else None;
  }

  /** `Analysis.process` */
  method Process(lib: Library, commandLog: string, clusterLog: string, latest: Option<int>,
                 specific: Option<string>, out: Printer) returns (error: Option<Error>)
    modifies out
    ensures Report(out.rows, error)
            == After(old(out.rows), ProcessReport(lib, commandLog, clusterLog, latest, specific))
  {
    var cmdReader: CommandReader := new Reader(commandLog, BUF_SIZE, CommandStep(lib), NOTHING_YET);
    var dbReader: TraceReader := new Reader(clusterLog, BUF_SIZE, TraceStep(lib), ());
    error := JoinLogs(lib, cmdReader, dbReader, if specific.Some? then None else latest, specific, out);
  }
}
