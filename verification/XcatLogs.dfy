/** The two log formats that xCAT-probe/scripts/dbstats.py reads, and the printer of the command log. */
module XcatLogs {
  import opened Text
  import opened Streams
  import opened LogReader

  /** A decoded trace message: its `type`, the `method` and `table` of its `msg`, and its `elapsed`, each if present. */
  datatype Message = Message(
    kind: Option<string>, methodName: Option<string>, table: Option<string>, elapsed: Option<string>)

  /**
   * The library calls the script makes, as arbitrary total functions: `float`, the two `strptime` and
   * `mktime` pairs, and `json.loads`. `None` stands for the `ValueError` each of them can raise.
   */
  datatype Library = Library(
    toFloat: string -> Option<real>,
    commandTime: string -> Option<int>,
    syslogTime: string -> Option<int>,
    json: string -> Option<Message>)

  // ----- the command log -----

  datatype Command = Command(elapsed: real, request: string, date: string)

  /** The half-built `cmd` dictionary. */
  datatype Partial = Partial(elapsed: Option<real>, request: Option<string>, date: Option<string>)

  const NOTHING_YET := Partial(None, None, None)

  type CommandReader = Reader<Partial, Command>

  /** `" ".join(b.rstrip().split(' ')[1:]).strip().replace(',', ' ')` */
  function RequestText(line: string): string {
    ReplaceChar(Strip(Join(Split(RightStrip(line), ' ')[1..], ' ')), ',', ' ')
  }

  /** What the loop body of `CommandReader._get_next` does with one line. */
  function ScanCommandLine(lib: Library, cmd: Partial, line: string): Scanned<Partial, Command> {
    if Find(line, "[ElapsedTime]") == 0 then
      var words := Split(line, ' ');
      if |words| < 2 then Raise(IndexError) else
        match lib.toFloat(words[1])
        case None => Raise(ValueError)
        case Some(x) => Keep(cmd.(elapsed := Some(x)))
    else if Find(line, "[Request]") == 0 then
      Keep(cmd.(request := Some(RequestText(line))))
    else if Find(line, "[Date]") == 0 then
      var words := Split(line, ' ');
      if |words| < 2 then Raise(IndexError) else
        var date := words[|words| - 2] + " " + words[|words| - 1];
        if cmd.request.Some? && cmd.elapsed.Some? then
          Emit(Command(cmd.elapsed.value, cmd.request.value, date), NOTHING_YET)
        else Keep(cmd.(date := Some(date)))
    else Keep(cmd)
  }

  function CommandStep(lib: Library): Step<Partial, Command> {
    (cmd, line) => ScanCommandLine(lib, cmd, line)
  }

  /** The commands of a log text, newest first, as a reader with this block size returns them. */
  function Commands(lib: Library, content: string, block: nat): Stream<Command>
    requires block > 0
  {
    Scan(CommandStep(lib), Delivered(content, block), NOTHING_YET)
  }

  // ----- the cluster log -----

  datatype Trace = Trace(stamp: int, db: Message)

  type TraceReader = Reader<(), Trace>

  /** `s[from:to]` of Python for `from >= 0`, where `to` may lie before `from`. */
  function Slice(s: string, from: nat, to: int): string {
    if from <= to <= |s| then s[from..to] else ""
  }

  const TRACE_TAG := "[DB Trace]:"

  /** What the loop body of `DBTraceReader._get_next` does with one line. */
  function ScanTraceLine(lib: Library, line: string): Scanned<(), Trace> {
    var pos := Find(line, TRACE_TAG);
    if pos == -1 then Keep(()) else DecodeTrace(lib, line, pos)
  }

  /** `b[0:15]` */
  function DateText(line: string): string {
    if |line| >= 15 then line[0..15] else line
  }

  /** A line with the tag at `pos`: the date, then the message, without its last character if that is a second try. */
  function DecodeTrace(lib: Library, line: string, pos: nat): Scanned<(), Trace> {
    match lib.syslogTime(DateText(line))
    case None => Raise(ValueError)
    case Some(stamp) =>
      match lib.json(Slice(line, pos + 12, |line|))
      case Some(db) => Emit(Trace(stamp, db), ())
      case None =>
        if Find(line, "message repeated") == -1 then Raise(ValueError) else
          match lib.json(Slice(line, pos + 12, |line| - 1))
          case Some(db) => Emit(Trace(stamp, db), ())
          case None => Raise(ValueError)
  }

  function TraceStep(lib: Library): Step<(), Trace> {
    (_, line) => ScanTraceLine(lib, line)
  }

  function Traces(lib: Library, content: string, block: nat): Stream<Trace>
    requires block > 0
  {
    Scan(TraceStep(lib), Delivered(content, block), ())
  }

  /** The message text of a line whose tag is at `pos`: what stands behind the tag and one character, if any. */
  function TextBehind(line: string, pos: nat): string {
    Slice(line, pos + 12, |line|)
  }

  /** Whether the message text decodes as it is, or is decoded without the bracket that syslog added. */
  function MessageOf(lib: Library, line: string, text: string): Option<Message> {
    if lib.json(text).Some? then lib.json(text)
    else if Find(line, "message repeated") != -1 && text != [] then lib.json(text[..|text| - 1])
    else None
  }

  /**
   * A line with the tag yields the message behind the first one. If that does not decode and syslog marked the line as
   * repeated, the text without its last character, the bracket that syslog added, is decoded instead; every other
   * failure to decode, of the date or of the message, raises an exception.
   */
  lemma TraceLineReads(lib: Library, line: string, pos: nat)
    requires Find(line, TRACE_TAG) == pos
    ensures var stamp, db := lib.syslogTime(DateText(line)), MessageOf(lib, line, TextBehind(line, pos));
            ScanTraceLine(lib, line)
            == if stamp.Some? && db.Some? then Emit(Trace(stamp.value, db.value), ()) else Raise(ValueError)
  {
    TagFound(lib, line, pos);
    MessageDecodes(lib, line, pos);
  }

  lemma TagFound(lib: Library, line: string, pos: nat)
    requires Find(line, TRACE_TAG) == pos
    ensures ScanTraceLine(lib, line) == DecodeTrace(lib, line, pos)
  {
  }

  lemma MessageDecodes(lib: Library, line: string, pos: nat)
    ensures var stamp, db := lib.syslogTime(DateText(line)), MessageOf(lib, line, TextBehind(line, pos));
            DecodeTrace(lib, line, pos)
            == if stamp.Some? && db.Some? then Emit(Trace(stamp.value, db.value), ()) else Raise(ValueError)
  {
    var from := pos + 12;
    if from < |line| {
      assert line[from..|line|][..|line| - from - 1] == line[from..|line| - 1];
    }
  }

  /** A line without the tag is passed over. */
  lemma UntaggedLinePassed(lib: Library, line: string)
    ensures ScanTraceLine(lib, line) == Keep(()) <==> forall q :: 0 <= q <= |line| ==> !(TRACE_TAG <= line[q..])
  {
    var pos := Find(line, TRACE_TAG);
    if pos != -1 {
      assert TRACE_TAG <= line[pos..];
    }
  }

  /** The line that the daemons write: the date in 15 characters, the rest of the head, the tag, the message. */
  function WrittenLine(date: string, host: string, text: string): string {
    date + host + ("[DB Trace]:" + " " + text)
  }

  lemma WrittenParts(date: string, host: string, text: string)
    requires |date| == 15
    requires forall q :: 0 <= q < |date + host| ==> !("[DB Trace]:" <= WrittenLine(date, host, text)[q..])
    ensures var line := WrittenLine(date, host, text);
            Find(line, TRACE_TAG) == |date + host| && DateText(line) == date && TextBehind(line, |date + host|) == text
  {
    var line, head := WrittenLine(date, host, text), date + host;
    assert line[|head|..] == TRACE_TAG + (" " + text);
    FindIs(line, TRACE_TAG, |head|);
    assert line[|head| + 12..|line|] == text;
    assert line[0..15] == date;
  }

  /**
   * A written line gives its date and its message. A line that syslog marked as repeated and whose text does not
   * decode has a bracket behind its message, which is taken off.
   */
  lemma WrittenTraceLine(lib: Library, date: string, host: string, text: string)
    requires |date| == 15
    requires forall q :: 0 <= q < |date + host| ==> !("[DB Trace]:" <= WrittenLine(date, host, text)[q..])
    ensures var line := WrittenLine(date, host, text);
            var repeated := lib.json(text) == None && Find(line, "message repeated") != -1 && text != [];
            var db := if repeated then lib.json(text[..|text| - 1]) else lib.json(text);
            ScanTraceLine(lib, line)
            == if lib.syslogTime(date).Some? && db.Some? then Emit(Trace(lib.syslogTime(date).value, db.value), ())
               else Raise(ValueError)
  {
    WrittenParts(date, host, text);
    TraceLineReads(lib, WrittenLine(date, host, text), |date + host|);
  }

  /** The traces of the lines that hold one, newest first. */
  function TraceItems(lib: Library, lines: seq<string>): seq<Trace> {
    if lines == [] then [] else
      var scanned := ScanTraceLine(lib, lines[0]);
      TraceItems(lib, lines[1..]) + if scanned.Emit? then [scanned.item] else []
  }

  /** Scanning lines that all decode hands out exactly the traces in them, from the last line to the first. */
  lemma {:induction false} TracesOfLines(lib: Library, lines: seq<string>)
    requires forall i :: 0 <= i < |lines| ==> !ScanTraceLine(lib, lines[i]).Raise?
    ensures Scan(TraceStep(lib), lines, ()) == FromSeq(TraceItems(lib, lines))
    decreases |lines|
  {
    if lines != [] {
      var older, last := lines[..|lines| - 1], lines[|lines| - 1];
      TracesOfLines(lib, older);
      var scanned, items := ScanTraceLine(lib, last), TraceItems(lib, older);
      assert lines == older + [last];
      TraceItemsLast(lib, older, last);
      ScanLast(TraceStep(lib), older, last, ());
      if scanned.Emit? {
        assert ([scanned.item] + items)[1..] == items;
      } else {
        assert [] + items == items;
      }
    }
  }

  lemma {:induction false} TraceItemsLast(lib: Library, older: seq<string>, last: string)
    ensures var scanned := ScanTraceLine(lib, last);
            TraceItems(lib, older + [last]) == (if scanned.Emit? then [scanned.item] else []) + TraceItems(lib, older)
    decreases |older|
  {
    if older == [] {
      assert older + [last] == [last] && [last][1..] == [];
    } else {
      TraceItemsLast(lib, older[1..], last);
      assert (older + [last])[1..] == older[1..] + [last];
    }
  }

  // ----- calling a reader again after it returned None -----

  /** The half-built command after a scan of `lines` that hands out nothing. */
  function Leftover(lib: Library, lines: seq<string>, cmd: Partial): Partial
    decreases |lines|
  {
    if lines == [] then cmd else
      var scanned := ScanCommandLine(lib, cmd, lines[|lines| - 1]);
      if scanned.Keep? then Leftover(lib, lines[..|lines| - 1], scanned.state) else cmd
  }

  /** Some line starts with `tag`. */
  predicate HasTag(lines: seq<string>, tag: string) {
    exists i :: 0 <= i < |lines| && tag <= lines[i]
  }

  lemma HasTagLast(older: seq<string>, last: string, tag: string)
    ensures HasTag(older + [last], tag) <==> HasTag(older, tag) || tag <= last
  {
    var lines := older + [last];
    assert lines[|older|] == last;
    assert forall i :: 0 <= i < |older| ==> lines[i] == older[i];
  }

  /** Which of the tests in the loop body a line passes. */
  lemma Tests(line: string)
    ensures Find(line, "[ElapsedTime]") == 0 <==> "[ElapsedTime]" <= line
    ensures Find(line, "[Request]") == 0 <==> "[Request]" <= line
    ensures Find(line, "[Date]") == 0 <==> "[Date]" <= line
    ensures "[Date]" <= line ==> !("[ElapsedTime]" <= line) && !("[Request]" <= line)
    ensures "[Request]" <= line ==> !("[ElapsedTime]" <= line)
  {
    assert "[Date]" <= line ==> line[1] == "[Date]"[1] == 'D';
    assert "[Request]" <= line ==> line[1] == "[Request]"[1] == 'R';
    assert "[ElapsedTime]" <= line ==> line[1] == "[ElapsedTime]"[1] == 'E';
    FindAtStart(line, "[ElapsedTime]");
    FindAtStart(line, "[Request]");
    FindAtStart(line, "[Date]");
  }

  lemma TwoWordsIff(line: string)
    ensures |Split(line, ' ')| >= 2 <==> ' ' in line
  {
    if ' ' !in line {
      SplitWhole(line, ' ');
    } else if |Split(line, ' ')| == 1 {
      JoinSplit(line, ' ');
      SplitPieces(line, ' ');
    }
  }

  /** The lines that raise an exception: a time or a date without a blank, and an elapsed time that is no number. */
  lemma LineRaisesIff(lib: Library, cmd: Partial, line: string)
    ensures var scanned := ScanCommandLine(lib, cmd, line);
            && (scanned == Raise(IndexError) <==> ("[ElapsedTime]" <= line || "[Date]" <= line) && ' ' !in line)
            && (scanned == Raise(ValueError) <==>
                  "[ElapsedTime]" <= line && ' ' in line && lib.toFloat(Split(line, ' ')[1]) == None)
            && scanned != Raise(KeyError)
  {
    Tests(line);
    TwoWordsIff(line);
  }

  /** What a scan that hands out nothing leaves set: what was set before, and what it met a line for. */
  lemma {:induction false} LeftoverFields(lib: Library, lines: seq<string>, cmd: Partial)
    requires Scan(CommandStep(lib), lines, cmd) == End
    ensures Leftover(lib, lines, cmd).request.Some? <==> cmd.request.Some? || HasTag(lines, "[Request]")
    ensures Leftover(lib, lines, cmd).elapsed.Some? <==> cmd.elapsed.Some? || HasTag(lines, "[ElapsedTime]")
    decreases |lines|
  {
    if lines != [] {
      var older, last := lines[..|lines| - 1], lines[|lines| - 1];
      var scanned := ScanCommandLine(lib, cmd, last);
      assert scanned == CommandStep(lib)(cmd, last);
      LeftoverFields(lib, older, scanned.state);
      Tests(last);
      assert lines == older + [last];
      HasTagLast(older, last, "[Request]");
      HasTagLast(older, last, "[ElapsedTime]");
    }
  }

  /** A second scan with a complete half-built command hands out a command exactly when there is a date line. */
  lemma {:induction false} RescanComplete(lib: Library, lines: seq<string>, cmd: Partial, again: Partial)
    requires Scan(CommandStep(lib), lines, cmd) == End
    requires again.request.Some? && again.elapsed.Some?
    ensures Scan(CommandStep(lib), lines, again) == End <==> !HasTag(lines, "[Date]")
    decreases |lines|
  {
    if lines != [] {
      var last := lines[|lines| - 1];
      var older := lines[..|lines| - 1];
      var scanned := CommandStep(lib)(cmd, last);
      assert scanned == ScanCommandLine(lib, cmd, last);
      assert CommandStep(lib)(again, last) == ScanCommandLine(lib, again, last);
      Tests(last);
      assert lines == older + [last];
      HasTagLast(older, last, "[Date]");
      if !("[Date]" <= last) {
        RescanComplete(lib, older, scanned.state, ScanCommandLine(lib, again, last).state);
      }
    }
  }

  /** Without a request line every later scan goes without a command. */
  lemma {:induction false} RescanWithoutRequest(lib: Library, lines: seq<string>, cmd: Partial, again: Partial)
    requires Scan(CommandStep(lib), lines, cmd) == End
    requires !HasTag(lines, "[Request]") && again.request.None?
    ensures Scan(CommandStep(lib), lines, again) == End
    decreases |lines|
  {
    if lines != [] {
      var last, older := lines[|lines| - 1], lines[..|lines| - 1];
      var first, second := ScanCommandLine(lib, cmd, last), ScanCommandLine(lib, again, last);
      assert first == CommandStep(lib)(cmd, last) && second == CommandStep(lib)(again, last);
      assert lines == older + [last];
      HasTagLast(older, last, "[Request]");
      Tests(last);
      RescanWithoutRequest(lib, older, first.state, second.state);
    }
  }

  /** Without an elapsed time line every later scan goes without a command. */
  lemma {:induction false} RescanWithoutElapsed(lib: Library, lines: seq<string>, cmd: Partial, again: Partial)
    requires Scan(CommandStep(lib), lines, cmd) == End
    requires !HasTag(lines, "[ElapsedTime]") && again.elapsed.None?
    ensures Scan(CommandStep(lib), lines, again) == End
    decreases |lines|
  {
    if lines != [] {
      var last, older := lines[|lines| - 1], lines[..|lines| - 1];
      var first, second := ScanCommandLine(lib, cmd, last), ScanCommandLine(lib, again, last);
      assert first == CommandStep(lib)(cmd, last) && second == CommandStep(lib)(again, last);
      assert lines == older + [last];
      HasTagLast(older, last, "[ElapsedTime]");
      Tests(last);
      RescanWithoutElapsed(lib, older, first.state, second.state);
    }
  }

  /**
   * The last block is not cleared at the start of the file. Scanning it once more after `None` makes up a command
   * exactly when the block has a date line, and a request and an elapsed time were there before it or are in it.
   */
  lemma RescanAfterEnd(lib: Library, lines: seq<string>, cmd: Partial)
    requires Scan(CommandStep(lib), lines, cmd) == End
    ensures Scan(CommandStep(lib), lines, Leftover(lib, lines, cmd)) != End
            <==> && HasTag(lines, "[Date]")
                 && (cmd.request.Some? || HasTag(lines, "[Request]"))
                 && (cmd.elapsed.Some? || HasTag(lines, "[ElapsedTime]"))
  {
    var left := Leftover(lib, lines, cmd);
    LeftoverFields(lib, lines, cmd);
    if left.request.Some? && left.elapsed.Some? {
      RescanComplete(lib, lines, cmd, left);
    } else if left.request.None? {
      RescanWithoutRequest(lib, lines, cmd, left);
    } else {
      RescanWithoutElapsed(lib, lines, cmd, left);
    }
  }
}
