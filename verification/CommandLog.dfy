/** Printing the command log of xcatd and reading it back undo each other. */
module CommandLog {
  import opened Text
  import opened Streams
  import opened LogReader
  import opened XcatLogs

  /**
   * One logged command as the daemon writes it. `before` holds separator lines, `middle` the client type
   * line, `response` everything from `[Response]` to the line before the elapsed time. A quoted argument may put
   * newlines into the request.
   */
  datatype LogRecord = LogRecord(
    before: seq<string>, day: string, time: string, middle: seq<string>,
    request: string, response: seq<string>, elapsed: string)

  function DateLine(r: LogRecord): string {
    "[Date]      " + " " + r.day + " " + r.time
  }

  /** The lines of the request: the command and every argument with a blank behind it. */
  function RequestLines(r: LogRecord): (lines: seq<string>)
  {
    Split("[Request]" + " " + ("   " + r.request) + " ", '\n')
  }

  function ElapsedLine(r: LogRecord): string {
    "[ElapsedTime]" + " " + (r.elapsed + " " + "s")
  }

  function Lines(r: LogRecord): seq<string> {
    r.before + [DateLine(r)] + r.middle + RequestLines(r) + r.response + [ElapsedLine(r)]
  }

  function LogLines(rs: seq<LogRecord>): seq<string> {
    if rs == [] then [] else Lines(rs[0]) + LogLines(rs[1..])
  }

  /** The text of the log file: every line ends in a newline. */
  function LogText(rs: seq<LogRecord>): string {
    Join(LogLines(rs) + [""], '\n')
  }

  predicate Untagged(line: string) {
    !("[ElapsedTime]" <= line) && !("[Request]" <= line) && !("[Date]" <= line)
  }

  predicate Body(lines: seq<string>) {
    forall i :: 0 <= i < |lines| ==> Untagged(lines[i]) && '\n' !in lines[i]
  }

  const WHITE_SPACE: string := " \t\n\U{0b}\U{0c}\r\U{1c}\U{1d}\U{1e}\U{1f}\U{85}\U{a0}"

  /** No white space at either end. */
  predicate Trimmed(s: string) {
    s != [] ==> s[0] !in WHITE_SPACE && s[|s| - 1] !in WHITE_SPACE
  }

  lemma SpacesAre(c: char)
    ensures IsSpace(c) <==> c in WHITE_SPACE
  {
    var i := if c == ' ' then 0 else if c <= '\r' then c as int - 8 else if c <= '\U{1f}' then c as int - 22
             else if c == '\U{85}' then 10 else 11;
    assert IsSpace(c) ==> WHITE_SPACE[i] == c;
  }

  predicate WellFormed(lib: Library, r: LogRecord) {
    && Body(r.before) && Body(r.middle) && Body(r.response) && Body(RequestLines(r)[1..])
    && ' ' !in r.day && '\n' !in r.day && ' ' !in r.time && '\n' !in r.time
    && ' ' !in r.elapsed && '\n' !in r.elapsed && lib.toFloat(r.elapsed).Some?
  }

  predicate AllWellFormed(lib: Library, rs: seq<LogRecord>) {
    forall i :: 0 <= i < |rs| ==> WellFormed(lib, rs[i])
  }

  /** What is read of a request: its first line without white space around it, its commas turned into spaces. */
  function ReadRequest(request: string): string {
    ReplaceChar(Strip(Split(request, '\n')[0]), ',', ' ')
  }

  /** The command that was logged. */
  function Logged(lib: Library, r: LogRecord): Command
    requires WellFormed(lib, r)
  {
    Command(lib.toFloat(r.elapsed).value, ReadRequest(r.request), r.day + " " + r.time)
  }

  /** The logged commands, newest first. */
  function NewestFirst(lib: Library, rs: seq<LogRecord>): seq<Command>
    requires AllWellFormed(lib, rs)
  {
    if rs == [] then [] else NewestFirst(lib, rs[1..]) + [Logged(lib, rs[0])]
  }

  // ----- the text of a log -----

  /** Every line with a newline behind it. */
  function Ended(lines: seq<string>): string {
    if lines == [] then "" else lines[0] + "\n" + Ended(lines[1..])
  }

  lemma {:induction false} JoinIsEnded(lines: seq<string>)
    ensures Join(lines + [""], '\n') == Ended(lines)
  {
    if lines != [] {
      JoinIsEnded(lines[1..]);
      assert (lines + [""])[1..] == lines[1..] + [""];
    }
  }

  lemma {:induction false} EndedAppend(a: seq<string>, b: seq<string>)
    ensures Ended(a + b) == Ended(a) + Ended(b)
  {
    if a == [] {
      assert a + b == b;
    } else {
      EndedAppend(a[1..], b);
      assert (a + b)[0] == a[0] && (a + b)[1..] == a[1..] + b;
      AppendTwice(a[0] + "\n", Ended(a[1..]), Ended(b));
    }
  }

  /** Cutting a text into lines and ending each of them ends the text. */
  lemma EndedSplit(text: string)
    ensures Ended(Split(text, '\n')) == text + "\n"
  {
    JoinSplit(text, '\n');
    JoinAppend(Split(text, '\n'), [""], '\n');
    JoinIsEnded(Split(text, '\n'));
    assert text + ['\n'] + "" == text + "\n";
  }

  lemma EndedLine(line: string)
    ensures Ended([line]) == line + "\n"
  {
    assert Ended([line][1..]) == "";
  }

  /** A record as the daemon prints it. */
  lemma RecordText(r: LogRecord)
    ensures Ended(Lines(r))
            == Ended(r.before) + ("[Date]       " + r.day + " " + r.time + "\n") + Ended(r.middle)
               + ("[Request]    " + r.request + " \n") + Ended(r.response) + ("[ElapsedTime] " + r.elapsed + " s\n")
  {
    var date, request, elapsed := [DateLine(r)], RequestLines(r), [ElapsedLine(r)];
    EndedAppend(r.before + date + r.middle + request + r.response, elapsed);
    EndedAppend(r.before + date + r.middle + request, r.response);
    EndedAppend(r.before + date + r.middle, request);
    EndedAppend(r.before + date, r.middle);
    EndedAppend(r.before, date);
    LineTexts(r);
  }

  lemma LineTexts(r: LogRecord)
    ensures Ended([DateLine(r)]) == "[Date]       " + r.day + " " + r.time + "\n"
    ensures Ended(RequestLines(r)) == "[Request]    " + r.request + " \n"
    ensures Ended([ElapsedLine(r)]) == "[ElapsedTime] " + r.elapsed + " s\n"
  {
    EndedLine(DateLine(r));
    EndedLine(ElapsedLine(r));
    EndedSplit("[Request]" + " " + ("   " + r.request) + " ");
  }

  /** The log is its records one after the other. */
  lemma {:induction false} TextOfLog(rs: seq<LogRecord>)
    ensures LogText([]) == ""
    ensures rs != [] ==> LogText(rs) == Ended(Lines(rs[0])) + LogText(rs[1..])
  {
    JoinIsEnded(LogLines(rs));
    if rs != [] {
      JoinIsEnded(LogLines(rs[1..]));
      EndedAppend(Lines(rs[0]), LogLines(rs[1..]));
    }
  }

  // ----- single lines -----

  lemma TaggedWords(tag: string, rest: string)
    requires ' ' !in tag
    ensures Split(tag + " " + rest, ' ')[1..] == Split(rest, ' ')
  {
    SplitTwo(tag, rest, ' ');
    SplitWhole(tag, ' ');
  }

  lemma LastWord(front: string, word: string)
    requires ' ' !in word
    ensures Split(front + " " + word, ' ') == Split(front, ' ') + [word]
  {
    SplitTwo(front, word, ' ');
    SplitWhole(word, ' ');
  }

  lemma DateLineParts(r: LogRecord)
    requires ' ' !in r.day && ' ' !in r.time
    ensures var words := Split(DateLine(r), ' ');
            |words| >= 2 && words[|words| - 2] == r.day && words[|words| - 1] == r.time
  {
    LastWord("[Date]      " + " " + r.day, r.time);
    LastWord("[Date]      ", r.day);
  }

  lemma ElapsedLineParts(r: LogRecord)
    requires ' ' !in r.elapsed
    ensures var words := Split(ElapsedLine(r), ' '); |words| >= 2 && words[1] == r.elapsed
  {
    TaggedWords("[ElapsedTime]", r.elapsed + " " + "s");
    LastWord(r.elapsed, "s");
    SplitWhole(r.elapsed, ' ');
  }

  // ----- the request -----

  lemma LeftStripSpaces(s: string)
    ensures LeftStrip("   " + s) == LeftStrip(s)
  {
    assert ("   " + s)[1..] == "  " + s;
    assert ("  " + s)[1..] == " " + s;
    assert (" " + s)[1..] == s;
    assert LeftStrip(" " + s) == LeftStrip(s);
    assert LeftStrip("  " + s) == LeftStrip(" " + s);
  }

  predicate Blank(s: string) {
    forall i :: 0 <= i < |s| ==> IsSpace(s[i])
  }

  /** White space at the end of a text goes first, whatever it follows. */
  lemma {:induction false} RightStripAppend(front: string, s: string)
    ensures RightStrip(front + s) == if Blank(s) then RightStrip(front) else front + RightStrip(s)
    decreases |s|
  {
    var whole := front + s;
    if s == [] {
      assert whole == front;
    } else {
      var less := s[..|s| - 1];
      assert whole[|whole| - 1] == s[|s| - 1] && whole[..|whole| - 1] == front + less;
      RightStripAppend(front, less);
      assert Blank(s) <==> Blank(less) && IsSpace(s[|s| - 1]) by {
        assert forall i :: 0 <= i < |less| ==> less[i] == s[i];
      }
    }
  }

  lemma {:induction false} RightStripBlank(s: string)
    requires Blank(s)
    ensures RightStrip(s) == []
    decreases |s|
  {
    if s != [] {
      RightStripBlank(s[..|s| - 1]);
    }
  }

  /** White space between a tag and a text stays when the text has something to keep. */
  lemma StripTagged(tag: string, pad: string, s: string)
    requires tag != [] && !IsSpace(tag[|tag| - 1]) && Blank(pad)
    ensures RightStrip(tag + (pad + s)) == if Blank(s) then tag else tag + (pad + RightStrip(s))
  {
    RightStripAppend(tag, pad + s);
    RightStripAppend(pad, s);
    if Blank(pad + s) {
      assert forall i :: 0 <= i < |s| ==> s[i] == (pad + s)[|pad| + i];
    }
  }

  /** Three spaces and a text that ends in none, stripped. */
  lemma StripText(s: string)
    requires !Blank(s)
    ensures Strip("   " + RightStrip(s)) == Strip(s)
  {
    var t := RightStrip(s);
    RightStripTwice(s);
    RightStripAppend("   ", t);
    LeftStripSpaces(t);
  }

  /** A tag, three spaces and any text: the reader makes of such a line the text without white space around it. */
  lemma RequestTextOf(line: string, s: string)
    requires line == "[Request]" + " " + ("   " + s)
    ensures RequestText(line) == ReplaceChar(Strip(s), ',', ' ')
  {
    var tag, rest := "[Request]", "   " + RightStrip(s);
    AppendTwice(tag, " ", "   " + s);
    AppendTwice(" ", "   ", s);
    StripTagged(tag, " " + "   ", s);
    if Blank(s) {
      SplitWhole(tag, ' ');
      RightStripBlank(s);
    } else {
      AppendTwice(" ", "   ", RightStrip(s));
      AppendTwice(tag, " ", rest);
      TaggedWords(tag, rest);
      JoinSplit(rest, ' ');
      StripText(s);
    }
  }

  lemma {:induction false} RightStripTwice(s: string)
    ensures RightStrip(RightStrip(s)) == RightStrip(s)
    ensures !Blank(s) ==> !Blank(RightStrip(s))
    decreases |s|
  {
    if s != [] && IsSpace(s[|s| - 1]) {
      RightStripTwice(s[..|s| - 1]);
    }
  }

  /** The first line of the request; the blank at its end is stripped, one in front of a newline is its own. */
  lemma RequestFirstLine(r: LogRecord)
    ensures var lines := Split(r.request, '\n');
            RequestLines(r)[0] == "[Request]" + " " + ("   " + if |lines| == 1 then lines[0] + " " else lines[0])
  {
    var front := "[Request]" + " " + "   ";
    assert "[Request]" + " " + ("   " + r.request) + " " == front + (r.request + " ");
    SplitWhole(front, '\n');
    SplitWhole(" ", '\n');
    SplitAppend(front, r.request + " ", '\n');
    SplitAppend(r.request, " ", '\n');
    var first := Split(r.request + " ", '\n')[0];
    assert front + first == "[Request]" + " " + ("   " + first);
  }

  lemma RequestLineText(r: LogRecord)
    ensures RequestText(RequestLines(r)[0]) == ReadRequest(r.request)
  {
    var lines := Split(r.request, '\n');
    RequestFirstLine(r);
    RequestTextOf(RequestLines(r)[0], if |lines| == 1 then lines[0] + " " else lines[0]);
    RightStripAppend(lines[0], " ");
  }

  lemma {:induction false} LeftStripShrinks(s: string)
    ensures |LeftStrip(s)| <= |s|
    ensures |LeftStrip(s)| == |s| <==> s == [] || !IsSpace(s[0])
  {
    if s != [] && IsSpace(s[0]) {
      LeftStripShrinks(s[1..]);
    }
  }

  lemma {:induction false} RightStripShrinks(s: string)
    ensures |RightStrip(s)| <= |s| && RightStrip(s) <= s
    ensures |RightStrip(s)| == |s| <==> s == [] || !IsSpace(s[|s| - 1])
    decreases |s|
  {
    if s != [] && IsSpace(s[|s| - 1]) {
      RightStripShrinks(s[..|s| - 1]);
    }
  }

  /** The request is read as it was logged, commas aside, exactly when it is one line without white space around it. */
  lemma RequestKeptIff(request: string)
    ensures ReadRequest(request) == ReplaceChar(request, ',', ' ') <==> '\n' !in request && Trimmed(request)
  {
    var lines := Split(request, '\n');
    var first := lines[0];
    if request != [] {
      SpacesAre(request[0]);
      SpacesAre(request[|request| - 1]);
    }
    RightStripShrinks(first);
    LeftStripShrinks(RightStrip(first));
    if '\n' in request {
      FirstLineShorter(request);
      assert |ReadRequest(request)| < |request|;
    } else {
      SplitWhole(request, '\n');
      if |Strip(first)| == |first| {
        assert RightStrip(first) == first;
        assert Strip(first) == first;
      } else {
        assert |ReadRequest(request)| < |ReplaceChar(request, ',', ' ')|;
      }
    }
  }

  /** Of a request with a newline only the first line is read. */
  lemma NewlineLoses()
    ensures ReadRequest("xdsh\nn1") != ReplaceChar("xdsh\nn1", ',', ' ')
  {
    assert "xdsh\nn1"[4] == '\n';
    RequestKeptIff("xdsh\nn1");
  }

  lemma {:induction false} FirstLineShorter(s: string)
    requires '\n' in s
    ensures |Split(s, '\n')[0]| < |s|
  {
    if s[0] != '\n' {
      assert '\n' in s[1..];
      FirstLineShorter(s[1..]);
    }
  }

  // ----- blocks of lines -----

  /** Lines without a tag change nothing, wherever they stand. */
  lemma {:induction false} SkipBody(lib: Library, older: seq<string>, body: seq<string>, cmd: Partial)
    requires forall i :: 0 <= i < |body| ==> Untagged(body[i])
    ensures Scan(CommandStep(lib), older + body, cmd) == Scan(CommandStep(lib), older, cmd)
    decreases |body|
  {
    if body == [] {
      assert older + body == older;
    } else {
      var last := body[|body| - 1];
      Tests(last);
      assert CommandStep(lib)(cmd, last) == Keep(cmd);
      assert (older + body)[..|older + body| - 1] == older + body[..|body| - 1];
      SkipBody(lib, older, body[..|body| - 1], cmd);
    }
  }

  /** The scan after a line that was kept or that completed a command. */
  lemma OneLine(lib: Library, older: seq<string>, line: string, cmd: Partial)
    ensures var next := ScanCommandLine(lib, cmd, line);
            var whole := Scan(CommandStep(lib), older + [line], cmd);
            && (next.Keep? ==> whole == Scan(CommandStep(lib), older, next.state))
            && (next.Emit? ==> whole == More(next.item, Scan(CommandStep(lib), older, next.state)))
  {
    ScanLast(CommandStep(lib), older, line, cmd);
  }

  lemma ElapsedLineScanned(lib: Library, r: LogRecord, cmd: Partial)
    requires ' ' !in r.elapsed && lib.toFloat(r.elapsed).Some?
    ensures ScanCommandLine(lib, cmd, ElapsedLine(r)) == Keep(cmd.(elapsed := lib.toFloat(r.elapsed)))
  {
    Tests(ElapsedLine(r));
    ElapsedLineParts(r);
  }

  lemma RequestLineScanned(lib: Library, r: LogRecord, cmd: Partial)
    ensures ScanCommandLine(lib, cmd, RequestLines(r)[0]) == Keep(cmd.(request := Some(ReadRequest(r.request))))
  {
    RequestFirstLine(r);
    Tests(RequestLines(r)[0]);
    RequestLineText(r);
  }

  /** The request, met from below: the lines that a newline made of it change nothing, its first line is taken. */
  lemma ScanRequestLines(lib: Library, older: seq<string>, r: LogRecord, elapsed: Option<real>)
    requires Body(RequestLines(r)[1..])
    ensures Scan(CommandStep(lib), older + RequestLines(r), Partial(elapsed, None, None))
            == Scan(CommandStep(lib), older, Partial(elapsed, Some(ReadRequest(r.request)), None))
  {
    var lines := RequestLines(r);
    var cmd := Partial(elapsed, None, None);
    assert older + lines == (older + [lines[0]]) + lines[1..];
    SkipBody(lib, older + [lines[0]], lines[1..], cmd);
    RequestLineScanned(lib, r, cmd);
    OneLine(lib, older, lines[0], cmd);
  }

  /** The elapsed time and the request of a record, met from below. */
  lemma ScanUpToRequest(lib: Library, older: seq<string>, r: LogRecord)
    requires WellFormed(lib, r)
    ensures Scan(CommandStep(lib), older + RequestLines(r) + r.response + [ElapsedLine(r)], NOTHING_YET)
            == Scan(CommandStep(lib), older,
                    Partial(lib.toFloat(r.elapsed), Some(ReadRequest(r.request)), None))
  {
    var top := older + RequestLines(r);
    ElapsedLineScanned(lib, r, NOTHING_YET);
    OneLine(lib, top + r.response, ElapsedLine(r), NOTHING_YET);
    SkipBody(lib, top, r.response, Partial(lib.toFloat(r.elapsed), None, None));
    ScanRequestLines(lib, older, r, lib.toFloat(r.elapsed));
  }

  lemma DateLineScanned(lib: Library, r: LogRecord, elapsed: real, request: string)
    requires ' ' !in r.day && ' ' !in r.time
    ensures ScanCommandLine(lib, Partial(Some(elapsed), Some(request), None), DateLine(r))
            == Emit(Command(elapsed, request, r.day + " " + r.time), NOTHING_YET)
  {
    var line := DateLine(r);
    assert "[Date]" <= line;
    Tests(line);
    DateLineParts(r);
  }

  lemma LinesRegrouped(older: seq<string>, r: LogRecord)
    ensures older + Lines(r)
            == (older + r.before + [DateLine(r)] + r.middle) + RequestLines(r) + r.response + [ElapsedLine(r)]
  {
  }

  /** A whole record, met from below, is handed out once and leaves nothing behind. */
  lemma ScanRecord(lib: Library, older: seq<string>, r: LogRecord)
    requires WellFormed(lib, r)
    ensures Scan(CommandStep(lib), older + Lines(r), NOTHING_YET)
            == More(Logged(lib, r), Scan(CommandStep(lib), older, NOTHING_YET))
  {
    var top := older + r.before + [DateLine(r)];
    var elapsed, request := lib.toFloat(r.elapsed).value, ReadRequest(r.request);
    LinesRegrouped(older, r);
    ScanUpToRequest(lib, top + r.middle, r);
    SkipBody(lib, top, r.middle, Partial(Some(elapsed), Some(request), None));
    DateLineScanned(lib, r, elapsed, request);
    OneLine(lib, older + r.before, DateLine(r), Partial(Some(elapsed), Some(request), None));
    SkipBody(lib, older, r.before, NOTHING_YET);
  }

  /** The lines of a record without its date line hold no complete command. */
  lemma ScanHeadless(lib: Library, r: LogRecord)
    requires WellFormed(lib, r) && r.before == []
    ensures Scan(CommandStep(lib), Lines(r)[1..], NOTHING_YET) == End
  {
    var request := ReadRequest(r.request);
    assert Lines(r)[1..] == r.middle + RequestLines(r) + r.response + [ElapsedLine(r)];
    ScanUpToRequest(lib, r.middle, r);
    assert [] + r.middle == r.middle;
    SkipBody(lib, [], r.middle, Partial(lib.toFloat(r.elapsed), Some(request), None));
  }

  // ----- the whole log -----

  lemma {:induction false} ScanLog(lib: Library, older: seq<string>, rs: seq<LogRecord>)
    requires AllWellFormed(lib, rs)
    ensures Scan(CommandStep(lib), older + LogLines(rs), NOTHING_YET)
            == Append(FromSeq(NewestFirst(lib, rs)), Scan(CommandStep(lib), older, NOTHING_YET))
    decreases |rs|
  {
    if rs == [] {
      assert older + LogLines(rs) == older;
    } else {
      assert older + LogLines(rs) == (older + Lines(rs[0])) + LogLines(rs[1..]);
      ScanLog(lib, older + Lines(rs[0]), rs[1..]);
      ScanRecord(lib, older, rs[0]);
      AppendLast(NewestFirst(lib, rs[1..]), Logged(lib, rs[0]), Scan(CommandStep(lib), older, NOTHING_YET));
    }
  }

  lemma {:induction false} AppendLast<T>(xs: seq<T>, x: T, rest: Stream<T>)
    ensures Append(FromSeq(xs + [x]), rest) == Append(FromSeq(xs), More(x, rest))
  {
    if xs == [] {
      assert FromSeq([] + [x]) == More(x, End);
    } else {
      AppendLast(xs[1..], x, rest);
      assert (xs + [x])[1..] == xs[1..] + [x];
    }
  }

  lemma {:induction false} AppendEnd<T>(a: Stream<T>)
    ensures Append(a, End) == a
  {
    if a.More? {
      AppendEnd(a.tail);
    }
  }

  lemma {:induction false} LogLinesAreLines(lib: Library, rs: seq<LogRecord>)
    requires AllWellFormed(lib, rs)
    ensures forall i :: 0 <= i < |LogLines(rs)| ==> '\n' !in LogLines(rs)[i]
  {
    if rs != [] {
      RecordLinesAreLines(lib, rs[0]);
      LogLinesAreLines(lib, rs[1..]);
    }
  }

  lemma RecordLinesAreLines(lib: Library, r: LogRecord)
    requires WellFormed(lib, r)
    ensures forall i :: 0 <= i < |Lines(r)| ==> '\n' !in Lines(r)[i]
  {
    assert '\n' !in DateLine(r) && '\n' !in ElapsedLine(r);
    SplitPieces("[Request]" + " " + ("   " + r.request) + " ", '\n');
  }

  /** A block boundary at the very start of the file cuts off the date line of the oldest record. */
  predicate DateLineWithheld(rs: seq<LogRecord>, block: nat)
    requires block > 0
  {
    |LogText(rs)| % block == 0 && rs != [] && rs[0].before == []
  }

  lemma ReadEveryLine(lib: Library, rs: seq<LogRecord>)
    requires AllWellFormed(lib, rs)
    ensures Scan(CommandStep(lib), LogLines(rs) + [""], NOTHING_YET) == FromSeq(NewestFirst(lib, rs))
  {
    SkipBody(lib, LogLines(rs), [""], NOTHING_YET);
    assert [] + LogLines(rs) == LogLines(rs);
    ScanLog(lib, [], rs);
    AppendEnd(FromSeq(NewestFirst(lib, rs)));
  }

  lemma ReadWithoutFirstLine(lib: Library, rs: seq<LogRecord>)
    requires AllWellFormed(lib, rs) && rs != []
    ensures Scan(CommandStep(lib), (LogLines(rs) + [""])[1..], NOTHING_YET)
            == FromSeq(NewestFirst(lib, if rs[0].before == [] then rs[1..] else rs))
  {
    var first := Lines(rs[0])[1..];
    assert (LogLines(rs) + [""])[1..] == first + LogLines(rs[1..]) + [""];
    SkipBody(lib, first + LogLines(rs[1..]), [""], NOTHING_YET);
    ScanLog(lib, first, rs[1..]);
    var newer := FromSeq(NewestFirst(lib, rs[1..]));
    if rs[0].before == [] {
      ScanHeadless(lib, rs[0]);
      AppendEnd(newer);
    } else {
      FirstLineSpared(lib, rs[0]);
      AppendLast(NewestFirst(lib, rs[1..]), Logged(lib, rs[0]), End);
      AppendEnd(FromSeq(NewestFirst(lib, rs)));
    }
  }

  /** Losing a separator line loses nothing. */
  lemma FirstLineSpared(lib: Library, r: LogRecord)
    requires WellFormed(lib, r) && r.before != []
    ensures Scan(CommandStep(lib), Lines(r)[1..], NOTHING_YET) == More(Logged(lib, r), End)
  {
    var cut := r.(before := r.before[1..]);
    assert Lines(r)[1..] == [] + Lines(cut);
    ScanRecord(lib, [], cut);
  }

  /**
   * Reading a printed log returns every command once, newest first, wherever the block cuts fall,
   * except that the oldest one is lost when its date line is withheld.
   */
  lemma ReadBack(lib: Library, rs: seq<LogRecord>, block: nat)
    requires block > 0 && AllWellFormed(lib, rs)
    ensures Commands(lib, LogText(rs), block)
            == FromSeq(NewestFirst(lib, if DateLineWithheld(rs, block) then rs[1..] else rs))
  {
    var lines := LogLines(rs) + [""];
    LogLinesAreLines(lib, rs);
    SplitJoin(lines, '\n');
    if |LogText(rs)| % block != 0 {
      ReadEveryLine(lib, rs);
    } else if rs != [] {
      ReadWithoutFirstLine(lib, rs);
    }
  }

  /** Reading loses nothing exactly when the oldest date line is not withheld. */
  lemma ReadBackIsComplete(lib: Library, rs: seq<LogRecord>, block: nat)
    requires block > 0 && AllWellFormed(lib, rs)
    ensures Commands(lib, LogText(rs), block) == FromSeq(NewestFirst(lib, rs)) <==> !DateLineWithheld(rs, block)
  {
    ReadBack(lib, rs, block);
    if DateLineWithheld(rs, block) {
      assert |NewestFirst(lib, rs)| == |NewestFirst(lib, rs[1..])| + 1;
      ItemsOfSeq(NewestFirst(lib, rs));
      ItemsOfSeq(NewestFirst(lib, rs[1..]));
    }
  }

  // ----- where reading falls short -----

  /** A log of one record that fills one block exactly: nothing is read. */
  lemma OneFullBlock(lib: Library, r: LogRecord)
    requires WellFormed(lib, r) && r.before == []
    ensures |LogText([r])| > 0 && Commands(lib, LogText([r]), |LogText([r])|) == End
  {
    var text := LogText([r]);
    assert LogLines([r]) + [""] == [DateLine(r)] + (Lines(r)[1..] + [""]);
    JoinAppend([DateLine(r)], Lines(r)[1..] + [""], '\n');
    assert AllWellFormed(lib, [r]);
    ReadBack(lib, [r], |text|);
  }

  lemma LoneDateLine(lib: Library, r: LogRecord)
    requires ' ' !in r.day && ' ' !in r.time
    ensures ScanCommandLine(lib, NOTHING_YET, DateLine(r)) == Keep(Partial(None, None, Some(r.day + " " + r.time)))
  {
    assert "[Date]" <= DateLine(r);
    Tests(DateLine(r));
    DateLineParts(r);
  }

  lemma ThreeKept(lib: Library, a: string, b: string, c: string, start: Partial, dated: Partial, last: Partial)
    requires ScanCommandLine(lib, start, c) == Keep(dated)
    requires ScanCommandLine(lib, dated, b) == Keep(last)
    requires ScanCommandLine(lib, last, a).Keep?
    ensures Scan(CommandStep(lib), [a, b, c], start) == End
  {
    OneLine(lib, [a, b], c, start);
    OneLine(lib, [a], b, dated);
    OneLine(lib, [], a, last);
    assert [a, b, c] == [a, b] + [c] && [a, b] == [a] + [b] && [a] == [] + [a];
  }

  /** A block with the lines of a record from the last to the first: the second scan makes up a command. */
  lemma UpsideDown(lib: Library, r: LogRecord)
    requires WellFormed(lib, r)
    ensures var lines := [ElapsedLine(r), RequestLines(r)[0], DateLine(r)];
            && Scan(CommandStep(lib), lines, NOTHING_YET) == End
            && Scan(CommandStep(lib), lines, Leftover(lib, lines, NOTHING_YET)) != End
  {
    var lines := [ElapsedLine(r), RequestLines(r)[0], DateLine(r)];
    var dated := Partial(None, None, Some(r.day + " " + r.time));
    var asked := dated.(request := Some(ReadRequest(r.request)));
    LoneDateLine(lib, r);
    RequestLineScanned(lib, r, dated);
    ElapsedLineScanned(lib, r, asked);
    ThreeKept(lib, lines[0], lines[1], lines[2], NOTHING_YET, dated, asked);
    RequestFirstLine(r);
    RescanAfterEnd(lib, lines, NOTHING_YET);
  }
}
