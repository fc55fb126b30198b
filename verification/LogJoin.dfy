/** The streaming join of dbstats.py attributes every trace to the first matching command. */
module LogJoin {
  import opened Text
  import opened Streams
  import opened LogReader
  import opened XcatLogs
  import opened Analysis

  /** Newest trace first, as reading a syslog file backwards delivers them. */
  predicate NewestTraceFirst(ts: seq<Trace>) {
    forall i, j :: 0 <= i < j < |ts| ==> ts[i].stamp >= ts[j].stamp
  }

  /** The commands that are processed, in the order in which they are read. */
  function Selection(cs: seq<Command>, specific: Option<string>): seq<Command> {
    if cs == [] then []
    else (if specific == None || specific.value <= cs[0].request then [cs[0]] else []) + Selection(cs[1..], specific)
  }

  /** The date parses and the elapsed time is not so negative that the window ends before it starts. */
  predicate HasWindow(lib: Library, c: Command) {
    WindowOf(lib, c).Some? && Truncate(c.elapsed) >= -1
  }

  predicate AllHaveWindows(lib: Library, cs: seq<Command>) {
    forall i :: 0 <= i < |cs| ==> HasWindow(lib, cs[i])
  }

  function Windows(lib: Library, cs: seq<Command>): (ws: seq<Window>)
    requires AllHaveWindows(lib, cs)
    ensures |ws| == |cs|
    ensures forall i :: 0 <= i < |cs| ==> ws[i] == WindowOf(lib, cs[i]).value && ws[i].start <= ws[i].end
  {
    if cs == [] then [] else [WindowOf(lib, cs[0]).value] + Windows(lib, cs[1..])
  }

  /** The first window that starts no later than `stamp`; `|ws|` when there is none. */
  function Owner(ws: seq<Window>, stamp: int): (i: nat)
    ensures i <= |ws|
    ensures i < |ws| ==> ws[i].start <= stamp
    ensures forall k :: 0 <= k < i ==> stamp < ws[k].start
  {
    if ws == [] || ws[0].start <= stamp then 0 else Owner(ws[1..], stamp) + 1
  }

  /** Every message can be counted. */
  predicate Countable(lib: Library, ts: seq<Trace>) {
    forall i :: 0 <= i < |ts| ==> TallyOf(lib, ts[i].db).Tally?
  }

  /** The traces owned by window `i` that are no later than its end. */
  function Owned(ws: seq<Window>, i: nat, ts: seq<Trace>): seq<Trace>
    requires i < |ws|
  {
    if ts == [] then []
    else (if Owner(ws, ts[0].stamp) == i && ts[0].stamp <= ws[i].end then [ts[0]] else []) + Owned(ws, i, ts[1..])
  }

  /** The exception of the first message that cannot be counted. */
  function FirstRefusal(lib: Library, ts: seq<Trace>): (r: Option<Error>)
    ensures r == None <==> Countable(lib, ts)
  {
    if ts == [] then None
    else if TallyOf(lib, ts[0].db).Refused? then Some(TallyOf(lib, ts[0].db).error)
    else FirstRefusal(lib, ts[1..])
  }

  // ----- one window -----

  /** What stands behind the traces in a window. */
  function Behind(s: Stream<Trace>, start: int): Stream<Trace> {
    if s.More? && s.head.stamp >= start then Behind(s.tail, start) else s
  }

  /** Counting gets behind the traces in a window, or stops at the first of them that cannot be counted. */
  lemma {:induction false} CountingEndsIff(lib: Library, s: Stream<Trace>, start: int)
    ensures var refusal := FirstRefusal(lib, TakeWhileIn(s, start));
            SkipWhileIn(lib, s, start) == if refusal == None then Behind(s, start) else Fail(refusal.value)
    decreases s
  {
    if s.More? && s.head.stamp >= start {
      var taken := TakeWhileIn(s.tail, start);
      CountingEndsIff(lib, s.tail, start);
      assert ([s.head] + taken)[1..] == taken;
    }
  }

  lemma OlderTraces(ts: seq<Trace>)
    requires ts != [] && NewestTraceFirst(ts)
    ensures NewestTraceFirst(ts[1..]) && forall k :: 0 <= k < |ts| ==> ts[k].stamp <= ts[0].stamp
  {
  }

  lemma {:induction false} OwnedByOlder(ws: seq<Window>, ts: seq<Trace>, i: nat)
    requires i < |ws| && forall k :: 0 <= k < |ts| ==> ts[k].stamp < ws[0].start
    ensures Owned(ws, i, ts) == if i == 0 then [] else Owned(ws[1..], i - 1, ts)
  {
    if ts != [] {
      OwnedByOlder(ws, ts[1..], i);
    }
  }

  /** What is later than the first window is owned by it and not counted for anyone. */
  lemma {:induction false} LaterIsNobodys(ws: seq<Window>, s: Stream<Trace>, i: nat)
    requires i < |ws| && ws[0].start <= ws[0].end
    ensures Owned(ws, i, Items(s)) == Owned(ws, i, Items(SkipLater(s, ws[0].end)))
    decreases s
  {
    if s.More? && s.head.stamp > ws[0].end {
      assert Items(s)[1..] == Items(s.tail);
      LaterIsNobodys(ws, s.tail, i);
    }
  }

  /** Traces before the first window are left to older windows. */
  lemma OlderIsLeft(ws: seq<Window>, s: Stream<Trace>, i: nat)
    requires i < |ws| && NewestTraceFirst(Items(s)) && s.More? && s.head.stamp < ws[0].start
    ensures Owned(ws, i, Items(s)) == if i == 0 then [] else Owned(ws[1..], i - 1, Items(s))
  {
    OlderTraces(Items(s));
    OwnedByOlder(ws, Items(s), i);
  }

  /** The traces behind the first one are in order and not later than it. */
  lemma TailInOrder(s: Stream<Trace>, end: int)
    requires s.More? && NewestTraceFirst(Items(s)) && s.head.stamp <= end
    ensures NewestTraceFirst(Items(s.tail)) && (s.tail.More? ==> s.tail.head.stamp <= end)
  {
    var items := Items(s);
    OlderTraces(items);
    assert items[1..] == Items(s.tail);
    assert s.tail.More? ==> items[1] == s.tail.head;
  }

  /** Of the traces up to the end of the first window, those in it are its own, the others are left to older windows. */
  lemma {:induction false} InWindowIsOwned(ws: seq<Window>, s: Stream<Trace>, i: nat)
    requires i < |ws| && NewestTraceFirst(Items(s))
    requires s.More? ==> s.head.stamp <= ws[0].end
    ensures Owned(ws, i, Items(s))
            == if i == 0 then TakeWhileIn(s, ws[0].start) else Owned(ws[1..], i - 1, Items(Behind(s, ws[0].start)))
    decreases s
  {
    if s.More? {
      if s.head.stamp < ws[0].start {
        OlderIsLeft(ws, s, i);
      } else {
        TailInOrder(s, ws[0].end);
        InWindowIsOwned(ws, s.tail, i);
        assert Behind(s, ws[0].start) == Behind(s.tail, ws[0].start);
      }
    }
  }

  lemma {:induction false} SkipLaterKeepsOrder(s: Stream<Trace>, end: int)
    requires NewestTraceFirst(Items(s))
    ensures var left := SkipLater(s, end); NewestTraceFirst(Items(left)) && (left.More? ==> left.head.stamp <= end)
    ensures EndsWell(s) ==> EndsWell(SkipLater(s, end))
    decreases s
  {
    if s.More? && s.head.stamp > end {
      TailInOrder(s, s.head.stamp);
      SkipLaterKeepsOrder(s.tail, end);
    }
  }

  lemma {:induction false} BehindKeepsOrder(s: Stream<Trace>, start: int)
    requires NewestTraceFirst(Items(s))
    ensures NewestTraceFirst(Items(Behind(s, start)))
    ensures EndsWell(s) ==> EndsWell(Behind(s, start))
    decreases s
  {
    if s.More? && s.head.stamp >= start {
      TailInOrder(s, s.head.stamp);
      BehindKeepsOrder(s.tail, start);
    }
  }

  /** Dropping what is later than the window and taking what is in it leaves the other windows their traces. */
  lemma OneWindow(ws: seq<Window>, s: Stream<Trace>, i: nat)
    requires i < |ws| && ws[0].start <= ws[0].end && NewestTraceFirst(Items(s))
    ensures var inWindow := SkipLater(s, ws[0].end);
            Owned(ws, i, Items(s))
            == if i == 0 then TakeWhileIn(inWindow, ws[0].start)
               else Owned(ws[1..], i - 1, Items(Behind(inWindow, ws[0].start)))
  {
    LaterIsNobodys(ws, s, i);
    SkipLaterKeepsOrder(s, ws[0].end);
    InWindowIsOwned(ws, SkipLater(s, ws[0].end), i);
  }

  // ----- the whole run -----

  /** The row is that of the command and counts exactly these traces, all of which can be counted. */
  predicate RightRow(lib: Library, row: Row, c: Command, own: seq<Trace>) {
    Countable(lib, own) && row == CountedAll(lib, NewRow(c), own)
  }

  /**
   * The rows are those of the commands in order, each with its own traces: all of them if the report ends without an
   * exception, and otherwise those before the first command that owns a trace which cannot be counted, whose exception
   * ends it.
   */
  predicate RightRows(lib: Library, report: Report, cs: seq<Command>, owns: seq<seq<Trace>>)
    requires |owns| == |cs|
  {
    var n := |report.rows|;
    && n <= |cs| && (forall i :: 0 <= i < n ==> RightRow(lib, report.rows[i], cs[i], owns[i]))
    && (report.error == None <==> n == |cs|)
    && (n < |cs| ==> report.error == FirstRefusal(lib, owns[n]))
  }

  function AllOwned(ws: seq<Window>, ts: seq<Trace>): (owns: seq<seq<Trace>>)
  {
    seq(|ws|, i requires 0 <= i < |ws| => Owned(ws, i, ts))
  }

  predicate RightRun(lib: Library, report: Report, cs: seq<Command>, ts: seq<Trace>)
    requires AllHaveWindows(lib, cs)
  {
    RightRows(lib, report, cs, AllOwned(Windows(lib, cs), ts))
  }

  /** One more row in front. */
  lemma RowInFront(lib: Library, c: Command, row: Row, own: seq<Trace>, later: Report, cs: seq<Command>,
                   owns: seq<seq<Trace>>)
    requires |owns| == |cs| && RightRow(lib, row, c, own) && RightRows(lib, later, cs, owns)
    ensures RightRows(lib, Report([row] + later.rows, later.error), [c] + cs, [own] + owns)
  {
  }

  /** The first of the processed commands takes its traces and leaves all others theirs. */
  lemma OthersOwn(ws: seq<Window>, s: Stream<Trace>)
    requires ws != [] && ws[0].start <= ws[0].end && NewestTraceFirst(Items(s))
    ensures var inWindow := SkipLater(s, ws[0].end);
            AllOwned(ws, Items(s))
            == [TakeWhileIn(inWindow, ws[0].start)] + AllOwned(ws[1..], Items(Behind(inWindow, ws[0].start)))
  {
    var inWindow := SkipLater(s, ws[0].end);
    var taken, older := TakeWhileIn(inWindow, ws[0].start), Items(Behind(inWindow, ws[0].start));
    forall i | 0 <= i < |ws| ensures Owned(ws, i, Items(s)) == if i == 0 then taken else Owned(ws[1..], i - 1, older) {
      OneWindow(ws, s, i);
    }
    AllOwnedIs(ws, Items(s), taken, older);
  }

  lemma AllOwnedIs(ws: seq<Window>, ts: seq<Trace>, taken: seq<Trace>, older: seq<Trace>)
    requires ws != []
    requires forall i :: 0 <= i < |ws| ==> Owned(ws, i, ts) == if i == 0 then taken else Owned(ws[1..], i - 1, older)
    ensures AllOwned(ws, ts) == [taken] + AllOwned(ws[1..], older)
  {
  }

  lemma WindowsFirst(lib: Library, c: Command, rest: seq<Command>)
    requires AllHaveWindows(lib, [c] + rest) && AllHaveWindows(lib, rest) && HasWindow(lib, c)
    ensures Windows(lib, [c] + rest) == [WindowOf(lib, c).value] + Windows(lib, rest)
  {
    assert ([c] + rest)[1..] == rest;
  }

  /** What is left for older commands. */
  function OlderThan(w: Window, s: Stream<Trace>): Stream<Trace> {
    Behind(SkipLater(s, w.end), w.start)
  }

  lemma OlderKeepsOrder(w: Window, s: Stream<Trace>)
    requires EndsWell(s) && NewestTraceFirst(Items(s))
    ensures EndsWell(OlderThan(w, s)) && NewestTraceFirst(Items(OlderThan(w, s)))
  {
    SkipLaterKeepsOrder(s, w.end);
    BehindKeepsOrder(SkipLater(s, w.end), w.start);
  }

  /** One command gives its row, or stops at the first of its traces that cannot be counted. */
  lemma AttributeIs(lib: Library, c: Command, s: Stream<Trace>)
    requires HasWindow(lib, c) && EndsWell(s) && NewestTraceFirst(Items(s))
    ensures var w := WindowOf(lib, c).value;
            var own := TakeWhileIn(SkipLater(s, w.end), w.start);
            var refusal := FirstRefusal(lib, own);
            Attribute(lib, c, s)
            == if refusal == None then Attributed(CountedAll(lib, NewRow(c), own), OlderThan(w, s))
               else Stopped(refusal.value)
  {
    var w := WindowOf(lib, c).value;
    OlderKeepsOrder(w, s);
    CountingEndsIff(lib, SkipLater(s, w.end), w.start);
  }

  /** One processed command in front of a right run on the traces behind its window. */
  lemma RunStep(lib: Library, c: Command, rest: seq<Command>, s: Stream<Trace>, later: Report)
    requires HasWindow(lib, c) && AllHaveWindows(lib, [c] + rest) && AllHaveWindows(lib, rest)
    requires EndsWell(s) && NewestTraceFirst(Items(s))
    requires RightRun(lib, later, rest, Items(OlderThan(WindowOf(lib, c).value, s)))
    ensures var turn := Attribute(lib, c, s);
            RightRun(lib, if turn.Attributed? then Report([turn.row] + later.rows, later.error)
                          else Report([], Some(turn.error)), [c] + rest, Items(s))
  {
    var cs, w := [c] + rest, WindowOf(lib, c).value;
    var own := TakeWhileIn(SkipLater(s, w.end), w.start);
    var owns := AllOwned(Windows(lib, rest), Items(OlderThan(w, s)));
    AttributeIs(lib, c, s);
    WindowsFirst(lib, c, rest);
    OthersOwn(Windows(lib, cs), s);
    assert AllOwned(Windows(lib, cs), Items(s)) == [own] + owns;
    if FirstRefusal(lib, own) == None {
      RowInFront(lib, c, CountedAll(lib, NewRow(c), own), own, later, rest, owns);
    }
  }

  /** The run with one more selected command in front. */
  lemma RunOfSelected(lib: Library, c: Command, cs: Stream<Command>, ts: Stream<Trace>, specific: Option<string>,
                      index: nat, rest: seq<Command>)
    requires Selected(c, specific) && HasWindow(lib, c) && AllHaveWindows(lib, [c] + rest) && AllHaveWindows(lib, rest)
    requires EndsWell(ts) && NewestTraceFirst(Items(ts))
    requires var older := OlderThan(WindowOf(lib, c).value, ts);
             RightRun(lib, Run(lib, cs, older, None, specific, index + 1), rest, Items(older))
    ensures RightRun(lib, Run(lib, More(c, cs), ts, None, specific, index), [c] + rest, Items(ts))
  {
    AttributeIs(lib, c, ts);
    RunStep(lib, c, rest, ts, Run(lib, cs, OlderThan(WindowOf(lib, c).value, ts), None, specific, index + 1));
  }

  lemma SelectionFirst(lib: Library, c: Command, cs: seq<Command>, specific: Option<string>)
    ensures var later := Selection(cs, specific);
            && Selection([c] + cs, specific) == (if Selected(c, specific) then [c] else []) + later
            && (AllHaveWindows(lib, Selection([c] + cs, specific)) ==> AllHaveWindows(lib, later))
            && (AllHaveWindows(lib, Selection([c] + cs, specific)) && Selected(c, specific) ==> HasWindow(lib, c))
  {
    var all, later := [c] + cs, Selection(cs, specific);
    assert all[1..] == cs;
    var own := if Selected(c, specific) then [c] else [];
    assert forall i :: 0 <= i < |later| ==> (own + later)[i + |own|] == later[i];
    assert Selected(c, specific) ==> (own + later)[0] == c;
  }

  /**
   * The join refines its specification: each trace is counted for the first processed command that starts no later than
   * it, exactly when it is no later than that command's end. Rows are printed in order, up to the first command that
   * owns a trace which cannot be counted.
   */
  lemma {:induction false} JoinIsFirstMatch(lib: Library, cs: Stream<Command>, ts: Stream<Trace>,
                                            specific: Option<string>, index: nat)
    requires EndsWell(cs) && EndsWell(ts) && NewestTraceFirst(Items(ts))
    requires AllHaveWindows(lib, Selection(Items(cs), specific))
    ensures RightRun(lib, Run(lib, cs, ts, None, specific, index), Selection(Items(cs), specific), Items(ts))
    decreases cs
  {
    if cs.More? {
      var c, later := cs.head, Selection(Items(cs.tail), specific);
      SelectionFirst(lib, c, Items(cs.tail), specific);
      if Selected(c, specific) {
        var older := OlderThan(WindowOf(lib, c).value, ts);
        OlderKeepsOrder(WindowOf(lib, c).value, ts);
        JoinIsFirstMatch(lib, cs.tail, older, specific, index + 1);
        RunOfSelected(lib, c, cs.tail, ts, specific, index, later);
      } else {
        assert [] + later == later;
        JoinIsFirstMatch(lib, cs.tail, ts, specific, index);
      }
    }
  }

  // ----- windows that do not overlap -----

  function Inside(w: Window, ts: seq<Trace>): seq<Trace> {
    if ts == [] then []
    else (if w.start <= ts[0].stamp <= w.end then [ts[0]] else []) + Inside(w, ts[1..])
  }

  /** Every window ends before each earlier read one starts. */
  predicate Apart(ws: seq<Window>) {
    forall i, j :: 0 <= i < j < |ws| ==> ws[j].end < ws[i].start
  }

  predicate EachHoldsItsWindow(ws: seq<Window>, ts: seq<Trace>) {
    forall i :: 0 <= i < |ws| ==> Owned(ws, i, ts) == Inside(ws[i], ts)
  }

  lemma {:induction false} ApartHoldsWindow(ws: seq<Window>, ts: seq<Trace>, i: nat)
    requires i < |ws| && Apart(ws)
    ensures Owned(ws, i, ts) == Inside(ws[i], ts)
  {
    if ts != [] {
      ApartHoldsWindow(ws, ts[1..], i);
      var o := Owner(ws, ts[0].stamp);
      assert o < i ==> ws[i].end < ws[o].start;
    }
  }

  /** Every record holds exactly the traces in its window, whatever the traces, exactly when the windows are apart. */
  lemma WindowsApartIff(ws: seq<Window>)
    requires forall i :: 0 <= i < |ws| ==> ws[i].start <= ws[i].end
    ensures Apart(ws) <==> forall ts :: NewestTraceFirst(ts) ==> EachHoldsItsWindow(ws, ts)
  {
    if Apart(ws) {
      forall ts ensures EachHoldsItsWindow(ws, ts) {
        forall i | 0 <= i < |ws| ensures Owned(ws, i, ts) == Inside(ws[i], ts) {
          ApartHoldsWindow(ws, ts, i);
        }
      }
    } else {
      var i, j :| 0 <= i < j < |ws| && ws[j].end >= ws[i].start;
      var ts := [Trace(ws[j].end, Message(None, None, None, None))];
      assert Owner(ws, ws[j].end) <= i;
      assert Owned(ws, j, ts) == [];
      assert Inside(ws[j], ts) == ts;
      assert !EachHoldsItsWindow(ws, ts);
    }
  }

  // ----- truncation -----

  /** `-n` prints a prefix of the unlimited run for n >= 1 and changes nothing otherwise. */
  lemma {:induction false} LatestIsPrefix(lib: Library, cs: Stream<Command>, ts: Stream<Trace>, n: int,
                                          specific: Option<string>, index: nat)
    ensures var all := Run(lib, cs, ts, None, specific, index);
            Run(lib, cs, ts, Some(n), specific, index)
            == if index < n && n - index <= |all.rows| then Report(all.rows[..n - index], None) else all
    decreases cs
  {
    if cs.More? {
      if !Selected(cs.head, specific) {
        LatestIsPrefix(lib, cs.tail, ts, n, specific, index);
      } else {
        var turn := Attribute(lib, cs.head, ts);
        if turn.Attributed? {
          LatestIsPrefix(lib, cs.tail, turn.older, n, specific, index + 1);
        }
      }
    }
  }
}
