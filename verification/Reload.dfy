/** The reload protocol of src/proxydhcp.c, with signals and writes at any time. */
module Reload {

  /**
   * Where the main loop stands; allocation succeeds. `forRequest` tells the `loadcfg` before `recvmsg` from the one
   * after a timeout.
   */
  datatype Pc =
    | Select
    | TestAfterTimeout
    | TestBeforeRequest
    | Clear(forRequest: bool)     // nodenum = 0; free(data); data = NULL
    | ResetFlag(forRequest: bool) // doreload = 0
    | Open(forRequest: bool)      // fopen
    | Read(forRequest: bool)      // the fread loop
    | Receive
    | Answer

  /**
   * `version` counts the writes to the configuration file, `signalled` is its value at the latest delivered signal.
   * `loaded` is the version at which the file behind `data` was opened and `tested` what `signalled` was
   * at the test of `doreload` in this turn.
   */
  datatype State = State(pc: Pc, doreload: bool, version: nat, signalled: nat, loaded: nat, tested: nat)

  /** After the first `loadcfg` and the registration of the handler. */
  predicate Init(s: State) {
    s.pc == Select && !s.doreload && s.signalled == 0 && s.loaded == s.version && s.tested == 0
  }

  /** Another process writes the file. */
  predicate Write(s: State, s': State) {
    s' == s.(version := s.version + 1)
  }

  /** `reload` */
  predicate Signal(s: State, s': State) {
    s' == s.(doreload := true, signalled := s.version)
  }

  /** One step of the main loop. */
  predicate Main(s: State, s': State) {
    match s.pc
    case Select => s' == s.(pc := TestAfterTimeout) || s' == s.(pc := TestBeforeRequest)
    case TestAfterTimeout => s' == s.(pc := if s.doreload then Clear(false) else Select)
    case TestBeforeRequest => s' == s.(pc := if s.doreload then Clear(true) else Receive, tested := s.signalled)
    case Clear(r) => s' == s.(pc := ResetFlag(r))
    case ResetFlag(r) => s' == s.(pc := Open(r), doreload := false)
    case Open(r) => s' == s.(pc := Read(r), loaded := s.version)
    case Read(r) => s' == s.(pc := if r then Receive else Select)
    case Receive => s' == s.(pc := Answer) || s' == s.(pc := Select)
    case Answer => s' == s.(pc := Select)
  }

  predicate Next(s: State, s': State) {
    Write(s, s') || Signal(s, s') || Main(s, s')
  }

  predicate IsRun(run: seq<State>) {
    && run != [] && Init(run[0])
    && forall i :: 0 <= i < |run| - 1 ==> Next(run[i], run[i + 1])
  }

  /** The flag was cleared but the file is not open yet. */
  predicate BeforeOpen(pc: Pc) {
    pc.Open?
  }

  /** The main loop is past this turn's test and, if that called for it, past the reload. */
  predicate Served(pc: Pc) {
    pc.Receive? || pc.Answer? || (pc.Read? && pc.forRequest)
  }

  predicate Inv(s: State) {
    && s.signalled <= s.version && s.loaded <= s.version && s.tested <= s.signalled
    && (!s.doreload && !BeforeOpen(s.pc) ==> s.signalled <= s.loaded)
    && (Served(s.pc) ==> s.tested <= s.loaded)
  }

  /** What one step keeps, whoever takes it. */
  lemma NextKeepsInv(s: State, s': State)
    requires Inv(s) && Next(s, s')
    ensures Inv(s') && NoOlder(s, s')
  {
  }

  /** No mark of `s'` is below that of `s`. */
  predicate NoOlder(s: State, s': State) {
    s.version <= s'.version && s.signalled <= s'.signalled && s.tested <= s'.tested && s.loaded <= s'.loaded
  }

  lemma {:induction false} RunKeepsInv(run: seq<State>, k: nat)
    requires IsRun(run) && k < |run|
    ensures Inv(run[k])
  {
    if k > 0 {
      RunKeepsInv(run, k - 1);
      NextKeepsInv(run[k - 1], run[k]);
    }
  }

  /**
   * In every run, whenever the flag is clear and no `loadcfg` stands between clearing it and opening the file, the
   * loaded configuration is at least as new as the file was at the latest signal.
   */
  lemma FlagClearMeansLoaded(run: seq<State>, k: nat)
    requires IsRun(run) && k < |run| && !run[k].doreload && !run[k].pc.Open?
    ensures run[k].signalled <= run[k].loaded
  {
    RunKeepsInv(run, k);
  }

  lemma {:induction false} MarksOnlyGrow(run: seq<State>, i: nat, j: nat)
    requires IsRun(run) && i <= j < |run|
    ensures NoOlder(run[i], run[j])
    decreases j - i
  {
    if i < j {
      MarksOnlyGrow(run, i, j - 1);
      RunKeepsInv(run, j - 1);
      NextKeepsInv(run[j - 1], run[j]);
    }
  }

  /**
   * No reload is lost: a request answered after a test that follows a signal is answered from a file opened no
   * earlier than the file was when that signal was delivered.
   */
  lemma NoLostReload(run: seq<State>, signal: nat, test: nat, answer: nat)
    requires IsRun(run) && signal < test < answer < |run|
    requires Signal(run[signal], run[signal + 1])
    requires run[test].pc == TestBeforeRequest && Main(run[test], run[test + 1])
    requires run[answer].pc == Answer
    ensures run[answer].loaded >= run[signal].version
  {
    MarksOnlyGrow(run, signal + 1, test);
    MarksOnlyGrow(run, test + 1, answer);
    RunKeepsInv(run, answer);
  }
}
