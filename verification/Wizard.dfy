/** The discovery wizard of xCAT-UI/js/configure/discover.js with the step lists of its two platforms. */
module Wizard {
  import opened Text

  /** The radio button that is checked on the first page. */
  datatype Radio = Ih | NonIh | Idataplex | BladeCenter | Nothing

  /** A step list: titles, page functions and check functions, `None` where there is no check. */
  datatype Plugin = Plugin(steps: seq<string>, inits: seq<string>, nexts: seq<Option<string>>)

  const HMC := Plugin(
    ["Basic patterns", "Supernode", "More patterns", "Power on hardware", "Discover frames", "Discover hmcs",
     "Management node", "Discover Rest of Hardware and Update Definitions", "Create LPARs"],
    ["powerInitBasicPattern", "powerInitSupernode", "powerInitSiteTable", "powerInitPoweronHardware",
     "powerInitDiscoverFrames", "powerInitDiscoverHmc", "powerInitConfig", "powerInitUpdateDefinition",
     "powerInitCreateLpar"],
    [Some("checkBasicPattern"), Some("checkSupernode"), Some("checkSiteTable"), None, Some("checkFrameMtms"),
     Some("checkHmcMtms"), None, None, Some("collectInputValue")])

  const IPMI := Plugin(
    ["Basic patterns", "Switches", "Network", "Services", "Power on hardware"],
    ["idataplexInitBasic", "idataplexInitSwitch", "idataplexInitNetwork", "idataplexInitService",
     "idataplexInitPowerOn"],
    [Some("idataplexCheckBasic"), None, Some("idataplexCheckNetwork"), None, None])

  /** The plugin of a radio button; without one the handler stops with an exception. */
  function PluginOf(radio: Radio): Option<Plugin> {
    match radio
    case Ih => Some(HMC)
    case NonIh => Some(HMC)
    case Idataplex => Some(IPMI)
    case BladeCenter => None
    case Nothing => None
  }

  /**
   * The globals of the page. `passed` holds the pages whose latest "next" check succeeded with no input collected
   * from them since.
   */
  datatype State = State(
    steps: seq<string>, inits: seq<string>, nexts: seq<Option<string>>, current: nat, passed: set<nat>)

  const START := State(["Platform", "Complete"], ["initSelectPlatform", "complete"], [Some("getPlatform"), None], 0, {})

  /** A click, with what the checks that it triggers find. */
  datatype Click = Next(radio: Radio, ok: bool) | Back(ok: bool) | Cancel

  /** Whether the page has the button. */
  predicate HasButton(s: State, c: Click) {
    match c
    case Next(_, _) => s.current != |s.steps| - 1
    case Back(_) => s.current != 0 && s.current != |s.steps| - 1
    case Cancel => s.current != 0 && s.current != |s.steps| - 1
  }

  /** `getPlatform`: the step arrays of the chosen platform between the first and the last page. */
  function WithPlatform(s: State, p: Plugin): State {
    s.(steps := ["Platform"] + p.steps + ["compelte"],
       inits := ["initSelectPlatform"] + p.inits + ["complete"],
       nexts := [Some("getPlatform")] + p.nexts + [None],
       passed := {0})
  }

  /** The click handlers on any page that has step functions. */
  function Handle(s: State, c: Click): State {
    if s.current < |s.nexts| then HandleOnPage(s, c) else s
  }

  /** The click handlers; a check collects the input of its page before anything else. */
  function HandleOnPage(s: State, c: Click): State
    requires s.current < |s.nexts|
  {
    match c
    case Next(radio, ok) =>
      (match s.nexts[s.current]
       case None => s.(current := s.current + 1)
       case Some("getPlatform") =>
         (match PluginOf(radio)
          case None => s
          case Some(p) => var s' := WithPlatform(s, p); s'.(current := s.current + 1))
       case Some(_) =>
         if ok then s.(current := s.current + 1, passed := s.passed + {s.current})
         else s.(passed := s.passed - {s.current}))
    case Back(ok) =>
      (match s.nexts[s.current]
       case None => s.(current := if s.current > 0 then s.current - 1 else 0)
       case Some(_) =>
         var s' := s.(passed := s.passed - {s.current});
         if ok then s'.(current := if s.current > 0 then s.current - 1 else 0) else s')
    case Cancel => s.(current := 0, passed := {})
  }

  /** The globals with their handlers; `passed` is kept for the proof only. */
  class DiscoverWizard {
    var steps: seq<string>
    var initFunctions: seq<string>
    var nextFunctions: seq<Option<string>>
    var currentStep: nat
    ghost var passed: set<nat>

    ghost function View(): State
      reads this
    {
      State(steps, initFunctions, nextFunctions, currentStep, passed)
    }

    /** The page as it is loaded: the initial arrays and `loadDiscoverPage`. */
    constructor ()
      ensures View() == START
    {
      steps, initFunctions := ["Platform", "Complete"], ["initSelectPlatform", "complete"];
      nextFunctions := [Some("getPlatform"), None];
      currentStep, passed := 0, {};
    }

    /** `getPlatform`; false stands for the exception of a button without a plugin. */
    method GetPlatform(radio: Radio) returns (chosen: bool)
      modifies this
      ensures chosen <==> PluginOf(radio).Some?
      ensures View() == if chosen then WithPlatform(old(View()), PluginOf(radio).value) else old(View())
    {
      var platformObj := PluginOf(radio);
      if platformObj.None? {
        return false;
      }
      steps := ["Platform"] + platformObj.value.steps + ["compelte"];
      initFunctions := ["initSelectPlatform"] + platformObj.value.inits + ["complete"];
      nextFunctions := [Some("getPlatform")] + platformObj.value.nexts + [None];
      passed := {0};
      return true;
    }

    /** The "Next" button; `ok` is what the check of the page finds. */
    method ClickNext(radio: Radio, ok: bool)
      requires Safe(View()) && HasButton(View(), Next(radio, ok))
      modifies this
      ensures View() == Handle(old(View()), Next(radio, ok))
    {
      var tempFlag := true;
      if nextFunctions[currentStep].Some? {
        if nextFunctions[currentStep].value == "getPlatform" {
          tempFlag := GetPlatform(radio);
        } else {
          tempFlag := ok;
          passed := if ok then passed + {currentStep} else passed - {currentStep};
        }
      }
      if !tempFlag {
        return;
      }
      currentStep := currentStep + 1;
    }

    /** The "Back" button. */
    method ClickBack(ok: bool)
      requires Safe(View()) && HasButton(View(), Back(ok))
      modifies this
      ensures View() == Handle(old(View()), Back(ok))
    {
      var tempFlag := true;
      if nextFunctions[currentStep].Some? {
        tempFlag := ok;
        passed := passed - {currentStep};
      }
      if !tempFlag {
        return;
      }
      currentStep := currentStep - 1;
    }

    /** The "Cancel" button: the arrays stay, the collected input goes. */
    method ClickCancel()
      requires Safe(View()) && HasButton(View(), Cancel)
      modifies this
      ensures View() == Handle(old(View()), Cancel)
    {
      currentStep := 0;
      passed := {};
    }
  }

  // ----- what every click keeps -----

  /** The step arrays fit together, the current page exists, and every page before it passed its check. */
  predicate Safe(s: State) {
    && |s.steps| == |s.inits| == |s.nexts| && s.current < |s.steps|
    && |s.steps| >= 2 && s.nexts[0] == Some("getPlatform") && s.nexts[|s.nexts| - 1] == None
    && (forall j :: 0 < j < |s.nexts| ==> s.nexts[j] != Some("getPlatform"))
    && (forall j :: 0 <= j < s.current ==> s.nexts[j].Some? ==> j in s.passed)
  }

  lemma StartIsSafe()
    ensures Safe(START)
  {
  }

  lemma PluginsFit(radio: Radio)
    ensures var p := PluginOf(radio);
            p.Some? ==> |p.value.steps| == |p.value.inits| == |p.value.nexts|
                        && forall j :: 0 <= j < |p.value.nexts| ==> p.value.nexts[j] != Some("getPlatform")
  {
    assert |HMC.steps| == |HMC.inits| == |HMC.nexts| == 9;
    assert forall j :: 0 <= j < 9 ==> HMC.nexts[j].Some? ==> HMC.nexts[j].value[0] == 'c';
    assert forall j :: 0 <= j < |IPMI.nexts| ==> IPMI.nexts[j].Some? ==> IPMI.nexts[j].value[0] == 'i';
    assert Some("getPlatform").value[0] == 'g';
  }

  lemma ClickKeepsSafe(s: State, c: Click)
    requires Safe(s) && HasButton(s, c)
    ensures Safe(Handle(s, c))
  {
    if c.Next? && s.current == 0 {
      PluginsFit(c.radio);
      if PluginOf(c.radio).Some? {
        var p := PluginOf(c.radio).value;
        var s' := WithPlatform(s, p);
        assert forall j :: 0 < j < |s'.nexts| - 1 ==> s'.nexts[j] == p.nexts[j - 1];
      }
    }
  }

  // ----- whole runs -----

  /** `run` is what the clicks make of the start state, each on a button that is there. */
  predicate IsRun(run: seq<State>, clicks: seq<Click>) {
    && |run| == |clicks| + 1 && run[0] == START
    && forall i :: 0 <= i < |clicks| ==> HasButton(run[i], clicks[i]) && run[i + 1] == Handle(run[i], clicks[i])
  }

  lemma {:induction false} RunIsSafe(run: seq<State>, clicks: seq<Click>, k: nat)
    requires IsRun(run, clicks) && k < |run|
    ensures Safe(run[k])
  {
    StartIsSafe();
    if k > 0 {
      RunIsSafe(run, clicks, k - 1);
      ClickKeepsSafe(run[k - 1], clicks[k - 1]);
    }
  }

  /** Click `i` is a "next" whose check of page `j` succeeded. */
  predicate Passes(run: seq<State>, clicks: seq<Click>, i: nat, j: nat)
    requires IsRun(run, clicks) && i < |clicks|
  {
    && run[i].current == j && clicks[i].Next?
    && (if j == 0 then PluginOf(clicks[i].radio).Some? else clicks[i].ok)
  }

  /** Click `i` collects input from page `j`, throws all input away, or changes the pages behind the first. */
  predicate Spoils(run: seq<State>, clicks: seq<Click>, i: nat, j: nat)
    requires IsRun(run, clicks) && i < |clicks|
  {
    || clicks[i].Cancel?
    || (run[i].current == j && 0 < j < |run[i].nexts| && run[i].nexts[j].Some?)
    || (j > 0 && run[i].current == 0 && clicks[i].Next? && PluginOf(clicks[i].radio).Some?)
  }

  /** Before state `k` page `j` passed its check and nothing spoiled that since. */
  ghost predicate CheckedLast(run: seq<State>, clicks: seq<Click>, k: nat, j: nat)
    requires IsRun(run, clicks) && k < |run|
  {
    exists i :: 0 <= i < k && Passes(run, clicks, i, j) && forall m :: i < m < k ==> !Spoils(run, clicks, m, j)
  }

  /** A page is in `passed` because of the last click or was before it. */
  lemma PassedBefore(run: seq<State>, clicks: seq<Click>, k: nat, j: nat)
    requires IsRun(run, clicks) && 0 < k < |run| && j in run[k].passed
    ensures Passes(run, clicks, k - 1, j) || (j in run[k - 1].passed && !Spoils(run, clicks, k - 1, j))
  {
    RunIsSafe(run, clicks, k - 1);
    assert run[k] == HandleOnPage(run[k - 1], clicks[k - 1]);
  }

  lemma {:induction false} PassedWasChecked(run: seq<State>, clicks: seq<Click>, k: nat, j: nat)
    requires IsRun(run, clicks) && k < |run| && j in run[k].passed
    ensures CheckedLast(run, clicks, k, j)
  {
    if k > 0 {
      PassedBefore(run, clicks, k, j);
      if !Passes(run, clicks, k - 1, j) {
        PassedWasChecked(run, clicks, k - 1, j);
        var i :| && 0 <= i < k - 1 && Passes(run, clicks, i, j)
                 && forall m :: i < m < k - 1 ==> !Spoils(run, clicks, m, j);
        assert forall m :: i < m < k ==> !Spoils(run, clicks, m, j);
      }
    }
  }

  /**
   * In every run, every page before the current one that has a check passed it at the latest "next", and since then
   * no input was collected from it unchecked; on the last page this holds for all pages.
   */
  lemma PagesBeforeAreChecked(run: seq<State>, clicks: seq<Click>, k: nat, j: nat)
    requires IsRun(run, clicks) && k < |run| && j < run[k].current
    ensures j < |run[k].nexts| && |run[k].steps| == |run[k].inits| == |run[k].nexts| && run[k].current < |run[k].steps|
    ensures run[k].nexts[j].Some? ==> CheckedLast(run, clicks, k, j)
  {
    RunIsSafe(run, clicks, k);
    if run[k].nexts[j].Some? {
      PassedWasChecked(run, clicks, k, j);
    }
  }

  // ----- where a click leads -----

  predicate SameArrays(s: State, s': State) {
    s'.steps == s.steps && s'.inits == s.inits && s'.nexts == s.nexts
  }

  /** The page has no check, or its check agrees. */
  predicate Agrees(s: State, ok: bool) {
    s.current < |s.nexts| && (s.nexts[s.current] == None || ok)
  }

  /**
   * In every run: "Back" leads to the page before and "Next" behind the first page to the page after, if the page
   * has no check or its check agrees, and they stay on the page otherwise. "Cancel" leads to the first page. None of
   * them changes the arrays.
   */
  lemma ClickLeadsTo(run: seq<State>, clicks: seq<Click>, i: nat)
    requires IsRun(run, clicks) && i < |clicks|
    ensures var s, s', c := run[i], run[i + 1], clicks[i];
            && (c.Back? ==> SameArrays(s, s') && s'.current == s.current - if Agrees(s, c.ok) then 1 else 0)
            && (c.Next? && s.current > 0 ==>
                  SameArrays(s, s') && s'.current == s.current + if Agrees(s, c.ok) then 1 else 0)
            && (c.Cancel? ==> SameArrays(s, s') && s'.current == 0)
  {
    RunIsSafe(run, clicks, i);
  }

  /** "Next" and then an agreed "Back" lead to the same page, and so do "Back" and an agreed "Next". */
  lemma ThereAndBack(run: seq<State>, clicks: seq<Click>, i: nat)
    requires IsRun(run, clicks) && i + 1 < |clicks|
    requires run[i + 1].current != run[i].current && !clicks[i].Cancel?
    requires if clicks[i].Next? then clicks[i + 1].Back? else run[i].current > 1 && clicks[i + 1].Next?
    requires Agrees(run[i + 1], clicks[i + 1].ok)
    ensures run[i + 2].current == run[i].current
  {
    RunIsSafe(run, clicks, i);
    ClickLeadsTo(run, clicks, i);
    ClickLeadsTo(run, clicks, i + 1);
  }

  // ----- the pages of a platform -----

  /** A page with its title, its page function and its check. */
  datatype Page = Page(title: string, init: string, check: Option<string>)

  function Pages(s: State): seq<Page>
    requires |s.steps| == |s.inits| == |s.nexts|
  {
    seq(|s.steps|, i requires 0 <= i < |s.steps| => Page(s.steps[i], s.inits[i], s.nexts[i]))
  }

  const FIRST_PAGE := Page("Platform", "initSelectPlatform", Some("getPlatform"))
  const LAST_PAGE := Page("compelte", "complete", None)

  /** "Next" on the first page with one of the two Power buttons leads to the first of these nine pages. */
  lemma PowerPages(run: seq<State>, clicks: seq<Click>, i: nat)
    requires IsRun(run, clicks) && i < |clicks| && run[i].current == 0
    requires clicks[i].Next? && (clicks[i].radio == Ih || clicks[i].radio == NonIh)
    ensures var s := run[i + 1];
            && s.current == 1 && |s.steps| == |s.inits| == |s.nexts|
            && Pages(s) ==
               [FIRST_PAGE,
                Page("Basic patterns", "powerInitBasicPattern", Some("checkBasicPattern")),
                Page("Supernode", "powerInitSupernode", Some("checkSupernode")),
                Page("More patterns", "powerInitSiteTable", Some("checkSiteTable")),
                Page("Power on hardware", "powerInitPoweronHardware", None),
                Page("Discover frames", "powerInitDiscoverFrames", Some("checkFrameMtms")),
                Page("Discover hmcs", "powerInitDiscoverHmc", Some("checkHmcMtms")),
                Page("Management node", "powerInitConfig", None),
                Page("Discover Rest of Hardware and Update Definitions", "powerInitUpdateDefinition", None),
                Page("Create LPARs", "powerInitCreateLpar", Some("collectInputValue")),
                LAST_PAGE]
  {
    RunIsSafe(run, clicks, i);
  }

  /** With the iDataPlex button to the first of these five. */
  lemma IdataplexPages(run: seq<State>, clicks: seq<Click>, i: nat)
    requires IsRun(run, clicks) && i < |clicks| && run[i].current == 0
    requires clicks[i].Next? && clicks[i].radio == Idataplex
    ensures var s := run[i + 1];
            && s.current == 1 && |s.steps| == |s.inits| == |s.nexts|
            && Pages(s) ==
               [FIRST_PAGE,
                Page("Basic patterns", "idataplexInitBasic", Some("idataplexCheckBasic")),
                Page("Switches", "idataplexInitSwitch", None),
                Page("Network", "idataplexInitNetwork", Some("idataplexCheckNetwork")),
                Page("Services", "idataplexInitService", None),
                Page("Power on hardware", "idataplexInitPowerOn", None),
                LAST_PAGE]
  {
    RunIsSafe(run, clicks, i);
  }

  /** With any other choice nothing changes. */
  lemma NoPlatform(run: seq<State>, clicks: seq<Click>, i: nat)
    requires IsRun(run, clicks) && i < |clicks| && run[i].current == 0
    requires clicks[i].Next? && (clicks[i].radio == BladeCenter || clicks[i].radio == Nothing)
    ensures run[i + 1] == run[i]
  {
    RunIsSafe(run, clicks, i);
  }
}
