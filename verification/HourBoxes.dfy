/**
 * The schedule boxes of xCAT-UI/js/help/help.js: 24 hours and "every hour", clicked in any order, saved as a text with
 * the numerals of the hours, and loaded from such a text.
 */
module HourBoxes {
  import opened Text
  import opened Decimal

  const HOURS: nat := 24

  /** What is checked: the box "every hour" and the set of hours. */
  datatype Form = Form(every: bool, checked: set<nat>)

  const ALL_HOURS: set<nat> := set h: nat | h < HOURS

  datatype Click = EveryHour | Hour(h: nat)

  /** The form after the browser toggled a box and its handler ran. */
  function After(f: Form, c: Click): Form {
    match c
    case EveryHour => if f.every then f.(every := false) else Form(true, f.checked + ALL_HOURS)
    case Hour(h) =>
      if h in f.checked then Form(false, f.checked - {h}) else f.(checked := f.checked + {h})
  }

  function Run(f: Form, clicks: seq<Click>): Form {
    if clicks == [] then f else After(Run(f, clicks[..|clicks| - 1]), clicks[|clicks| - 1])
  }

  predicate OnPage(clicks: seq<Click>) {
    forall i :: 0 <= i < |clicks| ==> clicks[i].Hour? ==> clicks[i].h < HOURS
  }

  /** "Every hour" is checked only with all hours. */
  predicate Consistent(f: Form) {
    f.checked <= ALL_HOURS && (f.every ==> f.checked == ALL_HOURS)
  }

  /** In every run of clicks the box "every hour" is checked only while all 24 hours are. */
  lemma {:induction false} ClicksStayConsistent(f: Form, clicks: seq<Click>)
    requires Consistent(f) && OnPage(clicks)
    ensures Consistent(Run(f, clicks))
    decreases |clicks|
  {
    if clicks != [] {
      ClicksStayConsistent(f, clicks[..|clicks| - 1]);
    }
  }

  // ----- the schedule text -----

  /** The numerals of the checked hours below `n`, in order. */
  function Words(checked: set<nat>, n: nat): seq<string> {
    if n == 0 then [] else Words(checked, n - 1) + if n - 1 in checked then [Numeral(n - 1)] else []
  }

  /** "0 1 2 ... 23" */
  const EVERY_HOUR: string := "0" + " 1 2 3 4 5 6" + " 7 8 9 10 11 12" + " 13 14 15 16 17 18" + " 19 20 21 22 23"

  /** The text of the two branches: the fixed one, or every checked hour with a blank before it. */
  function ScheduleText(f: Form): string {
    if f.every then EVERY_HOUR else Join([""] + Words(f.checked, HOURS), ' ')
  }

  /** What is saved; without an hour there is a warning instead. */
  function Saved(f: Form): Option<string> {
    if ScheduleText(f) == "" then None else Some(ScheduleText(f))
  }

  /** The hours that loading finds in a schedule. */
  function ReadHours(schedule: string): set<nat> {
    var words := Split(schedule, ' ');
    set h: nat | h < HOURS && Numeral(h) in words
  }

  function Loaded(schedule: string): Form {
    Form(ReadHours(schedule) == ALL_HOURS, ReadHours(schedule))
  }

  lemma {:induction false} WordsPlain(checked: set<nat>, n: nat)
    ensures forall i :: 0 <= i < |Words(checked, n)| ==> ' ' !in Words(checked, n)[i]
  {
    if n > 0 {
      WordsPlain(checked, n - 1);
    }
  }

  lemma {:induction false} WordsAre(checked: set<nat>, n: nat, h: nat)
    ensures Numeral(h) in Words(checked, n) <==> h < n && h in checked
  {
    if n > 0 {
      var before, last := Words(checked, n - 1), Numeral(n - 1);
      WordsAre(checked, n - 1, h);
      DifferentNumerals(h, n - 1);
      assert Numeral(h) in before + [last] <==> Numeral(h) in before || Numeral(h) == last;
    }
  }

  lemma DifferentNumerals(m: nat, n: nat)
    ensures Numeral(m) == Numeral(n) <==> m == n
  {
    ValueOfNumeral(m);
    ValueOfNumeral(n);
  }

  // ----- the fixed text -----

  lemma NextHour(n: nat)
    requires 0 < n < HOURS
    ensures Join(Words(ALL_HOURS, n + 1), ' ') == Join(Words(ALL_HOURS, n), ' ') + [' '] + Numeral(n)
  {
    assert n in ALL_HOURS && Words(ALL_HOURS, n + 1) == Words(ALL_HOURS, n) + [Numeral(n)];
    assert n - 1 in ALL_HOURS && Words(ALL_HOURS, n) != [];
    JoinAppend(Words(ALL_HOURS, n), [Numeral(n)], ' ');
  }

  /** The next `k` hours from `n` on, each with a blank before it. */
  function Hours(n: nat, k: nat): string
    decreases k
  {
    if k == 0 then "" else [' '] + Numeral(n) + Hours(n + 1, k - 1)
  }

  /** `texts(n)` grows by one hour with every step. */
  ghost predicate GrowsByHours(texts: nat -> string) {
    forall m :: 0 < m < HOURS ==> texts(m + 1) == texts(m) + [' '] + Numeral(m)
  }

  lemma {:induction false} MoreHours(texts: nat -> string, n: nat, k: nat)
    requires GrowsByHours(texts) && 0 < n && n + k <= HOURS
    ensures texts(n + k) == texts(n) + Hours(n, k)
    decreases k
  {
    if k == 0 {
      assert texts(n) + "" == texts(n);
    } else {
      var text, hour, later := texts(n), [' '] + Numeral(n), Hours(n + 1, k - 1);
      MoreHours(texts, n + 1, k - 1);
      AppendTwice(text, [' '], Numeral(n));
      assert texts(n + 1) == text + hour;
      AppendTwice(text, hour, later);
      assert Hours(n, k) == hour + later;
    }
  }

  lemma TwoDigits(t: nat, u: nat)
    requires 0 < t < 10 && u < 10
    ensures Numeral(10 * t + u) == [Digit(t), Digit(u)]
  {
    var n := 10 * t + u;
    assert n / 10 == t && n % 10 == u;
    assert Numeral(t) == [Digit(t)];
  }

  lemma MorningHours()
    ensures Hours(1, 6) == " 1 2 3 4 5 6"
  {
  }

  lemma NoonHours()
    ensures Hours(7, 6) == " 7 8 9 10 11 12"
  {
    TwoDigits(1, 0);
    TwoDigits(1, 1);
    TwoDigits(1, 2);
  }

  lemma AfternoonHours()
    ensures Hours(13, 6) == " 13 14 15 16 17 18"
  {
    TwoDigits(1, 3);
    TwoDigits(1, 4);
    TwoDigits(1, 5);
    TwoDigits(1, 6);
    TwoDigits(1, 7);
    TwoDigits(1, 8);
  }

  lemma EveningHours()
    ensures Hours(19, 5) == " 19 20 21 22 23"
  {
    TwoDigits(1, 9);
    TwoDigits(2, 0);
    TwoDigits(2, 1);
    TwoDigits(2, 2);
    TwoDigits(2, 3);
  }

  lemma FixedText(texts: nat -> string)
    requires GrowsByHours(texts) && texts(1) == "0"
    ensures texts(HOURS) == EVERY_HOUR
  {
    MoreHours(texts, 1, 6);
    MoreHours(texts, 7, 6);
    MoreHours(texts, 13, 6);
    MoreHours(texts, 19, 5);
    MorningHours();
    NoonHours();
    AfternoonHours();
    EveningHours();
  }

  /** The fixed text names all hours. */
  lemma EveryHourText()
    ensures Join(Words(ALL_HOURS, HOURS), ' ') == EVERY_HOUR
  {
    var texts := (n: nat) => Join(Words(ALL_HOURS, n), ' ');
    forall m | 0 < m < HOURS ensures texts(m + 1) == texts(m) + [' '] + Numeral(m) {
      NextHour(m);
    }
    assert 0 in ALL_HOURS && Words(ALL_HOURS, 0) == [] && Words(ALL_HOURS, 1) == ["0"];
    assert texts(1) == "0";
    FixedText(texts);
  }

  // ----- what is saved -----

  lemma SavedWords(f: Form)
    ensures var words := Words(if f.every then ALL_HOURS else f.checked, HOURS);
            Split(ScheduleText(f), ' ') == if f.every then words else [""] + words
  {
    var checked := if f.every then ALL_HOURS else f.checked;
    var words := Words(checked, HOURS);
    WordsPlain(checked, HOURS);
    if f.every {
      EveryHourText();
      assert 0 in ALL_HOURS;
      WordsAre(ALL_HOURS, HOURS, 0);
      SplitJoin(words, ' ');
    } else {
      SplitJoin([""] + words, ' ');
    }
  }

  /** The saved text names exactly the checked hours if and only if "every hour" is checked only with all hours. */
  lemma SavedIsCheckedIff(f: Form)
    requires f.checked <= ALL_HOURS
    ensures ReadHours(ScheduleText(f)) == f.checked <==> Consistent(f)
  {
    var checked := if f.every then ALL_HOURS else f.checked;
    SavedWords(f);
    forall h: nat | h < HOURS ensures Numeral(h) in Split(ScheduleText(f), ' ') <==> h in checked {
      WordsAre(checked, HOURS, h);
      assert Numeral(h) in [""] + Words(checked, HOURS) <==> Numeral(h) in Words(checked, HOURS);
    }
    assert ReadHours(ScheduleText(f)) == checked;
  }

  lemma {:induction false} WordsOfNone(n: nat)
    ensures Words({}, n) == []
  {
    if n > 0 {
      WordsOfNone(n - 1);
    }
  }

  /** Nothing is saved exactly when no box is checked. */
  lemma NothingSavedIff(f: Form)
    requires f.checked <= ALL_HOURS
    ensures Saved(f) == None <==> f == Form(false, {})
  {
    if f.every {
      assert |EVERY_HOUR| > 0;
    } else if f.checked == {} {
      WordsOfNone(HOURS);
      assert Join([""], ' ') == "";
    } else {
      var h :| h in f.checked;
      WordsAre(f.checked, HOURS, h);
      var words := Words(f.checked, HOURS);
      JoinAppend([""], words, ' ');
    }
  }

  /**
   * After any clicks on a loaded or an empty form, nothing is saved if no hour is checked; otherwise saving and
   * loading restores the checked hours, and "every hour" is then checked exactly when all hours are.
   */
  lemma SaveThenLoad(f: Form, clicks: seq<Click>)
    requires Consistent(f) && OnPage(clicks)
    ensures var now := Run(f, clicks);
            && (Saved(now) == None <==> now.checked == {})
            && (Saved(now).Some? ==> Loaded(Saved(now).value) == Form(now.checked == ALL_HOURS, now.checked))
    ensures forall schedule :: Consistent(Loaded(schedule))
  {
    var now := Run(f, clicks);
    ClicksStayConsistent(f, clicks);
    SavedIsCheckedIff(now);
    NothingSavedIff(now);
    assert 0 in ALL_HOURS;
  }

  // ----- the boxes -----

  class Boxes {
    const hours: array<bool>
    var everyHour: bool

    ghost predicate Valid()
      reads this
    {
      hours.Length == HOURS
    }

    ghost function View(): Form
      requires Valid()
      reads this, hours
    {
      Form(everyHour, CheckedBelow(hours[..], HOURS))
    }

    /** The boxes as the page is built. */
    constructor ()
      ensures Valid() && fresh(hours) && View() == Form(false, {})
    {
      hours := new bool[HOURS](_ => false);
      everyHour := false;
    }

    /** A click on "every hour", with `everyHourClick`. */
    method ClickEveryHour()
      requires Valid()
      modifies this`everyHour, hours
      ensures Valid() && View() == After(old(View()), EveryHour)
      ensures everyHour == !old(everyHour)
      ensures if everyHour then forall k :: 0 <= k < 24 ==> hours[k] else hours[..] == old(hours[..])
    {
      ghost var before := View();
      everyHour := !everyHour;
      if everyHour {
        CheckAll();
        assert before.checked + ALL_HOURS == ALL_HOURS;
        assert View() == After(before, EveryHour);
      } else {
        assert before.every;
        assert View() == After(before, EveryHour);
      }
    }

    method CheckAll()
      requires Valid()
      modifies hours
      ensures CheckedBelow(hours[..], HOURS) == ALL_HOURS && forall k :: 0 <= k < HOURS ==> hours[k]
    {
      for i := 0 to HOURS
        invariant forall k :: 0 <= k < i ==> hours[k]
      {
        hours[i] := true;
      }
    }

    /** A click on the box of an hour, with `hourClick`. */
    method ClickHour(h: nat)
      requires Valid() && h < HOURS
      modifies this`everyHour, hours
      ensures Valid() && View() == After(old(View()), Hour(h))
      ensures hours[..] == old(hours[..])[h := !old(hours[h])] && everyHour == (old(everyHour) && hours[h])
    {
      hours[h] := !hours[h];
      if !hours[h] {
        everyHour := false;
      }
    }

    /** The argument for the schedule, `None` for the warning. */
    method Save() returns (argument: Option<string>)
      requires Valid()
      ensures argument == Saved(View())
    {
      var schedule := WriteSchedule();
      return if schedule != "" then Some(schedule) else None;
    }

    /** The two branches that write the schedule. */
    method WriteSchedule() returns (schedule: string)
      requires Valid()
      ensures schedule == ScheduleText(View())
    {
      if everyHour {
        return EVERY_HOUR;
      }
      schedule := "";
      ghost var checked := CheckedBelow(hours[..], HOURS);
      for i := 0 to HOURS
        invariant schedule == Join([""] + Words(checked, i), ' ')
      {
        if hours[i] {
          NextWord(Words(checked, i), Numeral(i));
          schedule := schedule + (" " + Numeral(i));
        } else {
          assert Words(checked, i + 1) == Words(checked, i);
        }
      }
    }

    /** The part of `setVarsForId` that sets the boxes. */
    method Load(schedule: string)
      requires Valid()
      modifies this`everyHour, hours
      ensures Valid() && View() == Loaded(schedule)
    {
      var marked := MarkWords(schedule);
      var fullDay := SetHours(marked);
      everyHour := fullDay;
      LoadedBoxes(hours[..], schedule, marked, fullDay);
    }

    method SetHours(marked: set<string>) returns (fullDay: bool)
      requires Valid()
      modifies hours
      ensures forall k: nat :: k < HOURS ==> (hours[..][k] <==> Numeral(k) in marked)
      ensures fullDay <==> forall k: nat :: k < HOURS ==> hours[..][k]
    {
      fullDay := true;
      for i := 0 to HOURS
        invariant forall k: nat :: k < i ==> (hours[k] <==> Numeral(k) in marked)
        invariant fullDay <==> forall k: nat :: k < i ==> hours[k]
      {
        hours[i] := Numeral(i) in marked;
        if !hours[i] {
          fullDay := false;
        }
      }
    }
  }

  /** The keys of the object `hours`. */
  method MarkWords(schedule: string) returns (marked: set<string>)
    ensures marked == set w | w in Split(schedule, ' ')
  {
    var hour := Split(schedule, ' ');
    marked := {};
    for j := 0 to |hour|
      invariant marked == set w | w in hour[..j]
    {
      marked := marked + {hour[j]};
    }
    assert hour[..|hour|] == hour;
  }

  lemma LoadedBoxes(boxes: seq<bool>, schedule: string, marked: set<string>, fullDay: bool)
    requires |boxes| == HOURS && marked == (set w | w in Split(schedule, ' '))
    requires forall k: nat :: k < HOURS ==> (boxes[k] <==> Numeral(k) in marked)
    requires fullDay <==> forall k: nat :: k < HOURS ==> boxes[k]
    ensures Form(fullDay, CheckedBelow(boxes, HOURS)) == Loaded(schedule)
  {
    assert CheckedBelow(boxes, HOURS) == ReadHours(schedule);
    if !fullDay {
      var k: nat :| k < HOURS && !boxes[k];
      assert k in ALL_HOURS && k !in CheckedBelow(boxes, HOURS);
    } else {
      assert CheckedBelow(boxes, HOURS) == ALL_HOURS;
    }
  }

  /** The hours below `n` whose box is checked. */
  ghost function CheckedBelow(boxes: seq<bool>, n: nat): set<nat>
    requires n <= |boxes|
  {
    set h: nat | h < n && boxes[h]
  }

  lemma NextWord(words: seq<string>, word: string)
    ensures Join([""] + (words + [word]), ' ') == Join([""] + words, ' ') + (" " + word)
  {
    JoinAppend([""] + words, [word], ' ');
    assert [""] + (words + [word]) == ([""] + words) + [word];
  }
}
