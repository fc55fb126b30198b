/**
 * Node range expansion: `expandNR` of xCAT-UI/js/configure/discover.js, with the way in which JavaScript compares and
 * counts up texts and numbers.
 */
module NodeRange {
  import opened Text
  import opened Decimal

  // ----- JavaScript values of the loop variable -----

  /** The loop variable starts as a string and is a number, or not a number, after the first `i++`. */
  datatype Counter = Str(text: string) | Num(n: nat) | NotANumber

  /** `a <= b` on strings: by the first character that differs, a prefix first. */
  predicate StringLe(a: string, b: string) {
    a == [] || (b != [] && (a[0] < b[0] || (a[0] == b[0] && StringLe(a[1..], b[1..]))))
  }

  /** The number a text spells: 0 for the empty text, `None` for `NaN`. */
  function ToNumber(s: string): Option<nat> {
    if AllDigits(s) then Some(Value(s)) else None
  }

  /** `i <= bound`: two strings compare as strings, a number and a string as numbers. */
  predicate AtMost(i: Counter, bound: string) {
    match i
    case Str(text) => StringLe(text, bound)
    case Num(n) => ToNumber(bound).Some? && n <= ToNumber(bound).value
    case NotANumber => false
  }

  /** `i++` */
  function Next(i: Counter): Counter {
    match i
    case Str(text) => if ToNumber(text).Some? then Num(ToNumber(text).value + 1) else NotANumber
    case Num(n) => Num(n + 1)
    case NotANumber => NotANumber
  }

  /** `i.toString()` */
  function ToText(i: Counter): string {
    match i
    case Str(text) => text
    case Num(n) => Numeral(n)
    case NotANumber => "NaN"
  }

  /** `"000000".substring(0, len - ts.length) + ts` when `ts` is too short: at most six zeros. */
  function Padded(ts: string, len: nat): string {
    if |ts| < len then Zeros(if len - |ts| < 6 then len - |ts| else 6) + ts else ts
  }

  /** A padded number has the wanted length or six zeros more than before, and still is the same number. */
  lemma PaddedText(ts: string, len: nat)
    ensures |Padded(ts, len)| == if |ts| >= len then |ts| else if len <= |ts| + 6 then len else |ts| + 6
    ensures AllDigits(ts) ==> AllDigits(Padded(ts, len)) && Value(Padded(ts, len)) == Value(ts)
  {
    if AllDigits(ts) && |ts| < len {
      ValueOfPadded(if len - |ts| < 6 then len - |ts| else 6, ts);
    }
  }

  /** How many turns the loop has left at most. */
  function TurnsLeft(i: Counter, bound: string): nat {
    var top := if ToNumber(bound).Some? then ToNumber(bound).value + 1 else 0;
    match i
    case Str(_) => top + 1
    case Num(n) => if n < top then top - n else 0
    case NotANumber => 0
  }

  /** The padded texts of all turns of the loop. */
  function LoopTexts(i: Counter, bound: string, len: nat): seq<string>
    decreases TurnsLeft(i, bound)
  {
    if AtMost(i, bound) then [Padded(ToText(i), len)] + LoopTexts(Next(i), bound, len) else []
  }

  // ----- the two patterns -----

  /** Position of the first `c` at or after `from`, -1 if there is none. */
  function IndexFrom(s: string, c: char, from: nat): (p: int)
    requires from <= |s|
    ensures p == -1 || (from <= p < |s| && s[p] == c)
    ensures forall q :: from <= q < |s| && (p == -1 || q < p) ==> s[q] != c
    decreases |s| - from
  {
    if from == |s| then -1 else if s[from] == c then from else IndexFrom(s, c, from + 1)
  }

  datatype Match = Match(before: string, inside: string, after: string)

  /** `nodeRange.match(/(.*?)\[(.*?)\](.*)/)` on a text without newlines. */
  function MatchGroup(s: string): Option<Match> {
    var p := IndexFrom(s, '[', 0);
    if p == -1 then None else
      var q := IndexFrom(s, ']', p + 1);
      if q == -1 then None else Some(Match(s[..p], s[p + 1..q], s[q + 1..]))
  }

  /** Where the leading characters that are not digits end. */
  function NonDigits(s: string): (k: nat)
    ensures k <= |s| && forall i :: 0 <= i < k ==> !IsDigit(s[i])
    ensures k < |s| ==> IsDigit(s[k])
  {
    if s == [] || IsDigit(s[0]) then 0 else NonDigits(s[1..]) + 1
  }

  /** `text.match(/^(\D+)(\d+)$/)` */
  function MatchName(s: string): Option<(string, string)> {
    var k := NonDigits(s);
    if 0 < k < |s| && AllDigits(s[k..]) then Some((s[..k], s[k..])) else None
  }

  // ----- what the function computes -----

  function Prefixed(prefix: string, texts: seq<string>): seq<string> {
    seq(|texts|, i requires 0 <= i < |texts| => prefix + texts[i])
  }

  /** The range "a1-a5" of two names, or the text itself. */
  function ExpandDash(s: string): seq<string> {
    var parts := Split(s, '-');
    if |parts| < 2 then [s] else
      match (MatchName(parts[0]), MatchName(parts[1]))
      case (Some((p, lo)), Some((q, hi))) => if p != q then [s] else Prefixed(p, LoopTexts(Str(lo), hi, |lo|))
      case _ => [s]
  }

  /** The strings with the group replaced by each of `texts`. */
  function Substituted(m: Match, texts: seq<string>): seq<string> {
    seq(|texts|, i requires 0 <= i < |texts| => m.before + texts[i] + m.after)
  }

  lemma {:induction false} TextsHaveNoBracket(i: Counter, bound: string, len: nat)
    requires i.Str? ==> ']' !in i.text
    ensures forall k :: 0 <= k < |LoopTexts(i, bound, len)| ==> ']' !in LoopTexts(i, bound, len)[k]
    decreases TurnsLeft(i, bound)
  {
    if AtMost(i, bound) {
      TextsHaveNoBracket(Next(i), bound, len);
      assert ']' !in ToText(i);
    }
  }

  /** Replacing a group takes away its closing bracket. */
  lemma GroupShrinks(s: string, text: string)
    requires MatchGroup(s).Some? && ']' !in text
    ensures var m := MatchGroup(s).value; Count(m.before + text + m.after, ']') < Count(s, ']')
  {
    var m := MatchGroup(s).value;
    assert s == m.before + ['['] + m.inside + [']'] + m.after;
    CountZero(text, ']');
    CountAppend(m.before + text, m.after, ']');
    CountAppend(m.before, text, ']');
    CountAppend(m.before + ['['] + m.inside + [']'], m.after, ']');
    CountAppend(m.before + ['['] + m.inside, [']'], ']');
    CountAppend(m.before + ['['], m.inside, ']');
    CountAppend(m.before, ['['], ']');
  }

  lemma SubstitutedShrinks(s: string, len: nat)
    requires MatchGroup(s).Some?
    ensures var m := MatchGroup(s).value;
            var parts := Split(m.inside, '-');
            |parts| >= 2 ==> Below(Substituted(m, LoopTexts(Str(parts[0]), parts[1], len)), Count(s, ']'))
  {
    var m := MatchGroup(s).value;
    var parts := Split(m.inside, '-');
    if |parts| >= 2 {
      var texts := LoopTexts(Str(parts[0]), parts[1], len);
      PieceHasNoBracket(m.inside);
      TextsHaveNoBracket(Str(parts[0]), parts[1], len);
      forall i | 0 <= i < |texts| ensures Count(Substituted(m, texts)[i], ']') < Count(s, ']') {
        GroupShrinks(s, texts[i]);
      }
    }
  }

  lemma PieceHasNoBracket(inside: string)
    requires ']' !in inside
    ensures ']' !in Split(inside, '-')[0]
  {
    var p := Split(inside, '-');
    JoinSplit(inside, '-');
    if |p| > 1 {
      assert inside == p[0] + (['-'] + Join(p[1..], '-'));
    }
    assert forall i :: 0 <= i < |p[0]| ==> p[0][i] == inside[i];
  }

  /** Every string has fewer than `n` closing brackets. */
  predicate Below(ss: seq<string>, n: nat) {
    forall i :: 0 <= i < |ss| ==> Count(ss[i], ']') < n
  }

  /** The node names of a range. */
  function Expand(s: string): seq<string>
    decreases Count(s, ']') + 1, 0, 0
  {
    if s == "" then [] else
      match MatchGroup(s)
      case None => ExpandDash(s)
      case Some(m) =>
        var parts := Split(m.inside, '-');
        if |parts| < 2 then [] else
          SubstitutedShrinks(s, |parts[0]|);
          ExpandAll(Substituted(m, LoopTexts(Str(parts[0]), parts[1], |parts[0]|)), Count(s, ']'))
  }

  function ExpandAll(ss: seq<string>, ghost brackets: nat): seq<string>
    requires Below(ss, brackets)
    decreases brackets, 1, |ss|
  {
    if ss == [] then [] else Expand(ss[0]) + ExpandAll(ss[1..], brackets)
  }

  /** The padding of one turn. */
  method PadText(i: Counter, len: nat) returns (ts: string)
    ensures ts == Padded(ToText(i), len)
  {
    ts := ToText(i);
    if |ts| < len {
      ts := Zeros(if len - |ts| < 6 then len - |ts| else 6) + ts;
    }
  }

  lemma PrefixedCons(prefix: string, t: string, ts: seq<string>)
    ensures Prefixed(prefix, [t] + ts) == [prefix + t] + Prefixed(prefix, ts)
  {
  }

  lemma TurnTaken(i: Counter, bound: string)
    requires AtMost(i, bound)
    ensures TurnsLeft(Next(i), bound) < TurnsLeft(i, bound)
  {
  }

  /** The loop over a range of two names. */
  method ExpandNames(prefix: string, lo: string, hi: string) returns (names: seq<string>)
    ensures names == Prefixed(prefix, LoopTexts(Str(lo), hi, |lo|))
  {
    names := [];
    var i := Str(lo);
    ghost var left := LoopTexts(i, hi, |lo|);
    ghost var all := Prefixed(prefix, left);
    while AtMost(i, hi)
      invariant left == LoopTexts(i, hi, |lo|) && all == names + Prefixed(prefix, left)
      decreases TurnsLeft(i, hi)
    {
      var ts := PadText(i, |lo|);
      PrefixedCons(prefix, ts, left[1..]);
      AppendTwice(names, [prefix + ts], Prefixed(prefix, left[1..]));
      TurnTaken(i, hi);
      names := names + [prefix + ts];
      left := left[1..];
      i := Next(i);
    }
  }

  lemma SubstitutedCons(m: Match, t: string, ts: seq<string>)
    ensures Substituted(m, [t] + ts) == [m.before + t + m.after] + Substituted(m, ts)
  {
  }

  lemma ExpandAllCons(first: string, rest: seq<string>, n: nat)
    requires Below([first] + rest, n)
    ensures Count(first, ']') < n && Below(rest, n)
    ensures ExpandAll([first] + rest, n) == Expand(first) + ExpandAll(rest, n)
  {
    var all := [first] + rest;
    assert all[0] == first && all[1..] == rest;
    forall i | 0 <= i < |rest| ensures Count(rest[i], ']') < n {
      assert all[i + 1] == rest[i];
    }
  }

  /** One turn of the loop over a group. */
  lemma ExpandTurn(m: Match, i: Counter, bound: string, len: nat, n: nat)
    requires AtMost(i, bound)
    requires Below(Substituted(m, LoopTexts(i, bound, len)), n)
    ensures var first := m.before + Padded(ToText(i), len) + m.after;
            var left := Substituted(m, LoopTexts(Next(i), bound, len));
            && Count(first, ']') < n
            && Below(left, n)
            && ExpandAll(Substituted(m, LoopTexts(i, bound, len)), n) == Expand(first) + ExpandAll(left, n)
  {
    var t, ts := Padded(ToText(i), len), LoopTexts(Next(i), bound, len);
    SubstitutedCons(m, t, ts);
    ExpandAllCons(m.before + t + m.after, Substituted(m, ts), n);
  }

  /** The loop over a group, with the recursive call. */
  method ExpandGroup(m: Match, lo: string, hi: string, ghost n: nat) returns (names: seq<string>)
    requires Below(Substituted(m, LoopTexts(Str(lo), hi, |lo|)), n)
    ensures names == ExpandAll(Substituted(m, LoopTexts(Str(lo), hi, |lo|)), n)
    decreases n, 0
  {
    names := [];
    var i := Str(lo);
    ghost var left := Substituted(m, LoopTexts(i, hi, |lo|));
    ghost var rest := ExpandAll(left, n);
    ghost var all := rest;
    while AtMost(i, hi)
      invariant left == Substituted(m, LoopTexts(i, hi, |lo|)) && Below(left, n)
      invariant rest == ExpandAll(left, n) && all == names + rest
      decreases TurnsLeft(i, hi)
    {
      ExpandTurn(m, i, hi, |lo|, n);
      var ts := PadText(i, |lo|);
      var sub := ExpandNR(m.before + ts + m.after);
      left := Substituted(m, LoopTexts(Next(i), hi, |lo|));
      rest := ExpandAll(left, n);
      AppendTwice(names, sub, rest);
      TurnTaken(i, hi);
      names := names + sub;
      i := Next(i);
    }
    assert left == [];
  }

  /** `expandNR` */
  method ExpandNR(nodeRange: string) returns (names: seq<string>)
    ensures names == Expand(nodeRange)
    decreases Count(nodeRange, ']'), 1
  {
    if nodeRange == "" {
      return [];
    }
    var tempResult := MatchGroup(nodeRange);
    if tempResult.Some? {
      var parts := Split(tempResult.value.inside, '-');
      if |parts| < 2 {
        return [];
      }
      SubstitutedShrinks(nodeRange, |parts[0]|);
      names := ExpandGroup(tempResult.value, parts[0], parts[1], Count(nodeRange, ']'));
      return;
    }
    var tempArray := Split(nodeRange, '-');
    if |tempArray| < 2 {
      return [nodeRange];
    }
    var begin := MatchName(tempArray[0]);
    if begin.None? {
      return [nodeRange];
    }
    var end := MatchName(tempArray[1]);
    if end.None? || begin.value.0 != end.value.0 {
      return [nodeRange];
    }
    names := ExpandNames(begin.value.0, begin.value.1, end.value.1);
  }
}
