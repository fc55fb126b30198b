/**
 * Options and the string operations that the modelled scripts share, each with the laws that the other modules need:
 * cutting and joining are inverse to each other, and counting and removing go through texts piece by piece.
 */
module Text {

  datatype Option<+T> = None | Some(value: T)

  /** Cuts `s` at every `sep`: `split(sep)` of Python and JavaScript. */
  function Split<T(==)>(s: seq<T>, sep: T): (parts: seq<seq<T>>)
    ensures |parts| >= 1
  {
    if s == [] then [[]] else
      var rest := Split(s[1..], sep);
      if s[0] == sep then [[]] + rest else [[s[0]] + rest[0]] + rest[1..]
  }

  /** `sep.join(parts)` of Python, `parts.join(sep)` of JavaScript, `implode` of PHP. */
  function Join<T>(parts: seq<seq<T>>, sep: T): seq<T> {
    if parts == [] then []
    else if |parts| == 1 then parts[0]
    else parts[0] + [sep] + Join(parts[1..], sep)
  }

  /** Position of the first occurrence of `pat` in `s`, -1 if there is none: `find` and `indexOf`. */
  function Find(s: string, pat: string): (p: int)
    ensures -1 <= p <= |s|
    ensures p >= 0 ==> pat <= s[p..]
    ensures forall q :: 0 <= q <= |s| && (p == -1 || q < p) ==> !(pat <= s[q..])
    decreases |s|
  {
    if pat <= s then assert s[0..] == s; 0
    else if s == [] then -1
    else
      var p := Find(s[1..], pat);
      assert forall q :: 1 <= q <= |s| ==> s[q..] == s[1..][q - 1..];
      if p == -1 then -1 else p + 1
  }

  lemma FindAtStart(s: string, pat: string)
    ensures Find(s, pat) == 0 <==> pat <= s
  {
    assert s[0..] == s;
  }

  lemma FindIs(s: string, pat: string, p: nat)
    requires p <= |s| && pat <= s[p..] && forall q :: 0 <= q < p ==> !(pat <= s[q..])
    ensures Find(s, pat) == p
  {
  }

  /** The white space of single-byte text that `strip` of Python removes. */
  predicate IsSpace(c: char) {
    c == ' ' || '\t' <= c <= '\r' || '\U{1c}' <= c <= '\U{1f}' || c == '\U{85}' || c == '\U{a0}'
  }

  function LeftStrip(s: string): string {
    if s != [] && IsSpace(s[0]) then LeftStrip(s[1..]) else s
  }

  function RightStrip(s: string): string {
    if s != [] && IsSpace(s[|s| - 1]) then RightStrip(s[..|s| - 1]) else s
  }

  function Strip(s: string): string {
    LeftStrip(RightStrip(s))
  }

  /** Every `from` becomes `to`: `replace` with single characters. */
  function ReplaceChar(s: string, from: char, to: char): string {
    seq(|s|, i requires 0 <= i < |s| => if s[i] == from then to else s[i])
  }

  /** All occurrences of `c` taken out. */
  function Remove<T(==)>(s: seq<T>, c: T): seq<T> {
    if s == [] then [] else (if s[0] == c then [] else [s[0]]) + Remove(s[1..], c)
  }

  function Count<T(==)>(s: seq<T>, c: T): nat {
    if s == [] then 0 else (if s[0] == c then 1 else 0) + Count(s[1..], c)
  }

  // ----- split and join -----

  /** Puts two cut texts next to each other: the last piece of `p` runs into the first of `q`. */
  function Glue<T>(p: seq<seq<T>>, q: seq<seq<T>>): (r: seq<seq<T>>)
    requires p != [] && q != []
  {
    p[..|p| - 1] + [p[|p| - 1] + q[0]] + q[1..]
  }

  lemma GlueCons<T>(x: seq<T>, p: seq<seq<T>>, q: seq<seq<T>>)
    requires p != [] && q != []
    ensures Glue([x] + p, q) == [x] + Glue(p, q)
  {
    assert ([x] + p)[..|p|] == [x] + p[..|p| - 1];
  }

  lemma GlueExtend<T>(x: T, p: seq<seq<T>>, q: seq<seq<T>>)
    requires p != [] && q != []
    ensures Glue([[x] + p[0]] + p[1..], q) == [[x] + Glue(p, q)[0]] + Glue(p, q)[1..]
  {
    if |p| == 1 {
      assert [x] + p[0] + q[0] == [x] + (p[0] + q[0]);
    } else {
      assert p == [p[0]] + p[1..];
      GlueCons(p[0], p[1..], q);
      GlueCons([x] + p[0], p[1..], q);
    }
  }

  lemma GlueFirst<T>(p: seq<seq<T>>, q: seq<seq<T>>)
    requires p != [] && q != []
    ensures Glue(p, q) == Glue(p, [q[0]]) + q[1..]
  {
  }

  lemma {:induction false} SplitAppend<T>(a: seq<T>, b: seq<T>, sep: T)
    ensures Split(a + b, sep) == Glue(Split(a, sep), Split(b, sep))
  {
    if a == [] {
      assert a + b == b;
      assert [] + Split(b, sep)[0] == Split(b, sep)[0];
    } else {
      SplitAppend(a[1..], b, sep);
      assert (a + b)[1..] == a[1..] + b;
      GlueCons([], Split(a[1..], sep), Split(b, sep));
      GlueExtend(a[0], Split(a[1..], sep), Split(b, sep));
    }
  }

  lemma {:induction false} SplitWhole<T>(s: seq<T>, sep: T)
    requires sep !in s
    ensures Split(s, sep) == [s]
  {
    if s != [] {
      SplitWhole(s[1..], sep);
      assert [s[0]] + s[1..] == s;
    }
  }

  lemma {:induction false} SplitPieces<T>(s: seq<T>, sep: T)
    ensures forall i :: 0 <= i < |Split(s, sep)| ==> sep !in Split(s, sep)[i]
  {
    if s != [] {
      SplitPieces(s[1..], sep);
    }
  }

  /** A text is cut at a separator in its middle into the pieces of both sides. */
  lemma SplitTwo<T>(a: seq<T>, b: seq<T>, sep: T)
    ensures Split(a + [sep] + b, sep) == Split(a, sep) + Split(b, sep)
  {
    var tail := [sep] + b;
    assert tail[1..] == b;
    AppendTwice(a, [sep], b);
    SplitAppend(a, tail, sep);
    var p := Split(a, sep);
    assert p[|p| - 1] + [] == p[|p| - 1];
  }

  lemma AppendTwice<T>(a: seq<T>, b: seq<T>, c: seq<T>)
    ensures a + (b + c) == a + b + c
  {
  }

  /** Cutting a joined list gives the list back. */
  lemma {:induction false} SplitJoin<T>(parts: seq<seq<T>>, sep: T)
    requires parts != []
    requires forall i :: 0 <= i < |parts| ==> sep !in parts[i]
    ensures Split(Join(parts, sep), sep) == parts
  {
    SplitWhole(parts[0], sep);
    if |parts| > 1 {
      var tail := [sep] + Join(parts[1..], sep);
      SplitJoin(parts[1..], sep);
      assert tail[1..] == Join(parts[1..], sep);
      assert Split(tail, sep) == [[]] + parts[1..];
      SplitAppend(parts[0], tail, sep);
      assert parts[0] + [sep] + Join(parts[1..], sep) == parts[0] + tail;
      assert parts[0] + [] == parts[0];
    }
  }

  /** Joining a cut text gives the text back. */
  lemma {:induction false} JoinSplit<T>(s: seq<T>, sep: T)
    ensures Join(Split(s, sep), sep) == s
  {
    if s != [] {
      var rest := Split(s[1..], sep);
      JoinSplit(s[1..], sep);
      if s[0] == sep {
        assert ([[]] + rest)[1..] == rest;
      } else {
        var parts := [[s[0]] + rest[0]] + rest[1..];
        assert parts[1..] == rest[1..];
      }
    }
  }

  lemma {:induction false} JoinAppend<T>(a: seq<seq<T>>, b: seq<seq<T>>, sep: T)
    requires a != [] && b != []
    ensures Join(a + b, sep) == Join(a, sep) + [sep] + Join(b, sep)
  {
    if |a| == 1 {
      assert (a + b)[1..] == b;
    } else {
      JoinAppend(a[1..], b, sep);
      assert (a + b)[1..] == a[1..] + b;
    }
  }

  // ----- counting and removing -----

  lemma {:induction false} CountAppend<T>(a: seq<T>, b: seq<T>, c: T)
    ensures Count(a + b, c) == Count(a, c) + Count(b, c)
  {
    if a == [] {
      assert a + b == b;
    } else {
      CountAppend(a[1..], b, c);
      assert (a + b)[1..] == a[1..] + b;
    }
  }

  lemma {:induction false} CountZero<T>(s: seq<T>, c: T)
    ensures Count(s, c) == 0 <==> c !in s
  {
    if s != [] {
      CountZero(s[1..], c);
    }
  }

  lemma {:induction false} RemoveAppend<T>(a: seq<T>, b: seq<T>, c: T)
    ensures Remove(a + b, c) == Remove(a, c) + Remove(b, c)
  {
    if a == [] {
      assert a + b == b;
    } else {
      var rest, s, t := a[1..], Remove(a[1..], c), Remove(b, c);
      RemoveAppend(rest, b, c);
      assert (a + b)[1..] == rest + b && (a + b)[0] == a[0];
      AppendTwice(if a[0] == c then [] else [a[0]], s, t);
    }
  }

  lemma {:induction false} RemoveNone<T>(s: seq<T>, c: T)
    requires c !in s
    ensures Remove(s, c) == s
  {
    if s != [] {
      RemoveNone(s[1..], c);
    }
  }
}
