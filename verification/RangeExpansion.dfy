/** What node range expansion means: mixed-radix enumeration, and two equal notations. */
module RangeExpansion {
  import opened Text
  import opened Decimal
  import opened NodeRange

  // ----- one group -----

  /** String order on digit strings of one length is the order of their values. */
  lemma {:induction false} StringLeIsValueLe(a: string, b: string)
    requires AllDigits(a) && AllDigits(b) && |a| == |b|
    ensures StringLe(a, b) <==> Value(a) <= Value(b)
  {
    if a != [] {
      var n := |a| - 1;
      StringLeIsValueLe(a[..n], b[..n]);
      StringLeLast(a[..n], b[..n], a[n], b[n]);
      assert a == a[..n] + [a[n]] && b == b[..n] + [b[n]];
      if a[..n] != b[..n] && Value(a[..n]) == Value(b[..n]) {
        FixedOfValue(a[..n]);
        FixedOfValue(b[..n]);
      }
    }
  }

  lemma {:induction false} StringLeLast(a: string, b: string, x: char, y: char)
    requires |a| == |b|
    ensures StringLe(a + [x], b + [y]) <==> if a == b then x <= y else StringLe(a, b)
  {
    if a == [] {
      assert [x][1..] == [] && a + [x] == [x] && b + [y] == [y];
    } else {
      StringLeLast(a[1..], b[1..], x, y);
      assert (a + [x])[1..] == a[1..] + [x] && (b + [y])[1..] == b[1..] + [y];
      assert a == [a[0]] + a[1..] && b == [b[0]] + b[1..];
    }
  }

  /** The fixed-width numerals of `n`, `n + 1`, ..., `top`. */
  function Numerals(n: nat, top: nat, width: nat): seq<string>
    decreases top + 1 - n
  {
    if n <= top then [Fixed(n, width)] + Numerals(n + 1, top, width) else []
  }

  /** Six zeros are enough for every number from `n` on. */
  predicate SixZerosSuffice(n: nat, width: nat) {
    width <= |Numeral(n)| + 6
  }

  lemma PaddedIsFixed(n: nat, width: nat)
    requires |Numeral(n)| <= width
    ensures Padded(Numeral(n), width) == Fixed(n, width) <==> SixZerosSuffice(n, width)
  {
    FixedIsPadded(n, width);
    if SixZerosSuffice(n, width) {
      assert Zeros(0) + Numeral(n) == Numeral(n);
    } else {
      assert |Padded(Numeral(n), width)| != width;
    }
  }

  lemma {:induction false} CountingTexts(n: nat, hi: string, width: nat)
    requires AllDigits(hi) && hi != [] && |hi| == width && SixZerosSuffice(n, width)
    ensures LoopTexts(Num(n), hi, width) == Numerals(n, Value(hi), width)
    decreases Value(hi) + 1 - n
  {
    if n <= Value(hi) {
      NumeralFits(n, hi);
      PaddedIsFixed(n, width);
      NumeralGrows(n, n + 1);
      CountingTexts(n + 1, hi, width);
    }
  }

  /**
   * A group of two numbers of one width expands to the zero-padded numbers between them exactly when it is
   * a single number or six zeros suffice for the second one.
   */
  lemma GroupTexts(lo: string, hi: string, first: nat, last: nat)
    requires AllDigits(lo) && AllDigits(hi) && lo != [] && |lo| == |hi|
    requires first == Value(lo) <= last == Value(hi)
    ensures LoopTexts(Str(lo), hi, |lo|) == Numerals(first, last, |lo|)
            <==> first == last || SixZerosSuffice(first + 1, |lo|)
  {
    StringLeIsValueLe(lo, hi);
    FirstTurn(lo, hi, first);
    FirstNumeral(lo, first, last);
    LaterTexts(first, hi, |lo|);
    SameHead(lo, LoopTexts(Num(first + 1), hi, |lo|), Numerals(first + 1, last, |lo|));
  }

  lemma FirstTurn(lo: string, hi: string, first: nat)
    requires AllDigits(lo) && first == Value(lo) && StringLe(lo, hi)
    ensures LoopTexts(Str(lo), hi, |lo|) == [lo] + LoopTexts(Num(first + 1), hi, |lo|)
  {
  }

  lemma FirstNumeral(lo: string, first: nat, last: nat)
    requires AllDigits(lo) && first == Value(lo) <= last
    ensures Numerals(first, last, |lo|) == [lo] + Numerals(first + 1, last, |lo|)
  {
    FixedOfValue(lo);
  }

  lemma SameHead<T>(x: T, a: seq<T>, b: seq<T>)
    ensures [x] + a == [x] + b <==> a == b
  {
    assert ([x] + a)[1..] == a && ([x] + b)[1..] == b;
  }

  lemma LaterTexts(v: nat, hi: string, width: nat)
    requires AllDigits(hi) && |hi| == width && v <= Value(hi) && hi != []
    ensures LoopTexts(Num(v + 1), hi, width) == Numerals(v + 1, Value(hi), width)
            <==> v == Value(hi) || SixZerosSuffice(v + 1, width)
  {
    if v < Value(hi) {
      if SixZerosSuffice(v + 1, width) {
        CountingTexts(v + 1, hi, width);
      } else {
        NumeralFits(v + 1, hi);
        PaddedIsFixed(v + 1, width);
        assert LoopTexts(Num(v + 1), hi, width)[0] != Numerals(v + 1, Value(hi), width)[0];
      }
    }
  }

  /** From 1 to 2 in eight digits: the second number comes out one digit short. */
  lemma EightDigits()
    ensures var lo, hi := Fixed(1, 8), Fixed(2, 8);
            LoopTexts(Str(lo), hi, 8) != Numerals(1, 2, 8) && |Padded(Numeral(2), 8)| == 7
  {
    ValueOfFixed(1, 8);
    ValueOfFixed(2, 8);
    GroupTexts(Fixed(1, 8), Fixed(2, 8), 1, 2);
  }

  // ----- bounds of any width -----

  /** The numbers from `n` to `top`. */
  function Range(n: nat, top: nat): seq<nat>
    decreases top + 1 - n
  {
    if n <= top then [n] + Range(n + 1, top) else []
  }

  predicate Spell(texts: seq<string>, numbers: seq<nat>) {
    |texts| == |numbers| && forall i :: 0 <= i < |texts| ==> AllDigits(texts[i]) && Value(texts[i]) == numbers[i]
  }

  lemma SpellCons(t: string, n: nat, ts: seq<string>, ns: seq<nat>)
    requires AllDigits(t) && Value(t) == n
    ensures Spell([t] + ts, [n] + ns) <==> Spell(ts, ns)
  {
    var texts, numbers := [t] + ts, [n] + ns;
    assert texts[1..] == ts && numbers[1..] == ns;
    if Spell(texts, numbers) {
      forall i | 0 <= i < |ts| ensures AllDigits(ts[i]) && Value(ts[i]) == ns[i] {
        assert ts[i] == texts[i + 1] && ns[i] == numbers[i + 1];
      }
    }
  }

  lemma {:induction false} CountingSpells(n: nat, hi: string, width: nat)
    requires AllDigits(hi)
    ensures Spell(LoopTexts(Num(n), hi, width), Range(n, Value(hi)))
    decreases Value(hi) + 1 - n
  {
    if n <= Value(hi) {
      var t := Padded(Numeral(n), width);
      PaddedText(Numeral(n), width);
      ValueOfNumeral(n);
      CountingSpells(n + 1, hi, width);
      SpellCons(t, n, LoopTexts(Num(n + 1), hi, width), Range(n + 1, Value(hi)));
    }
  }

  /**
   * A range of any two digit strings yields the numbers from the first to the second exactly when comparing the two
   * as strings, as the first turn does, says the same as comparing them as numbers.
   */
  lemma RangeIsNumericIff(lo: string, hi: string)
    requires AllDigits(lo) && AllDigits(hi)
    ensures Spell(LoopTexts(Str(lo), hi, |lo|), Range(Value(lo), Value(hi)))
            <==> (StringLe(lo, hi) <==> Value(lo) <= Value(hi))
  {
    if StringLe(lo, hi) {
      RangeEntered(lo, hi, Value(lo), Value(hi));
    } else {
      assert LoopTexts(Str(lo), hi, |lo|) == [];
    }
  }

  lemma RangeEntered(lo: string, hi: string, n: nat, top: nat)
    requires AllDigits(lo) && AllDigits(hi) && n == Value(lo) && top == Value(hi) && StringLe(lo, hi)
    ensures Spell(LoopTexts(Str(lo), hi, |lo|), Range(n, top)) <==> n <= top
  {
    FirstTurn(lo, hi, n);
    FirstSpells(lo, n, top, LoopTexts(Num(n + 1), hi, |lo|));
    if n <= top {
      CountingSpells(n + 1, hi, |lo|);
    }
  }

  lemma FirstSpells(lo: string, n: nat, top: nat, later: seq<string>)
    requires AllDigits(lo) && n == Value(lo)
    ensures Spell([lo] + later, Range(n, top)) <==> n <= top && Spell(later, Range(n + 1, top))
  {
    if n <= top {
      SpellCons(lo, n, later, Range(n + 1, top));
    }
  }

  /** A range with a bound that is no number stops behind its first turn. */
  lemma NotANumberStops(lo: string, hi: string)
    requires !AllDigits(lo) || !AllDigits(hi)
    ensures LoopTexts(Str(lo), hi, |lo|) == if StringLe(lo, hi) then [lo] else []
  {
    if StringLe(lo, hi) {
      assert LoopTexts(Next(Str(lo)), hi, |lo|) == [];
    }
  }

  /** "9-10" is empty, and "10-9" is not. */
  lemma UnequalWidths()
    ensures LoopTexts(Str("9"), "10", 1) == []
    ensures LoopTexts(Str("10"), "9", 2) != []
  {
    assert !StringLe("9", "10") && StringLe("10", "9");
  }

  // ----- patterns -----

  /** A node range: literal texts and groups of two zero-padded numbers [lo-hi] of one width, in order. */
  datatype Pattern = Done | Lit(text: string, rest: Pattern) | Group(lo: nat, hi: nat, width: nat, rest: Pattern)

  predicate PlainText(s: string) {
    '[' !in s && ']' !in s && '-' !in s
  }

  /** Two numbers in order that fit the width and that six zeros can pad. */
  predicate ValidGroup(lo: nat, hi: nat, width: nat) {
    lo <= hi && |Numeral(hi)| <= width && (lo == hi || SixZerosSuffice(lo + 1, width))
  }

  predicate Valid(p: Pattern) {
    match p
    case Done => true
    case Lit(text, rest) => PlainText(text) && Valid(rest)
    case Group(lo, hi, width, rest) => ValidGroup(lo, hi, width) && Valid(rest)
  }

  /** The text between the brackets of a group. */
  function GroupText(lo: nat, hi: nat, width: nat): string {
    Fixed(lo, width) + ['-'] + Fixed(hi, width)
  }

  function Render(p: Pattern): string {
    match p
    case Done => []
    case Lit(text, rest) => text + Render(rest)
    case Group(lo, hi, width, rest) => ['['] + GroupText(lo, hi, width) + [']'] + Render(rest)
  }

  function Span(lo: nat, hi: nat): (n: nat)
  {
    if lo <= hi then hi - lo + 1 else 1
  }

  /** How many names a pattern stands for: the product of its group sizes. */
  function Size(p: Pattern): (n: nat)
    ensures n > 0
  {
    match p
    case Done => 1
    case Lit(_, rest) => Size(rest)
    case Group(lo, hi, _, rest) =>
      PositiveTimes(Span(lo, hi), Size(rest));
      Span(lo, hi) * Size(rest)
  }

  lemma PositiveTimes(m: nat, n: nat)
    requires m > 0 && n > 0
    ensures m * n > 0
  {
  }

  lemma TimesStep(m: nat, n: nat)
    ensures (m + 1) * n == m * n + n
  {
  }

  lemma Divided(k: nat, n: nat)
    requires n > 0
    ensures k == (k / n) * n + k % n
  {
  }

  lemma DivideBelow(k: nat, m: nat, n: nat)
    requires n > 0 && k < m * n
    ensures k / n < m
  {
    Divided(k, n);
  }

  /** Name number `k` of a pattern: `k` in mixed radix, the last group fastest, each number zero-padded. */
  function NameAt(p: Pattern, k: nat): string {
    match p
    case Done => []
    case Lit(text, rest) => text + NameAt(rest, k)
    case Group(lo, _, width, rest) =>
      Fixed(lo + k / Size(rest), width) + NameAt(rest, k % Size(rest))
  }

  /** All names of a pattern. */
  function Names(p: Pattern): seq<string> {
    seq(Size(p), k requires 0 <= k < Size(p) => NameAt(p, k))
  }

  /** Every text followed by every name. */
  function Products(texts: seq<string>, names: seq<string>): seq<string> {
    if texts == [] then [] else Prefixed(texts[0], names) + Products(texts[1..], names)
  }

  // ----- the names of a pattern, group by group -----

  /** A position is determined by its quotient and remainder. */
  lemma SamePosition(j: nat, k: nat, n: nat)
    requires n > 0 && j / n == k / n && j % n == k % n
    ensures j == k
  {
    assert j == n * (j / n) + j % n && k == n * (k / n) + k % n;
  }

  lemma {:induction false} ProductsLength(texts: seq<string>, names: seq<string>)
    ensures |Products(texts, names)| == |texts| * |names|
  {
    if texts != [] {
      ProductsLength(texts[1..], names);
      TimesStep(|texts| - 1, |names|);
    }
  }

  /** Position `q * |names| + r` of a product is text `q` followed by name `r`. */
  lemma {:induction false} ProductsAt(texts: seq<string>, names: seq<string>, q: nat, r: nat, k: nat)
    requires q < |texts| && r < |names| && k == q * |names| + r
    ensures k < |Products(texts, names)| && Products(texts, names)[k] == texts[q] + names[r]
    decreases |texts|
  {
    if q > 0 {
      TimesStep(q - 1, |names|);
      ProductsAt(texts[1..], names, q - 1, r, k - |names|);
    }
  }

  lemma {:induction false} NumeralsAt(n: nat, top: nat, width: nat, i: nat)
    requires n <= top + 1
    ensures |Numerals(n, top, width)| == top + 1 - n
    ensures i < top + 1 - n ==> Numerals(n, top, width)[i] == Fixed(n + i, width)
    decreases top + 1 - n
  {
    if n <= top {
      NumeralsAt(n + 1, top, width, if i > 0 then i - 1 else 0);
    }
  }

  /** The names of a group followed by a pattern are the products of both. */
  lemma NamesOfGroup(p: Pattern)
    requires p.Group? && p.lo <= p.hi
    ensures Names(p) == Products(Numerals(p.lo, p.hi, p.width), Names(p.rest))
  {
    var texts, names := Numerals(p.lo, p.hi, p.width), Names(p.rest);
    NumeralsAt(p.lo, p.hi, p.width, 0);
    ProductsLength(texts, names);
    forall k | 0 <= k < Size(p) ensures Names(p)[k] == Products(texts, names)[k] {
      NameOfGroup(p, texts, names, k);
    }
  }

  /** The number and the rest of a name of a pattern with a group in front. */
  lemma FirstNumber(p: Pattern, k: nat) returns (n: nat, rest: string)
    requires p.Group?
    ensures n == p.lo + k / Size(p.rest) && rest == NameAt(p.rest, k % Size(p.rest))
    ensures NameAt(p, k) == Fixed(n, p.width) + rest
  {
    n := p.lo + k / Size(p.rest);
    rest := NameAt(p.rest, k % Size(p.rest));
  }

  lemma NameOfGroup(p: Pattern, texts: seq<string>, names: seq<string>, k: nat)
    requires p.Group? && p.lo <= p.hi && k < Size(p)
    requires texts == Numerals(p.lo, p.hi, p.width) && names == Names(p.rest)
    ensures k < |Products(texts, names)| && NameAt(p, k) == Products(texts, names)[k]
  {
    var n := |names|;
    Divided(k, n);
    DivideBelow(k, Span(p.lo, p.hi), n);
    var number, rest := FirstNumber(p, k);
    NumeralsAt(p.lo, p.hi, p.width, k / n);
    assert texts[k / n] == Fixed(number, p.width) && names[k % n] == rest;
    ProductsAt(texts, names, k / n, k % n, k);
  }

  // ----- expanding a pattern -----

  lemma {:induction false} ExpandProducts(m: Match, texts: seq<string>, names: seq<string>, n: nat)
    requires Below(Substituted(m, texts), n)
    requires forall i :: 0 <= i < |texts| ==>
      Expand(m.before + texts[i] + m.after) == Prefixed(m.before + texts[i], names)
    ensures ExpandAll(Substituted(m, texts), n) == Prefixed(m.before, Products(texts, names))
    decreases |texts|
  {
    if texts != [] {
      var t, ts := texts[0], texts[1..];
      assert texts == [t] + ts;
      SubstitutedCons(m, t, ts);
      ExpandAllCons(m.before + t + m.after, Substituted(m, ts), n);
      forall i | 0 <= i < |ts| ensures Expand(m.before + ts[i] + m.after) == Prefixed(m.before + ts[i], names) {
        assert ts[i] == texts[i + 1];
      }
      ExpandProducts(m, ts, names, n);
      PrefixedTwice(m.before, t, names);
      PrefixedAppend(m.before, Prefixed(t, names), Products(ts, names));
    }
  }

  lemma PrefixedTwice(a: string, b: string, names: seq<string>)
    ensures Prefixed(a, Prefixed(b, names)) == Prefixed(a + b, names)
  {
    forall i | 0 <= i < |names| ensures Prefixed(a, Prefixed(b, names))[i] == Prefixed(a + b, names)[i] {
      assert a + (b + names[i]) == a + b + names[i];
    }
  }

  lemma PrefixedAppend(a: string, xs: seq<string>, ys: seq<string>)
    ensures Prefixed(a, xs + ys) == Prefixed(a, xs) + Prefixed(a, ys)
  {
  }

  lemma GroupLayout(prefix: string, inside: string, after: string)
    ensures var s, p, q := prefix + (['['] + inside + [']'] + after), |prefix|, |prefix| + 1 + |inside|;
            && q < |s| && s[p] == '[' && s[q] == ']'
            && s[..p] == s[0..p] == prefix && s[p + 1..q] == inside && s[q + 1..] == after
  {
  }

  /** The pattern match on a text before a group. */
  lemma MatchOfGroup(prefix: string, inside: string, after: string)
    requires '[' !in prefix && ']' !in inside
    ensures MatchGroup(prefix + (['['] + inside + [']'] + after)) == Some(Match(prefix, inside, after))
  {
    var s, p, q := prefix + (['['] + inside + [']'] + after), |prefix|, |prefix| + 1 + |inside|;
    GroupLayout(prefix, inside, after);
  }

  /** Expanding a group between a plain prefix and anything else. */
  lemma ExpandOfGroup(prefix: string, lo: string, hi: string, after: string)
    requires PlainText(prefix) && AllDigits(lo) && AllDigits(hi)
    ensures var s := prefix + (['['] + (lo + ['-'] + hi) + [']'] + after);
            var ss := Substituted(Match(prefix, lo + ['-'] + hi, after), LoopTexts(Str(lo), hi, |lo|));
            Below(ss, Count(s, ']')) && Expand(s) == ExpandAll(ss, Count(s, ']'))
  {
    MatchOfGroup(prefix, lo + ['-'] + hi, after);
    SplitNames(lo, hi);
    SubstitutedShrinks(prefix + (['['] + (lo + ['-'] + hi) + [']'] + after), |lo|);
  }

  lemma ExpandPlain(s: string)
    requires PlainText(s) && s != ""
    ensures Expand(s) == [s]
  {
    SplitWhole(s, '-');
  }

  lemma NumericTexts(lo: nat, hi: nat, width: nat)
    requires ValidGroup(lo, hi, width)
    ensures LoopTexts(Str(Fixed(lo, width)), Fixed(hi, width), width) == Numerals(lo, hi, width)
  {
    NumeralGrows(lo, hi);
    ValueOfFixed(lo, width);
    ValueOfFixed(hi, width);
    GroupTexts(Fixed(lo, width), Fixed(hi, width), lo, hi);
  }

  /** A group after a plain prefix expands to the products of its numbers and the names of what follows. */
  lemma {:induction false} ExpandPattern(prefix: string, p: Pattern)
    requires PlainText(prefix) && Valid(p) && prefix + Render(p) != ""
    ensures Expand(prefix + Render(p)) == Prefixed(prefix, Names(p))
    decreases p, 1
  {
    match p {
      case Done =>
        assert prefix + Render(p) == prefix;
        ExpandPlain(prefix);
        assert Prefixed(prefix, Names(p)) == [prefix + []];
      case Lit(text, rest) =>
        assert prefix + Render(p) == (prefix + text) + Render(rest);
        ExpandPattern(prefix + text, rest);
        PrefixedTwice(prefix, text, Names(rest));
        assert Prefixed(text, Names(rest)) == Names(p);
      case Group(_, _, _, _) =>
        ExpandGroupPattern(prefix, p);
    }
  }

  lemma {:induction false} ExpandGroupPattern(prefix: string, p: Pattern)
    requires PlainText(prefix) && p.Group? && Valid(p)
    ensures Expand(prefix + Render(p)) == Prefixed(prefix, Names(p))
    decreases p, 0
  {
    var m := Match(prefix, GroupText(p.lo, p.hi, p.width), Render(p.rest));
    var texts, names := Numerals(p.lo, p.hi, p.width), Names(p.rest);
    NumeralsAt(p.lo, p.hi, p.width, 0);
    NumericTexts(p.lo, p.hi, p.width);
    ExpandOfGroup(prefix, Fixed(p.lo, p.width), Fixed(p.hi, p.width), m.after);
    forall i | 0 <= i < |texts|
      ensures Expand(m.before + texts[i] + m.after) == Prefixed(m.before + texts[i], names)
    {
      NumeralsAt(p.lo, p.hi, p.width, i);
      ExpandPattern(prefix + texts[i], p.rest);
    }
    ExpandProducts(m, texts, names, Count(prefix + Render(p), ']'));
    NamesOfGroup(p);
  }

  lemma PrefixedEmpty(texts: seq<string>)
    ensures Prefixed([], texts) == texts
  {
    forall i | 0 <= i < |texts| ensures Prefixed([], texts)[i] == texts[i] {
      assert [] + texts[i] == texts[i];
    }
  }

  /** Expanding a pattern gives exactly its names, in mixed-radix order with the last group fastest. */
  lemma ExpandIsMixedRadix(p: Pattern)
    requires Valid(p) && Render(p) != ""
    ensures Expand(Render(p)) == Names(p)
  {
    assert [] + Render(p) == Render(p);
    ExpandPattern([], p);
    PrefixedEmpty(Names(p));
  }

  // ----- the names are distinct -----

  lemma PartsEqual(a: string, b: string, c: string, d: string)
    requires |a| == |c| && a + b == c + d
    ensures a == c && b == d
  {
    assert a == (a + b)[..|a|] && c == (c + d)[..|c|];
    assert b == (a + b)[|a|..] && d == (c + d)[|c|..];
  }

  /** Equal names of a pattern with a group in front have the same first number and the same rest. */
  lemma GroupNamesDistinct(p: Pattern, j: nat, k: nat)
    requires p.Group? && ValidGroup(p.lo, p.hi, p.width)
    requires j < Size(p) && k < Size(p) && NameAt(p, j) == NameAt(p, k)
    ensures var n := Size(p.rest);
            j / n == k / n && NameAt(p.rest, j % n) == NameAt(p.rest, k % n)
  {
    var m, rest := FirstNumber(p, j);
    var n, rest' := FirstNumber(p, k);
    PartsEqual(Fixed(m, p.width), rest, Fixed(n, p.width), rest');
    DivideBelow(j, Span(p.lo, p.hi), Size(p.rest));
    DivideBelow(k, Span(p.lo, p.hi), Size(p.rest));
    SameFixed(m, n, p.hi, p.width);
  }

  lemma SameFixed(m: nat, n: nat, top: nat, width: nat)
    requires m <= top && n <= top && |Numeral(top)| <= width && Fixed(m, width) == Fixed(n, width)
    ensures m == n
  {
    NumeralGrows(m, top);
    NumeralGrows(n, top);
    ValueOfFixed(m, width);
    ValueOfFixed(n, width);
  }

  /** Different positions have different names. */
  lemma {:induction false} NamesDistinct(p: Pattern, j: nat, k: nat)
    requires Valid(p) && j < Size(p) && k < Size(p)
    ensures NameAt(p, j) == NameAt(p, k) ==> j == k
    decreases p
  {
    if NameAt(p, j) != NameAt(p, k) {
      return;
    }
    match p {
      case Done =>
      case Lit(text, rest) =>
        assert NameAt(p, j)[|text|..] == NameAt(rest, j) && NameAt(p, k)[|text|..] == NameAt(rest, k);
        NamesDistinct(rest, j, k);
      case Group(_, _, _, rest) =>
        GroupNamesDistinct(p, j, k);
        NamesDistinct(rest, j % Size(rest), k % Size(rest));
        SamePosition(j, k, Size(rest));
    }
  }

  // ----- two notations -----

  lemma NonDigitsOfName(p: string, d: string)
    requires (forall i :: 0 <= i < |p| ==> !IsDigit(p[i])) && d != [] && AllDigits(d)
    ensures NonDigits(p + d) == |p|
  {
    var s := p + d;
    assert forall i :: 0 <= i < |p| ==> s[i] == p[i];
    assert s[|p|] == d[0] && IsDigit(s[|p|]);
  }

  lemma MatchOfName(p: string, d: string)
    requires p != "" && (forall i :: 0 <= i < |p| ==> !IsDigit(p[i])) && d != [] && AllDigits(d)
    ensures MatchName(p + d) == Some((p, d))
  {
    NonDigitsOfName(p, d);
    assert (p + d)[..|p|] == p && (p + d)[|p|..] == d;
  }

  lemma SplitNames(a: string, b: string)
    requires '-' !in a && '-' !in b
    ensures Split(a + ['-'] + b, '-') == [a, b]
  {
    SplitWhole(a, '-');
    SplitWhole(b, '-');
    SplitTwo(a, b, '-');
  }

  lemma {:induction false} TextsArePlain(i: Counter, hi: string, len: nat)
    requires i.Str? ==> AllDigits(i.text) && i.text != []
    requires i != NotANumber
    ensures forall k :: 0 <= k < |LoopTexts(i, hi, len)| ==>
      LoopTexts(i, hi, len)[k] != [] && AllDigits(LoopTexts(i, hi, len)[k])
    decreases TurnsLeft(i, hi)
  {
    if AtMost(i, hi) {
      TextsArePlain(Next(i), hi, len);
      assert AllDigits(Padded(ToText(i), len));
    }
  }

  /** Expanding the strings that a group before nothing leaves. */
  lemma {:induction false} ExpandLeaves(m: Match, texts: seq<string>, n: nat)
    requires Below(Substituted(m, texts), n) && PlainText(m.before) && m.after == []
    requires forall i :: 0 <= i < |texts| ==> texts[i] != [] && AllDigits(texts[i])
    ensures ExpandAll(Substituted(m, texts), n) == Prefixed(m.before, texts)
    decreases |texts|
  {
    if texts != [] {
      var t, ts := texts[0], texts[1..];
      assert texts == [t] + ts;
      SubstitutedCons(m, t, ts);
      ExpandAllCons(m.before + t + m.after, Substituted(m, ts), n);
      assert m.before + t + m.after == m.before + t;
      ExpandPlain(m.before + t);
      ExpandLeaves(m, ts, n);
      PrefixedCons(m.before, t, ts);
    }
  }

  /** The bracket notation of a range, for any two numbers. */
  lemma ExpandBrackets(p: string, lo: string, hi: string)
    requires PlainText(p) && lo != [] && hi != [] && AllDigits(lo) && AllDigits(hi)
    ensures Expand(p + (['['] + (lo + ['-'] + hi) + [']'])) == Prefixed(p, LoopTexts(Str(lo), hi, |lo|))
  {
    var m := Match(p, lo + ['-'] + hi, []);
    assert ['['] + m.inside + [']'] + [] == ['['] + m.inside + [']'];
    ExpandOfGroup(p, lo, hi, []);
    TextsArePlain(Str(lo), hi, |lo|);
    ExpandLeaves(m, LoopTexts(Str(lo), hi, |lo|), Count(p + (['['] + m.inside + [']']), ']'));
  }

  /**
   * Both notations of a range agree for every prefix without digits and any two numbers, also when the range is
   * empty because `lo` is greater than `hi` as a string.
   */
  lemma NotationsAgree(p: string, lo: string, hi: string)
    requires PlainText(p) && p != "" && (forall i :: 0 <= i < |p| ==> !IsDigit(p[i]))
    requires lo != [] && hi != [] && AllDigits(lo) && AllDigits(hi)
    ensures Expand((p + lo) + ['-'] + (p + hi)) == Expand(p + (['['] + (lo + ['-'] + hi) + [']']))
    ensures Expand((p + lo) + ['-'] + (p + hi)) == [] <==> !StringLe(lo, hi)
  {
    ExpandTwoNames(p, lo, hi);
    ExpandBrackets(p, lo, hi);
    assert |Prefixed(p, LoopTexts(Str(lo), hi, |lo|))| == |LoopTexts(Str(lo), hi, |lo|)|;
  }

  lemma NameIsPlain(p: string, d: string)
    requires PlainText(p) && AllDigits(d)
    ensures PlainText(p + d)
  {
    assert forall i :: 0 <= i < |p + d| ==> (p + d)[i] in p || IsDigit((p + d)[i]);
  }

  lemma ExpandDashOf(p: string, lo: string, hi: string, s: string)
    requires Split(s, '-') == [p + lo, p + hi]
    requires MatchName(p + lo) == Some((p, lo)) && MatchName(p + hi) == Some((p, hi))
    ensures ExpandDash(s) == Prefixed(p, LoopTexts(Str(lo), hi, |lo|))
  {
  }

  /** The dash notation of a range, for any two numbers behind one prefix. */
  lemma ExpandTwoNames(p: string, lo: string, hi: string)
    requires PlainText(p) && p != "" && (forall i :: 0 <= i < |p| ==> !IsDigit(p[i]))
    requires lo != [] && hi != [] && AllDigits(lo) && AllDigits(hi)
    ensures Expand((p + lo) + ['-'] + (p + hi)) == Prefixed(p, LoopTexts(Str(lo), hi, |lo|))
  {
    var a, b := p + lo, p + hi;
    NameIsPlain(p, lo);
    NameIsPlain(p, hi);
    SplitNames(a, b);
    MatchOfName(p, lo);
    MatchOfName(p, hi);
    ExpandDashOf(p, lo, hi, a + ['-'] + b);
    ExpandWithoutBracket(a + ['-'] + b);
  }

  lemma ExpandWithoutBracket(s: string)
    requires '[' !in s && s != ""
    ensures Expand(s) == ExpandDash(s)
  {
    assert MatchGroup(s) == None;
  }

  /** Without a prefix they never agree: the dash notation is then taken for one name. */
  lemma NotationsDifferWithoutPrefix(lo: string, hi: string)
    requires lo != [] && hi != [] && AllDigits(lo) && AllDigits(hi)
    ensures Expand(lo + ['-'] + hi) != Expand(['['] + (lo + ['-'] + hi) + [']'])
  {
    var s := lo + ['-'] + hi;
    SplitNames(lo, hi);
    assert NonDigits(lo) == 0;
    assert ExpandDash(s) == [s];
    assert '[' !in s;
    ExpandWithoutBracket(s);
    ExpandBrackets([], lo, hi);
    TextsArePlain(Str(lo), hi, |lo|);
    var texts := LoopTexts(Str(lo), hi, |lo|);
    assert [] + (['['] + s + [']']) == ['['] + s + [']'];
    PrefixedEmpty(texts);
    assert s[|lo|] == '-';
    assert texts != [] ==> texts[0] != s;
  }

  // ----- what is not a range -----

  /** A name: something without digits and a number behind it. */
  predicate IsName(s: string, prefix: string, number: string) {
    && s == prefix + number && prefix != "" && (forall i :: 0 <= i < |prefix| ==> !IsDigit(prefix[i]))
    && number != "" && AllDigits(number)
  }

  lemma MatchIsName(s: string)
    ensures match MatchName(s)
            case Some((p, d)) => IsName(s, p, d)
            case None => forall p, d :: !IsName(s, p, d)
  {
    forall p, d | IsName(s, p, d) ensures MatchName(s) == Some((p, d)) {
      MatchOfName(p, d);
    }
    var k := NonDigits(s);
    assert s == s[..k] + s[k..];
  }

  /**
   * A text with dashes and without brackets is the range of its first two pieces when these are names with one prefix,
   * and one name by itself when they are not; further pieces are ignored.
   */
  lemma OnePrefixNeeded(parts: seq<string>, p: string, lo: string, hi: string)
    requires |parts| >= 2 && forall i :: 0 <= i < |parts| ==> PlainText(parts[i])
    ensures IsName(parts[0], p, lo) && IsName(parts[1], p, hi) ==>
              Expand(Join(parts, '-')) == Prefixed(p, LoopTexts(Str(lo), hi, |lo|))
    ensures (forall p', lo', hi' :: !(IsName(parts[0], p', lo') && IsName(parts[1], p', hi'))) ==>
              Expand(Join(parts, '-')) == [Join(parts, '-')]
  {
    var s := Join(parts, '-');
    SplitJoin(parts, '-');
    NoBracket(parts);
    assert s == parts[0] + ['-'] + Join(parts[1..], '-');
    ExpandWithoutBracket(s);
    MatchIsName(parts[0]);
    MatchIsName(parts[1]);
    if IsName(parts[0], p, lo) && IsName(parts[1], p, hi) {
      MatchOfName(p, lo);
      MatchOfName(p, hi);
    }
  }

  lemma {:induction false} NoBracket(parts: seq<string>)
    requires forall i :: 0 <= i < |parts| ==> PlainText(parts[i])
    ensures '[' !in Join(parts, '-')
  {
    if |parts| > 1 {
      NoBracket(parts[1..]);
    }
  }

  /** The empty text and a group without a dash stand for no names. */
  lemma NoNames(prefix: string, inside: string, after: string)
    requires '[' !in prefix && ']' !in inside && '-' !in inside
    ensures Expand("") == [] && Expand(prefix + (['['] + inside + [']'] + after)) == []
  {
    MatchOfGroup(prefix, inside, after);
    SplitWhole(inside, '-');
  }
}
