/** On which rows the two merge loops of xcatmon.js and configure.js end. */
module RowEnds {
  import opened Text
  import opened RowCells
  import opened RowMerge

  // ----- a merge at the end of a row -----

  /** What a cell at the end of the row becomes: `cols[j + 1]` is `undefined` and `splice` removes nothing. */
  function Runaway(s: string, n: nat): string {
    if n == 0 then s else Runaway(s, n - 1) + ",undefined"
  }

  /** A merge that reached the end of the row unfinished goes on forever. */
  lemma {:induction false} NeverEnds(rule: Rule, s: string, n: nat)
    requires Unfinished(rule, s)
    ensures Unfinished(rule, Runaway(s, n)) && Count(Runaway(s, n), '"') == Count(s, '"')
  {
    if n > 0 {
      NeverEnds(rule, s, n - 1);
      UndefinedAdds(Runaway(s, n - 1));
    }
  }

  lemma UndefinedAdds(s: string)
    ensures Count(s + ",undefined", '"') == Count(s, '"')
  {
    CountAppend(s, ",undefined", '"');
    CountZero(",undefined", '"');
  }

  // ----- the parity loop -----

  function Quotes(pieces: seq<string>): nat {
    if pieces == [] then 0 else Count(pieces[0], '"') + Quotes(pieces[1..])
  }

  /** A merge of pieces with this many quotes ends on an even cell and loses none, or does not end on an odd number. */
  predicate KeepsQuotes(quotes: nat, r: Option<(string, seq<string>)>) {
    match r
    case None => quotes % 2 == 1
    case Some((cell, left)) => Count(cell, '"') % 2 == 0 && quotes == Count(cell, '"') + Quotes(left)
  }

  lemma {:induction false} AbsorbCounts(acc: string, rest: seq<string>)
    ensures KeepsQuotes(Count(acc, '"') + Quotes(rest), Absorb(Parity, acc, rest))
    decreases |rest|
  {
    if Unfinished(Parity, acc) && rest != [] {
      CountAppend(acc + ",", rest[0], '"');
      CountAppend(acc, ",", '"');
      AbsorbCounts(acc + "," + rest[0], rest[1..]);
    }
  }

  /** For the parity rule the `if` before the loop makes no difference. */
  lemma FirstCellIsAbsorbed(pieces: seq<string>)
    requires pieces != []
    ensures FirstCell(Parity, pieces) == Absorb(Parity, pieces[0], pieces[1..])
  {
    if !Incomplete(Parity, pieces[0]) {
      assert !Unfinished(Parity, pieces[0]);
    }
  }

  lemma FirstCellCounts(pieces: seq<string>)
    requires pieces != []
    ensures KeepsQuotes(Quotes(pieces), FirstCell(Parity, pieces))
  {
    FirstCellIsAbsorbed(pieces);
    AbsorbCounts(pieces[0], pieces[1..]);
  }

  /** The parity loop ends exactly on the rows with an even number of quotes. */
  lemma {:induction false} ParityEndsIff(pieces: seq<string>)
    ensures MergeRow(Parity, pieces).Some? <==> Quotes(pieces) % 2 == 0
    decreases |pieces|
  {
    if pieces != [] {
      FirstCellCounts(pieces);
      var r := FirstCell(Parity, pieces);
      if r.Some? {
        ParityEndsIff(r.value.1);
      }
    }
  }

  lemma {:induction false} QuotesOfJoin(pieces: seq<string>)
    ensures Quotes(pieces) == Count(Join(pieces, ','), '"')
  {
    if |pieces| > 1 {
      QuotesOfJoin(pieces[1..]);
      CountAppend(pieces[0] + [','], Join(pieces[1..], ','), '"');
      CountAppend(pieces[0], [','], '"');
    }
  }

  /** The same condition on the row itself. */
  lemma ParityEndsOnRow(row: string)
    ensures MergeRow(Parity, Split(row, ',')).Some? <==> Count(row, '"') % 2 == 0
  {
    ParityEndsIff(Split(row, ','));
    QuotesOfJoin(Split(row, ','));
    JoinSplit(row, ',');
  }

  /** A row with one quote keeps the first loop going forever. */
  lemma OneQuoteRunsAway()
    ensures MergeRow(Parity, Split("5\",x", ',')) == None
  {
    var row := "5\",x";
    assert row[0] == '5' && row[1] == '"' && row[2..] == ",x";
    CountZero(row[2..], '"');
    assert row[1..][1..] == row[2..];
    ParityEndsOnRow(row);
  }

  // ----- the other loop -----

  /** More than two quotes are never merged down to two. */
  lemma {:induction false} TooManyQuotes(acc: string, rest: seq<string>)
    requires Count(acc, '"') > 2
    ensures Absorb(OneThenTwo, acc, rest) == None
    decreases |rest|
  {
    if rest != [] {
      CountAppend(acc + ",", rest[0], '"');
      CountAppend(acc, ",", '"');
      TooManyQuotes(acc + "," + rest[0], rest[1..]);
    }
  }

  /** The numbers of quotes in the pieces that have any, in order. */
  function QuoteCounts(pieces: seq<string>): seq<nat> {
    if pieces == [] then []
    else (if Count(pieces[0], '"') == 0 then [] else [Count(pieces[0], '"')]) + QuoteCounts(pieces[1..])
  }

  /** From left to right, every 1 is followed by another 1 that closes it; other numbers stand for themselves. */
  predicate PairsUp(counts: seq<nat>) {
    counts == []
    || (if counts[0] != 1 then PairsUp(counts[1..])
        else |counts| > 1 && counts[1] == 1 && PairsUp(counts[2..]))
  }

  /** A cell with one quote takes in the pieces up to the next one with quotes, which must have one as well. */
  lemma {:induction false} AbsorbFromOne(acc: string, rest: seq<string>)
    requires Count(acc, '"') == 1
    ensures var r, counts := Absorb(OneThenTwo, acc, rest), QuoteCounts(rest);
            && (r.Some? <==> counts != [] && counts[0] == 1)
            && (r.Some? ==> QuoteCounts(r.value.1) == counts[1..])
    decreases |rest|
  {
    if rest != [] {
      var more := acc + "," + rest[0];
      CountAppend(acc + ",", rest[0], '"');
      CountAppend(acc, ",", '"');
      if Count(rest[0], '"') == 0 {
        AbsorbFromOne(more, rest[1..]);
        assert [] + QuoteCounts(rest[1..]) == QuoteCounts(rest[1..]);
      } else if Count(rest[0], '"') > 1 {
        TooManyQuotes(more, rest[1..]);
      }
    }
  }

  lemma PairsUpFirst(n: nat, counts: seq<nat>)
    ensures n != 1 ==> (PairsUp([n] + counts) <==> PairsUp(counts))
    ensures n == 1 ==> (PairsUp([n] + counts) <==> counts != [] && counts[0] == 1 && PairsUp(counts[1..]))
  {
    var all := [n] + counts;
    assert all[1..] == counts;
    if counts != [] {
      assert all[2..] == counts[1..];
    }
  }

  /** The loop of configure.js ends exactly when the pieces with one quote pair up. */
  lemma {:induction false} OneThenTwoEndsIff(pieces: seq<string>)
    ensures MergeRow(OneThenTwo, pieces).Some? <==> PairsUp(QuoteCounts(pieces))
    decreases |pieces|
  {
    if pieces != [] {
      var first, rest := pieces[0], pieces[1..];
      var n, counts := Count(first, '"'), QuoteCounts(rest);
      if n == 1 {
        AbsorbFromOne(first, rest);
        PairsUpFirst(n, counts);
        var r := Absorb(OneThenTwo, first, rest);
        if r.Some? {
          AbsorbShrinks(OneThenTwo, first, rest);
          OneThenTwoEndsIff(r.value.1);
        }
      } else {
        OneThenTwoEndsIff(rest);
        PairsUpFirst(n, counts);
        assert [] + counts == counts;
      }
    }
  }

  lemma {:induction false} QuoteCountsAppend(a: seq<string>, b: seq<string>)
    ensures QuoteCounts(a + b) == QuoteCounts(a) + QuoteCounts(b)
  {
    if a == [] {
      assert a + b == b;
    } else {
      QuoteCountsAppend(a[1..], b);
      assert (a + b)[0] == a[0] && (a + b)[1..] == a[1..] + b;
      AppendTwice(if Count(a[0], '"') == 0 then [] else [Count(a[0], '"')], QuoteCounts(a[1..]), QuoteCounts(b));
    }
  }

  /** The quote counts of cells one after the other. */
  function CountsOf(raws: seq<string>): seq<nat> {
    if raws == [] then [] else QuoteCounts(Split(raws[0], ',')) + CountsOf(raws[1..])
  }

  lemma {:induction false} CountsOfPieces(raws: seq<string>)
    ensures QuoteCounts(PiecesOf(raws)) == CountsOf(raws)
  {
    if raws != [] {
      QuoteCountsAppend(Split(raws[0], ','), PiecesOf(raws[1..]));
      CountsOfPieces(raws[1..]);
    }
  }

  /** On a row of any cells the loop of configure.js ends exactly when their pieces with one quote pair up. */
  lemma CellsEndIff(raws: seq<string>)
    requires raws != []
    ensures MergeRow(OneThenTwo, Split(Join(raws, ','), ',')).Some? <==> PairsUp(CountsOf(raws))
  {
    SplitRow(raws);
    CountsOfPieces(raws);
    OneThenTwoEndsIff(PiecesOf(raws));
  }

  /** The counts of a text with one comma. */
  lemma CountsOfTwo(a: string, b: string)
    requires ',' !in a && ',' !in b
    ensures QuoteCounts(Split(a + [','] + b, ',')) == QuoteCounts([a]) + QuoteCounts([b])
  {
    SplitTwo(a, b, ',');
    SplitWhole(a, ',');
    SplitWhole(b, ',');
    QuoteCountsAppend([a], [b]);
  }

  lemma ExampleCell()
    ensures RowText([Quoted("a\"b,c")]) == "\"a\"\"b" + [','] + "c\""
  {
    var cell := Quoted("a\"b,c");
    assert Doubled("a\"b,c") == "a\"\"b,c";
    assert Raws([cell]) == [Raw(cell)];
    assert Raw(cell) == "\"" + "a\"\"b,c" + "\"";
  }

  /** A quoted cell with a quote and a comma, in the form of section 2 of RFC 4180, keeps the loop going forever. */
  lemma QuotedCellRunsAway()
    ensures MergeRow(OneThenTwo, Split(RowText([Quoted("a\"b,c")]), ',')) == None
  {
    var a, b := "\"a\"\"b", "c\"";
    ExampleCell();
    CountsOfTwo(a, b);
    assert Count(a, '"') == 3 && Count(b, '"') == 1;
    assert QuoteCounts([a]) == [3] && QuoteCounts([b]) == [1];
    PairsUpFirst(3, [1]);
    PairsUpFirst(1, []);
    OneThenTwoEndsIff(Split(a + [','] + b, ','));
  }

  /** So does a single quote without any comma. */
  lemma LoneQuoteRunsAway()
    ensures MergeRow(OneThenTwo, Split("5\"", ',')) == None
  {
    SplitWhole("5\"", ',');
    assert Count("5\"", '"') == 1;
    OneThenTwoEndsIff(Split("5\"", ','));
  }
}
