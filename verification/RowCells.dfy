/**
 * Which cells the merge loops of xcatmon.js and configure.js give back: for any cells, and for those of a row in the
 * form of RFC 4180.
 */
module RowCells {
  import opened Text
  import opened RowMerge

  // ----- which cells a rule recovers -----

  /** The pieces of cells one after the other. */
  function PiecesOf(raws: seq<string>): seq<string> {
    if raws == [] then [] else Split(raws[0], ',') + PiecesOf(raws[1..])
  }

  lemma {:induction false} SplitRow(raws: seq<string>)
    requires raws != []
    ensures Split(Join(raws, ','), ',') == PiecesOf(raws)
  {
    if |raws| == 1 {
      assert PiecesOf(raws) == Split(raws[0], ',');
    } else {
      SplitRow(raws[1..]);
      SplitTwo(raws[0], Join(raws[1..], ','), ',');
    }
  }

  /** At no comma of `raw` from position `from` on the rule takes what stands before it for a whole cell. */
  predicate StopsNowhere(rule: Rule, raw: string, from: nat) {
    forall m :: from <= m < |raw| && raw[m] == ',' ==> Unfinished(rule, raw[..m])
  }

  /** The rule takes `raw` for one cell: it merges at every comma and stops at the end. */
  predicate Whole(rule: Rule, raw: string) {
    if ',' in raw then Incomplete(rule, Split(raw, ',')[0]) && StopsNowhere(rule, raw, 0) && !Unfinished(rule, raw)
    else !Incomplete(rule, raw)
  }

  /** The first pieces of a cut text, joined, are the text up to a comma or its end. */
  lemma FirstPieces(raw: string, p: seq<string>, j: nat)
    requires p == Split(raw, ',') && 0 < j <= |p|
    ensures var acc := Join(p[..j], ',');
            |acc| <= |raw| && raw[..|acc|] == acc && (j < |p| ==> |acc| < |raw| && raw[|acc|] == ',')
  {
    var front, back := p[..j], p[j..];
    JoinSplit(raw, ',');
    assert p == front + back;
    if back != [] {
      JoinAppend(front, back, ',');
      BeforeComma(Join(front, ','), Join(back, ','));
    } else {
      assert front == p;
    }
  }

  lemma BeforeComma(front: string, back: string)
    ensures var raw := front + [','] + back; raw[..|front|] == front && raw[|front|] == ','
  {
  }

  lemma OnePieceMore(p: seq<string>, k: nat)
    requires k + 1 < |p|
    ensures Join(p[..k + 2], ',') == Join(p[..k + 1], ',') + "," + p[k + 1]
  {
    assert p[..k + 2] == p[..k + 1] + [p[k + 1]];
    JoinAppend(p[..k + 1], [p[k + 1]], ',');
  }

  lemma NoCommaBetween(raw: string, acc: string, piece: string, more: string)
    requires more == acc + "," + piece && |more| <= |raw| && raw[..|more|] == more && ',' !in piece
    ensures forall m :: |acc| < m < |more| ==> raw[m] != ','
  {
    forall m | |acc| < m < |more| ensures raw[m] != ',' {
      assert raw[m] == more[m] == piece[m - |acc| - 1];
    }
  }

  /** Merging inside `raw` either runs through to its end or stops short of it. */
  lemma {:induction false} AbsorbInside(rule: Rule, raw: string, p: seq<string>, k: nat, rest: seq<string>)
    requires p == Split(raw, ',') && k < |p|
    ensures var acc := Join(p[..k + 1], ',');
            var r := Absorb(rule, acc, p[k + 1..] + rest);
            if StopsNowhere(rule, raw, |acc|) then r == Absorb(rule, raw, rest)
            else r.Some? && |r.value.0| < |raw|
    decreases |p| - k
  {
    var acc := Join(p[..k + 1], ',');
    FirstPieces(raw, p, k + 1);
    if k + 1 == |p| {
      JoinSplit(raw, ',');
      assert p[..k + 1] == p && p[k + 1..] + rest == rest;
    } else if Unfinished(rule, acc) {
      var more, todo := Join(p[..k + 2], ','), p[k + 1..] + rest;
      AbsorbInside(rule, raw, p, k + 1, rest);
      OnePieceMore(p, k);
      FirstPieces(raw, p, k + 2);
      SplitPieces(raw, ',');
      NoCommaBetween(raw, acc, p[k + 1], more);
      StopsLater(rule, raw, acc, more);
      assert todo[0] == p[k + 1] && todo[1..] == p[k + 2..] + rest;
    }
  }

  lemma StopsLater(rule: Rule, raw: string, acc: string, more: string)
    requires |acc| < |more| <= |raw| && raw[..|acc|] == acc && Unfinished(rule, acc)
    requires forall m :: |acc| < m < |more| ==> raw[m] != ','
    ensures StopsNowhere(rule, raw, |acc|) <==> StopsNowhere(rule, raw, |more|)
  {
  }

  lemma {:induction false} AbsorbGrows(rule: Rule, acc: string, rest: seq<string>)
    requires Unfinished(rule, acc) && Absorb(rule, acc, rest).Some?
    ensures |Absorb(rule, acc, rest).value.0| > |acc|
    decreases |rest|
  {
    if Unfinished(rule, acc + "," + rest[0]) {
      AbsorbGrows(rule, acc + "," + rest[0], rest[1..]);
    }
  }

  /** No comma stands before the end of the first piece. */
  lemma FirstPieceStops(rule: Rule, raw: string)
    ensures StopsNowhere(rule, raw, |Split(raw, ',')[0]|) <==> StopsNowhere(rule, raw, 0)
  {
    var p := Split(raw, ',');
    SplitPieces(raw, ',');
    JoinSplit(raw, ',');
    if |p| > 1 {
      assert raw == p[0] + ([','] + Join(p[1..], ','));
    }
    assert forall m :: 0 <= m < |p[0]| ==> raw[m] == p[0][m];
  }

  /** What the loop makes of the pieces of `raw` and of what follows them. */
  lemma FirstCellOf(rule: Rule, raw: string, rest: seq<string>)
    ensures var first := Split(raw, ',')[0];
            var r := FirstCell(rule, Split(raw, ',') + rest);
            if !Incomplete(rule, first) then r.Some? && r.value.0 == first
            else if StopsNowhere(rule, raw, 0) then r == Absorb(rule, raw, rest)
            else r.Some? && |r.value.0| < |raw|
  {
    var p := Split(raw, ',');
    assert p[..1] == [p[0]] && (p + rest)[0] == p[0] && (p + rest)[1..] == p[1..] + rest;
    AbsorbInside(rule, raw, p, 0, rest);
    FirstPieceStops(rule, raw);
  }

  lemma FirstPieceShort(raw: string)
    ensures if ',' in raw then |Split(raw, ',')[0]| < |raw| else Split(raw, ',') == [raw]
  {
    if ',' in raw {
      var m := FirstPiece(raw);
    } else {
      SplitWhole(raw, ',');
    }
  }

  /** A cell comes out as it was written, whatever follows it, exactly when the rule takes it for one cell. */
  lemma FirstCellIff(rule: Rule, raw: string, rest: seq<string>)
    ensures var r := FirstCell(rule, Split(raw, ',') + rest);
            && (Whole(rule, raw) ==> r == Some((raw, rest)))
            && (!Whole(rule, raw) && r.Some? ==> r.value.0 != raw)
  {
    FirstCellOf(rule, raw, rest);
    FirstPieceShort(raw);
    if Unfinished(rule, raw) && Absorb(rule, raw, rest).Some? {
      AbsorbGrows(rule, raw, rest);
    }
    if ',' !in raw {
      assert (Split(raw, ',') + rest)[1..] == rest;
    }
  }

  predicate AllWhole(rule: Rule, raws: seq<string>) {
    forall i :: 0 <= i < |raws| ==> Whole(rule, raws[i])
  }

  lemma {:induction false} PiecesCutIff(rule: Rule, raws: seq<string>)
    ensures MergeRow(rule, PiecesOf(raws)) == Some(raws) <==> AllWhole(rule, raws)
  {
    if raws != [] {
      var rest := PiecesOf(raws[1..]);
      FirstCellIff(rule, raws[0], rest);
      PiecesCutIff(rule, raws[1..]);
      var later := raws[1..];
      assert raws == [raws[0]] + later && forall i :: 0 < i < |raws| ==> raws[i] == later[i - 1];
      assert AllWhole(rule, raws) <==> Whole(rule, raws[0]) && AllWhole(rule, later);
      if Whole(rule, raws[0]) {
        assert MergeRow(rule, PiecesOf(raws)) == Some(raws) <==> MergeRow(rule, rest) == Some(later);
      }
    }
  }

  /**
   * For any cells at all: cutting the joined row gives the cells back exactly when the rule takes each of them for
   * one cell.
   */
  lemma RowCutIff(rule: Rule, raws: seq<string>)
    requires raws != []
    ensures MergeRow(rule, Split(Join(raws, ','), ',')) == Some(raws) <==> AllWhole(rule, raws)
  {
    SplitRow(raws);
    PiecesCutIff(rule, raws);
  }

  // ----- well-formed rows (section 2 of RFC 4180) -----

  /** A cell value as it is written: as it is, or in quotes with its own quotes doubled. */
  datatype Cell = Plain(text: string) | Quoted(text: string)

  predicate ValidCell(c: Cell) {
    c.Plain? ==> ',' !in c.text && '"' !in c.text
  }

  function Doubled(s: string): string {
    if s == [] then [] else (if s[0] == '"' then "\"\"" else [s[0]]) + Doubled(s[1..])
  }

  function Raw(c: Cell): string {
    match c
    case Plain(text) => text
    case Quoted(text) => "\"" + Doubled(text) + "\""
  }

  function Raws(cells: seq<Cell>): (raws: seq<string>)
    ensures |raws| == |cells| && forall i :: 0 <= i < |cells| ==> raws[i] == Raw(cells[i])
  {
    if cells == [] then [] else [Raw(cells[0])] + Raws(cells[1..])
  }

  predicate ValidRow(cells: seq<Cell>) {
    cells != [] && forall i :: 0 <= i < |cells| ==> ValidCell(cells[i])
  }

  function RowText(cells: seq<Cell>): string {
    Join(Raws(cells), ',')
  }

  // ----- quotes in a written cell -----

  /** Before a comma of a doubled text there is an even number of quotes, none when the text has none. */
  lemma {:induction false} QuotesInDoubled(s: string, m: nat)
    requires m <= |Doubled(s)| && (m < |Doubled(s)| ==> Doubled(s)[m] == ',')
    ensures Count(Doubled(s)[..m], '"') % 2 == 0
    ensures '"' !in s ==> Count(Doubled(s)[..m], '"') == 0
    ensures m == |Doubled(s)| ==> Count(Doubled(s)[..m], '"') == 2 * Count(s, '"')
  {
    var d := Doubled(s);
    if s != [] && m > 0 {
      var w := if s[0] == '"' then "\"\"" else [s[0]];
      assert d == w + Doubled(s[1..]);
      assert s[0] == '"' ==> m != 1;
      QuotesInDoubled(s[1..], m - |w|);
      assert d[..m] == w + Doubled(s[1..])[..m - |w|];
      CountAppend(w, Doubled(s[1..])[..m - |w|], '"');
      assert w == "\"\"" ==> Count(w, '"') == 1 + Count(w[1..], '"') && w[1..] == "\"";
    }
  }

  /** A quoted cell has an odd number of quotes before each of its commas and an even number in all. */
  lemma QuotesInRaw(s: string, m: nat)
    requires var raw := Raw(Quoted(s)); m < |raw| && raw[m] == ','
    ensures Count(Raw(Quoted(s))[..m], '"') % 2 == 1
    ensures '"' !in s ==> Count(Raw(Quoted(s))[..m], '"') == 1
  {
    var d := Doubled(s);
    assert m > 0 && m - 1 < |d| && d[m - 1] == ',';
    var front := d[..m - 1];
    assert Raw(Quoted(s))[..m] == ['"'] + front;
    QuotesInDoubled(s, m - 1);
  }

  lemma QuotesOfRaw(s: string)
    ensures Count(Raw(Quoted(s)), '"') == 2 + 2 * Count(s, '"')
  {
    var d := Doubled(s);
    QuotesInDoubled(s, |d|);
    assert d[..|d|] == d;
    CountAppend("\"" + d, "\"", '"');
    CountAppend("\"", d, '"');
  }

  /** The first piece of a text with a comma is what stands before its first comma. */
  lemma FirstPiece(raw: string) returns (m: nat)
    requires ',' in raw
    ensures m < |raw| && raw[m] == ',' && Split(raw, ',')[0] == raw[..m]
  {
    var p := Split(raw, ',');
    JoinSplit(raw, ',');
    if |p| == 1 {
      SplitPieces(raw, ',');
      assert false;
    }
    m := |p[0]|;
    assert raw == p[0] + [','] + Join(p[1..], ',');
  }

  // ----- the two rules on well-formed rows -----

  lemma CommasOfDoubled(s: string)
    ensures ',' in Doubled(s) <==> ',' in s
  {
    if s != [] {
      CommasOfDoubled(s[1..]);
      assert s == [s[0]] + s[1..];
      var w := if s[0] == '"' then "\"\"" else [s[0]];
      assert Doubled(s) == w + Doubled(s[1..]);
    }
  }

  lemma CommasOfRaw(s: string)
    ensures ',' in Raw(Quoted(s)) <==> ',' in s
  {
    CommasOfDoubled(s);
    assert Raw(Quoted(s)) == ['"'] + Doubled(s) + ['"'];
  }

  /** A quoted cell with a comma, rule by rule. */
  lemma QuotedCell(s: string)
    requires ',' in s
    ensures Whole(Parity, Raw(Quoted(s)))
    ensures Whole(OneThenTwo, Raw(Quoted(s))) <==> '"' !in s
  {
    var raw := Raw(Quoted(s));
    CommasOfRaw(s);
    QuotesOfRaw(s);
    CountZero(s, '"');
    forall m | 0 <= m < |raw| && raw[m] == ','
      ensures Unfinished(Parity, raw[..m])
      ensures '"' !in s ==> Unfinished(OneThenTwo, raw[..m]) && Incomplete(OneThenTwo, raw[..m])
    {
      QuotesInRaw(s, m);
    }
    var m := FirstPiece(raw);
  }

  lemma ParityWhole(c: Cell)
    requires ValidCell(c)
    ensures Whole(Parity, Raw(c))
  {
    if c.Plain? {
      CountZero(c.text, '"');
    } else if ',' in c.text {
      QuotedCell(c.text);
    } else {
      CommasOfRaw(c.text);
      QuotesOfRaw(c.text);
    }
  }

  /** What the second rule cannot handle: a cell with both a comma and a quote of its own. */
  predicate Mixed(c: Cell) {
    ',' in c.text && '"' in c.text
  }

  lemma OneThenTwoWholeIff(c: Cell)
    requires ValidCell(c)
    ensures Whole(OneThenTwo, Raw(c)) <==> !Mixed(c)
  {
    if c.Plain? {
      CountZero(c.text, '"');
    } else if ',' in c.text {
      QuotedCell(c.text);
    } else {
      CommasOfRaw(c.text);
      QuotesOfRaw(c.text);
    }
  }

  /** Cutting by quote parity recovers exactly the cells of every well-formed row. */
  lemma ParityOnRow(cells: seq<Cell>)
    requires ValidRow(cells)
    ensures MergeRow(Parity, Split(RowText(cells), ',')) == Some(Raws(cells))
  {
    forall i | 0 <= i < |cells| ensures Whole(Parity, Raws(cells)[i]) {
      ParityWhole(cells[i]);
    }
    RowCutIff(Parity, Raws(cells));
  }

  lemma OneThenTwoExactIff(cells: seq<Cell>)
    requires ValidRow(cells)
    ensures MergeRow(OneThenTwo, Split(RowText(cells), ',')) == Some(Raws(cells))
            <==> forall i :: 0 <= i < |cells| ==> !Mixed(cells[i])
  {
    forall i | 0 <= i < |cells| ensures Whole(OneThenTwo, Raws(cells)[i]) <==> !Mixed(cells[i]) {
      OneThenTwoWholeIff(cells[i]);
    }
    RowCutIff(OneThenTwo, Raws(cells));
  }

  /**
   * On well-formed rows the loop of configure.js recovers the cells exactly when no cell has both a comma
   * and a quote of its own; there it agrees with the parity loop.
   */
  lemma OneThenTwoOnRow(cells: seq<Cell>)
    requires ValidRow(cells)
    ensures MergeRow(OneThenTwo, Split(RowText(cells), ',')) == MergeRow(Parity, Split(RowText(cells), ','))
            <==> forall i :: 0 <= i < |cells| ==> !Mixed(cells[i])
  {
    ParityOnRow(cells);
    OneThenTwoExactIff(cells);
  }

  /** A cell with a comma and a quote, on which the two loops differ. */
  lemma LoopsDiffer()
    ensures var row := RowText([Quoted("a,\"")]);
            MergeRow(OneThenTwo, Split(row, ',')) != MergeRow(Parity, Split(row, ','))
  {
    var cell := Quoted("a,\"");
    assert cell.text[1] == ',' && cell.text[2] == '"';
    OneThenTwoOnRow([cell]);
  }

  // ----- the merged cells and their pieces -----

  predicate NoCommas(pieces: seq<string>) {
    forall i :: 0 <= i < |pieces| ==> ',' !in pieces[i]
  }

  lemma {:induction false} AbsorbPieces(rule: Rule, acc: string, rest: seq<string>)
    requires Absorb(rule, acc, rest).Some? && NoCommas(rest)
    ensures var (cell, left) := Absorb(rule, acc, rest).value;
            Split(cell, ',') + left == Split(acc, ',') + rest && NoCommas(left)
    decreases |rest|
  {
    if Unfinished(rule, acc) {
      var piece, more := rest[0], rest[1..];
      AbsorbPieces(rule, acc + "," + piece, more);
      SplitTwo(acc, piece, ',');
      SplitWhole(piece, ',');
      AppendTwice(Split(acc, ','), [piece], more);
      assert rest == [piece] + more;
    }
  }

  /** The loop only puts pieces together: cutting the merged cells at every comma gives all pieces back. */
  lemma {:induction false} MergedPieces(rule: Rule, pieces: seq<string>)
    requires MergeRow(rule, pieces).Some? && NoCommas(pieces)
    ensures PiecesOf(MergeRow(rule, pieces).value) == pieces
    decreases |pieces|
  {
    if pieces != [] {
      var (cell, left) := FirstCell(rule, pieces).value;
      SplitWhole(pieces[0], ',');
      if Incomplete(rule, pieces[0]) {
        AbsorbPieces(rule, pieces[0], pieces[1..]);
      }
      assert Split(cell, ',') + left == [pieces[0]] + pieces[1..] == pieces;
      MergedPieces(rule, left);
      assert MergeRow(rule, pieces).value == [cell] + MergeRow(rule, left).value;
    }
  }

  lemma {:induction false} PieceCount(s: string)
    ensures |Split(s, ',')| == Count(Remove(s, '"'), ',') + 1
  {
    if s != [] {
      PieceCount(s[1..]);
      var rest := Remove(s[1..], '"');
      if s[0] == '"' {
        assert [] + rest == rest;
      } else {
        assert ([s[0]] + rest)[1..] == rest;
      }
    }
  }

  /** Rows of the same pieces whose cells look the same without quotes are the same. */
  lemma {:induction false} SameWithoutQuotes(a: seq<string>, b: seq<string>)
    requires |a| == |b| && PiecesOf(a) == PiecesOf(b)
    requires forall i :: 0 <= i < |a| ==> Remove(a[i], '"') == Remove(b[i], '"')
    ensures a == b
  {
    if a != [] {
      var p, q := Split(a[0], ','), Split(b[0], ',');
      PieceCount(a[0]);
      PieceCount(b[0]);
      assert p == PiecesOf(a)[..|p|] && q == PiecesOf(b)[..|q|];
      assert PiecesOf(a[1..]) == PiecesOf(a)[|p|..] && PiecesOf(b[1..]) == PiecesOf(b)[|q|..];
      JoinSplit(a[0], ',');
      JoinSplit(b[0], ',');
      SameWithoutQuotes(a[1..], b[1..]);
      assert a == [a[0]] + a[1..] && b == [b[0]] + b[1..];
    }
  }

  /** What is shown of a joined row is what its cells look like without quotes exactly when every cell is whole. */
  lemma RowShownIff(rule: Rule, raws: seq<string>)
    requires raws != []
    ensures var cells := MergeRow(rule, Split(Join(raws, ','), ','));
            cells.Some? && Unquoted(cells.value) == Unquoted(raws) <==> AllWhole(rule, raws)
  {
    var row := Join(raws, ',');
    var cells := MergeRow(rule, Split(row, ','));
    RowCutIff(rule, raws);
    if cells.Some? && Unquoted(cells.value) == Unquoted(raws) {
      SplitRow(raws);
      SplitPieces(row, ',');
      MergedPieces(rule, Split(row, ','));
      forall i | 0 <= i < |raws| ensures Remove(cells.value[i], '"') == Remove(raws[i], '"') {
        assert Unquoted(cells.value)[i] == Unquoted(raws)[i];
      }
      assert |cells.value| == |Unquoted(cells.value)| == |raws|;
      SameWithoutQuotes(cells.value, raws);
    }
  }

  // ----- what quote removal shows -----

  /** The displayed value of a cell: its text without any quote, so the text itself exactly when it has none. */
  lemma {:induction false} DisplayedText(c: Cell)
    requires ValidCell(c)
    ensures Remove(Raw(c), '"') == Remove(c.text, '"')
    ensures Remove(Raw(c), '"') == c.text <==> '"' !in c.text
  {
    if c.Quoted? {
      RemoveAppend("\"" + Doubled(c.text), "\"", '"');
      RemoveAppend("\"", Doubled(c.text), '"');
      RemoveDoubled(c.text);
    }
    NoneLeft(c.text);
    if '"' !in c.text {
      RemoveNone(c.text, '"');
    }
  }

  lemma {:induction false} RemoveDoubled(s: string)
    ensures Remove(Doubled(s), '"') == Remove(s, '"')
  {
    if s != [] {
      var w := if s[0] == '"' then "\"\"" else [s[0]];
      RemoveDoubled(s[1..]);
      RemoveAppend(w, Doubled(s[1..]), '"');
      assert w == "\"\"" ==> w[1..] == "\"";
    }
  }

  lemma {:induction false} NoneLeft(s: string)
    ensures '"' !in Remove(s, '"')
  {
    if s != [] {
      NoneLeft(s[1..]);
    }
  }

  /** `String.prototype.count` of configure.js, by the length that removing the character takes away. */
  lemma {:induction false} CountByRemoval(s: string, c: char)
    ensures |s| - |Remove(s, c)| == Count(s, c)
  {
    if s != [] {
      CountByRemoval(s[1..], c);
    }
  }
}
