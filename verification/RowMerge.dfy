/** The merge loops of xcatmon.js and configure.js that cut a table row. */
module RowMerge {
  import opened Text

  /** `Parity` is the loop of xcatmon.js, `OneThenTwo` the loop of configure.js. */
  datatype Rule = Parity | OneThenTwo

  /** The test of the `if` before the loop. */
  predicate Incomplete(rule: Rule, s: string) {
    match rule
    case Parity => Count(s, '"') % 2 == 1
    case OneThenTwo => Count(s, '"') == 1
  }

  /** The test of the `while` loop. */
  predicate Unfinished(rule: Rule, s: string) {
    match rule
    case Parity => Count(s, '"') % 2 == 1
    case OneThenTwo => Count(s, '"') != 2
  }

  /** The merged cell that starts with `acc`, and the pieces after it; `None` when the loop never ends. */
  function Absorb(rule: Rule, acc: string, rest: seq<string>): Option<(string, seq<string>)>
    decreases |rest|
  {
    if !Unfinished(rule, acc) then Some((acc, rest))
    else if rest == [] then None
    else Absorb(rule, acc + "," + rest[0], rest[1..])
  }

  lemma {:induction false} AbsorbShrinks(rule: Rule, acc: string, rest: seq<string>)
    requires Absorb(rule, acc, rest).Some?
    ensures |Absorb(rule, acc, rest).value.1| <= |rest|
    decreases |rest|
  {
    if Unfinished(rule, acc) {
      AbsorbShrinks(rule, acc + "," + rest[0], rest[1..]);
    }
  }

  /** The first cell of a non-empty row of pieces, and the pieces after it. */
  function FirstCell(rule: Rule, pieces: seq<string>): (r: Option<(string, seq<string>)>)
    requires pieces != []
    ensures r.Some? ==> |r.value.1| < |pieces|
  {
    if Incomplete(rule, pieces[0]) then
      var r := Absorb(rule, pieces[0], pieces[1..]);
      if r.Some? then AbsorbShrinks(rule, pieces[0], pieces[1..]); r else r
    else Some((pieces[0], pieces[1..]))
  }

  /** All cells with their quotes; `None` when some merge loop never ends. */
  function MergeRow(rule: Rule, pieces: seq<string>): Option<seq<string>>
    decreases |pieces|
  {
    if pieces == [] then Some([]) else
      match FirstCell(rule, pieces)
      case None => None
      case Some((cell, rest)) =>
        match MergeRow(rule, rest)
        case None => None
        case Some(cells) => Some([cell] + cells)
  }

  /** `replace(new RegExp('"', 'g'), '')` on every cell. */
  function Unquoted(cells: seq<string>): seq<string> {
    seq(|cells|, i requires 0 <= i < |cells| => Remove(cells[i], '"'))
  }

  /** The `if` and `while` of one column, in place: column `j` takes in its neighbours until it is complete. */
  method MergeColumn(rule: Rule, cols0: seq<string>, j: nat) returns (cols: seq<string>)
    requires j < |cols0| && FirstCell(rule, cols0[j..]).Some?
    ensures j < |cols| <= |cols0| && cols[..j] == cols0[..j]
    ensures FirstCell(rule, cols0[j..]) == Some((cols[j], cols[j + 1..]))
  {
    cols := cols0;
    if Incomplete(rule, cols[j]) {
      while Unfinished(rule, cols[j])
        invariant j < |cols| <= |cols0| && cols[..j] == cols0[..j]
        invariant Absorb(rule, cols[j], cols[j + 1..]) == FirstCell(rule, cols0[j..])
        decreases |cols|
      {
        cols := cols[..j] + [cols[j] + "," + cols[j + 1]] + cols[j + 2..];
      }
    }
  }

  lemma MergeStep(rule: Rule, pieces: seq<string>)
    requires pieces != [] && MergeRow(rule, pieces).Some?
    ensures FirstCell(rule, pieces).Some?
    ensures var cells := MergeRow(rule, pieces).value;
            var (cell, rest) := FirstCell(rule, pieces).value;
            cells != [] && cells[0] == cell && MergeRow(rule, rest) == Some(cells[1..])
  {
  }

  /** One turn of the loop over the columns: column `j` is merged and loses its quotes. */
  method CutColumn(rule: Rule, cols0: seq<string>, j: nat) returns (cols: seq<string>)
    requires j < |cols0| && FirstCell(rule, cols0[j..]).Some?
    ensures var (cell, rest) := FirstCell(rule, cols0[j..]).value;
            cols == cols0[..j] + [Remove(cell, '"')] + rest
  {
    cols := MergeColumn(rule, cols0, j);
    cols := cols[j := Remove(cols[j], '"')];
  }

  lemma UnquotedNext(cells: seq<string>, j: nat)
    requires j < |cells|
    ensures Unquoted(cells[..j]) + [Remove(cells[j], '"')] == Unquoted(cells[..j + 1])
  {
  }

  /** The loop over a row; its precondition is exactly that it ends. */
  method CutRow(rule: Rule, row: string) returns (cols: seq<string>)
    requires MergeRow(rule, Split(row, ',')).Some?
    ensures cols == Unquoted(MergeRow(rule, Split(row, ',')).value)
  {
    cols := Split(row, ',');
    ghost var cells, pieces := MergeRow(rule, cols).value, cols;
    var j := 0;
    assert cols == Unquoted(cells[..0]) + pieces;
    while j < |cols|
      invariant j <= |cols| && j <= |cells|
      invariant cols == Unquoted(cells[..j]) + pieces
      invariant MergeRow(rule, pieces) == Some(cells[j..])
      decreases |pieces|
    {
      MergeStep(rule, pieces);
      assert cols[j..] == pieces && cols[..j] == Unquoted(cells[..j]);
      pieces := FirstCell(rule, pieces).value.1;
      cols := CutColumn(rule, cols, j);
      assert cells[j..][1..] == cells[j + 1..] && cells[j..][0] == cells[j];
      UnquotedNext(cells, j);
      j := j + 1;
    }
    assert cells[..j] == cells;
  }
}
