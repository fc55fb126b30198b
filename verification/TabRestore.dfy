/** Printing a table row (xCAT-UI/lib/tabRestore.php) and loading it again (configure.js). */
module TabRestore {
  import opened Text
  import opened RowCells
  import opened RowEnds
  import opened RowMerge

  /** One element of the PHP array `$line`: column number and cell. */
  datatype Slot = Slot(key: nat, value: string)

  type Line = seq<Slot>

  predicate DistinctKeys(line: Line) {
    forall i, j :: 0 <= i < j < |line| ==> line[i].key != line[j].key
  }

  predicate HasKey(line: Line, key: nat) {
    exists i :: 0 <= i < |line| && line[i].key == key
  }

  /** `$line[$key]`, empty when it is not set. */
  function Lookup(line: Line, key: nat): string {
    if line == [] then "" else if line[0].key == key then line[0].value else Lookup(line[1..], key)
  }

  // ----- the steps of the script -----

  /** `preg_match('/^".*"$/', $col)`: the dot stops at a newline, the end may stand before a final newline. */
  predicate AlreadyQuoted(s: string) {
    QuotedSpan(s) || (s != [] && s[|s| - 1] == '\n' && QuotedSpan(s[..|s| - 1]))
  }

  predicate QuotedSpan(s: string) {
    |s| >= 2 && s[0] == '"' && s[|s| - 1] == '"' && '\n' !in s[1..|s| - 1]
  }

  /** That is a text of one line in quotes, perhaps with a newline behind it. */
  lemma AlreadyQuotedIff(s: string)
    ensures AlreadyQuoted(s)
            <==> exists inner: string :: '\n' !in inner && (s == "\"" + inner + "\"" || s == "\"" + inner + "\"\n")
  {
    if QuotedSpan(s) {
      assert s == "\"" + s[1..|s| - 1] + "\"";
    } else if AlreadyQuoted(s) {
      assert s == "\"" + s[1..|s| - 2] + "\"\n";
    }
    forall inner: string | '\n' !in inner && (s == "\"" + inner + "\"" || s == "\"" + inner + "\"\n")
      ensures AlreadyQuoted(s)
    {
      assert s == "\"" + inner + "\"" ==> s[1..|s| - 1] == inner;
      assert s == "\"" + inner + "\"\n" ==> s[..|s| - 1] == "\"" + inner + "\"" && s[1..|s| - 2] == inner;
    }
  }

  /** The quoting of one column; PHP counts the cell "0" as empty. */
  function QuoteCell(s: string): string {
    if s != "" && s != "0" && !AlreadyQuoted(s) then "&quot;" + s + "&quot;" else s
  }

  /** `foreach ($line as &$col)` */
  method QuoteColumns(line0: Line) returns (line: Line)
    ensures line == QuotedLine(line0)
  {
    line := line0;
    for i := 0 to |line|
      invariant |line| == |line0| && line[i..] == line0[i..]
      invariant line[..i] == QuotedLine(line0)[..i]
    {
      var col := line[i].value;
      if col != "" && col != "0" && !AlreadyQuoted(col) {
        col := "&quot;" + col + "&quot;";
      }
      assert col == QuoteCell(line0[i].value) by {
        assert line[i] == line[i..][0] == line0[i];
      }
      assert line[i..][1..] == line0[i + 1..];
      line := line[i := Slot(line[i].key, col)];
    }
  }

  function QuotedLine(line: Line): Line {
    seq(|line|, i requires 0 <= i < |line| => Slot(line[i].key, QuoteCell(line[i].value)))
  }

  function Insert(s: Slot, sorted: Line): Line {
    if sorted == [] || s.key <= sorted[0].key then [s] + sorted else [sorted[0]] + Insert(s, sorted[1..])
  }

  /** `ksort($line, SORT_NUMERIC)` */
  function KeySort(line: Line): Line {
    if line == [] then [] else Insert(line[0], KeySort(line[1..]))
  }

  predicate Increasing(line: Line) {
    forall i, j :: 0 <= i < j < |line| ==> line[i].key < line[j].key
  }

  lemma {:induction false} InsertContents(s: Slot, sorted: Line)
    ensures |Insert(s, sorted)| == |sorted| + 1
    ensures multiset(Insert(s, sorted)) == multiset{s} + multiset(sorted)
  {
    if sorted != [] && s.key > sorted[0].key {
      InsertContents(s, sorted[1..]);
      assert sorted == [sorted[0]] + sorted[1..];
    }
  }

  lemma InsertMember(s: Slot, sorted: Line, i: nat)
    requires i < |Insert(s, sorted)|
    ensures Insert(s, sorted)[i] == s || Insert(s, sorted)[i] in sorted
  {
    InsertContents(s, sorted);
    assert Insert(s, sorted)[i] in multiset(Insert(s, sorted));
  }

  lemma {:induction false} InsertKeeps(s: Slot, sorted: Line)
    requires Increasing(sorted) && !HasKey(sorted, s.key)
    ensures Increasing(Insert(s, sorted))
  {
    if sorted != [] && s.key > sorted[0].key {
      var rest := sorted[1..];
      InsertKeeps(s, rest);
      forall i | 0 <= i < |Insert(s, rest)| ensures sorted[0].key < Insert(s, rest)[i].key {
        InsertMember(s, rest, i);
      }
    }
  }

  /** Sorting by key rearranges the slots and puts distinct keys in increasing order. */
  lemma {:induction false} KeySortSorts(line: Line)
    requires DistinctKeys(line)
    ensures Increasing(KeySort(line)) && |KeySort(line)| == |line|
    ensures multiset(KeySort(line)) == multiset(line)
  {
    if line != [] {
      var rest := line[1..];
      KeySortSorts(rest);
      assert line == [line[0]] + rest;
      forall i | 0 <= i < |KeySort(rest)| ensures KeySort(rest)[i].key != line[0].key {
        assert KeySort(rest)[i] in multiset(KeySort(rest));
        var k :| 0 <= k < |rest| && rest[k] == KeySort(rest)[i];
        assert line[k + 1] == rest[k];
      }
      InsertKeeps(line[0], KeySort(rest));
      InsertContents(line[0], KeySort(rest));
    }
  }

  // ----- filling the column gaps -----

  lemma {:induction false} KeysGrow(line: Line, i: nat, j: nat)
    requires Increasing(line) && i <= j < |line|
    ensures line[j].key - line[i].key >= j - i
    decreases j - i
  {
    if i < j {
      KeysGrow(line, i, j - 1);
      assert line[j - 1].key < line[j].key;
    }
  }

  /** The test "last key equals count minus one" says that the keys are 0, 1, 2, ... without a gap. */
  lemma LastKeyTest(line: Line)
    requires Increasing(line) && line != []
    ensures line[|line| - 1].key == |line| - 1 <==> forall i :: 0 <= i < |line| ==> line[i].key == i
  {
    if line[|line| - 1].key == |line| - 1 {
      forall i | 0 <= i < |line| ensures line[i].key == i {
        KeysGrow(line, 0, i);
        KeysGrow(line, i, |line| - 1);
      }
    }
  }

  lemma NoKeyMissing(line: Line, last: nat)
    requires Increasing(line)
    requires forall k :: 0 <= k <= last ==> HasKey(line, k)
    requires forall i :: 0 <= i < |line| ==> line[i].key <= last
    ensures |line| == last + 1 && forall i :: 0 <= i < |line| ==> line[i].key == i
  {
    assert HasKey(line, 0);
    forall i | 0 <= i < |line| ensures line[i].key == i {
      PositionOfKey(line, last, i);
    }
    assert HasKey(line, last);
    var j :| 0 <= j < |line| && line[j].key == last;
    assert line[j].key == j && line[|line| - 1].key == |line| - 1;
  }

  lemma {:induction false} PositionOfKey(line: Line, last: nat, i: nat)
    requires Increasing(line) && i < |line|
    requires forall k :: 0 <= k <= last ==> HasKey(line, k)
    requires forall i :: 0 <= i < |line| ==> line[i].key <= last
    ensures line[i].key == i
  {
    KeysGrow(line, 0, i);
    assert HasKey(line, i);
    var j :| 0 <= j < |line| && line[j].key == i;
    KeysGrow(line, 0, j);
    if j < i {
      PositionOfKey(line, last, j);
    }
  }

  lemma {:induction false} LookupFinds(line: Line)
    requires DistinctKeys(line)
    ensures forall i :: 0 <= i < |line| ==> Lookup(line, line[i].key) == line[i].value
    ensures forall k: nat :: !HasKey(line, k) ==> Lookup(line, k) == ""
  {
    if line != [] {
      var rest := line[1..];
      LookupFinds(rest);
      forall i | 0 <= i < |line| ensures Lookup(line, line[i].key) == line[i].value {
        assert i > 0 ==> rest[i - 1] == line[i];
      }
      forall k: nat | !HasKey(line, k) ensures Lookup(line, k) == "" {
        assert line[0].key != k;
        forall i | 0 <= i < |rest| ensures rest[i].key != k {
          assert line[i + 1] == rest[i];
        }
      }
    }
  }

  /** One more than the largest column number; a row without columns still prints one empty cell. */
  function Width(line: Line): (w: nat)
    ensures w >= 1
  {
    if line == [] then 1 else
      var w := Width(line[1..]);
      if line[0].key + 1 > w then line[0].key + 1 else w
  }

  lemma {:induction false} WidthBounds(line: Line)
    ensures forall i :: 0 <= i < |line| ==> line[i].key < Width(line)
    ensures line != [] ==> HasKey(line, Width(line) - 1)
  {
    if line != [] {
      var rest := line[1..];
      WidthBounds(rest);
      assert forall i :: 0 < i < |line| ==> line[i] == rest[i - 1];
      if rest == [] || line[0].key + 1 == Width(line) {
        assert rest == [] ==> Width(rest) == 1;
        assert line[0].key == Width(line) - 1;
      } else {
        var i :| 0 <= i < |rest| && rest[i].key == Width(rest) - 1;
        assert line[i + 1] == rest[i];
      }
    }
  }

  /** Every column from 0 to the largest one, the missing ones empty. */
  function Filled(line: Line): Line {
    seq(Width(line), k requires 0 <= k < Width(line) => Slot(k, Lookup(line, k)))
  }

  /** Each slot of `line` holds what `line0` has under that key. */
  predicate Agrees(line: Line, line0: Line) {
    forall i :: 0 <= i < |line| ==> line[i].value == Lookup(line0, line[i].key)
  }

  lemma SortedAgrees(line: Line, line0: Line)
    requires DistinctKeys(line) && Agrees(line, line0)
    ensures Agrees(KeySort(line), line0)
    ensures forall k: nat :: HasKey(line, k) ==> HasKey(KeySort(line), k)
    ensures forall i :: 0 <= i < |KeySort(line)| ==> HasKey(line, KeySort(line)[i].key)
  {
    var sorted := KeySort(line);
    KeySortSorts(line);
    forall i | 0 <= i < |sorted|
      ensures sorted[i].value == Lookup(line0, sorted[i].key) && HasKey(line, sorted[i].key)
    {
      assert sorted[i] in multiset(sorted);
      var k :| 0 <= k < |line| && line[k] == sorted[i];
    }
    forall k: nat | HasKey(line, k) ensures HasKey(sorted, k) {
      var i :| 0 <= i < |line| && line[i].key == k;
      assert line[i] in multiset(line);
      var j :| 0 <= j < |sorted| && sorted[j] == line[i];
    }
  }

  lemma FilledIs(line: Line, line0: Line)
    requires Agrees(line, line0) && |line| == Width(line0)
    requires forall i :: 0 <= i < |line| ==> line[i].key == i
    ensures line == Filled(line0)
  {
    forall i | 0 <= i < |line| ensures line[i] == Filled(line0)[i] {
      assert line[i] == Slot(line[i].key, line[i].value);
    }
  }

  /** The loop that adds the missing columns up to `last`, at the end of the array. */
  method AddMissing(line0: Line, last: nat) returns (line: Line)
    requires DistinctKeys(line0)
    ensures DistinctKeys(line)
    ensures line0 <= line && forall i :: |line0| <= i < |line| ==> line[i].value == "" && line[i].key <= last
    ensures forall i :: |line0| <= i < |line| ==> !HasKey(line0, line[i].key)
    ensures forall k: nat :: k <= last ==> HasKey(line, k)
  {
    line := line0;
    for i := 0 to last + 1
      invariant DistinctKeys(line)
      invariant line0 <= line && forall k :: |line0| <= k < |line| ==> line[k].value == "" && line[k].key <= last
      invariant forall k :: |line0| <= k < |line| ==> !HasKey(line0, line[k].key)
      invariant forall k: nat :: k < i ==> HasKey(line, k)
    {
      ghost var before := line;
      if !HasKey(line, i) {
        line := line + [Slot(i, "")];
        assert line[|line| - 1].key == i;
      }
      forall k: nat | k < i + 1 ensures HasKey(line, k) {
        if k < i {
          assert HasKey(before, k);
          var j :| 0 <= j < |before| && before[j].key == k;
          assert line[j] == before[j];
        }
      }
    }
  }

  /** The gap filling of one row: sort, test the last key, add what is missing, sort again. */
  method FillGaps(line0: Line) returns (line: Line)
    requires DistinctKeys(line0)
    ensures line == Filled(line0)
  {
    line := KeySort(line0);
    var max := |line| - 1;
    if line == [] {
      // There is no last key: null differs from -1, and the loop runs once, for column 0.
      KeySortSorts(line0);
      line := KeySort([Slot(0, "")]);
      assert line == Filled(line0);
    } else if line[max].key != max {
      FirstSort(line0);
      ghost var sorted := line;
      line := AddMissing(line, line[max].key);
      SecondSort(line0, sorted, line);
      line := KeySort(line);
    } else {
      FirstSort(line0);
      LastKeyTest(line);
      FilledIs(line, line0);
    }
  }

  lemma FirstSort(line0: Line)
    requires DistinctKeys(line0) && KeySort(line0) != []
    ensures var sorted := KeySort(line0);
            Increasing(sorted) && Agrees(sorted, line0) && sorted[|sorted| - 1].key + 1 == Width(line0)
  {
    LookupFinds(line0);
    KeySortSorts(line0);
    SortedAgrees(line0, line0);
    LastIsWidth(line0, KeySort(line0));
  }

  lemma SecondSort(line0: Line, sorted: Line, added: Line)
    requires DistinctKeys(line0) && sorted == KeySort(line0) && sorted != [] && DistinctKeys(added)
    requires var last := sorted[|sorted| - 1].key;
             && sorted <= added
             && (forall i :: |sorted| <= i < |added| ==> added[i].value == "" && added[i].key <= last)
             && (forall i :: |sorted| <= i < |added| ==> !HasKey(sorted, added[i].key))
             && (forall k: nat :: k <= last ==> HasKey(added, k))
    ensures KeySort(added) == Filled(line0)
  {
    var last := sorted[|sorted| - 1].key;
    FirstSort(line0);
    LookupFinds(line0);
    SortedAgrees(line0, line0);
    AddedAgrees(added, sorted, line0, last);
    KeySortSorts(added);
    SortedAgrees(added, line0);
    KeysBelow(added, KeySort(added), last);
    NoKeyMissing(KeySort(added), last);
    FilledIs(KeySort(added), line0);
  }

  lemma KeysBelow(line: Line, sorted: Line, last: nat)
    requires forall i :: 0 <= i < |line| ==> line[i].key <= last
    requires forall i :: 0 <= i < |sorted| ==> HasKey(line, sorted[i].key)
    ensures forall i :: 0 <= i < |sorted| ==> sorted[i].key <= last
  {
    forall i | 0 <= i < |sorted| ensures sorted[i].key <= last {
      assert HasKey(line, sorted[i].key);
    }
  }

  lemma LastIsWidth(line0: Line, sorted: Line)
    requires line0 != [] && sorted != [] && Increasing(sorted)
    requires forall k: nat :: HasKey(line0, k) ==> HasKey(sorted, k)
    requires forall i :: 0 <= i < |sorted| ==> HasKey(line0, sorted[i].key)
    ensures sorted[|sorted| - 1].key + 1 == Width(line0)
  {
    WidthBounds(line0);
    var last := |sorted| - 1;
    var k :| 0 <= k < |line0| && line0[k].key == sorted[last].key;
    assert HasKey(sorted, Width(line0) - 1);
    var i :| 0 <= i < |sorted| && sorted[i].key == Width(line0) - 1;
    assert sorted[i].key >= sorted[last].key;
  }

  lemma AddedAgrees(line: Line, sorted: Line, line0: Line, last: nat)
    requires DistinctKeys(line0) && DistinctKeys(sorted) && Agrees(sorted, line0) && sorted <= line
    requires forall k: nat :: HasKey(line0, k) ==> HasKey(sorted, k)
    requires Increasing(sorted) && sorted != [] && last == sorted[|sorted| - 1].key
    requires forall i :: |sorted| <= i < |line| ==> line[i].value == "" && line[i].key <= last
    requires forall i :: |sorted| <= i < |line| ==> !HasKey(sorted, line[i].key)
    ensures Agrees(line, line0) && forall i :: 0 <= i < |line| ==> line[i].key <= last
  {
    LookupFinds(line0);
    forall i | 0 <= i < |line|
      ensures line[i].value == Lookup(line0, line[i].key) && line[i].key <= last
    {
      if i < |sorted| {
        assert line[i] == sorted[i];
        assert i < |sorted| - 1 ==> sorted[i].key < sorted[|sorted| - 1].key;
      }
    }
  }

  // ----- joining, escaping and what the server receives -----

  /** `str_replace` of both quote characters by their entities. */
  function Escape(s: string): string {
    if s == [] then [] else EscapeOne(s[0]) + Escape(s[1..])
  }

  function EscapeOne(c: char): string {
    if c == '"' then "&quot;" else if c == '\'' then "&apos;" else [c]
  }

  /** No quote character of either kind is left. */
  lemma {:induction false} EscapeLeavesNoQuotes(s: string)
    ensures '"' !in Escape(s) && '\'' !in Escape(s)
  {
    if s != [] {
      EscapeLeavesNoQuotes(s[1..]);
    }
  }

  /** The text that an XML parser makes of the five predefined entities. */
  function Decode(s: string): string
    decreases |s|
  {
    if s == [] then []
    else if "&quot;" <= s then "\"" + Decode(s[6..])
    else if "&apos;" <= s then "'" + Decode(s[6..])
    else if "&lt;" <= s then "<" + Decode(s[4..])
    else if "&gt;" <= s then ">" + Decode(s[4..])
    else if "&amp;" <= s then "&" + Decode(s[5..])
    else [s[0]] + Decode(s[1..])
  }

  function Values(line: Line): seq<string> {
    seq(|line|, i requires 0 <= i < |line| => line[i].value)
  }

  /** One data row of the script, from the posted array to the text of the `data` element. */
  method PrintRow(line0: Line) returns (text: string)
    requires DistinctKeys(line0)
    ensures text == Escape(Join(Printed(line0), ','))
  {
    var line := QuoteColumns(line0);
    QuotingKeepsColumns(line0, line);
    line := FillGaps(line);
    assert Values(line) == Printed(line0);
    text := Escape(Join(Values(line), ','));
  }

  /** The cells of the printed row: every column, quoted where it has a value. */
  function Printed(line: Line): seq<string> {
    seq(Width(line), k requires 0 <= k < Width(line) => QuoteCell(Lookup(line, k)))
  }

  lemma {:induction false} QuotingKeepsColumns(line: Line, quoted: Line)
    requires quoted == QuotedLine(line)
    ensures Width(quoted) == Width(line)
    ensures forall k: nat :: Lookup(quoted, k) == QuoteCell(Lookup(line, k))
  {
    if line != [] {
      assert quoted[1..] == QuotedLine(line[1..]);
      QuotingKeepsColumns(line[1..], quoted[1..]);
    }
  }

  /** The cell as it arrives. */
  function Sent(s: string): string {
    if s != "" && s != "0" && !AlreadyQuoted(s) then "\"" + s + "\"" else s
  }

  lemma {:induction false} EscapeAppend(s: string, t: string)
    ensures Escape(s + t) == Escape(s) + Escape(t)
  {
    if s == [] {
      assert s + t == t;
    } else {
      EscapeAppend(s[1..], t);
      assert (s + t)[0] == s[0] && (s + t)[1..] == s[1..] + t;
      AppendTwice(EscapeOne(s[0]), Escape(s[1..]), Escape(t));
    }
  }

  /** An XML text decoder: it turns the two entities back into quotes and passes every other character on. */
  ghost predicate IsDecoder(decode: string -> string) {
    && decode("") == ""
    && forall c: char, rest: string {:trigger decode(EscapeOne(c) + rest)} ::
          c != '&' ==> decode(EscapeOne(c) + rest) == [c] + decode(rest)
  }

  /** There is such a decoder. */
  lemma DecodeIsDecoder()
    ensures IsDecoder(Decode)
  {
    forall c: char, rest: string | c != '&' ensures Decode(EscapeOne(c) + rest) == [c] + Decode(rest) {
      if c == '"' {
        assert ("&quot;" + rest)[6..] == rest;
      } else if c == '\'' {
        assert ("&apos;" + rest)[6..] == rest && ("&apos;" + rest)[1] != 'q';
      } else {
        assert ([c] + rest)[0] != '&' && ([c] + rest)[1..] == rest;
      }
    }
  }

  lemma {:induction false} DecodeEscape(decode: string -> string, s: string, t: string)
    requires IsDecoder(decode) && '&' !in s
    ensures decode(Escape(s) + t) == s + decode(t)
  {
    if s == [] {
      assert Escape(s) + t == t;
    } else {
      var c, u, after := s[0], s[1..], decode(t);
      DecodeEscape(decode, u, t);
      AppendTwice(EscapeOne(c), Escape(u), t);
      assert decode(EscapeOne(c) + (Escape(u) + t)) == [c] + (u + after);
      assert s == [c] + u;
      assert [c] + (u + after) == [c] + u + after;
    }
  }

  lemma {:induction false} EscapeKeeps(s: string)
    requires '"' !in s && '\'' !in s
    ensures Escape(s) == s
  {
    if s != [] {
      EscapeKeeps(s[1..]);
    }
  }

  lemma DecodeQuote(decode: string -> string, t: string)
    requires IsDecoder(decode)
    ensures decode(Escape("&quot;") + t) == "\"" + decode(t)
  {
    EscapeKeeps("&quot;");
    assert EscapeOne('"') == "&quot;";
    assert decode(EscapeOne('"') + t) == ['"'] + decode(t);
  }

  /** A value that the script puts in quotes arrives in quotes. */
  lemma QuotedArrives(decode: string -> string, s: string, t: string)
    requires IsDecoder(decode) && '&' !in s
    ensures decode(Escape("&quot;" + s + "&quot;") + t) == "\"" + s + "\"" + decode(t)
  {
    var q, e := Escape("&quot;"), Escape(s);
    EscapeAppend("&quot;" + s, "&quot;");
    EscapeAppend("&quot;", s);
    Reassociate(q, e, t);
    DecodeQuote(decode, e + (q + t));
    DecodeEscape(decode, s, q + t);
    DecodeQuote(decode, t);
  }

  lemma Reassociate(q: string, e: string, t: string)
    ensures (q + e + q) + t == q + (e + (q + t))
  {
  }

  /** One printed cell arrives, whatever follows it. */
  lemma CellArrives(decode: string -> string, s: string, t: string)
    requires IsDecoder(decode) && '&' !in s
    ensures decode(Escape(QuoteCell(s)) + t) == Sent(s) + decode(t)
  {
    if QuoteCell(s) == s {
      DecodeEscape(decode, s, t);
    } else {
      QuotedArrives(decode, s, t);
    }
  }

  /** The values of all columns, the missing ones empty. */
  function Columns(line: Line): seq<string> {
    seq(Width(line), k requires 0 <= k < Width(line) => Lookup(line, k))
  }

  /** They are the cells of the row at their column numbers, up to the largest one. */
  lemma ColumnsAre(line: Line)
    requires DistinctKeys(line)
    ensures forall i :: 0 <= i < |line| ==>
      line[i].key < |Columns(line)| && Columns(line)[line[i].key] == line[i].value
    ensures forall k :: 0 <= k < |Columns(line)| && !HasKey(line, k) ==> Columns(line)[k] == ""
    ensures if line == [] then Columns(line) == [""] else HasKey(line, |Columns(line)| - 1)
  {
    WidthBounds(line);
    LookupFinds(line);
  }

  /** No cell has an ampersand, which would start an XML entity. */
  predicate NoEntities(cells: seq<string>) {
    forall i :: 0 <= i < |cells| ==> '&' !in cells[i]
  }

  function QuoteAll(cells: seq<string>): seq<string> {
    if cells == [] then [] else [QuoteCell(cells[0])] + QuoteAll(cells[1..])
  }

  function SentAll(cells: seq<string>): (r: seq<string>)
    ensures |r| == |cells| && forall i :: 0 <= i < |cells| ==> r[i] == Sent(cells[i])
  {
    if cells == [] then [] else [Sent(cells[0])] + SentAll(cells[1..])
  }

  lemma LastCellArrives(decode: string -> string, cells: seq<string>)
    requires IsDecoder(decode) && |cells| == 1 && NoEntities(cells)
    ensures decode(Escape(Join(QuoteAll(cells), ','))) == Join(SentAll(cells), ',')
  {
    var head, raw := QuoteCell(cells[0]), Sent(cells[0]);
    CellArrives(decode, cells[0], "");
    assert Escape(head) + "" == Escape(head) && raw + "" == raw;
    assert cells[1..] == [] && QuoteAll([]) == [] && SentAll([]) == [];
    assert QuoteAll(cells) == [head] + [] == [head] && SentAll(cells) == [raw] + [] == [raw];
  }

  /** A cell and a comma arrive before whatever follows them. */
  lemma CellAndCommaArrive(decode: string -> string, s: string, rest: string)
    requires IsDecoder(decode) && '&' !in s
    ensures decode(Escape(QuoteCell(s) + [','] + rest)) == Sent(s) + [','] + decode(Escape(rest))
  {
    var after := Escape(rest);
    EscapeComma(QuoteCell(s), rest);
    CellArrives(decode, s, [','] + after);
    assert decode(EscapeOne(',') + after) == [','] + decode(after);
    AppendTwice(Sent(s), [','], decode(after));
  }

  /** The printed row arrives as the cells, each in quotes if it is not empty, "0" or in quotes already. */
  lemma {:induction false} RowArrives(decode: string -> string, cells: seq<string>)
    requires IsDecoder(decode) && cells != [] && NoEntities(cells)
    ensures decode(Escape(Join(QuoteAll(cells), ','))) == Join(SentAll(cells), ',')
  {
    if |cells| == 1 {
      LastCellArrives(decode, cells);
    } else {
      RowArrives(decode, cells[1..]);
      assert QuoteAll(cells)[1..] == QuoteAll(cells[1..]);
      CellAndCommaArrive(decode, cells[0], Join(QuoteAll(cells[1..]), ','));
      assert SentAll(cells)[1..] == SentAll(cells[1..]);
    }
  }

  lemma EscapeComma(a: string, b: string)
    ensures Escape(a + [','] + b) == Escape(a) + ([','] + Escape(b))
  {
    var tail := [','] + b;
    assert a + [','] + b == a + tail;
    EscapeAppend(a, tail);
    assert tail[0] == ',' && tail[1..] == b;
  }

  lemma {:induction false} QuoteAllAt(cells: seq<string>)
    ensures |QuoteAll(cells)| == |cells| && forall i :: 0 <= i < |cells| ==> QuoteAll(cells)[i] == QuoteCell(cells[i])
  {
    if cells != [] {
      QuoteAllAt(cells[1..]);
    }
  }

  // ----- loading what was saved -----

  lemma QuotesOff(inner: string)
    ensures Remove("\"" + inner + "\"", '"') == Remove(inner, '"')
  {
    var quote := ['"'];
    RemoveAppend(quote + inner, quote, '"');
    RemoveAppend(quote, inner, '"');
    assert Remove(quote, '"') == [];
  }

  /** What stands between the quotes of a cell, those that it has or those that it gets. */
  function Inner(s: string): string {
    if !AlreadyQuoted(s) then s else if QuotedSpan(s) then s[1..|s| - 1] else s[1..|s| - 2]
  }

  /** No comma and no quote of its own together. */
  predicate Intact(s: string) {
    ',' in Inner(s) ==> '"' !in Inner(s)
  }

  /** Quotes around a text with a comma, perhaps with a newline behind them. */
  lemma AroundIff(mid: string, end: string)
    requires ',' in mid && (end == "\"" || end == "\"\n")
    ensures Whole(OneThenTwo, ['"'] + mid + end) <==> '"' !in mid
  {
    var raw := ['"'] + mid + end;
    CountZero(mid, '"');
    CountOfEnd(end);
    CountAppend(['"'] + mid, end, '"');
    CountAppend(['"'], mid, '"');
    assert Count(['"'], '"') == 1;
    var c :| 0 <= c < |mid| && mid[c] == ',';
    assert raw[c + 1] == ',';
    if '"' !in mid {
      forall m | 0 <= m < |raw| && raw[m] == ',' ensures Count(raw[..m], '"') == 1 {
        BeforeCommaOf(mid, end, m);
      }
      var m := FirstPiece(raw);
    }
  }

  lemma CountOfEnd(end: string)
    requires end == "\"" || end == "\"\n"
    ensures Count(end, '"') == 1 && ',' !in end
  {
    assert end == ['"'] + end[1..];
    CountZero(end[1..], '"');
  }

  lemma BeforeCommaOf(mid: string, end: string, m: nat)
    requires '"' !in mid && (end == "\"" || end == "\"\n")
    requires m < |mid| + 1 + |end| && (['"'] + mid + end)[m] == ','
    ensures Count((['"'] + mid + end)[..m], '"') == 1
  {
    CountOfEnd(end);
    assert 0 < m <= |mid|;
    assert (['"'] + mid + end)[..m] == ['"'] + mid[..m - 1];
    CountAppend(['"'], mid[..m - 1], '"');
    CountZero(mid[..m - 1], '"');
    assert Count(['"'], '"') == 1;
  }

  /** A cell without a comma is never merged with its neighbour. */
  lemma NoCommaWhole(s: string)
    requires ',' !in s
    ensures Whole(OneThenTwo, Sent(s)) && Intact(s)
  {
    if AlreadyQuoted(s) {
      var end := if QuotedSpan(s) then s[|s| - 1..] else s[|s| - 2..];
      assert s == ['"'] + Inner(s) + end && end[0] == '"';
      QuotedCount(Inner(s), end);
    } else if s == "" || s == "0" {
      CountZero(s, '"');
    } else {
      QuotedCount(s, "\"");
    }
    assert forall i :: 0 <= i < |Inner(s)| ==> Inner(s)[i] in s;
  }

  lemma QuotedCount(mid: string, end: string)
    requires end != [] && end[0] == '"'
    ensures Count(['"'] + mid + end, '"') >= 2
  {
    CountAppend(['"'] + mid, end, '"');
    CountAppend(['"'], mid, '"');
    assert Count(['"'], '"') == 1;
  }

  lemma SentWholeIff(s: string)
    ensures Whole(OneThenTwo, Sent(s)) <==> Intact(s)
  {
    if ',' !in s {
      NoCommaWhole(s);
    } else if AlreadyQuoted(s) {
      var end := QuotedParts(s);
      AroundIff(Inner(s), end);
    } else {
      AroundIff(s, "\"");
    }
  }

  /** A quoted cell with a comma: a quote, what is inside, and the closing quote with a newline at most behind it. */
  lemma QuotedParts(s: string) returns (end: string)
    requires AlreadyQuoted(s) && ',' in s
    ensures (end == "\"" || end == "\"\n") && s == ['"'] + Inner(s) + end && ',' in Inner(s)
  {
    end := if QuotedSpan(s) then s[|s| - 1..] else s[|s| - 2..];
    var c :| 0 <= c < |s| && s[c] == ',';
    assert Inner(s)[c - 1] == ',';
  }

  /** What the loader shows of a row that was saved and arrived: every column, its quotes removed. */
  function Shown(line: Line): seq<string> {
    seq(Width(line), k requires 0 <= k < Width(line) => Remove(Lookup(line, k), '"'))
  }

  /**
   * Saving a row and loading it again gives every column back without quotes, missing ones empty, exactly when no
   * cell has a comma and a quote of its own between its outer quotes.
   */
  lemma SaveThenLoadIff(decode: string -> string, line: Line)
    requires IsDecoder(decode) && NoEntities(Columns(line))
    ensures var row := decode(Escape(Join(Printed(line), ',')));
            var cells := MergeRow(OneThenTwo, Split(row, ','));
            cells.Some? && Unquoted(cells.value) == Shown(line)
            <==> AllIntact(Columns(line))
  {
    var cells := Columns(line);
    QuoteAllAt(cells);
    assert Printed(line) == QuoteAll(cells);
    RowArrives(decode, cells);
    RowShownIff(OneThenTwo, SentAll(cells));
    ShownOfSent(line);
    AllWholeIff(cells);
  }

  lemma ShownOfSent(line: Line)
    ensures Unquoted(SentAll(Columns(line))) == Shown(line)
  {
    var cells := Columns(line);
    forall k | 0 <= k < |cells| ensures Unquoted(SentAll(cells))[k] == Shown(line)[k] {
      QuotesOff(cells[k]);
    }
  }

  predicate AllIntact(cells: seq<string>) {
    forall i :: 0 <= i < |cells| ==> Intact(cells[i])
  }

  lemma AllWholeIff(cells: seq<string>)
    ensures AllWhole(OneThenTwo, SentAll(cells)) <==> AllIntact(cells)
  {
    var raws := SentAll(cells);
    if AllWhole(OneThenTwo, raws) {
      forall i | 0 <= i < |cells| ensures Intact(cells[i]) {
        assert Whole(OneThenTwo, raws[i]);
        SentWholeIff(cells[i]);
      }
    }
    if AllIntact(cells) {
      forall i | 0 <= i < |raws| ensures Whole(OneThenTwo, raws[i]) {
        assert Intact(cells[i]);
        SentWholeIff(cells[i]);
      }
    }
  }

  /**
   * On a saved row the loader ends exactly when the pieces of its cells, in the quotes that they have or get, pair
   * up where they have one quote.
   */
  lemma SavedRowEndsIff(decode: string -> string, line: Line)
    requires IsDecoder(decode) && NoEntities(Columns(line))
    ensures var row := decode(Escape(Join(Printed(line), ',')));
            MergeRow(OneThenTwo, Split(row, ',')).Some? <==> PairsUp(CountsOf(SentAll(Columns(line))))
  {
    var cells := Columns(line);
    QuoteAllAt(cells);
    assert Printed(line) == QuoteAll(cells);
    RowArrives(decode, cells);
    CellsEndIff(SentAll(cells));
  }

  /** A saved cell with its comma before its quote keeps the loader going forever, whatever cells follow. */
  lemma LoaderRunsAway(rest: seq<string>)
    ensures !PairsUp(CountsOf(SentAll(["a,b\"c"] + rest)))
  {
    var a, b, cells := "\"a", "b\"c\"", ["a,b\"c"] + rest;
    assert Sent("a,b\"c") == a + [','] + b;
    assert cells[0] == "a,b\"c" && cells[1..] == rest;
    CountsOfTwo(a, b);
    var later := CountsOf(SentAll(rest));
    assert Count(a, '"') == 1 && Count(b, '"') == 2;
    assert QuoteCounts([a]) == [1] && QuoteCounts([b]) == [2];
    assert CountsOf(SentAll(cells)) == [1] + ([2] + later);
    PairsUpFirst(1, [2] + later);
  }

  /** So does one with its quote before its comma at the end of a row. */
  lemma LoaderRunsAwayAtEnd()
    ensures !PairsUp(CountsOf(SentAll(["a\"b,c"])))
  {
    var a, b, cell := "\"a\"b", "c\"", "a\"b,c";
    assert Sent(cell) == a + [','] + b;
    CountsOfTwo(a, b);
    assert Count(a, '"') == 2 && Count(b, '"') == 1;
    assert QuoteCounts([a]) == [2] && QuoteCounts([b]) == [1];
    assert SentAll([cell]) == [Sent(cell)];
    assert CountsOf([Sent(cell)]) == [2] + [1];
    PairsUpFirst(2, [1]);
    PairsUpFirst(1, []);
  }
}
