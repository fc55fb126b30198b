/** The backward block reader of xCAT-probe/scripts/dbstats.py, over any line scanner. */
module LogReader {
  import opened Text
  import opened Streams

  const BUF_SIZE: nat := 8192

  // ----- the block reader -----

  /** The text that the next older block runs into. */
  function Carried(remain: Option<string>): string {
    if remain.Some? then remain.value else ""
  }

  /** The lines, oldest first, that a reader at `pos` with carried text `carry` still has in unread blocks. */
  function Unread(content: string, pos: nat, carry: string, block: nat): (lines: seq<string>)
    requires pos <= |content| && block > 0
  {
    if pos == 0 then []
    else
      var lines := Split(content[..pos] + carry, '\n');
      if pos % block == 0 then lines[1..] else lines
  }

  /**
   * All lines that a run delivers, oldest first: every line of the file, except that the first line
   * is withheld when the length is a multiple of the block size.
   */
  function Delivered(content: string, block: nat): seq<string>
    requires block > 0
  {
    var lines := Split(content, '\n');
    if |content| % block == 0 then lines[1..] else lines
  }

  lemma DeliveredFromTheEnd(content: string, block: nat)
    requires block > 0
    ensures Unread(content, |content|, "", block) == Delivered(content, block)
  {
    assert content[..|content|] + "" == content;
  }

  /** Only the first line of a text grows when older text is put before it. */
  lemma FirstLineCarried(older: string, buf: string)
    ensures var lines := Split(buf, '\n');
            Split(older + buf, '\n') == Split(older + lines[0], '\n') + lines[1..]
  {
    var lines := Split(buf, '\n');
    SplitAppend(older, buf, '\n');
    SplitPieces(buf, '\n');
    SplitWhole(lines[0], '\n');
    SplitAppend(older, lines[0], '\n');
    GlueFirst(Split(older, '\n'), lines);
  }

  /** A full block, its first line carried, and the older text together make up what was unread. */
  lemma FullBlock(content: string, pos: nat, carry: string, block: nat)
    requires 0 < block <= pos <= |content|
    ensures var lines := Split(content[pos - block..pos] + carry, '\n');
            Unread(content, pos, carry, block) == Unread(content, pos - block, lines[0], block) + lines[1..]
  {
    var buf := content[pos - block..pos] + carry;
    var lines := Split(buf, '\n');
    var older := content[..pos - block];
    assert content[..pos] + carry == older + buf;
    FirstLineCarried(older, buf);
    SameRemainder(pos, block);
    if pos == block {
      assert older + buf == buf;
    }
  }

  lemma SameRemainder(pos: nat, block: nat)
    requires 0 < block <= pos
    ensures (pos - block) % block == pos % block
  {
    assert pos == block * (pos / block) + pos % block;
    assert pos - block == block * (pos / block - 1) + pos % block;
    RemainderUnique(pos - block, pos / block - 1, pos % block, block);
  }

  lemma RemainderUnique(n: nat, q: int, r: nat, block: nat)
    requires n == block * q + r && r < block
    ensures n % block == r
  {
    var d := q - n / block;
    assert block * d == n % block - r;
    assert d >= 1 ==> block * d >= block;
    assert d <= -1 ==> block * d <= 0 - block;
  }

  /** What one block read does to the lines still to come: the two cases of `_read`. */
  lemma NextBlock(content: string, pos: nat, carry: string, block: nat)
    requires 0 < pos <= |content| && block > 0
    ensures var size := if pos >= block then block else pos;
            var lines := Split(content[pos - size..pos] + carry, '\n');
            Unread(content, pos, carry, block)
              == if size == block then Unread(content, pos - size, lines[0], block) + lines[1..] else lines
  {
    if pos >= block {
      FullBlock(content, pos, carry, block);
    } else {
      assert content[0..pos] == content[..pos];
    }
  }

  // ----- scanning lines -----

  /** What a scanner makes of one line: carry on, hand out an item, or raise an exception. */
  datatype Scanned<S, T> = Keep(state: S) | Emit(item: T, state: S) | Raise(error: Error)

  type Step<!S, T> = (S, string) -> Scanned<S, T>

  /** The items in `lines`, found from the last line to the first starting in `state`. */
  function Scan<S, T>(step: Step<S, T>, lines: seq<string>, state: S): Stream<T>
    decreases |lines|
  {
    if lines == [] then End else
      var older := lines[..|lines| - 1];
      match step(state, lines[|lines| - 1])
      case Keep(state') => Scan(step, older, state')
      case Emit(x, state') => More(x, Scan(step, older, state'))
      case Raise(e) => Fail(e)
  }

  /** The state after scanning `lines` down to position `k`, if that hands out nothing and raises nothing. */
  function Quiet<S, T>(step: Step<S, T>, lines: seq<string>, k: nat, start: S): Option<S>
    requires k <= |lines|
    decreases |lines| - k
  {
    if k == |lines| then Some(start) else
      match Quiet(step, lines, k + 1, start)
      case None => None
      case Some(state) =>
        var next := step(state, lines[k]);
        if next.Keep? then Some(next.state) else None
  }

  /** After a quiet scan down to `k`, what is left is the scan of the lines before `k`. */
  lemma {:induction false} QuietScan<S, T>(step: Step<S, T>, older: seq<string>, lines: seq<string>, k: nat, start: S)
    requires k <= |lines| && Quiet(step, lines, k, start).Some?
    ensures Scan(step, older + lines, start) == Scan(step, older + lines[..k], Quiet(step, lines, k, start).value)
    decreases |lines| - k
  {
    if k == |lines| {
      assert lines[..k] == lines;
    } else {
      QuietScan(step, older, lines, k + 1, start);
      ScanLast(step, older + lines[..k], lines[k], Quiet(step, lines, k + 1, start).value);
      assert older + lines[..k + 1] == older + lines[..k] + [lines[k]];
    }
  }

  /** `Scan` with the last line unfolded. */
  lemma ScanLast<S, T>(step: Step<S, T>, older: seq<string>, line: string, state: S)
    ensures var next := step(state, line);
            Scan(step, older + [line], state)
            == if next.Keep? then Scan(step, older, next.state)
               else if next.Emit? then More(next.item, Scan(step, older, next.state))
               else Fail(next.error)
  {
    assert (older + [line])[..|older|] == older;
  }

  /** A scan that was quiet down to `k` and then meets line `k - 1`. */
  lemma Interrupted<S, T>(step: Step<S, T>, older: seq<string>, lines: seq<string>, k: nat, start: S, state: S)
    requires 0 < k <= |lines| && Quiet(step, lines, k, start) == Some(state)
    ensures var next := step(state, lines[k - 1]);
            var whole := Scan(step, older + lines, start);
            && (next.Emit? ==> whole == More(next.item, Scan(step, older + lines[0..k - 1], next.state)))
            && (next.Raise? ==> whole == Fail(next.error))
  {
    QuietScan(step, older, lines, k, start);
    ScanLast(step, older + lines[0..k - 1], lines[k - 1], state);
    assert older + lines[..k] == older + lines[0..k - 1] + [lines[k - 1]];
  }

  /**
   * `Reader` together with the `_get_next` of its subclass. The subclass is given by `step`, what its
   * loop body does with one line, and `state`, the half-built record it keeps between calls.
   */
  class Reader<S, T> {
    const content: string
    const block: nat
    const step: Step<S, T>
    var fPos: nat
    var bufList: seq<string>
    var remain: Option<string>
    var state: S
    ghost var atBlock: S  // the state in which the scan of `bufList` began
    ghost var rest: Stream<T>  // everything this reader will still return

    ghost predicate InFile()
      reads `fPos
    {
      block > 0 && fPos <= |content|
    }

    ghost predicate Valid()
      reads this
    {
      InFile() && rest == Scan(step, Older() + bufList, state)
    }

    /** The lines in blocks not yet read, oldest first. */
    ghost function Older(): seq<string>
      requires InFile()
      reads `fPos, `remain
    {
      Unread(content, fPos, Carried(remain), block)
    }

    constructor (content: string, block: nat, step: Step<S, T>, state: S)
      requires block > 0
      ensures Valid()
      ensures this.content == content && this.block == block && this.step == step
      ensures rest == Scan(step, Delivered(content, block), state)
    {
      this.content, this.block, this.step, this.state := content, block, step, state;
      fPos, bufList, remain := |content|, [], None;
      atBlock := state;
      rest := Scan(step, Delivered(content, block), state);
      new;
      DeliveredFromTheEnd(content, block);
      assert Older() + bufList == Delivered(content, block);
    }

    /** `_read`: loads the next older block into `bufList`; false at the start of the file, where nothing changes. */
    method ReadBlock() returns (more: bool)
      requires InFile()
      modifies `fPos, `bufList, `remain
      ensures InFile()
      ensures more <==> old(fPos) > 0
      ensures !more ==> fPos == old(fPos) && bufList == old(bufList) && remain == old(remain)
      ensures more ==> fPos < old(fPos) && Older() + bufList == old(Older())
    {
      if fPos == 0 {
        return false;
      }
      var size := if fPos >= block then block else fPos;
      var buf := content[fPos - size..fPos];
      if remain.Some? {
        buf := buf + remain.value;
      }
      assert buf == content[fPos - size..fPos] + Carried(remain);
      bufList := Split(buf, '\n');
      NextBlock(content, fPos, Carried(remain), block);
      if size == block {
        remain := Some(bufList[0]);
        bufList := bufList[1..];
      } else {
        remain := None;
      }
      fPos := fPos - size;
      return true;
    }

    /** `_get_next`: scans the loaded block from its end and cuts off what an item used up. */
    method ScanBlock() returns (f: Fetch<T>)
      requires InFile()
      modifies `bufList, `state
      ensures var todo := Scan(step, Older() + old(bufList), old(state));
              && (f.Got? ==> todo == More(f.value, Scan(step, Older() + bufList, state)))
              && (f.Nothing? ==> bufList == old(bufList) && todo == Scan(step, Older(), state))
              && (f.Raised? ==> todo == Fail(f.error))
      ensures f.Nothing? ==> Scan(step, bufList, old(state)) == End
    {
      ghost var start, older, own := state, Older(), bufList;
      for i := 0 to |bufList|
        invariant bufList == own
        invariant Quiet(step, own, |own| - i, start) == Some(state)
      {
        ghost var k, here := |own| - i, state;
        var b := bufList[|bufList| - 1 - i];
        match step(state, b) {
          case Keep(s) =>
            state := s;
          case Emit(x, s) =>
            state := s;
            bufList := bufList[0..|bufList| - i - 1];
            Interrupted(step, older, own, k, start, here);
            return Got(x);
          case Raise(e) =>
            Interrupted(step, older, own, k, start, here);
            return Raised(e);
        }
      }
      QuietScan(step, older, own, 0, start);
      QuietScan(step, [], own, 0, start);
      assert older + own[..0] == older && [] + own == own && [] + own[..0] == [];
      return Nothing;
    }

    /** `f` is what a scan of the loaded block, entered in state `atBlock`, made of `todo`. */
    ghost predicate Outcome(f: Fetch<T>, todo: Stream<T>)
      requires InFile()
      reads this
    {
      match f
      case Got(x) => todo == More(x, Scan(step, Older() + bufList, state))
      case Nothing => todo == Scan(step, Older(), state) && Scan(step, bufList, atBlock) == End
      case Raised(e) => todo == Fail(e)
    }

    /** One turn of the loop of `get_next`. */
    method ScanNextBlock() returns (more: bool, f: Fetch<T>)
      requires InFile()
      modifies `fPos, `bufList, `remain, `state, `atBlock
      ensures InFile() && (more <==> old(fPos) > 0)
      ensures !more ==> fPos == old(fPos) && bufList == old(bufList) && remain == old(remain)
                        && state == old(state) && atBlock == old(atBlock)
      ensures more ==> fPos < old(fPos) && Outcome(f, old(Scan(step, Older(), state)))
    {
      more := ReadBlock();
      if !more {
        return false, Nothing;
      }
      atBlock := state;
      f := ScanBlock();
    }

    /**
     * `get_next`: the next item of the file, newest first. At the end the last block stays loaded, so another
     * call scans it again; that scan finds nothing if it starts in the state in which the block was entered.
     */
    method GetNext() returns (f: Fetch<T>)
      requires Valid()
      modifies this
      ensures Valid()
      ensures f == First(old(rest))
      ensures f.Got? ==> rest == old(rest).tail
      ensures f.Nothing? ==> Scan(step, Older() + bufList, atBlock) == End
    {
      atBlock := state;
      f := ScanBlock();
      while f.Nothing?
        invariant InFile() && rest == old(rest) && Outcome(f, rest)
        decreases f.Nothing?, fPos
      {
        var more, found := ScanNextBlock();
        if !more {
          assert Older() == [] && Older() + bufList == bufList;
          rest := Scan(step, bufList, state);
          return Nothing;
        }
        f := found;
      }
      rest := Scan(step, Older() + bufList, state);
    }
  }
}
