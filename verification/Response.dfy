/** The read loop of `submit_request` in xCAT-UI/lib/functions.php. */
module Response {
  import opened Text

  /** `\s` */
  predicate IsBlank(c: char) {
    c == ' ' || '\t' <= c <= '\r'
  }

  /** Number of leading blanks. */
  function Lead(s: string): (k: nat)
    ensures k <= |s| && (k < |s| ==> !IsBlank(s[k]))
    ensures forall i :: 0 <= i < k ==> IsBlank(s[i])
  {
    if s == [] || !IsBlank(s[0]) then 0 else Lead(s[1..]) + 1
  }

  /** `s` starts with a newline, blanks and a "<": what `\n\s*<` matches at the front. */
  predicate IsGap(s: string) {
    s != [] && s[0] == '\n' && Lead(s) < |s| && s[Lead(s)] == '<'
  }

  /** `preg_replace('/>\n\s*</', '><', s)`; the "<" of a match cannot begin another one and is copied next. */
  function Normalize(s: string): string
    decreases |s|
  {
    if s == [] then []
    else if s[0] == '>' && IsGap(s[1..]) then [s[0]] + Normalize(s[1 + Lead(s[1..])..])
    else [s[0]] + Normalize(s[1..])
  }

  /** The position behind the last ">", where `/[^>]+$/` begins to match. */
  function TailStart(s: string): (k: nat)
    ensures k <= |s| && (k > 0 ==> s[k - 1] == '>')
    ensures forall i :: k <= i < |s| ==> s[i] != '>'
  {
    if s == [] then 0
    else if s[|s| - 1] == '>' then |s|
    else TailStart(s[..|s| - 1])
  }

  function Concat(chunks: seq<string>): string {
    if chunks == [] then [] else chunks[0] + Concat(chunks[1..])
  }

  lemma {:induction false} ConcatLast(chunks: seq<string>, c: string)
    ensures Concat(chunks + [c]) == Concat(chunks) + c
  {
    if chunks == [] {
      assert chunks + [c] == [c];
    } else {
      ConcatLast(chunks[1..], c);
      assert (chunks + [c])[1..] == chunks[1..] + [c];
    }
  }

  /** PHP takes the empty text and "0" for false. */
  predicate Truthy(chunk: string) {
    chunk != "" && chunk != "0"
  }

  /** The chunks that `if ($str)` lets through. */
  function Kept(chunks: seq<string>): seq<string> {
    if chunks == [] then [] else (if Truthy(chunks[0]) then [chunks[0]] else []) + Kept(chunks[1..])
  }

  function NormalizeEach(chunks: seq<string>): string {
    if chunks == [] then [] else Normalize(chunks[0]) + NormalizeEach(chunks[1..])
  }

  lemma {:induction false} KeptLast(chunks: seq<string>, c: string)
    ensures Kept(chunks + [c]) == Kept(chunks) + if Truthy(c) then [c] else []
  {
    if chunks == [] {
      assert chunks + [c] == [c];
    } else {
      KeptLast(chunks[1..], c);
      assert (chunks + [c])[1..] == chunks[1..] + [c];
    }
  }

  lemma {:induction false} NormalizeEachLast(chunks: seq<string>, c: string)
    ensures NormalizeEach(chunks + [c]) == NormalizeEach(chunks) + Normalize(c)
  {
    if chunks == [] {
      assert chunks + [c] == [c] && Normalize(c) + [] == Normalize(c);
    } else {
      NormalizeEachLast(chunks[1..], c);
      var first, rest, last := Normalize(chunks[0]), NormalizeEach(chunks[1..]), Normalize(c);
      assert (chunks + [c])[0] == chunks[0] && (chunks + [c])[1..] == chunks[1..] + [c];
      assert NormalizeEach(chunks + [c]) == first + (rest + last);
      AppendTwice(first, rest, last);
    }
  }

  /** The two calls with `/[^>]+$/`: what can be printed, and the tail to keep. */
  method CutTail(str: string) returns (piece: string, tail: string)
    ensures piece + tail == str && '>' !in tail
    ensures piece == "" || piece[|piece| - 1] == '>'
  {
    var k := TailStart(str);
    if k < |str| {
      tail := str[k..];
      piece := str[..k];
    } else {
      tail := "";
      piece := str;
    }
  }

  /** One turn of the loop in flush mode: what is printed and kept is what was kept and read. */
  method Flush(pieces0: seq<string>, tail0: string, str: string) returns (pieces: seq<string>, tail: string)
    requires forall k :: 0 <= k < |pieces0| ==> pieces0[k] == "" || pieces0[k][|pieces0[k]| - 1] == '>'
    ensures Concat(pieces) + tail == Concat(pieces0) + tail0 + str && '>' !in tail
    ensures forall k :: 0 <= k < |pieces| ==> pieces[k] == "" || pieces[k][|pieces[k]| - 1] == '>'
  {
    var piece;
    piece, tail := CutTail(tail0 + str);
    ConcatLast(pieces0, piece);
    pieces := pieces0 + [piece];
    var out := Concat(pieces0);
    assert out + piece + tail == out + (piece + tail);
    assert out + (tail0 + str) == out + tail0 + str;
  }

  /**
   * The loop over the chunks that `fread` returns, with the pieces that flush mode cuts off for output and the
   * tail it keeps.
   */
  method ReadResponse(chunks: seq<string>, flush: bool) returns (response: string, pieces: seq<string>, tail: string)
    ensures response == NormalizeEach(Kept(chunks))
    ensures flush ==> Concat(pieces) + tail == Concat(Kept(chunks))
    ensures !flush ==> pieces == [] && tail == ""
    ensures forall i :: 0 <= i < |pieces| ==> pieces[i] == "" || pieces[i][|pieces[i]| - 1] == '>'
    ensures '>' !in tail
  {
    response, pieces, tail := "", [], "";
    for i := 0 to |chunks|
      invariant response == NormalizeEach(Kept(chunks[..i]))
      invariant flush ==> Concat(pieces) + tail == Concat(Kept(chunks[..i]))
      invariant !flush ==> pieces == [] && tail == ""
      invariant forall k :: 0 <= k < |pieces| ==> pieces[k] == "" || pieces[k][|pieces[k]| - 1] == '>'
      invariant '>' !in tail
    {
      var str := chunks[i];
      assert chunks[..i + 1] == chunks[..i] + [str];
      ghost var kept := Kept(chunks[..i]);
      KeptLast(chunks[..i], str);
      if Truthy(str) {
        NormalizeEachLast(kept, str);
        ConcatLast(kept, str);
        response := response + Normalize(str);
        if flush {
          pieces, tail := Flush(pieces, tail, str);
        }
      } else {
        assert kept + [] == kept;
      }
    }
    assert chunks[..|chunks|] == chunks;
  }

  // ----- the same from right to left -----

  /** One character put before a normalised text. */
  function Push(c: char, t: string): string {
    if c == '>' && IsGap(t) then [c] + t[Lead(t)..] else [c] + t
  }

  /** Normalising character by character from the right. */
  function FromRight(s: string): string {
    if s == [] then [] else Push(s[0], FromRight(s[1..]))
  }

  lemma {:induction false} BlanksStay(w: string, x: string)
    requires forall i :: 0 <= i < |w| ==> IsBlank(w[i])
    ensures FromRight(w + x) == w + FromRight(x)
  {
    if w == [] {
      assert w + x == x;
    } else {
      BlanksStay(w[1..], x);
      assert (w + x)[0] == w[0] && (w + x)[1..] == w[1..] + x;
      assert FromRight(w + x) == [w[0]] + FromRight(w[1..] + x);
      AppendTwice([w[0]], w[1..], FromRight(x));
    }
  }

  lemma {:induction false} LeadOfBlanks(w: string, x: string)
    requires forall i :: 0 <= i < |w| ==> IsBlank(w[i])
    ensures Lead(w + x) == |w| + Lead(x)
  {
    if w == [] {
      assert w + x == x;
    } else {
      LeadOfBlanks(w[1..], x);
      assert (w + x)[1..] == w[1..] + x;
    }
  }

  lemma FirstStays(x: string)
    requires x != []
    ensures FromRight(x) != [] && FromRight(x)[0] == x[0]
  {
  }

  /** Leading blanks and the character behind them stay. */
  lemma LeadStays(x: string)
    ensures Lead(FromRight(x)) == Lead(x) && IsGap(FromRight(x)) == IsGap(x)
    ensures FromRight(x)[Lead(x)..] == FromRight(x[Lead(x)..])
  {
    var w, y := x[..Lead(x)], x[Lead(x)..];
    assert x == w + y;
    BlanksStay(w, y);
    LeadOfBlanks(w, FromRight(y));
    if y != [] {
      FirstStays(y);
    }
    if x != [] {
      FirstStays(x);
    }
  }

  /** Both directions remove the same gaps. */
  lemma {:induction false} NormalizeIsFromRight(s: string)
    ensures Normalize(s) == FromRight(s)
    decreases |s|
  {
    if s != [] {
      var tail := s[1..];
      LeadStays(tail);
      if s[0] == '>' && IsGap(tail) {
        assert s[1 + Lead(tail)..] == tail[Lead(tail)..];
        NormalizeIsFromRight(tail[Lead(tail)..]);
      } else {
        NormalizeIsFromRight(tail);
      }
    }
  }

  // ----- what normalising removes -----

  /** White space only. */
  predicate White(w: string) {
    forall i :: 0 <= i < |w| ==> w[i] in " \t\n\U{0b}\U{0c}\r"
  }

  /** A newline and white space stand between the ">" at `i` and the "<" at `j`. */
  predicate GapAt(s: string, i: nat, j: nat) {
    i + 1 < j < |s| && s[i] == '>' && s[i + 1] == '\n' && s[j] == '<' && White(s[i + 2..j])
  }

  /** A newline and any white space between two tags go, wherever they stand. */
  lemma GapRemoved(a: string, w: string, b: string)
    requires White(w)
    ensures Normalize(a + (">\n" + w + "<" + b)) == Normalize(a + ("><" + b))
  {
    var open, gap := ['<'] + b, ['\n'] + w;
    var x, y := ['>'] + (gap + open), ['>'] + open;
    assert ">\n" + w + "<" + b == x && "><" + b == y;
    FirstStays(open);
    BlanksStay(gap, open);
    LeadOfBlanks(gap, FromRight(open));
    assert x[1..] == gap + open && y[1..] == open;
    assert FromRight(x) == FromRight(y);
    SameBack(a, x, y);
    NormalizeIsFromRight(a + x);
    NormalizeIsFromRight(a + y);
  }

  /** Gaps behind the first `n` characters, counted from there or from the start. */
  lemma GapShift(s: string, n: nat, i: nat, j: nat)
    requires n <= |s|
    ensures GapAt(s[n..], i, j) <==> GapAt(s, i + n, j + n)
  {
    if i + 1 < j < |s| - n {
      assert s[n..][i + 2..j] == s[i + n + 2..j + n];
    }
  }

  lemma GapInFront(t: string, j: nat)
    ensures GapAt(['>'] + t, 0, j) <==> IsGap(t) && j == Lead(t) + 1
  {
    var s := ['>'] + t;
    if GapAt(s, 0, j) {
      forall k | 0 <= k < j - 1 ensures IsBlank(t[k]) {
        assert k > 0 ==> t[k] == s[2..j][k - 1];
      }
    }
    if IsGap(t) {
      var blanks := s[2..Lead(t) + 1];
      assert forall k :: 0 <= k < |blanks| ==> blanks[k] == t[k + 1];
    }
  }

  /** One more character in front of a text without gaps. */
  lemma PushLeavesNoGap(c: char, t: string, i: nat, j: nat)
    requires forall k: nat, m: nat :: !GapAt(t, k, m)
    ensures !GapAt(Push(c, t), i, j)
  {
    var r := Push(c, t);
    var n := |t| + 1 - |r|;
    assert r == [c] + t[n..];
    if i > 0 && j > 0 {
      assert r[1..] == t[n..];
      GapShift(r, 1, i - 1, j - 1);
      GapShift(t, n, i - 1, j - 1);
    } else if c == '>' {
      GapInFront(t[n..], j);
    }
  }

  lemma {:induction false} NoGapFromRight(s: string)
    ensures forall i: nat, j: nat :: !GapAt(FromRight(s), i, j)
  {
    if s != [] {
      NoGapFromRight(s[1..]);
      forall i: nat, j: nat ensures !GapAt(FromRight(s), i, j) {
        PushLeavesNoGap(s[0], FromRight(s[1..]), i, j);
      }
    }
  }

  lemma {:induction false} NoGapNoChange(s: string)
    requires forall i: nat, j: nat :: !GapAt(s, i, j)
    ensures Normalize(s) == s
  {
    if s != [] {
      var t := s[1..];
      assert s == [s[0]] + t;
      if s[0] == '>' {
        GapInFront(t, Lead(t) + 1);
      }
      forall i: nat, j: nat ensures !GapAt(t, i, j) {
        GapShift(s, 1, i, j);
      }
      NoGapNoChange(t);
    }
  }

  /** Nothing to remove is left, and only a text with something to remove is changed. */
  lemma NormalIff(s: string)
    ensures forall i: nat, j: nat :: !GapAt(Normalize(s), i, j)
    ensures Normalize(s) == s <==> forall i: nat, j: nat :: !GapAt(s, i, j)
  {
    NormalizeIsFromRight(s);
    NoGapFromRight(s);
    if forall i: nat, j: nat :: !GapAt(s, i, j) {
      NoGapNoChange(s);
    }
  }

  // ----- normalising twice is normalising once -----

  /** Only the normal form of what follows matters. */
  lemma {:induction false} SameBack(a: string, x: string, y: string)
    requires FromRight(x) == FromRight(y)
    ensures FromRight(a + x) == FromRight(a + y)
  {
    if a == [] {
      assert a + x == x && a + y == y;
    } else {
      SameBack(a[1..], x, y);
      assert (a + x)[1..] == a[1..] + x && (a + y)[1..] == a[1..] + y;
    }
  }

  /** A gap that was removed would have been removed later as well. */
  lemma GapCloses(t: string, b: string)
    requires IsGap(t)
    ensures FromRight(Push('>', t) + b) == Push('>', FromRight(t + b))
  {
    var k := Lead(t);
    var w, u := t[..k], t[k..] + b;
    assert t + b == w + u && u[0] == '<';
    BlanksStay(w, u);
    FirstStays(u);
    LeadOfBlanks(w, FromRight(u));
    assert (w + FromRight(u))[0] == '\n' && (w + FromRight(u))[k..] == FromRight(u);
    assert Push('>', t) + b == ['>'] + u;
    assert (['>'] + u)[1..] == u;
  }

  /** Normalising the front first makes no difference. */
  lemma {:induction false} FrontFirst(a: string, b: string)
    ensures FromRight(FromRight(a) + b) == FromRight(a + b)
  {
    if a == [] {
      assert FromRight(a) + b == a + b;
    } else {
      var t := FromRight(a[1..]);
      FrontFirst(a[1..], b);
      assert (a + b)[1..] == a[1..] + b;
      if a[0] == '>' && IsGap(t) {
        GapCloses(t, b);
      } else {
        assert [a[0]] + t + b == [a[0]] + (t + b);
        assert ([a[0]] + (t + b))[1..] == t + b;
      }
    }
  }

  lemma {:induction false} ChunksFromRight(chunks: seq<string>)
    ensures FromRight(NormalizeEach(chunks)) == FromRight(Concat(chunks))
  {
    if chunks != [] {
      var c, rest := chunks[0], chunks[1..];
      NormalizeIsFromRight(c);
      ChunksFromRight(rest);
      FrontFirst(c, NormalizeEach(rest));
      SameBack(c, NormalizeEach(rest), Concat(rest));
    }
  }

  /**
   * Normalising every chunk and then the whole, inside any wrapper, is normalising the whole once, for every way of
   * cutting it into chunks.
   */
  lemma ChunksDoNotMatter(front: string, chunks: seq<string>, back: string)
    ensures Normalize(front + (NormalizeEach(chunks) + back)) == Normalize(front + (Concat(chunks) + back))
  {
    var x, y := NormalizeEach(chunks), Concat(chunks);
    ChunksFromRight(chunks);
    FrontFirst(x, back);
    FrontFirst(y, back);
    SameBack(front, x + back, y + back);
    NormalizeIsFromRight(front + (x + back));
    NormalizeIsFromRight(front + (y + back));
  }

  // ----- chunks that PHP takes for false -----

  /** Characters other than blanks are neither lost nor made up. */
  lemma {:induction false} NormalizeCounts(s: string, c: char)
    requires !IsBlank(c)
    ensures Count(FromRight(s), c) == Count(s, c)
  {
    if s != [] {
      var t := FromRight(s[1..]);
      NormalizeCounts(s[1..], c);
      if s[0] == '>' && IsGap(t) {
        assert t == t[..Lead(t)] + t[Lead(t)..];
        CountAppend(t[..Lead(t)], t[Lead(t)..], c);
        CountZero(t[..Lead(t)], c);
        CountCons(s[0], t[Lead(t)..], c);
      } else {
        CountCons(s[0], t, c);
      }
    }
  }

  lemma CountCons(x: char, t: string, c: char)
    ensures Count([x] + t, c) == (if x == c then 1 else 0) + Count(t, c)
  {
    assert ([x] + t)[1..] == t;
  }

  lemma {:induction false} KeptCounts(chunks: seq<string>)
    ensures Count(Concat(Kept(chunks)), '0') <= Count(Concat(chunks), '0')
    ensures "0" in chunks ==> Count(Concat(Kept(chunks)), '0') < Count(Concat(chunks), '0')
    ensures "0" !in chunks ==> Concat(Kept(chunks)) == Concat(chunks)
  {
    if chunks != [] {
      var c, rest := chunks[0], chunks[1..];
      KeptCounts(rest);
      CountAppend(c, Concat(rest), '0');
      if Truthy(c) {
        assert Kept(chunks)[1..] == Kept(rest);
        CountAppend(c, Concat(Kept(rest)), '0');
      } else {
        assert Kept(chunks) == Kept(rest);
        assert c == "0" ==> Count(c, '0') == 1;
        assert c == "" ==> c + Concat(rest) == Concat(rest);
      }
    }
  }

  /** The final response is the normalised text that was read exactly when no chunk is "0". */
  lemma ResponseIsWholeTextIff(chunks: seq<string>)
    ensures Normalize(NormalizeEach(Kept(chunks))) == Normalize(Concat(chunks)) <==> "0" !in chunks
  {
    ChunksFromRight(Kept(chunks));
    NormalizeIsFromRight(NormalizeEach(Kept(chunks)));
    NormalizeIsFromRight(Concat(chunks));
    KeptCounts(chunks);
    NormalizeCounts(Concat(Kept(chunks)), '0');
    NormalizeCounts(Concat(chunks), '0');
  }

  /** A chunk boundary around the digit of "10" loses it. */
  lemma ZeroIsDropped()
    ensures var chunks := ["<n>1", "0", "</n>"];
            Normalize(NormalizeEach(Kept(chunks))) != Normalize(Concat(chunks))
  {
    var chunks := ["<n>1", "0", "</n>"];
    assert chunks[1] == "0";
    ResponseIsWholeTextIff(chunks);
  }
}
