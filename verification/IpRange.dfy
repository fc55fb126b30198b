/** The IP address arithmetic of discover.js and hmc.js in xCAT-UI/js. */
module IpRange {
  import opened Text
  import opened Decimal

  /** `\d{1,2}|1\d\d|2[0-4]\d|25[0-top]` */
  predicate Octet(s: string, top: char) {
    && AllDigits(s)
    && (|s| == 1 || |s| == 2
        || (|s| == 3 && (s[0] == '1' || (s[0] == '2' && (s[1] <= '4' || (s[1] == '5' && s[2] <= top))))))
  }

  /** The four parts that the expression of `verifyIp` accepts. */
  predicate Address(parts: seq<string>) {
    && |parts| == 4
    && Octet(parts[0], '5') && Octet(parts[1], '5') && Octet(parts[2], '5') && Octet(parts[3], '4')
  }

  /** `verifyIp` */
  predicate VerifyIp(ip: string) {
    Address(Split(ip, '.'))
  }

  lemma {:induction false} ShortValue(s: string)
    requires AllDigits(s)
    ensures |s| == 1 ==> Value(s) == DigitValue(s[0])
    ensures |s| == 2 ==> Value(s) == 10 * DigitValue(s[0]) + DigitValue(s[1])
    ensures |s| == 3 ==> Value(s) == 100 * DigitValue(s[0]) + 10 * DigitValue(s[1]) + DigitValue(s[2])
  {
    if |s| > 0 {
      ShortValue(s[..|s| - 1]);
      if |s| == 1 {
        assert s[..0] == [];
      }
    }
  }

  /**
   * A part is accepted exactly when it is one or two digits, or three that spell a number from 100 to the bound, which
   * is 255 and 254 for the last part.
   */
  lemma OctetBound(s: string, top: char)
    requires '0' <= top <= '5'
    ensures Octet(s, top)
            <==> AllDigits(s) && 1 <= |s| <= 3 && (|s| == 3 ==> 100 <= Value(s) <= 250 + (top as int - '0' as int))
    ensures Octet(s, top) ==> Value(s) <= 250 + (top as int - '0' as int)
  {
    if AllDigits(s) {
      ShortValue(s);
    }
  }

  /** The numeral of every such number is accepted. */
  lemma NumeralIsOctet(n: nat, top: char)
    requires '0' <= top <= '5' && n <= 250 + (top as int - '0' as int)
    ensures Octet(Numeral(n), top)
  {
    if n >= 100 {
      ThreeDigits(n / 100, n / 10 % 10, n % 10, n);
    } else if n >= 10 {
      assert Numeral(n / 10) == [Digit(n / 10)];
    }
  }

  lemma ThreeDigits(h: nat, t: nat, u: nat, n: nat)
    requires 1 <= h < 10 && t < 10 && u < 10 && n == 100 * h + 10 * t + u
    ensures Numeral(n) == [Digit(h), Digit(t), Digit(u)]
  {
    var m := 10 * h + t;
    AppendDigit(m, u, n);
    AppendDigit(h, t, m);
    assert Numeral(m) == [Digit(h)] + [Digit(t)];
    assert [Digit(h)] + [Digit(t)] + [Digit(u)] == [Digit(h), Digit(t), Digit(u)];
  }

  lemma AppendDigit(m: nat, u: nat, n: nat)
    requires m > 0 && u < 10 && n == 10 * m + u
    ensures Numeral(n) == Numeral(m) + [Digit(u)]
  {
    assert n / 10 == m && n % 10 == u;
  }

  // ----- addresses as numbers -----

  datatype Quad = Quad(a: nat, b: nat, c: nat, d: nat)

  predicate Numbers(parts: seq<string>) {
    forall i :: 0 <= i < |parts| ==> AllDigits(parts[i]) && parts[i] != []
  }

  /** Four numbers of any size. */
  predicate FourNumbers(parts: seq<string>) {
    |parts| == 4 && Numbers(parts)
  }

  function QuadOf(parts: seq<string>): Quad
    requires FourNumbers(parts)
  {
    Quad(Value(parts[0]), Value(parts[1]), Value(parts[2]), Value(parts[3]))
  }

  lemma QuadBounds(parts: seq<string>)
    requires Address(parts)
    ensures var q := QuadOf(parts); q.a <= 255 && q.b <= 255 && q.c <= 255 && q.d <= 254
  {
    OctetBound(parts[0], '5');
    OctetBound(parts[1], '5');
    OctetBound(parts[2], '5');
    OctetBound(parts[3], '4');
  }

  /** The 32-bit number of an address. */
  function Decimal32(q: Quad): nat {
    q.a * 0x100_0000 + q.b * 0x1_0000 + q.c * 0x100 + q.d
  }

  /** `ip2Decimal` */
  method Ip2Decimal(ip: string) returns (r: nat)
    ensures r == if VerifyIp(ip) then Decimal32(QuadOf(Split(ip, '.'))) else 0
  {
    if !VerifyIp(ip) {
      return 0;
    }
    var tempArray := Split(ip, '.');
    QuadBounds(tempArray);
    r := ShiftIn(tempArray);
  }

  /** The loop of `ip2Decimal`: shifts wrap at 32 bits; the byte is put into the low bits that the shift cleared. */
  method ShiftIn(tempArray: seq<string>) returns (r: nat)
    requires FourNumbers(tempArray)
    requires var q := QuadOf(tempArray); q.a <= 255 && q.b <= 255 && q.c <= 255 && q.d <= 255
    ensures r == Decimal32(QuadOf(tempArray))
  {
    r := 0;
    ghost var q := QuadOf(tempArray);
    for i := 0 to 4
      invariant r == Shifted(q, i)
    {
      ShiftFits(q, i);
      r := (r * 0x100) % 0x1_0000_0000 + Value(tempArray[i]);
    }
  }

  /** The number after the first `i` octets were shifted in. */
  function Shifted(q: Quad, i: nat): nat {
    if i == 0 then 0
    else if i == 1 then q.a
    else if i == 2 then q.a * 0x100 + q.b
    else if i == 3 then q.a * 0x1_0000 + q.b * 0x100 + q.c
    else Decimal32(q)
  }

  lemma ShiftFits(q: Quad, i: nat)
    requires q.a <= 255 && q.b <= 255 && q.c <= 255 && i < 4
    ensures Shifted(q, i) * 0x100 < 0x1_0000_0000
    ensures Shifted(q, i + 1)
            == Shifted(q, i) * 0x100 + if i == 0 then q.a else if i == 1 then q.b else if i == 2 then q.c else q.d
  {
  }

  // ----- the end of a range -----

  /** Whether the sum runs over into the first octet, where the script appends digits instead of adding. */
  predicate CarriesOver(q: Quad, num: nat) {
    q.d + num > 254 && q.c + (q.d + num) / 254 > 255 && q.b + (q.c + (q.d + num) / 254) / 255 > 255
  }

  /** The position of an address in the enumeration the script counts in. */
  function Position(q: Quad): nat {
    q.d + 254 * q.c + 254 * 255 * q.b + 254 * 255 * 255 * q.a
  }

  /** The values of the parts that `calcEndIp` computes. */
  function EndQuad(q: Quad, first: nat, num: nat): Quad {
    var sum3 := q.d + num;
    var sum2 := q.c + sum3 / 254;
    var sum1 := q.b + sum2 / 255;
    if sum3 <= 254 then Quad(q.a, q.b, q.c, sum3)
    else if sum2 <= 255 then Quad(q.a, q.b, sum2, sum3 % 254)
    else if sum1 <= 255 then Quad(q.a, sum1, sum2 % 255, sum3 % 254)
    else Quad(first, sum1 % 255, sum2 % 255, sum3 % 254)
  }

  /** The number of carries into the first octet. */
  function Overflow(q: Quad, num: nat): nat {
    (q.b + (q.c + (q.d + num) / 254) / 255) / 255
  }

  /**
   * The four parts after `num` addresses: base 254 in the last octet, base 255 in the two before it. Parts that
   * are not reached keep their text; a carry into the first octet is appended to its text.
   */
  function EndParts(parts: seq<string>, num: nat): seq<string>
    requires FourNumbers(parts)
  {
    var q := QuadOf(parts);
    var e := EndQuad(q, 0, num);
    [if CarriesOver(q, num) then parts[0] + Numeral(Overflow(q, num)) else parts[0],
     if Reaches(q, num) < 2 then parts[1] else Numeral(e.b),
     if Reaches(q, num) < 1 then parts[2] else Numeral(e.c),
     Numeral(e.d)]
  }

  /** How many octets the sum carries into. */
  function Reaches(q: Quad, num: nat): nat {
    if q.d + num <= 254 then 0 else if q.c + (q.d + num) / 254 <= 255 then 1 else 2
  }

  /** The updates of `calcEndIp` on the four parts. */
  method AddToParts(start: seq<string>, num: nat) returns (ipArray: seq<string>)
    requires FourNumbers(start)
    ensures ipArray == EndParts(start, num)
  {
    ipArray := start;
    var sum := Value(ipArray[3]) + num;
    if sum <= 254 {
      ipArray := ipArray[3 := Numeral(sum)];
      ReachesNone(start, num, sum);
      return;
    }
    ghost var sum3 := sum;
    ipArray := ipArray[3 := Numeral(sum % 254)];
    sum := Value(ipArray[2]) + sum / 254;
    if sum <= 255 {
      ipArray := ipArray[2 := Numeral(sum)];
      ReachesThird(start, num, sum3, sum);
      return;
    }
    ghost var sum2 := sum;
    ipArray := ipArray[2 := Numeral(sum % 255)];
    sum := Value(ipArray[1]) + sum / 255;
    ReachesSecond(start, num, sum3, sum2, sum);
    ipArray := AddToFirstTwo(ipArray, sum);
  }

  /** The last two updates, with the sum for the second part. */
  method AddToFirstTwo(parts: seq<string>, sum: nat) returns (ipArray: seq<string>)
    requires |parts| == 4
    ensures ipArray == if sum <= 255 then [parts[0], Numeral(sum), parts[2], parts[3]]
                       else [parts[0] + Numeral(sum / 255), Numeral(sum % 255), parts[2], parts[3]]
  {
    ipArray := parts;
    if sum <= 255 {
      ipArray := ipArray[1 := Numeral(sum)];
      return;
    }
    ipArray := ipArray[1 := Numeral(sum % 255)];
    ipArray := ipArray[0 := ipArray[0] + Numeral(sum / 255)];
  }

  /** Length of the leading run of digits. */
  function DigitRun(s: string): (k: nat)
    ensures k <= |s| && AllDigits(s[..k])
  {
    if s == [] || !IsDigit(s[0]) then 0
    else
      var k := DigitRun(s[1..]);
      assert s[..k + 1] == [s[0]] + s[1..][..k];
      k + 1
  }

  /** `n` numbers with dots between them at the front of `s`. */
  function NumbersAt(s: string, n: nat): (parts: Option<seq<string>>)
    decreases n
  {
    if n == 0 then Some([]) else
      var k := DigitRun(s);
      if k == 0 then None
      else if n == 1 then Some([s[..k]])
      else if k == |s| || s[k] != '.' then None
      else
        match NumbersAt(s[k + 1..], n - 1)
        case None => None
        case Some(rest) => Some([s[..k]] + rest)
  }

  /** `/(\d+)\.(\d+)\.(\d+)\.(\d+)/`: the leftmost four numbers in a text, `None` for `null`. */
  function FindNumbers(s: string): (parts: Option<seq<string>>)
    ensures parts.Some? ==> FourNumbers(parts.value)
  {
    if NumbersAt(s, 4).Some? then NumbersAt(s, 4) else if s == [] then None else FindNumbers(s[1..])
  }

  /** `calcEndIp`; `None` stands for the exception on a text in which there are no four numbers. */
  method CalcEndIp(ipStart: string, num: nat) returns (end: Option<string>)
    ensures end == match FindNumbers(ipStart)
                   case None => None
                   case Some(parts) => Some(Join(EndParts(parts, num), '.'))
  {
    var found := FindNumbers(ipStart);
    if found.None? {
      return None;
    }
    var ipArray := AddToParts(found.value, num);
    return Some(Join(ipArray, '.'));
  }

  lemma {:induction false} DigitRunOf(p: string, rest: string)
    requires AllDigits(p) && (rest == [] || !IsDigit(rest[0]))
    ensures DigitRun(p + rest) == |p|
  {
    if p == [] {
      assert p + rest == rest;
    } else {
      assert (p + rest)[0] == p[0] && (p + rest)[1..] == p[1..] + rest;
      DigitRunOf(p[1..], rest);
    }
  }

  lemma NumberThenDot(p: string, rest: string, parts: seq<string>)
    requires AllDigits(p) && p != [] && parts != [] && NumbersAt(rest, |parts|) == Some(parts)
    ensures NumbersAt(p + ['.'] + rest, |parts| + 1) == Some([p] + parts)
  {
    var s := p + ['.'] + rest;
    DigitRunOf(p, ['.'] + rest);
    assert s == p + (['.'] + rest);
    assert s[..|p|] == p && s[|p|] == '.' && s[|p| + 1..] == rest;
  }

  lemma LastNumber(p: string, after: string)
    requires AllDigits(p) && p != [] && (after == "" || !IsDigit(after[0]))
    ensures NumbersAt(p + after, 1) == Some([p])
  {
    DigitRunOf(p, after);
    assert (p + after)[..|p|] == p;
  }

  lemma JoinBefore(p: string, rest: seq<string>, after: string)
    requires rest != []
    ensures Join([p] + rest, '.') + after == p + ['.'] + (Join(rest, '.') + after)
  {
    assert ([p] + rest)[1..] == rest;
    AppendTwice(p + ['.'], Join(rest, '.'), after);
  }

  /** Numbers joined by dots are found one by one, whatever follows them that is no digit. */
  lemma {:induction false} NumbersOfJoin(parts: seq<string>, after: string)
    requires parts != [] && Numbers(parts) && (after == "" || !IsDigit(after[0]))
    ensures NumbersAt(Join(parts, '.') + after, |parts|) == Some(parts)
    decreases |parts|
  {
    var p, rest := parts[0], parts[1..];
    assert parts == [p] + rest && AllDigits(p) && p != [];
    if rest == [] {
      LastNumber(p, after);
      assert parts == [p] && Join(parts, '.') == p;
    } else {
      assert |parts| == |rest| + 1;
      NumbersOfJoin(rest, after);
      NumberThenDot(p, Join(rest, '.') + after, rest);
      JoinBefore(p, rest, after);
    }
  }

  /** Four numbers with dots between them are found behind anything without digits and before anything but a digit. */
  lemma {:induction false} FindsFourNumbers(before: string, parts: seq<string>, after: string)
    requires FourNumbers(parts)
    requires (forall i :: 0 <= i < |before| ==> !IsDigit(before[i])) && (after == "" || !IsDigit(after[0]))
    ensures FindNumbers(before + (Join(parts, '.') + after)) == Some(parts)
  {
    var rest := Join(parts, '.') + after;
    if before == [] {
      assert before + rest == rest;
      NumbersOfJoin(parts, after);
    } else {
      FindsFourNumbers(before[1..], parts, after);
      assert (before + rest)[0] == before[0] && (before + rest)[1..] == before[1..] + rest;
    }
  }

  lemma AddressFound(ip: string)
    requires FourNumbers(Split(ip, '.'))
    ensures FindNumbers(ip) == Some(Split(ip, '.'))
  {
    FindsFourNumbers("", Split(ip, '.'), "");
    JoinSplit(ip, '.');
    assert "" + (ip + "") == ip;
  }

  lemma ReachesNone(parts: seq<string>, num: nat, sum: nat)
    requires FourNumbers(parts) && sum == Value(parts[3]) + num && sum <= 254
    ensures EndParts(parts, num) == parts[3 := Numeral(sum)]
  {
  }

  lemma ReachesThird(parts: seq<string>, num: nat, sum3: nat, sum2: nat)
    requires FourNumbers(parts) && sum3 == Value(parts[3]) + num && sum3 > 254
    requires sum2 == Value(parts[2]) + sum3 / 254 && sum2 <= 255
    ensures EndParts(parts, num) == parts[3 := Numeral(sum3 % 254)][2 := Numeral(sum2)]
  {
  }

  lemma ReachesSecond(parts: seq<string>, num: nat, sum3: nat, sum2: nat, sum1: nat)
    requires FourNumbers(parts) && sum3 == Value(parts[3]) + num && sum3 > 254
    requires sum2 == Value(parts[2]) + sum3 / 254 && sum2 > 255
    requires sum1 == Value(parts[1]) + sum2 / 255
    ensures EndParts(parts, num)
            == if sum1 <= 255 then [parts[0], Numeral(sum1), Numeral(sum2 % 255), Numeral(sum3 % 254)]
               else [parts[0] + Numeral(sum1 / 255), Numeral(sum1 % 255), Numeral(sum2 % 255), Numeral(sum3 % 254)]
  {
    var q := QuadOf(parts);
    assert CarriesOver(q, num) <==> sum1 > 255;
    assert Reaches(q, num) == 2 && Overflow(q, num) == sum1 / 255;
    assert EndQuad(q, 0, num)
           == if sum1 <= 255 then Quad(q.a, sum1, sum2 % 255, sum3 % 254)
              else Quad(0, sum1 % 255, sum2 % 255, sum3 % 254);
  }

  lemma EndPartsValues(parts: seq<string>, num: nat)
    requires FourNumbers(parts)
    ensures var q, end := QuadOf(parts), EndParts(parts, num);
            && |end| == 4 && (forall i :: 0 <= i < 4 ==> AllDigits(end[i]))
            && Quad(Value(end[0]), Value(end[1]), Value(end[2]), Value(end[3])) == EndQuad(q, Value(end[0]), num)
  {
    var q := QuadOf(parts);
    var e := EndQuad(q, 0, num);
    var end := EndParts(parts, num);
    ValueOfNumeral(e.b);
    ValueOfNumeral(e.c);
    ValueOfNumeral(e.d);
    assert AllDigits(end[0]) && AllDigits(end[1]) && AllDigits(end[2]) && AllDigits(end[3]);
    UnreachedOctets(q, num);
  }

  lemma UnreachedOctets(q: Quad, num: nat)
    ensures var e := EndQuad(q, 0, num);
            && (Reaches(q, num) < 2 ==> e.b == q.b && !CarriesOver(q, num))
            && (Reaches(q, num) < 1 ==> e.c == q.c)
            && (!CarriesOver(q, num) ==> e.a == q.a)
            && forall first :: EndQuad(q, first, num) == if CarriesOver(q, num) then e.(a := first) else e
  {
  }

  /** Below the first octet every computed part is accepted by `verifyIp`. */
  lemma EndPartsAccepted(parts: seq<string>, num: nat)
    requires Address(parts)
    ensures Address(EndParts(parts, num)) <==> Octet(EndParts(parts, num)[0], '5')
  {
    var q := QuadOf(parts);
    var e := EndQuad(q, 0, num);
    QuadBounds(parts);
    NumeralIsOctet(e.b, '5');
    NumeralIsOctet(e.c, '5');
    NumeralIsOctet(e.d, '4');
  }

  /** Without a carry the script's enumeration advances by exactly `num`. */
  lemma AdvancesByNum(q: Quad, num: nat)
    requires !CarriesOver(q, num)
    ensures Position(EndQuad(q, q.a, num)) == Position(q) + num
  {
  }

  /** With a carry it advances by `num` exactly when the first octet grew by the number of carries. */
  lemma AdvancesWithCarry(q: Quad, first: nat, num: nat)
    requires CarriesOver(q, num)
    ensures Position(EndQuad(q, first, num)) == Position(q) + num <==> first == q.a + Overflow(q, num)
  {
  }

  lemma {:induction false} ValueOfConcat(s: string, t: string)
    requires AllDigits(s) && AllDigits(t)
    ensures AllDigits(s + t) && Value(s + t) >= Value(s) + Value(t)
    ensures t != [] ==> Value(s + t) >= 10 * Value(s) + Value(t)
    ensures Value(s) == 0 ==> Value(s + t) == Value(t)
    decreases |t|
  {
    if t == [] {
      assert s + t == s;
    } else {
      var u := t[..|t| - 1];
      ValueOfConcat(s, u);
      var whole := s + t;
      assert whole[..|whole| - 1] == s + u && whole[|whole| - 1] == t[|t| - 1];
    }
  }

  /**
   * The end address is `num` positions after the start exactly when no carry reaches the first octet or the
   * first octet is 0; without a carry, the end of an accepted address is accepted by `verifyIp`.
   */
  lemma EndIsNumLater(parts: seq<string>, num: nat)
    requires FourNumbers(parts)
    ensures var q, end := QuadOf(parts), EndParts(parts, num);
            && |end| == 4 && (forall i :: 0 <= i < 4 ==> AllDigits(end[i]))
            && (Position(Quad(Value(end[0]), Value(end[1]), Value(end[2]), Value(end[3]))) == Position(q) + num
                <==> !CarriesOver(q, num) || q.a == 0)
            && (Address(parts) && !CarriesOver(q, num) ==> Address(end))
  {
    var q := QuadOf(parts);
    EndPartsValues(parts, num);
    if Address(parts) {
      EndPartsAccepted(parts, num);
    }
    if CarriesOver(q, num) {
      var carry := Overflow(q, num);
      ValueOfConcat(parts[0], Numeral(carry));
      ValueOfNumeral(carry);
      AdvancesWithCarry(q, Value(parts[0] + Numeral(carry)), num);
    } else {
      AdvancesByNum(q, num);
    }
  }

  /** One address after 1.255.255.254: the carry is appended to the first octet, which becomes 11. */
  lemma CarryIsAppended()
    ensures EndParts(["1", "255", "255", "254"], 1) == ["11", "1", "1", "1"]
  {
    var parts := ["1", "255", "255", "254"];
    ShortValue(parts[0]);
    ShortValue(parts[1]);
    ShortValue(parts[3]);
    ReachesSecond(parts, 1, 255, 256, 256);
    assert Numeral(1) == "1" && "1" + "1" == "11";
  }

  lemma SpanBelowCarry(q: Quad, num: nat)
    requires !CarriesOver(q, num) && q.b <= 255 && q.c <= 255
    ensures Decimal32(EndQuad(q, q.a, num)) >= Decimal32(q) + num
  {
  }

  lemma SpanWithCarry(q: Quad, first: nat, num: nat)
    requires CarriesOver(q, num) && q.b <= 255 && q.c <= 255 && first >= q.a + Overflow(q, num)
    ensures Decimal32(EndQuad(q, first, num)) >= Decimal32(q) + num
  {
  }

  /** Every accepted end address leaves room for at least `num` addresses after the start, carry or not. */
  lemma RangeFits(parts: seq<string>, num: nat)
    requires Address(parts) && Address(EndParts(parts, num))
    ensures Decimal32(QuadOf(EndParts(parts, num))) >= Decimal32(QuadOf(parts)) + num
  {
    var q, end := QuadOf(parts), EndParts(parts, num);
    QuadBounds(parts);
    EndPartsValues(parts, num);
    if CarriesOver(q, num) {
      ValueOfConcat(parts[0], Numeral(Overflow(q, num)));
      ValueOfNumeral(Overflow(q, num));
      SpanWithCarry(q, Value(end[0]), num);
    } else {
      SpanBelowCarry(q, num);
    }
  }

  function QuadAt(ip: string): Quad
    requires VerifyIp(ip)
  {
    QuadOf(Split(ip, '.'))
  }

  /** The computed end of a range is accepted unless it carries over, and leaves the room when it is accepted. */
  lemma EndLeavesRoom(start: seq<string>, num: nat, end: string)
    requires Address(start) && end == Join(EndParts(start, num), '.')
    ensures !CarriesOver(QuadOf(start), num) ==> VerifyIp(end)
    ensures VerifyIp(end) ==> Decimal32(QuadOf(Split(end, '.'))) >= Decimal32(QuadOf(start)) + num
  {
    EndIsNumLater(start, num);
    SplitJoin(EndParts(start, num), '.');
    if VerifyIp(end) {
      RangeFits(start, num);
    }
  }

  /** Without a carry the end is exactly `num` positions after the start, and otherwise only from 0.x.x.x. */
  lemma EndPosition(start: seq<string>, num: nat, end: string)
    requires Address(start) && end == Join(EndParts(start, num), '.') && VerifyIp(end)
    ensures Position(QuadOf(Split(end, '.'))) == Position(QuadOf(start)) + num
            <==> !CarriesOver(QuadOf(start), num) || QuadOf(start).a == 0
  {
    var e := EndParts(start, num);
    EndIsNumLater(start, num);
    SplitJoin(e, '.');
    assert Split(end, '.') == e;
    assert QuadOf(e) == Quad(Value(e[0]), Value(e[1]), Value(e[2]), Value(e[3]));
  }

  /** The computed end of a range, or the empty text when the start or the end is not a valid address. */
  function RangeEnd(start: string, num: nat): string {
    if !VerifyIp(start) then "" else
      var end := Join(EndParts(Split(start, '.'), num), '.');
      if VerifyIp(end) then end else ""
  }

  /**
   * An end that is not empty is valid and leaves room for `num` addresses, and is exactly `num` positions after the
   * start if no carry reaches the first octet or that is 0. Without such a carry the end of a valid start is not empty.
   */
  lemma RangeEndHasRoom(start: string, num: nat)
    ensures var end := RangeEnd(start, num);
            && (VerifyIp(start) && !CarriesOver(QuadAt(start), num) ==> end != "")
            && (end != "" ==>
                  && VerifyIp(start) && VerifyIp(end)
                  && Decimal32(QuadAt(end)) >= Decimal32(QuadAt(start)) + num
                  && (Position(QuadAt(end)) == Position(QuadAt(start)) + num
                      <==> !CarriesOver(QuadAt(start), num) || QuadAt(start).a == 0))
  {
    assert !VerifyIp("") by {
      assert Split("", '.') == [[]];
    }
    if VerifyIp(start) {
      var end := Join(EndParts(Split(start, '.'), num), '.');
      EndLeavesRoom(Split(start, '.'), num, end);
      if VerifyIp(end) {
        EndPosition(Split(start, '.'), num, end);
      }
    }
  }

  /** Room is needed for four addresses for every frame and CEC and for one for every lpar and HMC. */
  function AddressesFor(frames: nat, cecs: nat, lpars: nat, hmcs: nat): (num: nat)
    ensures num == 4 * (frames + cecs) + (lpars + hmcs)
  {
    frames * 4 + cecs * 4 + lpars + hmcs
  }

  /** The change handler of the start address in `powerInitSiteTable`. */
  method DynamicRangeEnd(ipStart: string, frames: nat, cecs: nat, lpars: nat, hmcs: nat) returns (ipEnd: string)
    ensures ipEnd == RangeEnd(ipStart, AddressesFor(frames, cecs, lpars, hmcs))
  {
    if !VerifyIp(ipStart) {
      return "";
    }
    var tempNum := AddressesFor(frames, cecs, lpars, hmcs);
    AddressFound(ipStart);
    var end := CalcEndIp(ipStart, tempNum);
    return if VerifyIp(end.value) then end.value else "";
  }
}
