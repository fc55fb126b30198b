/**
 * The hex codec of xCAT-UI/js/help/help.js on the code units of JavaScript strings, and its way through a table row
 * that is cut at plain commas, whatever commas and quotes the texts had.
 */
module HexCodec {
  import opened Text

  /** A UTF-16 code unit; JavaScript strings are sequences of them. */
  type CodeUnit = n: nat | n < 0x1_0000

  type JsString = seq<CodeUnit>

  const COMMA: CodeUnit := 44
  const QUOTE: CodeUnit := 34

  /** "HexEncoded:" */
  const MARK: JsString := [72, 101, 120, 69, 110, 99, 111, 100, 101, 100, 58]

  function HexDigit(d: nat): CodeUnit
    requires d < 16
  {
    if d < 10 then 48 + d else 87 + d
  }

  predicate IsHex(c: CodeUnit) {
    48 <= c <= 57 || 97 <= c <= 102 || 65 <= c <= 70
  }

  function HexValue(c: CodeUnit): (d: nat)
    requires IsHex(c)
  {
    if c <= 57 then c - 48 else if c >= 97 then c - 87 else c - 55
  }

  /** `toString(16)` */
  function HexText(n: nat): JsString {
    if n < 16 then [HexDigit(n)] else HexText(n / 16) + [HexDigit(n % 16)]
  }

  /** `("000" + hex).slice(-4)` */
  function LastFour(hex: JsString): JsString {
    var padded := [48, 48, 48] + hex;
    if |padded| <= 4 then padded else padded[|padded| - 4..]
  }

  function EncodedUnits(s: JsString): JsString {
    if s == [] then [] else LastFour(HexText(s[0])) + EncodedUnits(s[1..])
  }

  /** `hexEncode` */
  method HexEncode(str: JsString) returns (result: JsString)
    ensures result == MARK + EncodedUnits(str)
  {
    result := MARK;
    for i := 0 to |str|
      invariant MARK + EncodedUnits(str) == result + EncodedUnits(str[i..])
    {
      var hex := HexText(str[i]);
      assert str[i..][1..] == str[i + 1..];
      AppendTwice(result, LastFour(hex), EncodedUnits(str[i + 1..]));
      result := result + LastFour(hex);
    }
  }

  /** The line terminators, which "." does not match. */
  predicate IsLineEnd(c: CodeUnit) {
    c == 0x0a || c == 0x0d || c == 0x2028 || c == 0x2029
  }

  /** How many of the first `max` units stand before a line terminator. */
  function RunLength(s: JsString, max: nat): (k: nat)
    ensures k <= max && k <= |s|
  {
    if max == 0 || s == [] || IsLineEnd(s[0]) then 0 else RunLength(s[1..], max - 1) + 1
  }

  /** `match(/.{1,4}/g) || []` */
  function Groups(s: JsString): seq<JsString>
    decreases |s|
  {
    if s == [] then []
    else if IsLineEnd(s[0]) then Groups(s[1..])
    else var k := RunLength(s, 4); [s[..k]] + Groups(s[k..])
  }

  /** The white space that `parseInt` skips. */
  predicate IsJsSpace(c: CodeUnit) {
    || 9 <= c <= 13 || c == 32 || c == 0xa0 || c == 0x1680 || 0x2000 <= c <= 0x200a || IsLineEnd(c)
    || c == 0x202f || c == 0x205f || c == 0x3000 || c == 0xfeff
  }

  function Trimmed(s: JsString): JsString {
    if s != [] && IsJsSpace(s[0]) then Trimmed(s[1..]) else s
  }

  /** The digits behind a leading "0x". */
  function WithoutPrefix(s: JsString): JsString {
    if |s| >= 2 && s[0] == 48 && (s[1] == 120 || s[1] == 88) then s[2..] else s
  }

  /** The value of the leading hex digits, `None` for `NaN` when there are none. */
  function ParseDigits(s: JsString): Option<int> {
    if s == [] || !IsHex(s[0]) then None else Some(ParseFrom(s, 0))
  }

  /** `parseInt(s, 16)`: white space, a sign and "0x" may stand before the digits. */
  function ParseHex(s: JsString): Option<int> {
    var t := Trimmed(s);
    if t != [] && t[0] == 45 then
      var n := ParseDigits(WithoutPrefix(t[1..]));
      if n.Some? then Some(-n.value) else None
    else if t != [] && t[0] == 43 then ParseDigits(WithoutPrefix(t[1..]))
    else ParseDigits(WithoutPrefix(t))
  }

  function ParseFrom(s: JsString, soFar: nat): nat {
    if s == [] || !IsHex(s[0]) then soFar else ParseFrom(s[1..], soFar * 16 + HexValue(s[0]))
  }

  /** `String.fromCharCode(parseInt(hex, 16))`: modulo 2 to the 16th, 0 for `NaN`. */
  function DecodeGroup(hex: JsString): CodeUnit {
    match ParseHex(hex)
    case None => 0
    case Some(n) => n % 0x1_0000
  }

  function DecodedGroups(hexes: seq<JsString>): JsString {
    if hexes == [] then [] else [DecodeGroup(hexes[0])] + DecodedGroups(hexes[1..])
  }

  /** What `hexDecode` computes. */
  function Decoded(hexVal: JsString): JsString {
    if MARK <= hexVal then DecodedGroups(Groups(hexVal[|MARK|..])) else hexVal
  }

  /** `hexDecode` */
  method HexDecode(hexVal0: JsString) returns (result: JsString)
    ensures result == Decoded(hexVal0)
  {
    if MARK <= hexVal0 {
      var hexVal := hexVal0[|MARK|..];
      var hexes := Groups(hexVal);
      result := [];
      for i := 0 to |hexes|
        invariant DecodedGroups(hexes) == result + DecodedGroups(hexes[i..])
      {
        assert hexes[i..][1..] == hexes[i + 1..];
        var unit := DecodeGroup(hexes[i]);
        AppendTwice(result, [unit], DecodedGroups(hexes[i + 1..]));
        result := result + [unit];
      }
    } else {
      result := hexVal0;
    }
  }

  // ----- one code unit -----

  lemma HexStep(m: nat, d: nat, n: nat)
    requires m > 0 && d < 16 && n == 16 * m + d
    ensures HexText(n) == HexText(m) + [HexDigit(d)]
  {
    assert n / 16 == m && n % 16 == d;
  }

  /** The number with these four hex digits. */
  function Number(w: nat, x: nat, y: nat, z: nat): nat {
    16 * (16 * (16 * w + x) + y) + z
  }

  function Four(w: nat, x: nat, y: nat, z: nat): JsString
    requires w < 16 && x < 16 && y < 16 && z < 16
  {
    [HexDigit(w), HexDigit(x), HexDigit(y), HexDigit(z)]
  }

  lemma FourDigits(w: nat, x: nat, y: nat, z: nat)
    requires w < 16 && x < 16 && y < 16 && z < 16
    ensures LastFour(HexText(Number(w, x, y, z))) == Four(w, x, y, z)
  {
    var b := 16 * w + x;
    var a := 16 * b + y;
    if a > 0 {
      HexStep(a, z, Number(w, x, y, z));
      if b > 0 {
        HexStep(b, y, a);
        if w > 0 {
          HexStep(w, x, b);
        }
      }
    }
  }

  lemma FourDecode(w: nat, x: nat, y: nat, z: nat)
    requires w < 16 && x < 16 && y < 16 && z < 16
    ensures ParseHex(Four(w, x, y, z)) == Some(Number(w, x, y, z))
  {
    var a, b, c, d := HexDigit(w), HexDigit(x), HexDigit(y), HexDigit(z);
    OneDigit(w, [b, c, d], 0);
    OneDigit(x, [c, d], w);
    OneDigit(y, [d], 16 * w + x);
    OneDigit(z, [], 16 * (16 * w + x) + y);
    assert [a] + [b, c, d] == Four(w, x, y, z) && [b] + [c, d] == [b, c, d] && [c] + [d] == [c, d] && [d] + [] == [d];
  }

  lemma OneDigit(d: nat, rest: JsString, soFar: nat)
    requires d < 16
    ensures ParseFrom([HexDigit(d)] + rest, soFar) == ParseFrom(rest, soFar * 16 + d)
    ensures IsHex(HexDigit(d))
  {
    var s := [HexDigit(d)] + rest;
    assert s[1..] == rest && s[0] == HexDigit(d);
    assert IsHex(HexDigit(d)) && HexValue(HexDigit(d)) == d;
  }

  /** The digits are read in both cases. */
  lemma HexValueIs(d: nat)
    requires d < 16
    ensures var lower, upper := "0123456789abcdef"[d] as int, "0123456789ABCDEF"[d] as int;
            IsHex(lower) && IsHex(upper) && HexValue(lower) == HexValue(upper) == d
  {
  }

  /** The digits of a code unit. */
  lemma DigitsOf(n: CodeUnit) returns (w: nat, x: nat, y: nat, z: nat)
    ensures w < 16 && x < 16 && y < 16 && z < 16 && n == Number(w, x, y, z)
    ensures w == n / 16 / 16 / 16 && x == n / 16 / 16 % 16 && y == n / 16 % 16 && z == n % 16
  {
    var a, b := n / 16, n / 16 / 16;
    w, x, y, z := b / 16, b % 16, a % 16, n % 16;
  }

  lemma FourPlain(w: nat, x: nat, y: nat, z: nat)
    requires w < 16 && x < 16 && y < 16 && z < 16
    ensures COMMA !in Four(w, x, y, z) && QUOTE !in Four(w, x, y, z)
  {
  }

  lemma FourUnit(w: nat, x: nat, y: nat, z: nat, n: CodeUnit)
    requires w < 16 && x < 16 && y < 16 && z < 16 && n == Number(w, x, y, z)
    ensures DecodeGroup(Four(w, x, y, z)) == n
  {
    FourDecode(w, x, y, z);
  }

  lemma UnitDecodes(n: CodeUnit)
    ensures |LastFour(HexText(n))| == 4 && DecodeGroup(LastFour(HexText(n))) == n
    ensures forall i :: 0 <= i < 4 ==> !IsLineEnd(LastFour(HexText(n))[i])
    ensures COMMA !in LastFour(HexText(n)) && QUOTE !in LastFour(HexText(n))
  {
    var w, x, y, z := DigitsOf(n);
    FourDigits(w, x, y, z);
    FourUnit(w, x, y, z, n);
    FourPlain(w, x, y, z);
  }

  lemma {:induction false} RunIsFull(s: JsString, max: nat)
    requires max <= |s| && forall i :: 0 <= i < max ==> !IsLineEnd(s[i])
    ensures RunLength(s, max) == max
  {
    if max > 0 {
      RunIsFull(s[1..], max - 1);
    }
  }

  lemma FirstGroup(four: JsString, rest: JsString)
    requires |four| == 4 && forall i :: 0 <= i < 4 ==> !IsLineEnd(four[i])
    ensures Groups(four + rest) == [four] + Groups(rest)
  {
    var all := four + rest;
    assert all[..4] == four && all[4..] == rest;
    assert forall i :: 0 <= i < 4 ==> all[i] == four[i];
    RunIsFull(all, 4);
  }

  lemma {:induction false} UnitsDecode(s: JsString)
    ensures DecodedGroups(Groups(EncodedUnits(s))) == s
  {
    if s != [] {
      var four, rest := LastFour(HexText(s[0])), EncodedUnits(s[1..]);
      UnitDecodes(s[0]);
      UnitsDecode(s[1..]);
      FirstGroup(four, rest);
      assert s == [s[0]] + s[1..];
      assert DecodedGroups([four] + Groups(rest)) == [DecodeGroup(four)] + DecodedGroups(Groups(rest));
    }
  }

  /** Decoding an encoded text gives it back, for every JavaScript string. */
  lemma DecodeEncode(s: JsString)
    ensures Decoded(MARK + EncodedUnits(s)) == s
  {
    UnitsDecode(s);
    assert (MARK + EncodedUnits(s))[|MARK|..] == EncodedUnits(s);
  }

  // ----- the encoded text -----

  /** The hexadecimal digit of a number below 16. */
  function HexChar(d: nat): CodeUnit
    requires d < 16
  {
    "0123456789abcdef"[d] as int
  }

  lemma HexCharIs(d: nat)
    requires d < 16
    ensures HexDigit(d) == HexChar(d)
  {
  }

  /** The four hexadecimal digits of a code unit. */
  function HexChars(n: CodeUnit): JsString {
    [HexChar(n / 16 / 16 / 16), HexChar(n / 16 / 16 % 16), HexChar(n / 16 % 16), HexChar(n % 16)]
  }

  lemma UnitText(n: CodeUnit)
    ensures LastFour(HexText(n)) == HexChars(n)
  {
    var w, x, y, z := DigitsOf(n);
    FourDigits(w, x, y, z);
    HexCharIs(w);
    HexCharIs(x);
    HexCharIs(y);
    HexCharIs(z);
  }

  /** The mark is "HexEncoded:". */
  lemma MarkText()
    ensures |MARK| == 11 && forall k :: 0 <= k < 11 ==> MARK[k] == "HexEncoded:"[k] as int
  {
  }

  /** The hexadecimal digits of all code units in order. */
  function AllHexChars(s: JsString): JsString {
    if s == [] then [] else HexChars(s[0]) + AllHexChars(s[1..])
  }

  /** Behind the mark, that is the encoded text. */
  lemma {:induction false} EncodedText(s: JsString)
    ensures EncodedUnits(s) == AllHexChars(s)
  {
    if s != [] {
      UnitText(s[0]);
      EncodedText(s[1..]);
    }
  }

  // ----- a row of encoded fields -----

  lemma {:induction false} EncodedIsPlain(s: JsString)
    ensures COMMA !in EncodedUnits(s) && QUOTE !in EncodedUnits(s)
  {
    if s != [] {
      UnitDecodes(s[0]);
      EncodedIsPlain(s[1..]);
    }
  }

  /** A field of the table: the encoded text in quotes. */
  function Field(s: JsString): JsString {
    [QUOTE] + (MARK + EncodedUnits(s)) + [QUOTE]
  }

  function Fields(texts: seq<JsString>): (fs: seq<JsString>)
    ensures |fs| == |texts| && forall i :: 0 <= i < |texts| ==> fs[i] == Field(texts[i])
  {
    if texts == [] then [] else [Field(texts[0])] + Fields(texts[1..])
  }

  /** Cutting a row of encoded fields at every comma and taking the quotes off leaves texts that decode as they were. */
  lemma RowDecodes(texts: seq<JsString>)
    requires texts != []
    ensures var cols := Split(Join(Fields(texts), COMMA), COMMA);
            |cols| == |texts| && forall i :: 0 <= i < |texts| ==> Decoded(Remove(cols[i], QUOTE)) == texts[i]
  {
    forall i | 0 <= i < |texts|
      ensures COMMA !in Fields(texts)[i] && Decoded(Remove(Fields(texts)[i], QUOTE)) == texts[i]
    {
      FieldDecodes(texts[i]);
    }
    SplitJoin(Fields(texts), COMMA);
  }

  lemma FieldDecodes(s: JsString)
    ensures COMMA !in Field(s) && Decoded(Remove(Field(s), QUOTE)) == s
  {
    var e := MARK + EncodedUnits(s);
    EncodedIsPlain(s);
    assert QUOTE !in MARK && COMMA !in MARK;
    Unquote(e);
    DecodeEncode(s);
  }

  lemma Unquote(e: JsString)
    requires QUOTE !in e
    ensures Remove([QUOTE] + e + [QUOTE], QUOTE) == e
  {
    RemoveAppend([QUOTE] + e, [QUOTE], QUOTE);
    RemoveAppend([QUOTE], e, QUOTE);
    RemoveNone(e, QUOTE);
    assert Remove([QUOTE], QUOTE) == [];
  }
}
