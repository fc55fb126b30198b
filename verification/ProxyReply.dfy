/** The request packet of src/proxydhcp.c: the walk over its options and the reply built in its place. */
module ProxyReply {
  import opened Text
  import opened NodeConfig

  // Offsets and option codes of RFC 2131, section 2, and RFC 2132.
  const SIADDR: nat := 0x14
  const BOOT_FILE: nat := 0x6c
  const BOOT_FILE_SIZE: nat := 128
  const COOKIE: nat := 0xec
  const OPTIONS: nat := 0xf0
  const MIN_SIZE: nat := 320
  const END: byte := 255
  const VENDOR_CLASS: byte := 60

  const MAGIC: Bytes := [0x63, 0x82, 0x53, 0x63]

  predicate IsAscii(s: string) {
    forall i :: 0 <= i < |s| ==> s[i] < '\U{80}'
  }

  /** The bytes of an ASCII text. */
  function Ascii(s: string): Bytes
    requires IsAscii(s)
  {
    seq(|s|, i requires 0 <= i < |s| => s[i] as int as byte)
  }

  // ----- options -----

  datatype Opt = Opt(code: byte, value: Bytes)

  predicate ValidOpt(o: Opt) {
    o.code != END && |o.value| < 256
  }

  predicate ValidOpts(os: seq<Opt>) {
    forall i :: 0 <= i < |os| ==> ValidOpt(os[i])
  }

  function EncodeOpt(o: Opt): (e: Bytes)
    requires ValidOpt(o)
    ensures |e| == |o.value| + 2
  {
    [o.code, |o.value| as byte] + o.value
  }

  function EncodeOpts(os: seq<Opt>): Bytes
    requires ValidOpts(os)
  {
    if os == [] then [] else EncodeOpt(os[0]) + EncodeOpts(os[1..])
  }

  /** Where the walk stops: at an option 60, at the end, or at a read past the buffer. */
  datatype Stop = At(pos: nat) | Missing | Overrun

  /** The walk from `p`: a type, a length, that many bytes, up to an End option or the received size. */
  function Walk(b: Bytes, p: nat, limit: nat): Stop
    decreases |b| - p
  {
    if p >= |b| then Overrun
    else if b[p] == END || p >= limit then Missing
    else if b[p] == VENDOR_CLASS then At(p)
    else if p + 1 == |b| then Overrun
    else Walk(b, p + b[p + 1] as nat + 2, limit)
  }

  /** The loop that looks for the vendor class identifier. */
  method FindVendorClass(packet: array<byte>, pktsize: nat) returns (stop: Stop)
    ensures stop == Walk(packet[..], OPTIONS, pktsize)
  {
    ghost var b := packet[..];
    var p := OPTIONS;
    while p < packet.Length && packet[p] != END && p < pktsize
      invariant Walk(b, p, pktsize) == Walk(b, OPTIONS, pktsize)
      decreases packet.Length - p
    {
      if packet[p] == VENDOR_CLASS {
        return At(p);
      }
      if p + 1 == packet.Length {
        return Overrun;
      }
      p := p + packet[p + 1] as nat + 2;
    }
    return if p < packet.Length then Missing else Overrun;
  }

  /** Position of the first option 60 of an encoded list that starts at `p`. */
  function FirstVendorClass(os: seq<Opt>, p: nat): Stop
    requires ValidOpts(os)
  {
    if os == [] then Missing
    else if os[0].code == 60 then At(p)
    else FirstVendorClass(os[1..], p + 2 + |os[0].value|)
  }

  predicate BytesAt(e: Bytes, b: Bytes, p: nat) {
    p + |e| <= |b| && b[p..p + |e|] == e
  }

  /** The encoded options `os` stand at `p`, and `tail` behind them. */
  predicate OptionsAt(os: seq<Opt>, tail: Bytes, b: Bytes, p: nat)
    requires ValidOpts(os)
  {
    BytesAt(EncodeOpts(os) + tail, b, p)
  }

  /** The encoded options `os` stand at `p`, followed by an End option. */
  predicate StandAt(os: seq<Opt>, b: Bytes, p: nat)
    requires ValidOpts(os)
  {
    OptionsAt(os, [255], b, p)
  }

  lemma EndStands(b: Bytes, p: nat)
    requires BytesAt([] + [END], b, p)
    ensures p < |b| && b[p] == END
  {
    assert b[p] == b[p..p + 1][0];
  }

  /** The first option of a list, and where the others stand. */
  lemma FirstOption(os: seq<Opt>, tail: Bytes, b: Bytes, p: nat)
    requires ValidOpts(os) && os != [] && OptionsAt(os, tail, b, p)
    ensures var o := os[0];
            && p + 2 + |o.value| <= |b|
            && b[p] == o.code && b[p + 1] as nat == |o.value| && BytesAt(o.value, b, p + 2)
            && OptionsAt(os[1..], tail, b, p + 2 + |o.value|)
            && |EncodeOpts(os)| == 2 + |o.value| + |EncodeOpts(os[1..])|
  {
    var head, rest, all := EncodeOpt(os[0]), EncodeOpts(os[1..]), EncodeOpts(os);
    EncodeFirst(os);
    assert BytesAt(all + tail, b, p) && all == head + rest;
    AppendTwice(head, rest, tail);
    assert BytesAt(head + (rest + tail), b, p);
    OptionThenRest(os[0], rest + tail, b, p);
  }

  lemma EncodeFirst(os: seq<Opt>)
    requires ValidOpts(os) && os != []
    ensures ValidOpts(os[1..]) && EncodeOpts(os) == EncodeOpt(os[0]) + EncodeOpts(os[1..])
    ensures |EncodeOpts(os)| == 2 + |os[0].value| + |EncodeOpts(os[1..])|
  {
  }

  lemma OptionThenRest(o: Opt, rest: Bytes, b: Bytes, p: nat)
    requires ValidOpt(o) && BytesAt(EncodeOpt(o) + rest, b, p)
    ensures var q := p + 2 + |o.value|;
            && q + |rest| <= |b|
            && b[p] == o.code && b[p + 1] as nat == |o.value| && BytesAt(o.value, b, p + 2) && BytesAt(rest, b, q)
  {
    var e, n := EncodeOpt(o) + rest, 2 + |o.value|;
    assert b[p] == b[p..p + |e|][0] && b[p + 1] == b[p..p + |e|][1];
    SliceOf(b, p, e, 2, n);
    SliceOf(b, p, e, n, |e|);
    assert e[2..n] == o.value && e[n..|e|] == rest;
  }

  lemma SliceOf(b: Bytes, p: nat, e: Bytes, i: nat, j: nat)
    requires BytesAt(e, b, p) && i <= j <= |e|
    ensures b[p + i..p + j] == e[i..j]
  {
    forall k | p + i <= k < p + j ensures b[k] == e[i..j][k - (p + i)] {
      assert b[k] == b[p..p + |e|][k - p] == e[k - p];
    }
    SliceIs(b, p + i, p + j, e[i..j]);
  }

  lemma SliceIs(b: Bytes, i: nat, j: nat, s: Bytes)
    requires i <= j <= |b| && |s| == j - i && forall k :: i <= k < j ==> b[k] == s[k - i]
    ensures b[i..j] == s
  {
    forall m | 0 <= m < j - i ensures b[i..j][m] == s[m] {
      assert b[i..j][m] == b[i + m];
    }
  }

  /** On options without pads the walk ends inside them and stops at the first option 60. */
  lemma {:induction false} WalkFindsFirst(os: seq<Opt>, b: Bytes, p: nat, limit: nat)
    requires ValidOpts(os) && StandAt(os, b, p) && p + |EncodeOpts(os)| < limit
    ensures Walk(b, p, limit) == FirstVendorClass(os, p)
    decreases |os|
  {
    if os == [] {
      EndStands(b, p);
    } else {
      FirstOption(os, [END], b, p);
      WalkFindsFirst(os[1..], b, p + 2 + |os[0].value|, limit);
    }
  }

  // ----- pads -----

  /** The walk never stops before it began. */
  lemma {:induction false} WalkGoesOn(b: Bytes, p: nat, limit: nat)
    ensures var stop := Walk(b, p, limit); stop.At? ==> p <= stop.pos < limit && stop.pos < |b|
    decreases |b| - p
  {
    if p + 1 < |b| && b[p] != END && p < limit && b[p] != VENDOR_CLASS {
      WalkGoesOn(b, p + b[p + 1] as nat + 2, limit);
    }
  }

  /** Two pads are taken for one option without a value. */
  lemma {:induction false} WalkOverPads(b: Bytes, p: nat, k: nat, limit: nat)
    requires p + 2 * k <= |b| && p + 2 * k <= limit
    requires forall i :: p <= i < p + 2 * k ==> b[i] == 0
    ensures Walk(b, p, limit) == Walk(b, p + 2 * k, limit)
    decreases k
  {
    if k > 0 {
      WalkOverPads(b, p + 2, k - 1, limit);
    }
  }

  /** An option 60 behind `k` pads is found exactly when `k` is even. */
  lemma PadsBeforeVendorClass(b: Bytes, p: nat, k: nat, limit: nat)
    requires p + k < |b| && p + k < limit && b[p + k] == VENDOR_CLASS
    requires forall i :: p <= i < p + k ==> b[i] == 0
    ensures Walk(b, p, limit) == At(p + k) <==> k % 2 == 0
  {
    WalkOverPads(b, p, k / 2, limit);
    if k % 2 == 1 {
      var q := p + k - 1;
      assert q == p + 2 * (k / 2);
      WalkGoesOn(b, q + VENDOR_CLASS as nat + 2, limit);
    }
  }

  /** The walk over options without an option 60. */
  lemma {:induction false} WalkPasses(os: seq<Opt>, b: Bytes, p: nat, limit: nat)
    requires ValidOpts(os) && OptionsAt(os, [], b, p) && p + |EncodeOpts(os)| <= limit
    requires forall i :: 0 <= i < |os| ==> os[i].code != VENDOR_CLASS
    ensures Walk(b, p, limit) == Walk(b, p + |EncodeOpts(os)|, limit)
    decreases |os|
  {
    if os != [] {
      FirstOption(os, [], b, p);
      WalkPasses(os[1..], b, p + 2 + |os[0].value|, limit);
    }
  }

  /**
   * The walk takes a pad for an option with a length. Behind any options without a vendor class and `k` pads, the
   * option 60 is found exactly when `k` is even.
   */
  lemma VendorClassBehindPads(os: seq<Opt>, k: nat, b: Bytes, p: nat, q: nat, limit: nat)
    requires ValidOpts(os) && OptionsAt(os, [], b, p) && q == p + |EncodeOpts(os)|
    requires forall i :: 0 <= i < |os| ==> os[i].code != VENDOR_CLASS
    requires q + k < |b| && q + k < limit && b[q + k] == VENDOR_CLASS
    requires forall i :: q <= i < q + k ==> b[i] == 0
    ensures Walk(b, p, limit) == At(q + k) <==> k % 2 == 0
  {
    PadsBeforeVendorClass(b, q, k, limit);
    WalkPasses(os, b, p, limit);
  }

  /** An option with twice as many pads in front. */
  datatype Padded = Padded(pairs: nat, opt: Opt)

  predicate ValidPadded(items: seq<Padded>) {
    forall i :: 0 <= i < |items| ==> ValidOpt(items[i].opt)
  }

  function EncodePadded(items: seq<Padded>): Bytes
    requires ValidPadded(items)
  {
    if items == [] then []
    else Zeroes(2 * items[0].pairs) + EncodeOpt(items[0].opt) + EncodePadded(items[1..])
  }

  /** The options that the walk takes the bytes for: two pads for an option 0 without a value. */
  function AsRead(items: seq<Padded>): (os: seq<Opt>)
    requires ValidPadded(items)
    ensures ValidOpts(os)
  {
    if items == [] then []
    else seq(items[0].pairs, _ => Opt(0, [])) + [items[0].opt] + AsRead(items[1..])
  }

  lemma {:induction false} EncodeAppend(a: seq<Opt>, b: seq<Opt>)
    requires ValidOpts(a) && ValidOpts(b)
    ensures ValidOpts(a + b) && EncodeOpts(a + b) == EncodeOpts(a) + EncodeOpts(b)
  {
    if a == [] {
      assert a + b == b;
    } else {
      assert (a + b)[0] == a[0] && (a + b)[1..] == a[1..] + b;
      EncodeAppend(a[1..], b);
      AppendTwice(EncodeOpt(a[0]), EncodeOpts(a[1..]), EncodeOpts(b));
    }
  }

  lemma {:induction false} PairsEncode(k: nat)
    ensures EncodeOpts(seq(k, _ => Opt(0, []))) == Zeroes(2 * k)
  {
    if k > 0 {
      var pairs := seq(k, _ => Opt(0, []));
      assert pairs[1..] == seq(k - 1, _ => Opt(0, []));
      PairsEncode(k - 1);
      assert EncodeOpt(pairs[0]) == [0, 0];
      assert [0, 0] + Zeroes(2 * (k - 1)) == Zeroes(2 * k);
    }
  }

  lemma {:induction false} PaddedIsRead(items: seq<Padded>)
    requires ValidPadded(items)
    ensures EncodeOpts(AsRead(items)) == EncodePadded(items)
  {
    if items != [] {
      var pairs, o, rest := seq(items[0].pairs, _ => Opt(0, [])), items[0].opt, AsRead(items[1..]);
      PaddedIsRead(items[1..]);
      PairsEncode(items[0].pairs);
      EncodeAppend(pairs, [o]);
      EncodeAppend(pairs + [o], rest);
      EncodeFirst([o]);
      assert EncodeOpts([o]) == EncodeOpt(o) + [] == EncodeOpt(o);
    }
  }

  lemma {:induction false} NoneMadeUp(items: seq<Padded>)
    requires ValidPadded(items) && forall i :: 0 <= i < |items| ==> items[i].opt.code != VENDOR_CLASS
    ensures forall i :: 0 <= i < |AsRead(items)| ==> AsRead(items)[i].code != VENDOR_CLASS
  {
    if items != [] {
      NoneMadeUp(items[1..]);
    }
  }

  /** The walk passes any options without a vendor class that have an even number of pads in front, each its own. */
  lemma EvenPadsPassed(items: seq<Padded>, b: Bytes, p: nat, limit: nat)
    requires ValidPadded(items) && forall i :: 0 <= i < |items| ==> items[i].opt.code != VENDOR_CLASS
    requires BytesAt(EncodePadded(items), b, p) && p + |EncodePadded(items)| <= limit
    ensures Walk(b, p, limit) == Walk(b, p + |EncodePadded(items)|, limit)
  {
    PaddedIsRead(items);
    assert EncodePadded(items) + [] == EncodePadded(items);
    NoneMadeUp(items);
    WalkPasses(AsRead(items), b, p, limit);
  }

  // ----- the reply -----

  /** `b` with `s` written at `off`. */
  function Put(b: Bytes, off: nat, s: Bytes): (r: Bytes)
    requires off + |s| <= |b|
  {
    b[..off] + s + b[off + |s|..]
  }

  lemma PutSlices(b: Bytes, off: nat, s: Bytes, i: nat, j: nat)
    requires off + |s| <= |b| && i <= j <= |b|
    ensures Put(b, off, s)[off..off + |s|] == s
    ensures j <= off || off + |s| <= i ==> Put(b, off, s)[i..j] == b[i..j]
  {
    var r := Put(b, off, s);
    assert forall k :: off <= k < off + |s| ==> r[k] == s[k - off];
    SliceIs(r, off, off + |s|, s);
    if j <= off || off + |s| <= i {
      assert forall k :: i <= k < j ==> r[k] == b[k] == b[i..j][k - i];
      SliceIs(r, i, j, b[i..j]);
    }
  }

  /** Writing consecutive bytes of the packet. */
  method Write(packet: array<byte>, off: nat, s: Bytes)
    requires off + |s| <= packet.Length
    modifies packet
    ensures packet[..] == Put(old(packet[..]), off, s)
  {
    for i := 0 to |s|
      invariant packet[..] == Put(old(packet[..]), off, s[..i])
    {
      PutNext(old(packet[..]), off, s, i);
      packet[off + i] := s[i];
    }
    assert s[..|s|] == s;
  }

  lemma PutNext(b: Bytes, off: nat, s: Bytes, i: nat)
    requires off + |s| <= |b| && i < |s|
    ensures Put(b, off, s[..i + 1]) == Put(b, off, s[..i])[off + i := s[i]]
  {
  }

  /** The `file` field: the boot file, filled up with NULs. */
  function BootField(file: Bytes): (f: Bytes)
    requires |file| <= BOOT_FILE_SIZE
  {
    file + Zeroes(BOOT_FILE_SIZE - |file|)
  }

  /** The boot file for the architecture digits of the vendor class. */
  function BootFile(arch: Bytes, path: Bytes): (f: Bytes)
    ensures |f| <= |path| + 17
  {
    if arch == Ascii("00000") then path + Ascii("Boot/pxeboot.0")
    else if arch == Ascii("00007") then path + Ascii("Boot/bootmgfw.efi")
    else []
  }

  /** The path of the boot configuration data. */
  function BootConfig(path: Bytes): (f: Bytes)
    ensures |f| == |path| + 8
  {
    path + Ascii("Boot/BCD")
  }

  /** The rebuilt options as the bytes that are written. */
  function OptionBytes(ip: Bytes, bcd: Bytes): Bytes
    requires |bcd| < 255
  {
    [0x35, 0x1, 0x5, 0x36, 0x4] + ip + [0xfc, (|bcd| + 1) as byte] + bcd + [0, END]
  }

  /** The texts and a NUL fit the 50-byte buffers in which the daemon puts them together. */
  predicate TextsFit(arch: Bytes, path: Bytes) {
    |BootFile(arch, path)| < 50 && |BootConfig(path)| < 50
  }

  /** What a request is answered with. */
  function Reply(b: Bytes, ip: Bytes, file: Bytes, bcd: Bytes): Bytes
    requires |b| == 1024 && |ip| == 4 && |file| < 50 && |bcd| < 50
  {
    Put(Put(Put(Put(b, 0, [2]), SIADDR, ip), BOOT_FILE, BootField(file)), OPTIONS, OptionBytes(ip, bcd))
  }

  /** A packet that is answered: long enough, a request, with the DHCP cookie. */
  predicate IsRequest(b: Bytes, pktsize: nat)
    requires |b| == 1024
  {
    pktsize >= 320 && b[0] == 1 && b[236..240] == [0x63, 0x82, 0x53, 0x63]
  }

  /** The walk finds the vendor class, and its architecture digits are inside the buffer. */
  predicate ArchInside(b: Bytes, pktsize: nat) {
    var stop := Walk(b, OPTIONS, pktsize);
    stop.At? && stop.pos + 0x11 + 5 <= |b|
  }

  /** The five architecture digits, behind "PXEClient:Arch:". */
  function Arch(b: Bytes, pktsize: nat): (a: Bytes)
    requires ArchInside(b, pktsize)
  {
    var pos := Walk(b, OPTIONS, pktsize).pos;
    b[pos + 0x11..pos + 0x11 + 5]
  }

  /** The four writes into the request packet. */
  method WriteReply(packet: array<byte>, ip: Bytes, file: Bytes, bcd: Bytes)
    requires packet.Length == 1024 && |ip| == 4 && |file| < 50 && |bcd| < 50
    modifies packet
    ensures packet[..] == Reply(old(packet[..]), ip, file, bcd)
  {
    Write(packet, 0, [2]);
    Write(packet, SIADDR, ip);
    Write(packet, BOOT_FILE, BootField(file));
    Write(packet, OPTIONS, OptionBytes(ip, bcd));
  }

  /**
   * What becomes of a packet; `Undefined` stands for a read through a null pointer or past the buffer, or a write past
   * the end of a text buffer.
   */
  datatype Outcome = Ignored | Sent | Undefined

  /** The request can be answered: the architecture is found, and the texts for it fit. */
  predicate CanAnswer(b: Bytes, pktsize: nat, path: Bytes) {
    ArchInside(b, pktsize) && TextsFit(Arch(b, pktsize), path)
  }

  /** The packet that is sent. */
  function Answered(b: Bytes, pktsize: nat, ip: Bytes, path: Bytes): Bytes
    requires |b| == 1024 && |ip| == 4 && CanAnswer(b, pktsize, path)
  {
    Reply(b, ip, BootFile(Arch(b, pktsize), path), BootConfig(path))
  }

  /** One turn of the main loop from `recvmsg` to `sendto`. */
  method Serve(packet: array<byte>, pktsize: nat, myip: Bytes, winpepath: Bytes) returns (outcome: Outcome)
    requires packet.Length == 1024 && pktsize <= 1024 && |myip| == 4
    modifies packet
    ensures outcome == if !IsRequest(old(packet[..]), pktsize) then Ignored
                       else if CanAnswer(old(packet[..]), pktsize, winpepath) then Sent else Undefined
    ensures outcome != Sent ==> packet[..] == old(packet[..])
    ensures outcome == Sent ==> packet[..] == Answered(old(packet[..]), pktsize, myip, winpepath)
  {
    if pktsize < MIN_SIZE {
      return Ignored;
    }
    if packet[0] != 1 || packet[COOKIE..OPTIONS] != MAGIC {
      return Ignored;
    }
    assert IsRequest(packet[..], pktsize) by {
      assert packet[..][COOKIE..OPTIONS] == packet[COOKIE..OPTIONS];
    }
    var stop := FindVendorClass(packet, pktsize);
    if !stop.At? || stop.pos + 0x11 + 5 > packet.Length {
      return Undefined;
    }
    var arch := stop.pos + 0x11;
    assert Arch(packet[..], pktsize) == packet[arch..arch + 5];
    if !TextsFit(packet[arch..arch + 5], winpepath) {
      return Undefined;
    }
    var winboot := BootFile(packet[arch..arch + 5], winpepath);
    WriteReply(packet, myip, winboot, BootConfig(winpepath));
    return Sent;
  }

  // ----- which requests are answered -----

  /** The value of the first option 60. */
  function VendorClassOf(os: seq<Opt>): Option<Bytes> {
    if os == [] then None
    else if os[0].code == 60 then Some(os[0].value)
    else VendorClassOf(os[1..])
  }

  /** Where the first option 60 of an encoded list stands, its value follows. */
  lemma {:induction false} VendorClassValue(os: seq<Opt>, tail: Bytes, b: Bytes, p: nat)
    requires ValidOpts(os) && OptionsAt(os, tail, b, p)
    ensures FirstVendorClass(os, p).At? <==> VendorClassOf(os).Some?
    ensures var at, v := FirstVendorClass(os, p), VendorClassOf(os); at.At? ==> BytesAt(v.value, b, at.pos + 2)
    decreases |os|
  {
    if os != [] {
      FirstOption(os, tail, b, p);
      VendorClassValue(os[1..], tail, b, p + 2 + |os[0].value|);
    }
  }

  /**
   * On options without pads the architecture is found exactly when there is a vendor class that starts at least 22
   * bytes before the end of the buffer; in one of at least 20 bytes it is the five bytes behind the first fifteen,
   * "PXEClient:Arch:".
   */
  lemma PadFreeIsAnswered(os: seq<Opt>, b: Bytes, pktsize: nat)
    requires |b| == 1024 && pktsize <= 1024
    requires ValidOpts(os) && StandAt(os, b, OPTIONS) && OPTIONS + |EncodeOpts(os)| < pktsize
    ensures var at, v := FirstVendorClass(os, OPTIONS), VendorClassOf(os);
            && (at.At? <==> v.Some?)
            && (ArchInside(b, pktsize) <==> at.At? && at.pos + 22 <= 1024)
            && (v.Some? && |v.value| >= 20 ==> ArchInside(b, pktsize) && Arch(b, pktsize) == v.value[15..20])
  {
    var v := VendorClassOf(os);
    WalkFindsFirst(os, b, OPTIONS, pktsize);
    VendorClassValue(os, [END], b, OPTIONS);
    if v.Some? && |v.value| >= 20 {
      var pos := FirstVendorClass(os, OPTIONS).pos;
      SliceOf(b, pos + 2, v.value, 15, 20);
    }
  }

  /** A request in a zeroed buffer with these option bytes. */
  function RequestWith(options: Bytes): (b: Bytes)
    requires |options| <= 1024 - OPTIONS
  {
    var b := [1] + Zeroes(COOKIE - 1) + MAGIC + options + Zeroes(1024 - OPTIONS - |options|);
    assert b[COOKIE..OPTIONS] == MAGIC;
    b
  }

  /** A request without any option makes the daemon read through a null pointer. */
  lemma NoOptionsUndefined()
    ensures var b := RequestWith([END]); IsRequest(b, MIN_SIZE) && !ArchInside(b, MIN_SIZE)
  {
    var b := RequestWith([END]);
    assert b[OPTIONS] == b[OPTIONS..OPTIONS + 1][0] == END;
  }

  /** The same vendor class is answered on its own and not behind one pad, in the smallest packet. */
  lemma OnePadUndefined(value: Bytes)
    requires |value| == 20
    ensures var o := EncodeOpt(Opt(VENDOR_CLASS, value));
            && ArchInside(RequestWith(o + [END]), MIN_SIZE)
            && !ArchInside(RequestWith([0] + o + [END]), MIN_SIZE)
  {
    var o := EncodeOpt(Opt(VENDOR_CLASS, value));
    var plain, padded := RequestWith(o + [END]), RequestWith([0] + o + [END]);
    assert plain[OPTIONS] == (o + [END])[0];
    assert padded[OPTIONS] == ([0] + o + [END])[0] && padded[OPTIONS + 1] == ([0] + o + [END])[1];
    var q := OPTIONS + 62;
    assert forall i :: q <= i < 1024 ==> padded[i] == 0;
    WalkOverPads(padded, q, 9, MIN_SIZE);
  }

  // ----- reading the reply back -----

  /** The options from `p` by the type and length rule of the walk, and where their End option is. */
  datatype Decoded = Decoded(opts: seq<Opt>, end: nat) | Broken

  function Decode(b: Bytes, p: nat): Decoded
    decreases |b| - p
  {
    if p >= |b| then Broken
    else if b[p] == END then Decoded([], p)
    else if p + 1 == |b| || p + 2 + b[p + 1] as nat > |b| then Broken
    else
      match Decode(b, p + 2 + b[p + 1] as nat)
      case Broken => Broken
      case Decoded(os, end) => Decoded([Opt(b[p], b[p + 2..p + 2 + b[p + 1] as nat])] + os, end)
  }

  lemma DecodeFirst(o: Opt, rest: seq<Opt>, b: Bytes, p: nat, end: nat)
    requires ValidOpt(o) && p + 2 + |o.value| <= |b|
    requires b[p] == o.code && b[p + 1] as nat == |o.value| && BytesAt(o.value, b, p + 2)
    requires Decode(b, p + 2 + |o.value|) == Decoded(rest, end)
    ensures Decode(b, p) == Decoded([o] + rest, end)
  {
  }

  /** Reading encoded options gives them back. */
  lemma {:induction false} DecodeEncode(os: seq<Opt>, b: Bytes, p: nat)
    requires ValidOpts(os) && StandAt(os, b, p)
    ensures Decode(b, p) == Decoded(os, p + |EncodeOpts(os)|)
    decreases |os|
  {
    if os == [] {
      EndStands(b, p);
    } else {
      var o, rest := os[0], os[1..];
      FirstOption(os, [END], b, p);
      DecodeEncode(rest, b, p + 2 + |o.value|);
      DecodeFirst(o, rest, b, p, p + |EncodeOpts(os)|);
      assert os == [o] + rest;
    }
  }

  /** The three options of a reply: acknowledge, the server, the NUL-terminated boot configuration path. */
  function ReplyOpts(ip: Bytes, bcd: Bytes): (os: seq<Opt>)
    requires |ip| == 4 && |bcd| < 50
  {
    [Opt(53, [5]), Opt(54, ip), Opt(252, bcd + [0])]
  }

  lemma OptionBytesAreOpts(ip: Bytes, bcd: Bytes)
    requires |ip| == 4 && |bcd| < 50
    ensures OptionBytes(ip, bcd) == EncodeOpts(ReplyOpts(ip, bcd)) + [END]
  {
    var os := ReplyOpts(ip, bcd);
    assert EncodeOpts(os[2..]) == EncodeOpt(os[2]) + EncodeOpts(os[3..]);
    assert EncodeOpts(os[1..]) == EncodeOpt(os[1]) + EncodeOpts(os[2..]);
    assert EncodeOpts(os) == [53, 1, 5] + ([54, 4] + ip + ([252, (|bcd| + 1) as byte] + (bcd + [0])));
  }

  /**
   * The options of a reply decode to exactly message type 5, the server address and the NUL-terminated boot
   * configuration path, and end inside the smallest packet that is answered.
   */
  lemma ReplyDecodes(b: Bytes, ip: Bytes, file: Bytes, bcd: Bytes)
    requires |b| == 1024 && |ip| == 4 && |file| < 50 && |bcd| < 50
    ensures var d := Decode(Reply(b, ip, file, bcd), OPTIONS);
            d.Decoded? && d.opts == ReplyOpts(ip, bcd) && d.end < MIN_SIZE
  {
    var before := Put(Put(Put(b, 0, [2]), SIADDR, ip), BOOT_FILE, BootField(file));
    var opts := OptionBytes(ip, bcd);
    var r, end := Reply(b, ip, file, bcd), OPTIONS + |opts| - 1;
    OptionBytesAreOpts(ip, bcd);
    PutSlices(before, OPTIONS, opts, 0, 0);
    assert r[OPTIONS..OPTIONS + |opts|] == opts;
    assert r[OPTIONS..end] == opts[..|opts| - 1] && r[end] == opts[|opts| - 1];
    DecodeEncode(ReplyOpts(ip, bcd), r, OPTIONS);
  }

  /** A part of the packet that none of the four writes touches. */
  lemma ReplyKeeps(b: Bytes, ip: Bytes, file: Bytes, bcd: Bytes, i: nat, j: nat)
    requires |b| == 1024 && |ip| == 4 && |file| < 50 && |bcd| < 50
    requires (1 <= i <= j <= SIADDR) || (SIADDR + 4 <= i <= j <= BOOT_FILE) || (COOKIE <= i <= j <= OPTIONS)
             || (OPTIONS + |OptionBytes(ip, bcd)| <= i <= j <= 1024)
    ensures Reply(b, ip, file, bcd)[i..j] == b[i..j]
  {
    var b1 := Put(b, 0, [2]);
    var b2 := Put(b1, SIADDR, ip);
    var b3 := Put(b2, BOOT_FILE, BootField(file));
    PutSlices(b, 0, [2], i, j);
    PutSlices(b1, SIADDR, ip, i, j);
    PutSlices(b2, BOOT_FILE, BootField(file), i, j);
    PutSlices(b3, OPTIONS, OptionBytes(ip, bcd), i, j);
  }

  /** Operation 2 is the first byte of a reply, and the server address is in its field. */
  lemma ReplyServer(b: Bytes, ip: Bytes, file: Bytes, bcd: Bytes)
    requires |b| == 1024 && |ip| == 4 && |file| < 50 && |bcd| < 50
    ensures var r := Reply(b, ip, file, bcd);
            |r| == 1024 && r[0] == 2 && r[SIADDR..SIADDR + 4] == ip
  {
    var b1 := Put(b, 0, [2]);
    var b2 := Put(b1, SIADDR, ip);
    var b3 := Put(b2, BOOT_FILE, BootField(file));
    PutSlices(b1, SIADDR, ip, SIADDR, SIADDR + 4);
    PutSlices(b2, BOOT_FILE, BootField(file), SIADDR, SIADDR + 4);
    PutSlices(b3, OPTIONS, OptionBytes(ip, bcd), SIADDR, SIADDR + 4);
  }

  /** A boot file field that stands in `r` reads as a C string. */
  lemma BootFieldReads(r: Bytes, file: Bytes)
    requires |r| == 1024 && |file| < 50 && 0 !in file && r[BOOT_FILE..COOKIE] == BootField(file)
    ensures CString(r, BOOT_FILE) == file
  {
    var front, back := r[..BOOT_FILE], r[COOKIE..];
    assert r == front + r[BOOT_FILE..COOKIE] + back;
    FieldAt(front, file, BOOT_FILE_SIZE - |file|, back);
  }

  /** The fixed fields of a reply: operation 2, the server address, the NUL-terminated boot file. */
  lemma ReplyFields(b: Bytes, ip: Bytes, file: Bytes, bcd: Bytes)
    requires |b| == 1024 && |ip| == 4 && |file| < 50 && |bcd| < 50 && 0 !in file
    ensures var r := Reply(b, ip, file, bcd);
            |r| == 1024 && r[0] == 2 && r[SIADDR..SIADDR + 4] == ip && CString(r, BOOT_FILE) == file
  {
    ReplyServer(b, ip, file, bcd);
    BootFieldReads(Reply(b, ip, file, bcd), file);
  }

  // ----- the answer to a request as it was received -----

  /** The bytes are the characters of an ASCII text. */
  predicate Spells(b: Bytes, text: string) {
    |b| == |text| && forall i :: 0 <= i < |b| ==> b[i] as int == text[i] as int
  }

  lemma SpelledOnce(b: Bytes, s: string)
    requires IsAscii(s)
    ensures Spells(b, s) <==> b == Ascii(s)
  {
    if Spells(b, s) {
      assert forall i :: 0 <= i < |b| ==> b[i] as int == s[i] as int;
    }
  }

  /** The name of the boot file for a client with these architecture digits, "" for any other client. */
  function BootName(arch: Bytes): string {
    if Spells(arch, "00000") then "Boot/pxeboot.0" else if Spells(arch, "00007") then "Boot/bootmgfw.efi" else ""
  }

  /** `file` is the path and the boot file behind it, or nothing. */
  predicate IsBootFile(file: Bytes, path: Bytes, arch: Bytes) {
    if BootName(arch) == "" then file == [] else path <= file && Spells(file[|path|..], BootName(arch))
  }

  /** A text behind the path. */
  lemma Behind(path: Bytes, s: string)
    requires IsAscii(s) && '\0' !in s
    ensures var f := path + Ascii(s); path <= f && Spells(f[|path|..], s) && (0 !in path ==> 0 !in f)
  {
    var f := path + Ascii(s);
    assert f[|path|..] == Ascii(s);
    assert forall i :: 0 <= i < |s| ==> Ascii(s)[i] as int == s[i] as int != 0;
  }

  lemma BootFileIs(arch: Bytes, path: Bytes)
    ensures IsBootFile(BootFile(arch, path), path, arch)
    ensures 0 !in path ==> 0 !in BootFile(arch, path)
  {
    SpelledOnce(arch, "00000");
    SpelledOnce(arch, "00007");
    Behind(path, "Boot/pxeboot.0");
    Behind(path, "Boot/bootmgfw.efi");
  }

  /** The value is the path of the boot configuration data and a NUL. */
  predicate IsBootConfig(value: Bytes, path: Bytes) {
    var n := |path|;
    |value| == n + 9 && value[..n] == path && Spells(value[n..n + 8], "Boot/BCD") && value[n + 8] == 0
  }

  lemma BootConfigIs(path: Bytes)
    ensures IsBootConfig(BootConfig(path) + [0], path)
  {
    assert (BootConfig(path) + [0])[|path|..|path| + 8] == Ascii("Boot/BCD");
  }

  /** The fixed fields of an answer: the server address and the boot file for the architecture of the client. */
  lemma AnswerFields(b: Bytes, pktsize: nat, ip: Bytes, path: Bytes)
    requires |b| == 1024 && |ip| == 4 && 0 !in path && CanAnswer(b, pktsize, path)
    ensures var r := Answered(b, pktsize, ip, path);
            && |r| == 1024 && r[0] == 2 && r[20..24] == ip
            && IsBootFile(CString(r, 108), path, Arch(b, pktsize))
            && r[1..20] == b[1..20] && r[24..108] == b[24..108] && r[236..240] == b[236..240]
  {
    var file, bcd := BootFile(Arch(b, pktsize), path), BootConfig(path);
    BootFileIs(Arch(b, pktsize), path);
    ReplyFields(b, ip, file, bcd);
    ReplyKeeps(b, ip, file, bcd, 1, 20);
    ReplyKeeps(b, ip, file, bcd, 24, 108);
    ReplyKeeps(b, ip, file, bcd, 236, 240);
  }

  /** The options of an answer. */
  lemma AnswerOptions(b: Bytes, pktsize: nat, ip: Bytes, path: Bytes)
    requires |b| == 1024 && |ip| == 4 && CanAnswer(b, pktsize, path)
    ensures var d := Decode(Answered(b, pktsize, ip, path), 240);
            && d.Decoded? && d.end < 320 && |d.opts| == 3
            && d.opts[0] == Opt(53, [5]) && d.opts[1] == Opt(54, ip)
            && d.opts[2].code == 252 && IsBootConfig(d.opts[2].value, path)
  {
    ReplyDecodes(b, ip, BootFile(Arch(b, pktsize), path), BootConfig(path));
    BootConfigIs(path);
  }

  /**
   * Any request as it is received, with options without pads and a vendor class of at least 20 bytes: it is answered
   * exactly when the path and the names behind it fit their buffers, and the answer has the server address, the boot
   * file for the five digits in the vendor class, and three options for message type 5, the server and the path of the
   * boot configuration data.
   */
  lemma RequestIsAnswered(os: seq<Opt>, b: Bytes, pktsize: nat, ip: Bytes, path: Bytes)
    requires |b| == 1024 && 320 <= pktsize <= 1024 && |ip| == 4 && 0 !in path
    requires b[0] == 1 && b[236..240] == [0x63, 0x82, 0x53, 0x63]
    requires ValidOpts(os) && StandAt(os, b, 240) && 240 + |EncodeOpts(os)| < pktsize
    requires VendorClassOf(os).Some? && |VendorClassOf(os).value| >= 20
    ensures var arch := VendorClassOf(os).value[15..20];
            && IsRequest(b, pktsize)
            && (CanAnswer(b, pktsize, path) <==>
                  |path| + 8 < 50 && (BootName(arch) != "" ==> |path| + |BootName(arch)| < 50))
            && (CanAnswer(b, pktsize, path) ==>
                  var r := Answered(b, pktsize, ip, path);
                  var d := Decode(r, 240);
                  && |r| == 1024 && r[0] == 2 && r[20..24] == ip && IsBootFile(CString(r, 108), path, arch)
                  && d.Decoded? && d.end < 320 && |d.opts| == 3
                  && d.opts[0] == Opt(53, [5]) && d.opts[1] == Opt(54, ip)
                  && d.opts[2].code == 252 && IsBootConfig(d.opts[2].value, path))
  {
    var arch := VendorClassOf(os).value[15..20];
    PadFreeIsAnswered(os, b, pktsize);
    BootFileIs(arch, path);
    if CanAnswer(b, pktsize, path) {
      AnswerFields(b, pktsize, ip, path);
      AnswerOptions(b, pktsize, ip, path);
    }
  }
}
