/** The node hierarchy of xCAT-UI/js/monitor/gangliamon.js and its table of counts. */
module Monitor {
  import opened Text

  // ----- hashes -----

  /** One key of a hash with the names pushed under it. */
  datatype Group = Group(key: string, members: seq<string>)

  /** A JavaScript object from keys to arrays, in the order in which the keys were added. */
  type Hash = seq<Group>

  predicate HasKey(h: Hash, key: string) {
    h != [] && (h[0].key == key || HasKey(h[1..], key))
  }

  /** `hash[key]`, empty when it is undefined. */
  function Get(h: Hash, key: string): seq<string> {
    if h == [] then [] else if h[0].key == key then h[0].members else Get(h[1..], key)
  }

  /** `if (!hash[key]) hash[key] = new Array()` */
  function Touch(h: Hash, key: string): Hash {
    if HasKey(h, key) then h else h + [Group(key, [])]
  }

  /** `hash[key].push(name)`, with the array created if needed. */
  function Push(h: Hash, key: string, name: string): Hash {
    if h == [] then [Group(key, [name])]
    else if h[0].key == key then [Group(key, h[0].members + [name])] + h[1..]
    else [h[0]] + Push(h[1..], key, name)
  }

  // ----- the location list -----

  datatype Kind = Blade | Rack | Frame | Cec | Lpar | Other

  /** One node of the list with the hash it goes to and its key there. */
  datatype Entry = Entry(name: string, kind: Kind, parent: string)

  function LowerChar(c: char): char {
    if 'A' <= c <= 'Z' then (c as int + 32) as char else c
  }

  /** `toLowerCase` on ASCII text. */
  function Lower(s: string): string {
    seq(|s|, i requires 0 <= i < |s| => LowerChar(s[i]))
  }

  /** The `switch` on the node type. */
  function KindOf(nodeType: string): Kind {
    if nodeType == "blade" then Blade
    else if nodeType == "systemx" then Rack
    else if nodeType == "frame" then Frame
    else if nodeType == "cec" then Cec
    else if nodeType == "lpar" || nodeType == "lpar,osi" || nodeType == "osi,lpar" then Lpar
    else Other
  }

  /** One "name:type:parent" of the list; without a parent the type does not matter. */
  function ParseEntry(text: string): Entry {
    var parts := Split(text, ':');
    if |parts| < 3 || parts[2] == "" then Entry(parts[0], Other, "")
    else Entry(parts[0], KindOf(Lower(parts[1])), parts[2])
  }

  function ParseList(texts: seq<string>): seq<Entry> {
    if texts == [] then [] else [ParseEntry(texts[0])] + ParseList(texts[1..])
  }

  datatype Hierarchy = Hierarchy(frames: Hash, cecs: Hash, blades: Hash, racks: Hash, others: seq<string>)

  const EMPTY := Hierarchy([], [], [], [], [])

  function Add(h: Hierarchy, e: Entry): Hierarchy {
    match e.kind
    case Blade => h.(blades := Push(h.blades, e.parent, e.name))
    case Rack => h.(racks := Push(h.racks, e.parent, e.name))
    case Frame => h.(frames := Touch(h.frames, e.name))
    case Cec => h.(frames := Push(h.frames, e.parent, e.name))
    case Lpar => h.(cecs := Push(h.cecs, e.parent, e.name))
    case Other => h.(others := h.others + [e.name])
  }

  /** The hierarchy after the entries of the list were added one by one. */
  function Extracted(es: seq<Entry>): Hierarchy {
    if es == [] then EMPTY else Add(Extracted(es[..|es| - 1]), es[|es| - 1])
  }

  lemma ExtractedNext(es: seq<Entry>, i: nat)
    requires i < |es|
    ensures Extracted(es[..i + 1]) == Add(Extracted(es[..i]), es[i])
  {
    assert es[..i + 1][..i] == es[..i];
  }

  // ----- the overview table -----

  /** A row of the table: its type, its name, and the nodes that it counts. */
  datatype Row = Row(kind: Kind, name: string, members: seq<string>)

  /** The lpars of the CECs of a frame: the `frame` case of `monitorStatAgg`. */
  function LparsOf(cecs: Hash, names: seq<string>): seq<string> {
    if names == [] then [] else Get(cecs, names[0]) + LparsOf(cecs, names[1..])
  }

  /** All CECs that stand below some frame. */
  function CecsOf(frames: Hash): seq<string> {
    if frames == [] then [] else frames[0].members + CecsOf(frames[1..])
  }

  function FrameRows(frames: Hash, cecs: Hash): seq<Row> {
    if frames == [] then []
    else [Row(Frame, frames[0].key, LparsOf(cecs, frames[0].members))] + FrameRows(frames[1..], cecs)
  }

  /** The rows of the groups whose key is not `used`. */
  function GroupRows(h: Hash, kind: Kind, used: set<string>): seq<Row> {
    if h == [] then []
    else (if h[0].key in used then [] else [Row(kind, h[0].key, h[0].members)]) + GroupRows(h[1..], kind, used)
  }

  function UsedCecs(frames: Hash): set<string> {
    set c | c in CecsOf(frames)
  }

  /** The rows of the overview. */
  function Overview(h: Hierarchy): seq<Row> {
    FrameRows(h.frames, h.cecs) + GroupRows(h.cecs, Cec, UsedCecs(h.frames))
    + GroupRows(h.blades, Blade, {}) + GroupRows(h.racks, Rack, {})
    + if h.others == [] then [] else [Row(Other, "Other", h.others)]
  }

  class GangliaMonitor {
    var frameHash: Hash
    var cecHash: Hash
    var bladeHash: Hash
    var rackHash: Hash
    var otherArray: seq<string>

    function View(): Hierarchy
      reads this
    {
      Hierarchy(frameHash, cecHash, bladeHash, rackHash, otherArray)
    }

    constructor ()
      ensures View() == EMPTY
    {
      frameHash, cecHash, bladeHash, rackHash, otherArray := [], [], [], [], [];
    }

    /** `extractLocationlData` */
    method ExtractLocationData(locationData: string)
      modifies this
      ensures View() == Extracted(ParseList(Split(locationData, ';')))
    {
      frameHash, cecHash, bladeHash, rackHash, otherArray := [], [], [], [], [];
      var allnodearray := Split(locationData, ';');
      ghost var entries := ParseList(allnodearray);
      ParseListAt(allnodearray);
      for i := 0 to |allnodearray|
        invariant View() == Extracted(entries[..i])
      {
        var e := ParseEntry(allnodearray[i]);
        ExtractedNext(entries, i);
        match e.kind {
          case Blade =>
            bladeHash := Push(bladeHash, e.parent, e.name);
          case Rack =>
            rackHash := Push(rackHash, e.parent, e.name);
          case Frame =>
            frameHash := Touch(frameHash, e.name);
          case Cec =>
            frameHash := Push(frameHash, e.parent, e.name);
          case Lpar =>
            cecHash := Push(cecHash, e.parent, e.name);
          case Other =>
            otherArray := otherArray + [e.name];
        }
      }
      assert entries[..|entries|] == entries;
    }

    /** `drawGangliaNodesAreaTable('all')`: the rows with the nodes that each of them counts. */
    method DrawOverview() returns (rows: seq<Row>)
      ensures rows == Overview(View())
    {
      rows := [];
      var usedCec := {};
      for i := 0 to |frameHash|
        invariant FrameRows(frameHash, cecHash) == rows + FrameRows(frameHash[i..], cecHash)
        invariant UsedCecs(frameHash) == usedCec + UsedCecs(frameHash[i..])
      {
        rows := rows + [Row(Frame, frameHash[i].key, LparsOf(cecHash, frameHash[i].members))];
        usedCec := usedCec + set c | c in frameHash[i].members;
        assert frameHash[i..][1..] == frameHash[i + 1..];
      }
      assert rows == FrameRows(frameHash, cecHash) && usedCec == UsedCecs(frameHash);
      var cecRows := RowsOf(cecHash, Cec, usedCec);
      var bladeRows := RowsOf(bladeHash, Blade, {});
      var rackRows := RowsOf(rackHash, Rack, {});
      rows := rows + cecRows + bladeRows + rackRows;
      if |otherArray| > 0 {
        rows := rows + [Row(Other, "Other", otherArray)];
      } else {
        assert rows + [] == rows;
      }
    }
  }

  method RowsOf(h: Hash, kind: Kind, used: set<string>) returns (rows: seq<Row>)
    ensures rows == GroupRows(h, kind, used)
  {
    rows := [];
    for i := 0 to |h|
      invariant GroupRows(h, kind, used) == rows + GroupRows(h[i..], kind, used)
    {
      GroupRowsStep(h, i, kind, used, rows);
      if h[i].key !in used {
        rows := rows + [Row(kind, h[i].key, h[i].members)];
      }
    }
  }

  lemma GroupRowsStep(h: Hash, i: nat, kind: Kind, used: set<string>, rows: seq<Row>)
    requires i < |h|
    ensures rows + GroupRows(h[i..], kind, used)
            == if h[i].key in used then rows + GroupRows(h[i + 1..], kind, used)
               else rows + [Row(kind, h[i].key, h[i].members)] + GroupRows(h[i + 1..], kind, used)
  {
    assert h[i..][1..] == h[i + 1..];
    assert [] + GroupRows(h[i + 1..], kind, used) == GroupRows(h[i + 1..], kind, used);
  }

  lemma {:induction false} ParseListAt(texts: seq<string>)
    ensures |ParseList(texts)| == |texts|
    ensures forall i :: 0 <= i < |texts| ==> ParseList(texts)[i] == ParseEntry(texts[i])
  {
    if texts != [] {
      ParseListAt(texts[1..]);
    }
  }

  // ----- counting -----

  /** The sum of a weight over names: a status column, the number of nodes, or the occurrences of one name. */
  function Sum(names: seq<string>, w: string -> nat): nat {
    if names == [] then 0 else w(names[0]) + Sum(names[1..], w)
  }

  function RowSum(rows: seq<Row>, w: string -> nat): nat {
    if rows == [] then 0 else Sum(rows[0].members, w) + RowSum(rows[1..], w)
  }

  function HashSum(h: Hash, w: string -> nat): nat {
    if h == [] then 0 else Sum(h[0].members, w) + HashSum(h[1..], w)
  }

  /** The entries that a row counts: all but frames and CECs. */
  predicate IsCounted(e: Entry) {
    e.kind != Frame && e.kind != Cec
  }

  function CountedNames(es: seq<Entry>): seq<string> {
    if es == [] then []
    else CountedNames(es[..|es| - 1]) + if IsCounted(es[|es| - 1]) then [es[|es| - 1].name] else []
  }

  /** One in the column of this status text. */
  function Column(nodeStatus: map<string, string>, status: string): string -> nat {
    name => if name in nodeStatus && nodeStatus[name] == status then 1 else 0
  }

  /** The counting loop of `monitorStatAgg`: one number per column, everything else is unknown. */
  method MonitorStatAgg(members: seq<string>, nodeStatus: map<string, string>)
    returns (normal: nat, warning: nat, error: nat, unknown: nat)
    ensures normal == Sum(members, Column(nodeStatus, "NORMAL"))
    ensures warning == Sum(members, Column(nodeStatus, "WARNING"))
    ensures error == Sum(members, Column(nodeStatus, "ERROR"))
    ensures normal + warning + error + unknown == |members|
  {
    normal, warning, error, unknown := 0, 0, 0, 0;
    for i := 0 to |members|
      invariant Sum(members, Column(nodeStatus, "NORMAL")) == normal + Sum(members[i..], Column(nodeStatus, "NORMAL"))
      invariant Sum(members, Column(nodeStatus, "WARNING"))
                == warning + Sum(members[i..], Column(nodeStatus, "WARNING"))
      invariant Sum(members, Column(nodeStatus, "ERROR")) == error + Sum(members[i..], Column(nodeStatus, "ERROR"))
      invariant normal + warning + error + unknown == i
    {
      assert members[i..][1..] == members[i + 1..];
      var status := if members[i] in nodeStatus then nodeStatus[members[i]] else "";
      assert |"NORMAL"| == 6 && |"WARNING"| == 7 && |"ERROR"| == 5;
      if status == "NORMAL" {
        normal := normal + 1;
      } else if status == "WARNING" {
        warning := warning + 1;
      } else if status == "ERROR" {
        error := error + 1;
      } else {
        unknown := unknown + 1;
      }
    }
  }

  lemma {:induction false} SumAppend(a: seq<string>, b: seq<string>, w: string -> nat)
    ensures Sum(a + b, w) == Sum(a, w) + Sum(b, w)
  {
    if a == [] {
      assert a + b == b;
    } else {
      SumAppend(a[1..], b, w);
      assert (a + b)[1..] == a[1..] + b;
    }
  }

  lemma {:induction false} RowSumAppend(a: seq<Row>, b: seq<Row>, w: string -> nat)
    ensures RowSum(a + b, w) == RowSum(a, w) + RowSum(b, w)
  {
    if a == [] {
      assert a + b == b;
    } else {
      RowSumAppend(a[1..], b, w);
      assert (a + b)[1..] == a[1..] + b;
    }
  }

  // ----- what the hashes hold -----

  predicate DistinctKeys(h: Hash) {
    h != [] ==> !HasKey(h[1..], h[0].key) && DistinctKeys(h[1..])
  }

  lemma {:induction false} PushSums(h: Hash, key: string, name: string, w: string -> nat)
    ensures HashSum(Push(h, key, name), w) == HashSum(h, w) + w(name)
  {
    if h == [] {
      assert HashSum([Group(key, [name])], w) == Sum([name], w);
      assert Sum([name], w) == w(name);
    } else if h[0].key == key {
      SumAppend(h[0].members, [name], w);
      assert Sum([name], w) == w(name);
    } else {
      PushSums(h[1..], key, name, w);
    }
  }

  lemma {:induction false} PushKeys(h: Hash, key: string, name: string, k: string)
    ensures HasKey(Push(h, key, name), k) <==> HasKey(h, k) || k == key
    ensures DistinctKeys(h) ==> DistinctKeys(Push(h, key, name))
    ensures Get(Push(h, key, name), k) == Get(h, k) + if k == key then [name] else []
  {
    assert Get(h, k) + [] == Get(h, k);
    if h == [] {
      assert [Group(key, [name])][1..] == [] && [] + [name] == [name];
    } else if h[0].key == key {
    } else {
      PushKeys(h[1..], key, name, k);
      PushKeys(h[1..], key, name, h[0].key);
    }
  }

  function One(): string -> nat {
    _ => 1
  }

  lemma {:induction false} SumOne(names: seq<string>)
    ensures Sum(names, One()) == |names|
  {
    if names != [] {
      SumOne(names[1..]);
    }
  }

  predicate NoEmptyGroup(h: Hash) {
    h != [] ==> h[0].members != [] && NoEmptyGroup(h[1..])
  }

  lemma {:induction false} PushFills(h: Hash, key: string, name: string)
    requires NoEmptyGroup(h)
    ensures NoEmptyGroup(Push(h, key, name))
  {
    if h != [] && h[0].key != key {
      PushFills(h[1..], key, name);
    }
  }

  /** The hashes together hold every counted entry once. */
  lemma {:induction false} HashesHoldEntries(es: seq<Entry>, w: string -> nat)
    ensures var h := Extracted(es);
            && HashSum(h.cecs, w) + HashSum(h.blades, w) + HashSum(h.racks, w) + Sum(h.others, w)
               == Sum(CountedNames(es), w)
            && DistinctKeys(h.cecs) && NoEmptyGroup(h.cecs)
  {
    if es != [] {
      var before, e := es[..|es| - 1], es[|es| - 1];
      var h := Extracted(before);
      HashesHoldEntries(before, w);
      SumAppend(CountedNames(before), if IsCounted(e) then [e.name] else [], w);
      assert [e.name][1..] == [];
      match e.kind {
        case Blade => PushSums(h.blades, e.parent, e.name, w);
        case Rack => PushSums(h.racks, e.parent, e.name, w);
        case Lpar =>
          PushSums(h.cecs, e.parent, e.name, w);
          PushKeys(h.cecs, e.parent, e.name, e.parent);
          PushFills(h.cecs, e.parent, e.name);
        case Other => SumAppend(h.others, [e.name], w);
        case _ =>
      }
    }
  }

  // ----- what the table counts -----

  lemma {:induction false} FrameRowsSum(frames: Hash, cecs: Hash, w: string -> nat)
    ensures RowSum(FrameRows(frames, cecs), w) == Sum(LparsOf(cecs, CecsOf(frames)), w)
  {
    if frames != [] {
      FrameRowsSum(frames[1..], cecs, w);
      LparsAppend(cecs, frames[0].members, CecsOf(frames[1..]));
      SumAppend(LparsOf(cecs, frames[0].members), LparsOf(cecs, CecsOf(frames[1..])), w);
    }
  }

  lemma {:induction false} LparsAppend(cecs: Hash, a: seq<string>, b: seq<string>)
    ensures LparsOf(cecs, a + b) == LparsOf(cecs, a) + LparsOf(cecs, b)
  {
    if a == [] {
      assert a + b == b;
    } else {
      LparsAppend(cecs, a[1..], b);
      assert (a + b)[1..] == a[1..] + b;
    }
  }

  /** How often a CEC is listed below frames. */
  function Listed(names: seq<string>, cec: string): nat {
    if names == [] then 0 else (if names[0] == cec then 1 else 0) + Listed(names[1..], cec)
  }

  /** What the rows of a group of lpars add up to: once for every listing, and once if there is none. */
  function Shown(cecs: Hash, names: seq<string>, w: string -> nat): nat {
    if cecs == [] then 0
    else Times(if Listed(names, cecs[0].key) == 0 then 1 else Listed(names, cecs[0].key), Sum(cecs[0].members, w))
         + Shown(cecs[1..], names, w)
  }

  function Times(n: nat, x: nat): nat {
    if n == 0 then 0 else x + Times(n - 1, x)
  }

  lemma {:induction false} LparsOfGroup(g: Group, cecs: Hash, names: seq<string>, w: string -> nat)
    requires !HasKey(cecs, g.key)
    ensures Sum(LparsOf([g] + cecs, names), w)
            == Times(Listed(names, g.key), Sum(g.members, w)) + Sum(LparsOf(cecs, names), w)
  {
    if names != [] {
      var c, h := names[0], [g] + cecs;
      assert h[1..] == cecs;
      LparsOfGroup(g, cecs, names[1..], w);
      SumAppend(Get(h, c), LparsOf(h, names[1..]), w);
      SumAppend(Get(cecs, c), LparsOf(cecs, names[1..]), w);
      if c == g.key {
        GetMissing(cecs, c);
      }
    }
  }

  lemma {:induction false} GetMissing(h: Hash, key: string)
    requires !HasKey(h, key)
    ensures Get(h, key) == []
  {
    if h != [] {
      GetMissing(h[1..], key);
    }
  }

  lemma {:induction false} ListedIff(names: seq<string>, cec: string)
    ensures Listed(names, cec) > 0 <==> cec in names
  {
    if names != [] {
      ListedIff(names[1..], cec);
    }
  }

  /** Frame rows and rows of CECs outside frames together. */
  lemma {:induction false} CecsShown(cecs: Hash, names: seq<string>, w: string -> nat)
    requires DistinctKeys(cecs)
    ensures Sum(LparsOf(cecs, names), w) + RowSum(GroupRows(cecs, Cec, set c | c in names), w) == Shown(cecs, names, w)
  {
    if cecs == [] {
      NoLpars(names, w);
    } else {
      var g, rest := cecs[0], cecs[1..];
      var used := set c | c in names;
      CecsShown(rest, names, w);
      assert cecs == [g] + rest;
      LparsOfGroup(g, rest, names, w);
      ListedIff(names, g.key);
      assert Times(1, Sum(g.members, w)) == Sum(g.members, w) + Times(0, Sum(g.members, w));
      RowSumAppend(if g.key in used then [] else [Row(Cec, g.key, g.members)], GroupRows(rest, Cec, used), w);
      assert [Row(Cec, g.key, g.members)][1..] == [];
    }
  }

  lemma {:induction false} NoLpars(names: seq<string>, w: string -> nat)
    ensures Sum(LparsOf([], names), w) == 0
  {
    if names != [] {
      NoLpars(names[1..], w);
      assert LparsOf([], names) == [] + LparsOf([], names[1..]) == LparsOf([], names[1..]);
    }
  }

  lemma {:induction false} AllGroupsShown(h: Hash, kind: Kind, w: string -> nat)
    ensures RowSum(GroupRows(h, kind, {}), w) == HashSum(h, w)
  {
    if h != [] {
      AllGroupsShown(h[1..], kind, w);
      RowSumAppend([Row(kind, h[0].key, h[0].members)], GroupRows(h[1..], kind, {}), w);
      assert [Row(kind, h[0].key, h[0].members)][1..] == [];
    }
  }

  /** What the whole table adds up to. */
  lemma OverviewSum(h: Hierarchy, w: string -> nat)
    requires DistinctKeys(h.cecs)
    ensures RowSum(Overview(h), w)
            == Shown(h.cecs, CecsOf(h.frames), w) + HashSum(h.blades, w) + HashSum(h.racks, w) + Sum(h.others, w)
  {
    var frames, cecs := FrameRows(h.frames, h.cecs), GroupRows(h.cecs, Cec, UsedCecs(h.frames));
    var blades, racks := GroupRows(h.blades, Blade, {}), GroupRows(h.racks, Rack, {});
    var others := if h.others == [] then [] else [Row(Other, "Other", h.others)];
    RowSumAppend(frames + cecs + blades + racks, others, w);
    RowSumAppend(frames + cecs + blades, racks, w);
    RowSumAppend(frames + cecs, blades, w);
    RowSumAppend(frames, cecs, w);
    FrameRowsSum(h.frames, h.cecs, w);
    CecsShown(h.cecs, CecsOf(h.frames), w);
    AllGroupsShown(h.blades, Blade, w);
    AllGroupsShown(h.racks, Rack, w);
    assert others != [] ==> others[1..] == [];
  }

  /** No CEC that has lpars is listed twice below frames. */
  predicate ListedOnce(cecs: Hash, names: seq<string>) {
    cecs != [] ==> Listed(names, cecs[0].key) <= 1 && ListedOnce(cecs[1..], names)
  }

  lemma {:induction false} ShownOnce(cecs: Hash, names: seq<string>, w: string -> nat)
    requires ListedOnce(cecs, names)
    ensures Shown(cecs, names, w) == HashSum(cecs, w)
  {
    if cecs != [] {
      ShownOnce(cecs[1..], names, w);
      var x := Sum(cecs[0].members, w);
      assert Times(1, x) == x + Times(0, x);
    }
  }

  lemma {:induction false} ShownTwice(cecs: Hash, names: seq<string>)
    requires NoEmptyGroup(cecs)
    ensures Shown(cecs, names, One()) >= HashSum(cecs, One())
    ensures !ListedOnce(cecs, names) ==> Shown(cecs, names, One()) > HashSum(cecs, One())
  {
    if cecs != [] {
      ShownTwice(cecs[1..], names);
      var x, n := Sum(cecs[0].members, One()), Listed(names, cecs[0].key);
      SumOne(cecs[0].members);
      TimesGrows(if n == 0 then 1 else n, x);
    }
  }

  lemma {:induction false} TimesGrows(n: nat, x: nat)
    requires n > 0
    ensures Times(n, x) >= x && (n > 1 && x > 0 ==> Times(n, x) > x)
  {
    if n > 1 {
      TimesGrows(n - 1, x);
    }
  }

  // ----- how often a CEC is listed -----

  /** The weight of the names of the selected entries. */
  function Total(es: seq<Entry>, selected: Entry -> bool, w: string -> nat): nat {
    if es == [] then 0
    else Total(es[..|es| - 1], selected, w) + if selected(es[|es| - 1]) then w(es[|es| - 1].name) else 0
  }

  function CountOf(es: seq<Entry>, selected: Entry -> bool): nat {
    Total(es, selected, One())
  }

  function OfKind(kind: Kind): Entry -> bool {
    (e: Entry) => e.kind == kind
  }

  function Named(kind: Kind, name: string): Entry -> bool {
    (e: Entry) => e.kind == kind && e.name == name
  }

  function Below(kind: Kind, parent: string): Entry -> bool {
    (e: Entry) => e.kind == kind && e.parent == parent
  }

  lemma {:induction false} ListedAppend(a: seq<string>, b: seq<string>, c: string)
    ensures Listed(a + b, c) == Listed(a, c) + Listed(b, c)
  {
    if a == [] {
      assert a + b == b;
    } else {
      ListedAppend(a[1..], b, c);
      assert (a + b)[1..] == a[1..] + b;
    }
  }

  lemma {:induction false} PushLists(frames: Hash, key: string, name: string, c: string)
    ensures Listed(CecsOf(Push(frames, key, name)), c) == Listed(CecsOf(frames), c) + if name == c then 1 else 0
  {
    if frames == [] {
      assert [name] + [] == [name];
    } else if frames[0].key == key {
      ListedAppend(frames[0].members + [name], CecsOf(frames[1..]), c);
      ListedAppend(frames[0].members, [name], c);
      ListedAppend(frames[0].members, CecsOf(frames[1..]), c);
    } else {
      PushLists(frames[1..], key, name, c);
      ListedAppend(frames[0].members, CecsOf(Push(frames[1..], key, name)), c);
      ListedAppend(frames[0].members, CecsOf(frames[1..]), c);
    }
  }

  lemma {:induction false} TouchLists(frames: Hash, key: string)
    ensures CecsOf(frames + [Group(key, [])]) == CecsOf(frames)
  {
    if frames != [] {
      TouchLists(frames[1..], key);
      assert (frames + [Group(key, [])])[1..] == frames[1..] + [Group(key, [])];
    }
  }

  /** A CEC is listed as often as the list has an entry for it. */
  lemma {:induction false} ListedAsOften(es: seq<Entry>, c: string)
    ensures Listed(CecsOf(Extracted(es).frames), c) == CountOf(es, Named(Cec, c))
  {
    if es != [] {
      var before, e := es[..|es| - 1], es[|es| - 1];
      ListedAsOften(before, c);
      if e.kind == Cec {
        PushLists(Extracted(before).frames, e.parent, e.name, c);
      } else if e.kind == Frame {
        TouchLists(Extracted(before).frames, e.name);
      }
    }
  }

  lemma {:induction false} CountPositive(es: seq<Entry>, selected: Entry -> bool)
    ensures CountOf(es, selected) > 0 <==> exists i :: 0 <= i < |es| && selected(es[i])
  {
    if es != [] {
      var before := es[..|es| - 1];
      CountPositive(before, selected);
      assert forall i :: 0 <= i < |before| ==> before[i] == es[i];
      assert selected(es[|es| - 1]) ==> exists i :: 0 <= i < |es| && selected(es[i]);
    }
  }

  predicate NoneTwice(cecs: Hash, names: seq<string>) {
    forall i :: 0 <= i < |cecs| ==> Listed(names, cecs[i].key) <= 1
  }

  lemma {:induction false} ListedOnceAt(cecs: Hash, names: seq<string>)
    ensures ListedOnce(cecs, names) <==> NoneTwice(cecs, names)
  {
    if cecs != [] {
      var rest := cecs[1..];
      ListedOnceAt(rest, names);
      assert NoneTwice(cecs, names) ==> Listed(names, cecs[0].key) <= 1;
      assert forall i :: 0 <= i < |rest| ==> rest[i] == cecs[i + 1];
    }
  }

  lemma {:induction false} KeyAt(h: Hash, key: string)
    ensures HasKey(h, key) <==> exists i :: 0 <= i < |h| && h[i].key == key
  {
    if h != [] {
      KeyAt(h[1..], key);
      assert forall i :: 0 <= i < |h| - 1 ==> h[1..][i] == h[i + 1];
      assert h[0].key == key ==> exists i :: 0 <= i < |h| && h[i].key == key;
    }
  }

  /** Every CEC that is the parent of an lpar has at most one entry. */
  predicate CecsListedOnce(es: seq<Entry>) {
    forall i :: 0 <= i < |es| && es[i].kind == Lpar ==> CountOf(es, Named(Cec, es[i].parent)) <= 1
  }

  lemma ListedOnceOnList(es: seq<Entry>)
    ensures var h := Extracted(es); ListedOnce(h.cecs, CecsOf(h.frames)) <==> CecsListedOnce(es)
  {
    var cecs, names := Extracted(es).cecs, CecsOf(Extracted(es).frames);
    ListedOnceAt(cecs, names);
    if NoneTwice(cecs, names) {
      forall i | 0 <= i < |es| && es[i].kind == Lpar ensures CountOf(es, Named(Cec, es[i].parent)) <= 1 {
        var c := es[i].parent;
        CountPositive(es, Below(Lpar, c));
        GroupKeys(es, Lpar, c);
        KeyAt(cecs, c);
        ListedAsOften(es, c);
      }
    }
    if CecsListedOnce(es) {
      forall i | 0 <= i < |cecs| ensures Listed(names, cecs[i].key) <= 1 {
        var c := cecs[i].key;
        KeyAt(cecs, c);
        GroupKeys(es, Lpar, c);
        CountPositive(es, Below(Lpar, c));
        ListedAsOften(es, c);
      }
    }
  }

  /**
   * Conservation: if every CEC with lpars has one entry at most, every weight over the table is its sum over the
   * counted entries, so each of them stands in exactly one row and one column; otherwise the table counts too many
   * nodes.
   */
  lemma Conservation(es: seq<Entry>, w: string -> nat)
    ensures CecsListedOnce(es) ==> RowSum(Overview(Extracted(es)), w) == Sum(CountedNames(es), w)
    ensures CecsListedOnce(es) <==> RowSum(Overview(Extracted(es)), One()) == |CountedNames(es)|
  {
    var h := Extracted(es);
    var names := CecsOf(h.frames);
    ListedOnceOnList(es);
    HashesHoldEntries(es, w);
    HashesHoldEntries(es, One());
    OverviewSum(h, w);
    OverviewSum(h, One());
    SumOne(CountedNames(es));
    ShownTwice(h.cecs, names);
    if ListedOnce(h.cecs, names) {
      ShownOnce(h.cecs, names, w);
      ShownOnce(h.cecs, names, One());
    }
  }

  /** A CEC below two frames: its one lpar is counted twice. */
  lemma CecBelowTwoFrames()
    ensures var es := [Entry("c", Cec, "f1"), Entry("c", Cec, "f2"), Entry("l", Lpar, "c")];
            |CountedNames(es)| == 1 && RowSum(Overview(Extracted(es)), One()) != 1
  {
    var es := [Entry("c", Cec, "f1"), Entry("c", Cec, "f2"), Entry("l", Lpar, "c")];
    var one, two, isC: Entry -> bool := [es[0]], [es[0], es[1]], Named(Cec, "c");
    assert es[..2] == two && two[..1] == one && one[..0] == [];
    assert CountedNames(one) == [] && CountedNames(two) == [];
    assert isC(one[0]) && One()(one[0].name) == 1;
    assert Total(one[..0], isC, One()) == 0;
    assert one[|one| - 1] == one[0];
    assert CountOf(one, isC) == 1;
    assert CountOf(two, isC) == 2;
    assert es[2].kind == Lpar && CountOf(es, Named(Cec, es[2].parent)) == 2;
    Conservation(es, One());
  }

  lemma {:induction false} UniqueCecs(es: seq<Entry>, c: string)
    requires forall i, j :: 0 <= i < j < |es| ==> es[i].name != es[j].name
    ensures CountOf(es, Named(Cec, c)) <= 1
    ensures (forall i :: 0 <= i < |es| ==> es[i].name != c) ==> CountOf(es, Named(Cec, c)) == 0
  {
    if es != [] {
      UniqueCecs(es[..|es| - 1], c);
    }
  }

  /** With unique names the table counts every lpar, blade, rack and other node exactly once. */
  lemma UniqueNamesConserve(es: seq<Entry>, w: string -> nat)
    requires forall i, j :: 0 <= i < j < |es| ==> es[i].name != es[j].name
    ensures RowSum(Overview(Extracted(es)), w) == Sum(CountedNames(es), w)
  {
    forall i | 0 <= i < |es| && es[i].kind == Lpar ensures CountOf(es, Named(Cec, es[i].parent)) <= 1 {
      UniqueCecs(es, es[i].parent);
    }
    Conservation(es, w);
  }

  // ----- drilling down, and the order of the list -----

  /** The rows of the table for one frame. */
  function DrillDown(cecs: Hash, names: seq<string>): seq<Row> {
    if names == [] then [] else [Row(Cec, names[0], Get(cecs, names[0]))] + DrillDown(cecs, names[1..])
  }

  /** A frame's row equals the sum of its CEC rows on drill-down, in every column. */
  lemma {:induction false} FrameIsSumOfCecs(cecs: Hash, names: seq<string>, w: string -> nat)
    ensures Sum(LparsOf(cecs, names), w) == RowSum(DrillDown(cecs, names), w)
    ensures |DrillDown(cecs, names)| == |names|
    ensures forall i :: 0 <= i < |names| ==> DrillDown(cecs, names)[i] == Row(Cec, names[i], Get(cecs, names[i]))
  {
    if names != [] {
      FrameIsSumOfCecs(cecs, names[1..], w);
      SumAppend(Get(cecs, names[0]), LparsOf(cecs, names[1..]), w);
    }
  }

  // ----- every row from the list -----

  /** The hash in which the entries of a type are grouped. */
  function HashOf(h: Hierarchy, kind: Kind): Hash {
    match kind
    case Blade => h.blades
    case Rack => h.racks
    case Cec => h.frames
    case Lpar => h.cecs
    case _ => []
  }

  lemma {:induction false} TouchKeys(h: Hash, key: string, k: string)
    requires !HasKey(h, key)
    ensures HasKey(h + [Group(key, [])], k) <==> HasKey(h, k) || k == key
    ensures DistinctKeys(h) ==> DistinctKeys(h + [Group(key, [])])
    ensures Get(h + [Group(key, [])], k) == Get(h, k)
  {
    if h != [] {
      TouchKeys(h[1..], key, k);
      TouchKeys(h[1..], key, h[0].key);
      assert (h + [Group(key, [])])[1..] == h[1..] + [Group(key, [])];
    }
  }

  /** The members of a group are the entries of its type with that parent. */
  lemma {:induction false} GroupTotal(es: seq<Entry>, kind: Kind, parent: string, w: string -> nat)
    requires kind == Blade || kind == Rack || kind == Cec || kind == Lpar
    ensures Sum(Get(HashOf(Extracted(es), kind), parent), w) == Total(es, Below(kind, parent), w)
  {
    if es != [] {
      var before, e := es[..|es| - 1], es[|es| - 1];
      var h := HashOf(Extracted(before), kind);
      GroupTotal(before, kind, parent, w);
      if e.kind == kind {
        PushKeys(h, e.parent, e.name, parent);
        SumAppend(Get(h, parent), if e.parent == parent then [e.name] else [], w);
        assert [e.name][1..] == [];
      } else if e.kind == Frame && kind == Cec && !HasKey(h, e.name) {
        TouchKeys(h, e.name, parent);
      }
    }
  }

  /** There is a group when there is such an entry. */
  lemma {:induction false} GroupKeys(es: seq<Entry>, kind: Kind, parent: string)
    requires kind == Blade || kind == Rack || kind == Lpar
    ensures HasKey(HashOf(Extracted(es), kind), parent) <==> CountOf(es, Below(kind, parent)) > 0
  {
    if es != [] {
      var before, e := es[..|es| - 1], es[|es| - 1];
      GroupKeys(before, kind, parent);
      if e.kind == kind {
        PushKeys(HashOf(Extracted(before), kind), e.parent, e.name, parent);
      }
    }
  }

  lemma {:induction false} GroupsDistinct(es: seq<Entry>, kind: Kind)
    ensures DistinctKeys(HashOf(Extracted(es), kind))
  {
    if es != [] {
      var before, e := es[..|es| - 1], es[|es| - 1];
      var h := HashOf(Extracted(before), kind);
      GroupsDistinct(before, kind);
      PushKeys(h, e.parent, e.name, e.parent);
      if !HasKey(h, e.name) {
        TouchKeys(h, e.name, e.name);
      }
    }
  }

  /** A frame is there when it is listed or is the parent of a CEC. */
  lemma {:induction false} FrameKeys(es: seq<Entry>, name: string)
    ensures HasKey(Extracted(es).frames, name)
            <==> CountOf(es, Named(Frame, name)) > 0 || CountOf(es, Below(Cec, name)) > 0
  {
    if es != [] {
      var before, e := es[..|es| - 1], es[|es| - 1];
      var frames := Extracted(before).frames;
      FrameKeys(before, name);
      if e.kind == Cec {
        PushKeys(frames, e.parent, e.name, name);
      } else if e.kind == Frame && !HasKey(frames, e.name) {
        TouchKeys(frames, e.name, name);
      }
    }
  }

  lemma {:induction false} OthersTotal(es: seq<Entry>, w: string -> nat)
    ensures Sum(Extracted(es).others, w) == Total(es, OfKind(Other), w)
  {
    if es != [] {
      var before, e := es[..|es| - 1], es[|es| - 1];
      OthersTotal(before, w);
      if e.kind == Other {
        SumAppend(Extracted(before).others, [e.name], w);
        assert [e.name][1..] == [];
      }
    }
  }

  /** The weight of a CEC: that of its lpars. */
  function CecWeight(es: seq<Entry>, w: string -> nat): string -> nat {
    c => Total(es, Below(Lpar, c), w)
  }

  lemma {:induction false} LparsOfWeight(cecs: Hash, names: seq<string>, w: string -> nat, v: string -> nat)
    requires forall c :: v(c) == Sum(Get(cecs, c), w)
    ensures Sum(LparsOf(cecs, names), w) == Sum(names, v)
  {
    if names != [] {
      LparsOfWeight(cecs, names[1..], w, v);
      SumAppend(Get(cecs, names[0]), LparsOf(cecs, names[1..]), w);
    }
  }

  /** A frame's row adds up the lpars of the CECs that the list puts below it. */
  lemma FrameTotal(es: seq<Entry>, frame: string, w: string -> nat)
    ensures var h := Extracted(es);
            Sum(LparsOf(h.cecs, Get(h.frames, frame)), w) == Total(es, Below(Cec, frame), CecWeight(es, w))
  {
    var h := Extracted(es);
    forall c ensures CecWeight(es, w)(c) == Sum(Get(h.cecs, c), w) {
      GroupTotal(es, Lpar, c, w);
    }
    LparsOfWeight(h.cecs, Get(h.frames, frame), w, CecWeight(es, w));
    GroupTotal(es, Cec, frame, CecWeight(es, w));
  }

  /** Whether the list makes a row of this type and name. */
  predicate RowExpected(es: seq<Entry>, kind: Kind, name: string) {
    match kind
    case Frame => CountOf(es, Named(Frame, name)) > 0 || CountOf(es, Below(Cec, name)) > 0
    case Cec => CountOf(es, Below(Lpar, name)) > 0 && CountOf(es, Named(Cec, name)) == 0
    case Blade => CountOf(es, Below(Blade, name)) > 0
    case Rack => CountOf(es, Below(Rack, name)) > 0
    case Other => name == "Other" && CountOf(es, OfKind(Other)) > 0
    case Lpar => false
  }

  /** What that row adds up to. */
  function RowWeight(es: seq<Entry>, kind: Kind, name: string, w: string -> nat): nat {
    match kind
    case Frame => Total(es, Below(Cec, name), CecWeight(es, w))
    case Cec => Total(es, Below(Lpar, name), w)
    case Blade => Total(es, Below(Blade, name), w)
    case Rack => Total(es, Below(Rack, name), w)
    case Other => Total(es, OfKind(Other), w)
    case Lpar => 0
  }

  /** The rows of one type and name. */
  function RowsNamed(rows: seq<Row>, kind: Kind, name: string): seq<Row> {
    if rows == [] then []
    else (if rows[0].kind == kind && rows[0].name == name then [rows[0]] else []) + RowsNamed(rows[1..], kind, name)
  }

  lemma {:induction false} RowsNamedAppend(a: seq<Row>, b: seq<Row>, kind: Kind, name: string)
    ensures RowsNamed(a + b, kind, name) == RowsNamed(a, kind, name) + RowsNamed(b, kind, name)
  {
    if a == [] {
      assert a + b == b;
    } else {
      var own := if a[0].kind == kind && a[0].name == name then [a[0]] else [];
      RowsNamedAppend(a[1..], b, kind, name);
      assert (a + b)[1..] == a[1..] + b && (a + b)[0] == a[0];
      AppendTwice(own, RowsNamed(a[1..], kind, name), RowsNamed(b, kind, name));
    }
  }

  function FrameRow(frames: Hash, cecs: Hash, kind: Kind, name: string): seq<Row> {
    if kind == Frame && HasKey(frames, name) then [Row(Frame, name, LparsOf(cecs, Get(frames, name)))] else []
  }

  function GroupRow(h: Hash, own: Kind, used: set<string>, kind: Kind, name: string): seq<Row> {
    if kind == own && HasKey(h, name) && name !in used then [Row(kind, name, Get(h, name))] else []
  }

  function OtherRow(others: seq<string>, kind: Kind, name: string): seq<Row> {
    if kind == Other && name == "Other" && others != [] then [Row(Other, "Other", others)] else []
  }

  /** The rows of one type and name, from the hashes: one of the five kinds at most. */
  function RowsFrom(h: Hierarchy, kind: Kind, name: string): seq<Row> {
    FrameRow(h.frames, h.cecs, kind, name) + GroupRow(h.cecs, Cec, UsedCecs(h.frames), kind, name)
    + GroupRow(h.blades, Blade, {}, kind, name) + GroupRow(h.racks, Rack, {}, kind, name)
    + OtherRow(h.others, kind, name)
  }

  lemma {:induction false} FrameRowsNamed(frames: Hash, cecs: Hash, kind: Kind, name: string)
    requires DistinctKeys(frames)
    ensures RowsNamed(FrameRows(frames, cecs), kind, name)
            == FrameRow(frames, cecs, kind, name)
  {
    if frames != [] {
      FrameRowsNamed(frames[1..], cecs, kind, name);
      assert FrameRows(frames, cecs)[1..] == FrameRows(frames[1..], cecs);
    }
  }

  lemma {:induction false} GroupRowsNamed(h: Hash, own: Kind, used: set<string>, kind: Kind, name: string)
    requires DistinctKeys(h)
    ensures RowsNamed(GroupRows(h, own, used), kind, name)
            == GroupRow(h, own, used, kind, name)
  {
    if h != [] {
      GroupRowsNamed(h[1..], own, used, kind, name);
      if h[0].key !in used {
        assert GroupRows(h, own, used)[1..] == GroupRows(h[1..], own, used);
      } else {
        assert GroupRows(h, own, used) == GroupRows(h[1..], own, used);
      }
    }
  }

  lemma OverviewNamed(h: Hierarchy, kind: Kind, name: string)
    requires DistinctKeys(h.frames) && DistinctKeys(h.cecs) && DistinctKeys(h.blades) && DistinctKeys(h.racks)
    ensures RowsNamed(Overview(h), kind, name) == RowsFrom(h, kind, name)
  {
    var frames, cecs := FrameRows(h.frames, h.cecs), GroupRows(h.cecs, Cec, UsedCecs(h.frames));
    var blades, racks := GroupRows(h.blades, Blade, {}), GroupRows(h.racks, Rack, {});
    var others := if h.others == [] then [] else [Row(Other, "Other", h.others)];
    RowsNamedAppend(frames, cecs, kind, name);
    RowsNamedAppend(frames + cecs, blades, kind, name);
    RowsNamedAppend(frames + cecs + blades, racks, kind, name);
    RowsNamedAppend(frames + cecs + blades + racks, others, kind, name);
    FrameRowsNamed(h.frames, h.cecs, kind, name);
    GroupRowsNamed(h.cecs, Cec, UsedCecs(h.frames), kind, name);
    GroupRowsNamed(h.blades, Blade, {}, kind, name);
    GroupRowsNamed(h.racks, Rack, {}, kind, name);
    OtherRowNamed(h.others, kind, name);
  }

  lemma OtherRowNamed(others: seq<string>, kind: Kind, name: string)
    ensures RowsNamed(if others == [] then [] else [Row(Other, "Other", others)], kind, name)
            == OtherRow(others, kind, name)
  {
    var row := Row(Other, "Other", others);
    assert [row][1..] == [];
  }

  /** The rows are those that the list makes. */
  predicate AsExpected(rows: seq<Row>, es: seq<Entry>, kind: Kind, name: string, w: string -> nat) {
    if RowExpected(es, kind, name) then |rows| == 1 && Sum(rows[0].members, w) == RowWeight(es, kind, name, w)
    else rows == []
  }

  lemma ExpectedCec(es: seq<Entry>, name: string, w: string -> nat)
    ensures var h := Extracted(es);
            AsExpected(GroupRow(h.cecs, Cec, UsedCecs(h.frames), Cec, name), es, Cec, name, w)
  {
    GroupTotal(es, Lpar, name, w);
    GroupKeys(es, Lpar, name);
    ListedAsOften(es, name);
    ListedIff(CecsOf(Extracted(es).frames), name);
  }

  lemma ExpectedOther(es: seq<Entry>, name: string, w: string -> nat)
    ensures AsExpected(OtherRow(Extracted(es).others, Other, name), es, Other, name, w)
  {
    OthersTotal(es, w);
    OthersTotal(es, One());
    SumOne(Extracted(es).others);
  }

  lemma ExpectedRow(es: seq<Entry>, kind: Kind, name: string, w: string -> nat)
    ensures AsExpected(RowsFrom(Extracted(es), kind, name), es, kind, name, w)
  {
    var h := Extracted(es);
    match kind {
      case Frame =>
        FrameKeys(es, name);
        FrameTotal(es, name, w);
      case Cec =>
        ExpectedCec(es, name, w);
        assert RowsFrom(h, kind, name) == GroupRow(h.cecs, Cec, UsedCecs(h.frames), Cec, name);
      case Other =>
        ExpectedOther(es, name, w);
        assert RowsFrom(h, kind, name) == OtherRow(h.others, Other, name);
      case Lpar =>
      case _ =>
        GroupTotal(es, kind, name, w);
        GroupKeys(es, kind, name);
    }
  }

  /**
   * The whole table from the list: there is one row of a type and name exactly when the list makes one, and it
   * adds up, in every column, the entries that belong to it.
   */
  lemma TableFromList(es: seq<Entry>, kind: Kind, name: string, w: string -> nat)
    ensures AsExpected(RowsNamed(Overview(Extracted(es)), kind, name), es, kind, name, w)
  {
    GroupsDistinct(es, Cec);
    GroupsDistinct(es, Lpar);
    GroupsDistinct(es, Blade);
    GroupsDistinct(es, Rack);
    OverviewNamed(Extracted(es), kind, name);
    ExpectedRow(es, kind, name, w);
  }

  // ----- the order of the list -----

  lemma {:induction false} TotalWithout(es: seq<Entry>, i: nat, selected: Entry -> bool, w: string -> nat)
    requires i < |es|
    ensures Total(es, selected, w)
            == Total(es[..i] + es[i + 1..], selected, w) + if selected(es[i]) then w(es[i].name) else 0
    decreases |es|
  {
    var n := |es| - 1;
    var less := es[..i] + es[i + 1..];
    if i == n {
      assert less == es[..n];
    } else {
      TotalWithout(es[..n], i, selected, w);
      assert less[..|less| - 1] == es[..n][..i] + es[..n][i + 1..];
      assert less[|less| - 1] == es[n];
    }
  }

  lemma SameWithout(es: seq<Entry>, fs: seq<Entry>, i: nat)
    requires multiset(es) == multiset(fs) && es != [] && i < |fs| && fs[i] == es[|es| - 1]
    ensures multiset(es[..|es| - 1]) == multiset(fs[..i] + fs[i + 1..])
  {
    var n := |es| - 1;
    assert es == es[..n] + [es[n]];
    assert fs == fs[..i] + [fs[i]] + fs[i + 1..];
    assert multiset(es[..n]) == multiset(es) - multiset{es[n]};
  }

  lemma {:induction false} TotalPermuted(es: seq<Entry>, fs: seq<Entry>, selected: Entry -> bool, w: string -> nat)
    requires multiset(es) == multiset(fs)
    ensures Total(es, selected, w) == Total(fs, selected, w)
    decreases |es|
  {
    if es == [] {
      assert |multiset(fs)| == 0;
    } else {
      var n := |es| - 1;
      assert es[n] in multiset(es);
      var i :| 0 <= i < |fs| && fs[i] == es[n];
      SameWithout(es, fs, i);
      TotalWithout(fs, i, selected, w);
      TotalPermuted(es[..n], fs[..i] + fs[i + 1..], selected, w);
    }
  }

  lemma {:induction false} TotalSame(es: seq<Entry>, selected: Entry -> bool, w: string -> nat, v: string -> nat)
    requires forall name :: w(name) == v(name)
    ensures Total(es, selected, w) == Total(es, selected, v)
  {
    if es != [] {
      TotalSame(es[..|es| - 1], selected, w, v);
    }
  }

  lemma FrameWeightPermuted(es: seq<Entry>, fs: seq<Entry>, frame: string, w: string -> nat)
    requires multiset(es) == multiset(fs)
    ensures RowWeight(es, Frame, frame, w) == RowWeight(fs, Frame, frame, w)
  {
    TotalPermuted(es, fs, Below(Cec, frame), CecWeight(es, w));
    forall c ensures CecWeight(es, w)(c) == CecWeight(fs, w)(c) {
      TotalPermuted(es, fs, Below(Lpar, c), w);
    }
    TotalSame(fs, Below(Cec, frame), CecWeight(es, w), CecWeight(fs, w));
  }

  lemma RowExpectedPermuted(es: seq<Entry>, fs: seq<Entry>, kind: Kind, name: string)
    requires multiset(es) == multiset(fs)
    ensures RowExpected(es, kind, name) == RowExpected(fs, kind, name)
  {
    TotalPermuted(es, fs, Named(Frame, name), One());
    TotalPermuted(es, fs, Named(Cec, name), One());
    TotalPermuted(es, fs, Below(Cec, name), One());
    TotalPermuted(es, fs, Below(Lpar, name), One());
    TotalPermuted(es, fs, Below(kind, name), One());
    TotalPermuted(es, fs, OfKind(Other), One());
  }

  lemma RowWeightPermuted(es: seq<Entry>, fs: seq<Entry>, kind: Kind, name: string, w: string -> nat)
    requires multiset(es) == multiset(fs)
    ensures RowWeight(es, kind, name, w) == RowWeight(fs, kind, name, w)
  {
    FrameWeightPermuted(es, fs, name, w);
    TotalPermuted(es, fs, Below(Lpar, name), w);
    TotalPermuted(es, fs, Below(kind, name), w);
    TotalPermuted(es, fs, OfKind(Other), w);
  }

  /** Reordering the list leaves the same rows in the table, each with the same count in every column. */
  lemma OrderDoesNotMatter(es: seq<Entry>, fs: seq<Entry>, kind: Kind, name: string, w: string -> nat)
    requires multiset(es) == multiset(fs)
    ensures var before := RowsNamed(Overview(Extracted(es)), kind, name);
            var after := RowsNamed(Overview(Extracted(fs)), kind, name);
            && |before| == |after| <= 1
            && (|before| == 1 ==> Sum(before[0].members, w) == Sum(after[0].members, w))
  {
    TableFromList(es, kind, name, w);
    TableFromList(fs, kind, name, w);
    RowExpectedPermuted(es, fs, kind, name);
    RowWeightPermuted(es, fs, kind, name, w);
  }
}
