/** What the node list of gangliamon.js says, from its text to the table. */
module LocationList {
  import opened Text
  import opened Monitor

  /** The fields of one node: its name, its type, its parent, and whatever follows. */
  type Node = seq<string>

  predicate Plain(s: string) {
    ':' !in s && ';' !in s
  }

  predicate Written(nodes: seq<Node>) {
    forall i :: 0 <= i < |nodes| ==> nodes[i] != [] && forall j :: 0 <= j < |nodes[i]| ==> Plain(nodes[i][j])
  }

  /** Every node as its fields with colons between them. */
  function Texts(nodes: seq<Node>): seq<string> {
    seq(|nodes|, i requires 0 <= i < |nodes| => Join(nodes[i], ':'))
  }

  function ListText(nodes: seq<Node>): string {
    Join(Texts(nodes), ';')
  }

  // ----- one node -----

  /** The text is this lower-case word, in any letter case. */
  predicate Spells(text: string, word: string) {
    && |text| == |word|
    && forall i :: 0 <= i < |text| ==>
         text[i] == word[i] || ('A' <= text[i] <= 'Z' && text[i] as int + 32 == word[i] as int)
  }

  predicate HasParent(n: Node) {
    |n| >= 3 && n[2] != ""
  }

  /** The types that go to a hash, by their names in any letter case. */
  function KindFor(nodeType: string): Kind {
    if Spells(nodeType, "blade") then Blade
    else if Spells(nodeType, "systemx") then Rack
    else if Spells(nodeType, "frame") then Frame
    else if Spells(nodeType, "cec") then Cec
    else if Spells(nodeType, "lpar") || Spells(nodeType, "lpar,osi") || Spells(nodeType, "osi,lpar") then Lpar
    else Other
  }

  /** The node as an entry: where it goes and its key there. */
  function EntryFor(n: Node): Entry
    requires n != []
  {
    if HasParent(n) then Entry(n[0], KindFor(n[1]), n[2]) else Entry(n[0], Other, "")
  }

  lemma LowerIs(text: string, word: string)
    requires forall i :: 0 <= i < |word| ==> word[i] == ',' || 'a' <= word[i] <= 'z'
    ensures Lower(text) == word <==> Spells(text, word)
  {
    if Lower(text) == word {
      forall i | 0 <= i < |text|
        ensures text[i] == word[i] || ('A' <= text[i] <= 'Z' && text[i] as int + 32 == word[i] as int)
      {
        assert Lower(text)[i] == word[i] == LowerChar(text[i]);
      }
    }
  }

  lemma KindSpelled(nodeType: string)
    ensures KindOf(Lower(nodeType)) == KindFor(nodeType)
  {
    LowerIs(nodeType, "blade");
    LowerIs(nodeType, "systemx");
    LowerIs(nodeType, "frame");
    LowerIs(nodeType, "cec");
    LowerIs(nodeType, "lpar");
    LowerIs(nodeType, "lpar,osi");
    LowerIs(nodeType, "osi,lpar");
  }

  /** Reading the text of a node gives its entry. */
  lemma NodeIsEntry(n: Node)
    requires n != [] && forall j :: 0 <= j < |n| ==> Plain(n[j])
    ensures ParseEntry(Join(n, ':')) == EntryFor(n)
  {
    SplitJoin(n, ':');
    if HasParent(n) {
      KindSpelled(n[1]);
    }
  }

  // ----- the whole list -----

  function Entries(nodes: seq<Node>): seq<Entry>
    requires Written(nodes)
  {
    seq(|nodes|, i requires 0 <= i < |nodes| => EntryFor(nodes[i]))
  }

  lemma {:induction false} JoinPlain(fields: seq<string>)
    requires forall j :: 0 <= j < |fields| ==> Plain(fields[j])
    ensures ';' !in Join(fields, ':')
  {
    if |fields| > 1 {
      JoinPlain(fields[1..]);
    }
  }

  /** Reading the text of a list gives the entries of its nodes. */
  lemma ListIsEntries(nodes: seq<Node>)
    requires Written(nodes) && nodes != []
    ensures ParseList(Split(ListText(nodes), ';')) == Entries(nodes)
  {
    var texts := Texts(nodes);
    forall i | 0 <= i < |nodes| ensures ';' !in texts[i] && ParseEntry(texts[i]) == EntryFor(nodes[i]) {
      JoinPlain(nodes[i]);
      NodeIsEntry(nodes[i]);
    }
    SplitJoin(texts, ';');
    ParseListAt(texts);
  }

  /** The nodes of any text. */
  function NodesOf(text: string): seq<Node> {
    var parts := Split(text, ';');
    seq(|parts|, i requires 0 <= i < |parts| => Split(parts[i], ':'))
  }

  /** Every text is the text of a list. */
  lemma EveryText(text: string)
    ensures Written(NodesOf(text)) && NodesOf(text) != [] && ListText(NodesOf(text)) == text
  {
    var parts, nodes := Split(text, ';'), NodesOf(text);
    SplitPieces(text, ';');
    forall i | 0 <= i < |nodes|
      ensures Join(nodes[i], ':') == parts[i] && forall j :: 0 <= j < |nodes[i]| ==> Plain(nodes[i][j])
    {
      JoinSplit(parts[i], ':');
      SplitPieces(parts[i], ':');
      forall j | 0 <= j < |nodes[i]| ensures ';' !in nodes[i][j] {
        PieceOf(parts[i], j, ';');
      }
    }
    assert Texts(nodes) == parts;
    JoinSplit(text, ';');
  }

  lemma {:induction false} PieceOf(s: string, j: nat, c: char)
    requires c !in s && j < |Split(s, ':')|
    ensures c !in Split(s, ':')[j]
    decreases |s|
  {
    if s != [] {
      var rest := Split(s[1..], ':');
      if s[0] == ':' {
        if j > 0 {
          PieceOf(s[1..], j - 1, c);
        }
      } else {
        PieceOf(s[1..], j, c);
      }
    }
  }

  // ----- the hashes -----

  /** The names of the nodes of one kind with this parent, in the order of the list. */
  function NamesBelow(nodes: seq<Node>, kind: Kind, parent: string): seq<string>
    requires Written(nodes)
  {
    if nodes == [] then [] else
      var n := nodes[|nodes| - 1];
      NamesBelow(nodes[..|nodes| - 1], kind, parent)
      + if HasParent(n) && KindFor(n[1]) == kind && n[2] == parent then [n[0]] else []
  }

  /** The names of the nodes without a parent or of another type. */
  function NamesElsewhere(nodes: seq<Node>): seq<string>
    requires Written(nodes)
  {
    if nodes == [] then [] else
      var n := nodes[|nodes| - 1];
      NamesElsewhere(nodes[..|nodes| - 1]) + if !HasParent(n) || KindFor(n[1]) == Other then [n[0]] else []
  }

  /** A node with a parent is a frame of this name. */
  predicate ListsFrame(nodes: seq<Node>, name: string)
    requires Written(nodes)
  {
    exists i :: 0 <= i < |nodes| && nodes[i][0] == name && HasParent(nodes[i]) && KindFor(nodes[i][1]) == Frame
  }

  lemma LastEntry(nodes: seq<Node>)
    requires Written(nodes) && nodes != []
    ensures var n := |nodes| - 1;
            Extracted(Entries(nodes)) == Add(Extracted(Entries(nodes[..n])), EntryFor(nodes[n]))
  {
    var n := |nodes| - 1;
    assert Entries(nodes)[..n] == Entries(nodes[..n]);
  }

  lemma {:induction false} GroupsFromList(nodes: seq<Node>, kind: Kind, key: string)
    requires Written(nodes) && (kind == Blade || kind == Rack || kind == Cec || kind == Lpar)
    ensures var h := HashOf(Extracted(Entries(nodes)), kind);
            Get(h, key) == NamesBelow(nodes, kind, key)
            && (kind != Cec ==> (HasKey(h, key) <==> NamesBelow(nodes, kind, key) != []))
  {
    if nodes != [] {
      var before, n := nodes[..|nodes| - 1], nodes[|nodes| - 1];
      var h, names := HashOf(Extracted(Entries(before)), kind), NamesBelow(before, kind, key);
      GroupsFromList(before, kind, key);
      LastEntry(nodes);
      assert names + [] == names;
      var e := EntryFor(n);
      if e.kind == kind {
        PushKeys(h, e.parent, e.name, key);
      } else if e.kind == Frame && kind == Cec && !HasKey(h, e.name) {
        TouchKeys(h, e.name, key);
      }
    }
  }

  lemma LastFrame(nodes: seq<Node>, name: string)
    requires Written(nodes) && nodes != []
    ensures var e := EntryFor(nodes[|nodes| - 1]);
            ListsFrame(nodes, name)
            <==> ListsFrame(nodes[..|nodes| - 1], name) || (e.kind == Frame && e.name == name)
  {
    var before := nodes[..|nodes| - 1];
    assert forall i :: 0 <= i < |before| ==> before[i] == nodes[i];
  }

  lemma {:induction false} FramesFromList(nodes: seq<Node>, key: string)
    requires Written(nodes)
    ensures HasKey(Extracted(Entries(nodes)).frames, key)
            <==> ListsFrame(nodes, key) || NamesBelow(nodes, Cec, key) != []
  {
    if nodes != [] {
      var before, n := nodes[..|nodes| - 1], nodes[|nodes| - 1];
      var frames, e := Extracted(Entries(before)).frames, EntryFor(n);
      FramesFromList(before, key);
      LastEntry(nodes);
      LastFrame(nodes, key);
      if e.kind == Cec {
        PushKeys(frames, e.parent, e.name, key);
      } else if e.kind == Frame && !HasKey(frames, e.name) {
        TouchKeys(frames, e.name, key);
      }
    }
  }

  lemma {:induction false} OthersFromList(nodes: seq<Node>)
    requires Written(nodes)
    ensures Extracted(Entries(nodes)).others == NamesElsewhere(nodes)
  {
    if nodes != [] {
      OthersFromList(nodes[..|nodes| - 1]);
      LastEntry(nodes);
    }
  }

  /**
   * The text of any list puts every node where its type and its parent say: blades, rack nodes, CECs and lpars below
   * their parents, in the order of the list, everything else with the others; a frame is there by itself as well.
   */
  lemma HashesFromText(nodes: seq<Node>, key: string)
    requires Written(nodes) && nodes != []
    ensures var h := Extracted(ParseList(Split(ListText(nodes), ';')));
            && Get(h.blades, key) == NamesBelow(nodes, Blade, key)
            && Get(h.racks, key) == NamesBelow(nodes, Rack, key)
            && Get(h.frames, key) == NamesBelow(nodes, Cec, key)
            && Get(h.cecs, key) == NamesBelow(nodes, Lpar, key)
            && (HasKey(h.blades, key) <==> NamesBelow(nodes, Blade, key) != [])
            && (HasKey(h.racks, key) <==> NamesBelow(nodes, Rack, key) != [])
            && (HasKey(h.cecs, key) <==> NamesBelow(nodes, Lpar, key) != [])
            && (HasKey(h.frames, key) <==> ListsFrame(nodes, key) || NamesBelow(nodes, Cec, key) != [])
            && h.others == NamesElsewhere(nodes)
  {
    ListIsEntries(nodes);
    GroupsFromList(nodes, Blade, key);
    GroupsFromList(nodes, Rack, key);
    GroupsFromList(nodes, Cec, key);
    GroupsFromList(nodes, Lpar, key);
    FramesFromList(nodes, key);
    OthersFromList(nodes);
  }

  /** The table from the text: its rows are those that the nodes of the list make. */
  lemma TableFromText(nodes: seq<Node>, kind: Kind, name: string, w: string -> nat)
    requires Written(nodes) && nodes != []
    ensures var h := Extracted(ParseList(Split(ListText(nodes), ';')));
            AsExpected(RowsNamed(Overview(h), kind, name), Entries(nodes), kind, name, w)
  {
    ListIsEntries(nodes);
    TableFromList(Entries(nodes), kind, name, w);
  }

  // ----- the order of the rows -----

  /** The keys of a hash in order. */
  function Keys(h: Hash): seq<string> {
    if h == [] then [] else [h[0].key] + Keys(h[1..])
  }

  function WithKey(keys: seq<string>, key: string): seq<string> {
    if key in keys then keys else keys + [key]
  }

  lemma {:induction false} KeysHas(h: Hash, key: string)
    ensures key in Keys(h) <==> HasKey(h, key)
  {
    if h != [] {
      KeysHas(h[1..], key);
    }
  }

  lemma {:induction false} KeysOfPush(h: Hash, key: string, name: string)
    ensures Keys(Push(h, key, name)) == WithKey(Keys(h), key)
  {
    if h != [] && h[0].key != key {
      KeysOfPush(h[1..], key, name);
    }
  }

  lemma {:induction false} KeysOfTouch(h: Hash, key: string)
    ensures Keys(Touch(h, key)) == WithKey(Keys(h), key)
  {
    KeysHas(h, key);
    if !HasKey(h, key) {
      KeysOfAppend(h, key);
    }
  }

  lemma {:induction false} KeysOfAppend(h: Hash, key: string)
    ensures Keys(h + [Group(key, [])]) == Keys(h) + [key]
  {
    if h != [] {
      KeysOfAppend(h[1..], key);
      assert (h + [Group(key, [])])[1..] == h[1..] + [Group(key, [])];
    }
  }

  /** The parents of the nodes of one kind, and for CECs the frames as well, in the order in which they come up. */
  function ParentsOf(nodes: seq<Node>, kind: Kind): seq<string>
    requires Written(nodes)
  {
    if nodes == [] then [] else
      var n, before := nodes[|nodes| - 1], ParentsOf(nodes[..|nodes| - 1], kind);
      if !HasParent(n) then before
      else if KindFor(n[1]) == kind then WithKey(before, n[2])
      else if KindFor(n[1]) == Frame && kind == Cec then WithKey(before, n[0])
      else before
  }

  lemma {:induction false} KeysFromList(nodes: seq<Node>, kind: Kind)
    requires Written(nodes) && (kind == Blade || kind == Rack || kind == Cec || kind == Lpar)
    ensures Keys(HashOf(Extracted(Entries(nodes)), kind)) == ParentsOf(nodes, kind)
  {
    if nodes != [] {
      var before, e := nodes[..|nodes| - 1], EntryFor(nodes[|nodes| - 1]);
      var h := HashOf(Extracted(Entries(before)), kind);
      KeysFromList(before, kind);
      LastEntry(nodes);
      if e.kind == kind {
        KeysOfPush(h, e.parent, e.name);
      } else if e.kind == Frame && kind == Cec {
        KeysOfTouch(h, e.name);
      }
    }
  }

  /** Type and name of every row. */
  function Headings(rows: seq<Row>): seq<(Kind, string)> {
    if rows == [] then [] else [(rows[0].kind, rows[0].name)] + Headings(rows[1..])
  }

  /** One heading for every name that is not left out. */
  function Headed(kind: Kind, names: seq<string>, without: seq<string>): seq<(Kind, string)> {
    if names == [] then []
    else (if names[0] in without then [] else [(kind, names[0])]) + Headed(kind, names[1..], without)
  }

  lemma {:induction false} HeadingsAppend(a: seq<Row>, b: seq<Row>)
    ensures Headings(a + b) == Headings(a) + Headings(b)
  {
    if a == [] {
      assert a + b == b;
    } else {
      HeadingsAppend(a[1..], b);
      assert (a + b)[1..] == a[1..] + b;
    }
  }

  lemma {:induction false} FrameHeadings(frames: Hash, cecs: Hash)
    ensures Headings(FrameRows(frames, cecs)) == Headed(Frame, Keys(frames), [])
  {
    if frames != [] {
      FrameHeadings(frames[1..], cecs);
    }
  }

  lemma {:induction false} GroupHeadings(h: Hash, kind: Kind, without: seq<string>)
    ensures Headings(GroupRows(h, kind, set c | c in without)) == Headed(kind, Keys(h), without)
  {
    if h != [] {
      var used := set c | c in without;
      GroupHeadings(h[1..], kind, without);
      assert Keys(h)[1..] == Keys(h[1..]);
      HeadingsAppend(if h[0].key in used then [] else [Row(kind, h[0].key, h[0].members)],
                     GroupRows(h[1..], kind, used));
    }
  }

  /** The names of all CECs that are listed with a parent. */
  function CecNames(nodes: seq<Node>): seq<string>
    requires Written(nodes)
  {
    if nodes == [] then [] else
      var n := nodes[|nodes| - 1];
      CecNames(nodes[..|nodes| - 1]) + if HasParent(n) && KindFor(n[1]) == Cec then [n[0]] else []
  }

  lemma {:induction false} CecsListed(nodes: seq<Node>, c: string)
    requires Written(nodes)
    ensures c in CecNames(nodes) <==> c in CecsOf(Extracted(Entries(nodes)).frames)
  {
    if nodes != [] {
      var before, e := nodes[..|nodes| - 1], EntryFor(nodes[|nodes| - 1]);
      var frames := Extracted(Entries(before)).frames;
      CecsListed(before, c);
      LastEntry(nodes);
      if e.kind == Cec {
        PushLists(frames, e.parent, e.name, c);
        ListedIff(CecsOf(frames), c);
        ListedIff(CecsOf(Push(frames, e.parent, e.name)), c);
      } else if e.kind == Frame {
        TouchLists(frames, e.name);
      }
    }
  }

  lemma {:induction false} SameLeftOut(kind: Kind, names: seq<string>, a: seq<string>, b: seq<string>)
    requires forall c :: c in a <==> c in b
    ensures Headed(kind, names, a) == Headed(kind, names, b)
  {
    if names != [] {
      SameLeftOut(kind, names[1..], a, b);
    }
  }

  lemma OverviewHeadings(h: Hierarchy)
    ensures Headings(Overview(h))
            == Headed(Frame, Keys(h.frames), []) + Headed(Cec, Keys(h.cecs), CecsOf(h.frames))
               + Headed(Blade, Keys(h.blades), []) + Headed(Rack, Keys(h.racks), [])
               + if h.others == [] then [] else [(Other, "Other")]
  {
    var frames, cecs := FrameRows(h.frames, h.cecs), GroupRows(h.cecs, Cec, UsedCecs(h.frames));
    var blades, racks := GroupRows(h.blades, Blade, {}), GroupRows(h.racks, Rack, {});
    var others := if h.others == [] then [] else [Row(Other, "Other", h.others)];
    HeadingsAppend(frames + cecs + blades + racks, others);
    HeadingsAppend(frames + cecs + blades, racks);
    HeadingsAppend(frames + cecs, blades);
    HeadingsAppend(frames, cecs);
    FrameHeadings(h.frames, h.cecs);
    GroupHeadings(h.cecs, Cec, CecsOf(h.frames));
    assert (set c: string | c in []) == {};
    GroupHeadings(h.blades, Blade, []);
    GroupHeadings(h.racks, Rack, []);
    assert others != [] ==> Headings(others[1..]) == [];
  }

  /**
   * The rows of the table in order: all frames, then the lpar groups of CECs that are not listed below a frame, the
   * blade centers, the racks, and the others; each type in the order in which its names come up in the list.
   */
  lemma TableOrder(nodes: seq<Node>)
    requires Written(nodes) && nodes != []
    ensures Headings(Overview(Extracted(ParseList(Split(ListText(nodes), ';')))))
            == Headed(Frame, ParentsOf(nodes, Cec), []) + Headed(Cec, ParentsOf(nodes, Lpar), CecNames(nodes))
               + Headed(Blade, ParentsOf(nodes, Blade), []) + Headed(Rack, ParentsOf(nodes, Rack), [])
               + if NamesElsewhere(nodes) == [] then [] else [(Other, "Other")]
  {
    var h := Extracted(Entries(nodes));
    ListIsEntries(nodes);
    OverviewHeadings(h);
    KeysFromList(nodes, Cec);
    KeysFromList(nodes, Lpar);
    KeysFromList(nodes, Blade);
    KeysFromList(nodes, Rack);
    forall c ensures c in CecNames(nodes) <==> c in CecsOf(h.frames) {
      CecsListed(nodes, c);
    }
    SameLeftOut(Cec, Keys(h.cecs), CecNames(nodes), CecsOf(h.frames));
    OthersFromList(nodes);
  }
}
