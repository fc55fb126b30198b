/** The configuration file of src/proxydhcp.c: the chunked loader and the search for a node's path. */
module NodeConfig {
  import opened Text

  newtype byte = x: int | 0 <= x < 256

  type Bytes = seq<byte>

  /** `struct nodecfg`: a name field and a path field. */
  const NAME_SIZE: nat := 50
  const RECORD_SIZE: nat := 200

  /** How many complete records `size` bytes hold. */
  function Records(size: nat): nat {
    if size < RECORD_SIZE then 0 else Records(size - RECORD_SIZE) + 1
  }

  lemma {:induction false} RecordsFit(size: nat)
    ensures Records(size) * RECORD_SIZE <= size < (Records(size) + 1) * RECORD_SIZE
  {
    if size >= RECORD_SIZE {
      RecordsFit(size - RECORD_SIZE);
    }
  }

  lemma {:induction false} RecordsAdd(n: nat, size: nat)
    ensures Records(n * RECORD_SIZE + size) == n + Records(size)
  {
    if n > 0 {
      RecordsAdd(n - 1, size);
    }
  }

  function Zeroes(n: nat): Bytes {
    seq(n, _ => 0)
  }

  /** The C string at `off`: the bytes before the first NUL. */
  function CString(data: Bytes, off: nat): Bytes
    requires off <= |data|
    decreases |data| - off
  {
    if off == |data| || data[off] == 0 then [] else [data[off]] + CString(data, off + 1)
  }

  /** `data` starts with `file` and goes on with zeros, at least one. */
  predicate ZeroPadded(file: Bytes, data: Bytes) {
    && |file| < |data| && file == data[..|file|]
    && forall i :: |file| <= i < |data| ==> data[i] == 0
  }

  /** The globals `data` and `nodenum`; `data` is the buffer, all of it allocated. */
  class Config {
    const chunk: nat
    var data: Bytes
    var nodenum: nat

    constructor (chunk: nat)
      requires chunk > 0
      ensures this.chunk == chunk && data == [] && nodenum == 0
    {
      this.chunk := chunk;
      data := [];
      nodenum := 0;
    }

    /** What `loadcfg` establishes for a file: all of its bytes, then at least one zero; nothing without a file. */
    ghost predicate Loaded(file: Option<Bytes>)
      reads this
    {
      match file
      case None => nodenum == 0 && data == []
      case Some(bytes) => nodenum == Records(|bytes|) && ZeroPadded(bytes, data)
    }

    /**
     * `loadcfg`: chunks of zeroed memory are filled by `fread` until one of them stays short. `fread` stores every
     * byte it gets and counts the complete records.
     */
    method LoadCfg(fp: Option<Bytes>)
      requires chunk > 0
      modifies this
      ensures Loaded(fp)
    {
      nodenum := 0;
      data := [];
      if fp.None? {
        return;
      }
      var file := fp.value;
      var pos := 0;
      var num := chunk;
      while num == chunk
        invariant num <= chunk && pos <= |file|
        invariant num == chunk ==> pos == |data| && nodenum * RECORD_SIZE == pos && data == file[..pos]
        invariant num < chunk ==> Loaded(fp)
        decreases num == chunk, |file| - pos
      {
        var room := chunk * RECORD_SIZE;
        var got := if |file| - pos < room then |file| - pos else room;
        NextChunk(file, pos, got, room);
        data := data + file[pos..pos + got] + Zeroes(room - got);
        num := Records(got);
        ChunkCount(got, chunk);
        RecordsAdd(nodenum, got);
        nodenum := nodenum + num;
        pos := pos + got;
      }
    }

    /** `getwinpepath`: the path of the first record whose name is `node`. */
    method GetWinPePath(node: Bytes, ghost file: Option<Bytes>) returns (path: Option<Bytes>)
      requires Loaded(file)
      ensures path == if file.Some? then FindPath(file.value, node, 0) else None
    {
      for i := 0 to nodenum
        invariant file.Some? ==> FindPath(file.value, node, 0) == FindPath(file.value, node, i)
      {
        RecordsFit(|file.value|);
        RecordInside(i, nodenum);
        SameString(file.value, data, i * RECORD_SIZE);
        SameString(file.value, data, i * RECORD_SIZE + NAME_SIZE);
        if CString(data, i * RECORD_SIZE) == node {
          return Some(CString(data, i * RECORD_SIZE + NAME_SIZE));
        }
      }
      return None;
    }
  }

  lemma NextChunk(file: Bytes, pos: nat, got: nat, room: nat)
    requires pos + got <= |file| && got <= room && (got < room ==> pos + got == |file|)
    ensures var data := file[..pos] + file[pos..pos + got] + Zeroes(room - got);
            if got == room then data == file[..pos + got] else ZeroPadded(file, data)
  {
  }

  lemma ChunkCount(got: nat, chunk: nat)
    requires got <= chunk * RECORD_SIZE && chunk > 0
    ensures Records(got) <= chunk
    ensures Records(got) == chunk <==> got == chunk * RECORD_SIZE
  {
    RecordsFit(got);
  }

  lemma RecordInside(i: nat, n: nat)
    requires i < n
    ensures (i + 1) * RECORD_SIZE <= n * RECORD_SIZE
  {
  }

  /** Strings in the file and in the buffer are the same: the buffer goes on with zeros. */
  lemma {:induction false} SameString(file: Bytes, data: Bytes, off: nat)
    requires ZeroPadded(file, data) && off <= |file|
    ensures CString(file, off) == CString(data, off)
    decreases |file| - off
  {
    if off < |file| {
      assert file[off] == data[off];
      SameString(file, data, off + 1);
    }
  }

  /** The path of the first record from number `i` on whose name is `node`. */
  function FindPath(file: Bytes, node: Bytes, i: nat): Option<Bytes>
    requires i <= Records(|file|)
    decreases Records(|file|) - i
  {
    if i == Records(|file|) then None else
      RecordsFit(|file|);
      RecordInside(i, Records(|file|));
      if CString(file, i * RECORD_SIZE) == node then Some(CString(file, i * RECORD_SIZE + NAME_SIZE))
      else FindPath(file, node, i + 1)
  }

  /** The search from record `i` on, when the first record of the node from there on is number `k`, or there is none. */
  lemma {:induction false} SearchFrom(file: Bytes, node: Bytes, i: nat, k: nat)
    requires i <= k <= Records(|file|) && 200 * k <= |file|
    requires forall j :: i <= j < k ==> CString(file, 200 * j) != node
    ensures k == Records(|file|) ==> FindPath(file, node, i) == None
    ensures 200 * k + 200 <= |file| && CString(file, 200 * k) == node ==>
              FindPath(file, node, i) == Some(CString(file, 200 * k + 50))
    decreases k - i
  {
    RecordsFit(|file|);
    if i < k {
      assert CString(file, 200 * i) != node;
      SearchFrom(file, node, i + 1, k);
    }
  }

  /**
   * Records are 200 bytes long, with the name at their start and the path behind 50 bytes: the search gives the path
   * of the first complete record with the name, if there is one.
   */
  lemma SearchByOffset(file: Bytes, node: Bytes, k: nat)
    requires 200 * k <= |file| && forall j :: 0 <= j < k ==> CString(file, 200 * j) != node
    ensures 200 * k + 200 > |file| ==> FindPath(file, node, 0) == None
    ensures 200 * k + 200 <= |file| && CString(file, 200 * k) == node ==>
              FindPath(file, node, 0) == Some(CString(file, 200 * k + 50))
  {
    RecordsFit(|file|);
    SearchFrom(file, node, 0, k);
  }

  // ----- a written file -----

  datatype NodeCfg = NodeCfg(node: Bytes, path: Bytes)

  /** Both texts and a NUL fit their fields. */
  predicate Fits(r: NodeCfg) {
    |r.node| < NAME_SIZE && |r.path| < RECORD_SIZE - NAME_SIZE && 0 !in r.node && 0 !in r.path
  }

  function Encode(r: NodeCfg): (e: Bytes)
    requires Fits(r)
  {
    NameField(r) + PathField(r)
  }

  predicate AllFit(rs: seq<NodeCfg>) {
    forall i :: 0 <= i < |rs| ==> Fits(rs[i])
  }

  function EncodeAll(rs: seq<NodeCfg>): (e: Bytes)
    requires AllFit(rs)
    ensures |e| == |rs| * RECORD_SIZE
  {
    if rs == [] then [] else Encode(rs[0]) + EncodeAll(rs[1..])
  }

  /** The path of the first record of that node. */
  function PathOf(rs: seq<NodeCfg>, node: Bytes): Option<Bytes> {
    if rs == [] then None else if rs[0].node == node then Some(rs[0].path) else PathOf(rs[1..], node)
  }

  lemma {:induction false} StringAt(data: Bytes, off: nat, s: Bytes)
    requires off + |s| < |data| && data[off..off + |s|] == s && 0 !in s && data[off + |s|] == 0
    ensures CString(data, off) == s
    decreases |s|
  {
    if s != [] {
      assert data[off] == s[0];
      assert data[off + 1..off + |s|] == s[1..];
      StringAt(data, off + 1, s[1..]);
    }
  }

  lemma FieldAt(front: Bytes, s: Bytes, zeroes: nat, back: Bytes)
    requires 0 !in s && zeroes > 0
    ensures CString(front + (s + Zeroes(zeroes)) + back, |front|) == s
  {
    var data := front + (s + Zeroes(zeroes)) + back;
    assert data[|front|..|front| + |s|] == s;
    StringAt(data, |front|, s);
  }

  function NameField(r: NodeCfg): (f: Bytes)
    requires Fits(r)
  {
    r.node + Zeroes(NAME_SIZE - |r.node|)
  }

  function PathField(r: NodeCfg): Bytes
    requires Fits(r)
  {
    r.path + Zeroes(RECORD_SIZE - NAME_SIZE - |r.path|)
  }

  lemma EncodedName(front: Bytes, r: NodeCfg, back: Bytes)
    requires Fits(r)
    ensures CString(front + Encode(r) + back, |front|) == r.node
  {
    Regroup(front, NameField(r), PathField(r), back);
    FieldAt(front, r.node, NAME_SIZE - |r.node|, PathField(r) + back);
  }

  lemma EncodedPath(front: Bytes, r: NodeCfg, back: Bytes)
    requires Fits(r)
    ensures CString(front + Encode(r) + back, |front| + NAME_SIZE) == r.path
  {
    Regroup(front, NameField(r), PathField(r), back);
    FieldAt(front + NameField(r), r.path, RECORD_SIZE - NAME_SIZE - |r.path|, back);
  }

  lemma Regroup(front: Bytes, name: Bytes, path: Bytes, back: Bytes)
    ensures front + (name + path) + back == front + name + (path + back)
    ensures front + (name + path) + back == (front + name) + path + back
  {
  }

  lemma {:induction false} FindEncoded(front: seq<NodeCfg>, rs: seq<NodeCfg>, node: Bytes, tail: Bytes)
    requires AllFit(front) && AllFit(rs) && AllFit(front + rs) && |tail| < RECORD_SIZE
    ensures Records(|EncodeAll(front + rs) + tail|) == |front| + |rs|
    ensures FindPath(EncodeAll(front + rs) + tail, node, |front|) == PathOf(rs, node)
    decreases |rs|
  {
    RecordsAdd(|front + rs|, |tail|);
    if rs != [] {
      FirstEncoded(front, rs, tail);
      assert front + rs == (front + [rs[0]]) + rs[1..];
      FindEncoded(front + [rs[0]], rs[1..], node, tail);
    }
  }

  lemma FirstEncoded(front: seq<NodeCfg>, rs: seq<NodeCfg>, tail: Bytes)
    requires AllFit(front) && AllFit(rs) && AllFit(front + rs) && rs != []
    ensures var file, off := EncodeAll(front + rs) + tail, |front| * RECORD_SIZE;
            && off + RECORD_SIZE <= |file|
            && CString(file, off) == rs[0].node && CString(file, off + NAME_SIZE) == rs[0].path
  {
    EncodeSplit(front, rs);
    var e, back := EncodeAll(front), EncodeAll(rs[1..]) + tail;
    Regroup(e, Encode(rs[0]), EncodeAll(rs[1..]), tail);
    EncodedName(e, rs[0], back);
    EncodedPath(e, rs[0], back);
  }

  lemma {:induction false} EncodeSplit(front: seq<NodeCfg>, rs: seq<NodeCfg>)
    requires AllFit(front) && AllFit(rs) && AllFit(front + rs)
    ensures EncodeAll(front + rs) == EncodeAll(front) + EncodeAll(rs)
    decreases |front|
  {
    if front == [] {
      assert front + rs == rs;
    } else {
      assert (front + rs)[1..] == front[1..] + rs;
      EncodeSplit(front[1..], rs);
    }
  }

  /**
   * For every list of records, also a whole number of chunks of them, and any incomplete record after them, the
   * search in the loaded file finds the path of the first record of the node.
   */
  lemma SearchFindsFirst(rs: seq<NodeCfg>, node: Bytes, tail: Bytes)
    requires AllFit(rs) && |tail| < RECORD_SIZE
    ensures FindPath(EncodeAll(rs) + tail, node, 0) == PathOf(rs, node)
  {
    assert [] + rs == rs;
    FindEncoded([], rs, node, tail);
  }
}
