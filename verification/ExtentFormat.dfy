// Extent trees as they are written to disk: the walk of a written tree ends, and
// yields the extents of its leaves in order.

module ExtentFormat {
  import opened Basics
  import opened ByteReaders
  import opened ExtentTree
  import opened ExtentWalk
  import opened ExtentBlocks

  // ----- trees

  /** A tree of extents. The depth in an inner node need not be its height. */
  datatype Node =
    | LeafNode(extents: seq<Extent>)
    | InnerNode(depth: nat, children: seq<Child>)
  {
    function Count(): nat {
      if LeafNode? then |extents| else |children|
    }

    function Depth(): nat {
      if LeafNode? then 0 else depth
    }
  }

  /** A child, the block that holds it, and the first file block that it is for, which
      the walk does not use; or a block that holds no node. */
  datatype Child =
    | Child(firstBlock: nat, block: nat, node: Node)
    | Lost(firstBlock: nat, block: nat, error: Error)

  /** The extents of the leaves from entry `k` of the node on, from left to right, up to
      the first child that is lost. */
  function LeavesFrom(t: Node, k: nat): Stream<Extent>
    decreases t, t.Count() - k
  {
    if k >= t.Count() then Stream([], None)
    else if t.LeafNode? then Stream([t.extents[k]], None).Then(LeavesFrom(t, k + 1))
    else if t.children[k].Lost? then Stream([], Some(t.children[k].error))
    else LeavesFrom(t.children[k].node, 0).Then(LeavesFrom(t, k + 1))
  }

  // ----- a walk that finds a tree

  /** The node at its entry `k`. */
  function At(item: Item, k: nat): Item {
    item.(entry := k)
  }

  /** Visiting the entries of `item` finds the tree. */
  ghost predicate Represents(v: Visitor, item: Item, t: Node)
    decreases t, 1
  {
    && item.entry == 0 && v(At(item, t.Count())).Done?
    && (t.LeafNode? ==> forall k :: 0 <= k < |t.extents| ==> v(At(item, k)) == Leaf(t.extents[k]))
    && (t.InnerNode? ==> forall k :: 0 <= k < |t.children| ==> Finds(v, v(At(item, k)), t.children[k]))
  }

  ghost predicate Finds(v: Visitor, visit: Visit, c: Child)
    decreases c, 0
  {
    match c
    case Lost(_, _, e) => visit == Broken(e)
    case Child(_, _, node) => visit.Down? && Represents(v, visit.child, node)
  }

  /** The walk goes on after a leaf entry. */
  lemma WalkLeaf(v: Visitor, item: Item, x: Extent)
    requires v(item) == Leaf(x) && IsFinite(v, item.Next())
    ensures IsFinite(v, item) && Tree(v, item).extents == Stream([x], None).Then(Tree(v, item.Next()).extents)
  {
    var h: nat :| WalkWithin(v, item.Next(), h).Some?;
    assert WalkWithin(v, item, h).Some?;
    TreeUnfolds(v, item);
  }

  lemma DownWithin(v: Visitor, item: Item, child: Item, h: nat, k: nat)
    requires v(item) == Down(child) && WalkWithin(v, child, h).Some? && WalkWithin(v, item.Next(), k).Some?
    ensures IsFinite(v, item)
  {
    var n := if h + 1 <= k then k else h + 1;
    DeeperIsSame(v, child, h, n - 1);
    DeeperIsSame(v, item.Next(), k, n);
    assert WalkWithin(v, item, n).Some?;
  }

  /** The walk goes on after a child. */
  lemma WalkDown(v: Visitor, item: Item, child: Item)
    requires v(item) == Down(child) && IsFinite(v, child) && IsFinite(v, item.Next())
    ensures IsFinite(v, item)
    ensures Tree(v, item).extents == Tree(v, child).extents.Then(Tree(v, item.Next()).extents)
  {
    var h: nat :| WalkWithin(v, child, h).Some?;
    var k: nat :| WalkWithin(v, item.Next(), k).Some?;
    DownWithin(v, item, child, h, k);
    TreeUnfolds(v, item);
  }

  /** The walk ends after the last entry, and at an error. */
  lemma WalkEnds(v: Visitor, item: Item)
    requires v(item).Done? || v(item).Broken?
    ensures IsFinite(v, item)
    ensures Tree(v, item).extents == Stream([], if v(item).Done? then None else Some(v(item).error))
  {
    assert WalkWithin(v, item, 0).Some?;
    TreeUnfolds(v, item);
  }

  /** The walk of a tree that it finds ends, and yields the extents of the leaves. */
  lemma {:induction false} WalkFinds(v: Visitor, item: Item, t: Node, k: nat)
    requires Represents(v, item, t) && k <= t.Count()
    ensures IsFinite(v, At(item, k)) && Tree(v, At(item, k)).extents == LeavesFrom(t, k)
    decreases t, t.Count() - k
  {
    if k == t.Count() {
      WalkEnds(v, At(item, k));
    } else {
      assert At(item, k).Next() == At(item, k + 1);
      WalkFinds(v, item, t, k + 1);
      if t.LeafNode? {
        WalkLeaf(v, At(item, k), t.extents[k]);
      } else {
        assert Finds(v, v(At(item, k)), t.children[k]);
        WalkChild(v, item, t, k);
      }
    }
  }

  lemma {:induction false} WalkChild(v: Visitor, item: Item, t: Node, k: nat)
    requires t.InnerNode? && k < |t.children| && Finds(v, v(At(item, k)), t.children[k])
    requires At(item, k).Next() == At(item, k + 1)
    requires IsFinite(v, At(item, k + 1)) && Tree(v, At(item, k + 1)).extents == LeavesFrom(t, k + 1)
    ensures IsFinite(v, At(item, k)) && Tree(v, At(item, k)).extents == LeavesFrom(t, k)
    decreases t.children[k]
  {
    match t.children[k]
    case Lost(_, _, e) => WalkEnds(v, At(item, k));
    case Child(_, _, node) =>
      var child := v(At(item, k)).child;
      WalkFinds(v, child, node, 0);
      assert At(child, 0) == child;
      WalkDown(v, At(item, k), child);
  }

  // ----- nodes in bytes

  predicate Writable(t: Node) {
    && t.Count() < U16_LIMIT
    && (t.LeafNode? ==> AllInRange(t.extents))
    && (t.InnerNode? ==>
          && 0 < t.depth <= 5
          && forall k :: 0 <= k < |t.children| ==>
               && t.children[k].firstBlock < U32_LIMIT && t.children[k].block < U48_LIMIT
               && (t.children[k].Child? ==> Writable(t.children[k].node)))
  }

  function EncodeExtent(e: Extent): (r: Bytes)
    requires InRange(e)
    ensures |r| == ENTRY_SIZE
  {
    PutU32le(e.blockWithinFile) + PutU16le(e.numBlocks)
    + PutU16le(e.startBlock / U32_LIMIT) + PutU32le(e.startBlock % U32_LIMIT)
  }

  lemma ExtentRoundTrip(e: Extent)
    requires InRange(e)
    ensures ReadExtent(EncodeExtent(e)) == e
  {
    var a, b, c, d := PutU32le(e.blockWithinFile), PutU16le(e.numBlocks), PutU16le(e.startBlock / U32_LIMIT),
      PutU32le(e.startBlock % U32_LIMIT);
    var s := EncodeExtent(e);
    assert s[0..4] == a && s[4..6] == b && s[6..8] == c && s[8..12] == d;
    U32leAt(s, 0, a);
    U16leAt(s, 4, b);
    U16leAt(s, 6, c);
    U32leAt(s, 8, d);
  }

  /** The entry of an inner node, which has two unused bytes at its end. */
  function EncodeChild(c: Child): (r: Bytes)
    requires c.firstBlock < U32_LIMIT && c.block < U48_LIMIT
    ensures |r| == ENTRY_SIZE
  {
    PutU32le(c.firstBlock) + PutU32le(c.block % U32_LIMIT) + PutU16le(c.block / U32_LIMIT) + [0, 0]
  }

  lemma ChildRoundTrip(c: Child)
    requires c.firstBlock < U32_LIMIT && c.block < U48_LIMIT
    ensures ChildBlock(EncodeChild(c)) == c.block
  {
    var lo, hi := PutU32le(c.block % U32_LIMIT), PutU16le(c.block / U32_LIMIT);
    var s := EncodeChild(c);
    assert s[4..8] == lo && s[8..10] == hi;
    U32leAt(s, 4, lo);
    U16leAt(s, 8, hi);
  }

  /** The header of a node; the last four bytes are not used. */
  function EncodeHeader(h: NodeHeader): (r: Bytes)
    requires h.numEntries < U16_LIMIT && h.maxEntries < U16_LIMIT && h.depth <= 5
    ensures |r| == ENTRY_SIZE
  {
    PutU16le(0xf30a) + PutU16le(h.numEntries) + PutU16le(h.maxEntries) + PutU16le(h.depth) + [0, 0, 0, 0]
  }

  lemma HeaderRoundTrip(h: NodeHeader, rest: Bytes)
    requires h.numEntries < U16_LIMIT && h.maxEntries < U16_LIMIT && h.depth <= 5
    ensures ReadHeader(EncodeHeader(h) + rest) == Ok(h)
  {
    var s := EncodeHeader(h) + rest;
    var m, n, x, d := PutU16le(0xf30a), PutU16le(h.numEntries), PutU16le(h.maxEntries), PutU16le(h.depth);
    assert s[0..2] == m && s[2..4] == n && s[4..6] == x && s[6..8] == d;
    U16leAt(s, 0, m);
    U16leAt(s, 2, n);
    U16leAt(s, 4, x);
    U16leAt(s, 6, d);
  }

  function EncodeEntry(t: Node, k: nat): (r: Bytes)
    requires Writable(t) && k < t.Count()
    ensures |r| == ENTRY_SIZE
  {
    if t.LeafNode? then EncodeExtent(t.extents[k]) else EncodeChild(t.children[k])
  }

  predicate AreEntries(es: seq<Bytes>) {
    forall i :: 0 <= i < |es| ==> |es[i]| == ENTRY_SIZE
  }

  function EncodeEntries(t: Node): (r: seq<Bytes>)
    requires Writable(t)
    ensures |r| == t.Count() && AreEntries(r)
  {
    seq(t.Count(), k requires 0 <= k < t.Count() => EncodeEntry(t, k))
  }

  function JoinEntries(es: seq<Bytes>): (r: Bytes)
    requires AreEntries(es)
    ensures |r| == |es| * ENTRY_SIZE
  {
    if es == [] then [] else JoinEntries(es[..|es| - 1]) + es[|es| - 1]
  }

  lemma {:induction false} EntryIsThere(es: seq<Bytes>, k: nat)
    requires AreEntries(es) && k < |es|
    ensures JoinEntries(es)[k * ENTRY_SIZE..(k + 1) * ENTRY_SIZE] == es[k]
    decreases |es|
  {
    var before, last := JoinEntries(es[..|es| - 1]), es[|es| - 1];
    if k == |es| - 1 {
      SliceOfSecond(before, last, 0, ENTRY_SIZE);
      assert last[0..ENTRY_SIZE] == last;
    } else {
      EntryIsThere(es[..|es| - 1], k);
      SliceOfFirst(before, last, k * ENTRY_SIZE, (k + 1) * ENTRY_SIZE);
    }
  }

  lemma SliceOfFirst(a: Bytes, b: Bytes, i: nat, j: nat)
    requires i <= j <= |a|
    ensures (a + b)[i..j] == a[i..j]
  {
  }

  /** A node with room for `max` entries. */
  function EncodeNode(t: Node, max: nat): (r: Bytes)
    requires Writable(t) && max < U16_LIMIT
    ensures |r| == (t.Count() + 1) * ENTRY_SIZE
  {
    EncodeHeader(NodeHeader(t.Count(), max, t.Depth())) + JoinEntries(EncodeEntries(t))
  }

  function ItemOf(t: Node, max: nat): Item
    requires Writable(t) && max < U16_LIMIT
  {
    Item(EncodeNode(t, max), 0, t.Depth())
  }

  /** A written node is read back, whatever follows it. */
  lemma NodeRoundTrip(t: Node, max: nat, rest: Bytes)
    requires Writable(t) && max < U16_LIMIT
    ensures NewItem(EncodeNode(t, max) + rest) == Ok(ItemOf(t, max))
  {
    var h := NodeHeader(t.Count(), max, t.Depth());
    var entries := JoinEntries(EncodeEntries(t));
    HeaderRoundTrip(h, entries + rest);
    assert EncodeNode(t, max) + rest == EncodeHeader(h) + (entries + rest);
    assert (EncodeNode(t, max) + rest)[..h.NodeSize()] == EncodeNode(t, max);
  }

  lemma EntryOfNode(t: Node, max: nat, k: nat)
    requires Writable(t) && max < U16_LIMIT && k <= t.Count()
    ensures At(ItemOf(t, max), k).Next().Entry() == if k < t.Count() then Some(EncodeEntry(t, k)) else None
  {
    var header, es := EncodeHeader(NodeHeader(t.Count(), max, t.Depth())), EncodeEntries(t);
    EntryOfBytes(header, JoinEntries(es), k, t.Depth());
    if k < t.Count() {
      EntryIsThere(es, k);
    }
  }

  lemma EntryOfBytes(header: Bytes, body: Bytes, k: nat, depth: nat)
    requires |header| == ENTRY_SIZE
    ensures Item(header + body, k, depth).Next().Entry() ==
            if (k + 1) * ENTRY_SIZE <= |body| then Some(body[k * ENTRY_SIZE..(k + 1) * ENTRY_SIZE]) else None
  {
    if (k + 1) * ENTRY_SIZE <= |body| {
      SliceOfSecond(header, body, k * ENTRY_SIZE, (k + 1) * ENTRY_SIZE);
    }
  }

  lemma SliceOfSecond(a: Bytes, b: Bytes, i: nat, j: nat)
    requires i <= j <= |b|
    ensures (a + b)[|a| + i..|a| + j] == b[i..j]
  {
  }

  // ----- trees on disk

  /** How much of a block holds a node with room for all its entries. */
  function SizeOf(fs: Fs, h: NodeHeader): nat {
    h.ChecksumOffset() + if fs.hasChecksums then 4 else 0
  }

  /** The block holds `content`, which starts with the node and passes its checksum. */
  ghost predicate Holds(fs: Fs, block: nat, t: Node, max: nat, content: Bytes)
    requires Writable(t) && max < U16_LIMIT
  {
    var h := NodeHeader(t.Count(), max, t.Depth());
    && t.Count() <= max && SizeOf(fs, h) <= |content| == fs.blockSize && EncodeNode(t, max) <= content
    && (forall n :: 0 <= n <= |content| ==> fs.read(block, n) == Ok(content[..n]))
    && (fs.hasChecksums ==> fs.checksumOk(content[..SizeOf(fs, h)], h.ChecksumOffset()))
  }

  ghost predicate Stored(fs: Fs, block: nat, t: Node, max: nat)
    requires Writable(t) && max < U16_LIMIT
  {
    exists content :: Holds(fs, block, t, max, content)
  }

  /** The first bytes of `data` are no header of a node. */
  predicate BadHeader(data: Bytes) {
    |data| < 12 || U16le(data, 0) != 0xf30a || U16le(data, 6) > 5
  }

  /** `data` is no node, or too short for its entries. */
  predicate BadNode(data: Bytes) {
    BadHeader(data) || |data| < (U16le(data, 2) + 1) * 12
  }

  /** Bytes are a node exactly if they have the magic number, a depth of at most five and
      room for the entries that they count. */
  lemma NewItemExactly(data: Bytes)
    ensures NewItem(data) ==
            if BadNode(data) then Err(Corrupt)
            else Ok(Item(data[..(U16le(data, 2) + 1) * 12], 0, U16le(data, 6)))
  {
  }

  /** What the block holds cannot be loaded as a node, for the reason `e`. */
  ghost predicate HoldsNone(fs: Fs, block: nat, e: Error) {
    var first := fs.read(block, 12);
    || first == Err(e)
    || (first.Ok? && BadHeader(first.value) && e == Corrupt)
    || (first.Ok? && !BadHeader(first.value) && HasBadNode(fs, block, (U16le(first.value, 4) + 1) * 12, e))
  }

  /** The checksum of the node would be at `offset`. */
  ghost predicate HasBadNode(fs: Fs, block: nat, offset: nat, e: Error) {
    var size := if fs.hasChecksums then offset + 4 else offset;
    if size > fs.blockSize then e == Corrupt
    else
      var node := fs.read(block, size);
      || node == Err(e)
      || (node.Ok? && fs.hasChecksums && !fs.checksumOk(node.value, offset) && e == Corrupt)
      || (node.Ok? && BadNode(node.value) && e == Corrupt)
  }

  /** A node fails to load exactly for the reasons above. */
  lemma LoadFailsExactly(fs: Fs, block: nat, e: Error)
    requires fs.Valid()
    ensures LoadNode(fs, block) == Err(e) <==> HoldsNone(fs, block, e)
  {
    var first := fs.read(block, 12);
    if first.Ok? && !BadHeader(first.value) {
      var offset := (U16le(first.value, 4) + 1) * 12;
      var node := fs.read(block, if fs.hasChecksums then offset + 4 else offset);
      if node.Ok? {
        NewItemExactly(node.value);
      }
    }
  }

  /** All nodes below `t` are stored where it says, but for those that are lost. */
  ghost predicate StoredBelow(fs: Fs, t: Node)
    requires Writable(t)
    decreases t
  {
    t.InnerNode? ==>
      forall k :: 0 <= k < |t.children| ==>
        var c := t.children[k];
        match c
        case Lost(_, _, e) => HoldsNone(fs, c.block, e)
        case Child(_, _, node) =>
          StoredBelow(fs, node) && exists max: nat :: max < U16_LIMIT && Stored(fs, c.block, node, max)
  }

  /** What is loaded: the node in the block that the entry names. */
  lemma LoadChildReads(fs: Fs, entry: Bytes, header: Bytes, h: NodeHeader, node: Bytes)
    requires fs.Valid() && |entry| == ENTRY_SIZE
    requires fs.read(ChildBlock(entry), ENTRY_SIZE) == Ok(header) && ReadHeader(header) == Ok(h)
    requires fs.read(ChildBlock(entry), SizeOf(fs, h)) == Ok(node) && SizeOf(fs, h) <= fs.blockSize
    requires fs.hasChecksums ==> fs.checksumOk(node, h.ChecksumOffset())
    ensures LoadChild(fs, entry) == NewItem(node)
  {
  }

  lemma HeaderOfContent(t: Node, max: nat, content: Bytes)
    requires Writable(t) && max < U16_LIMIT && EncodeNode(t, max) <= content
    ensures ReadHeader(content[..ENTRY_SIZE]) == Ok(NodeHeader(t.Count(), max, t.Depth()))
  {
    var h := NodeHeader(t.Count(), max, t.Depth());
    HeaderRoundTrip(h, []);
    assert content[..ENTRY_SIZE] == EncodeHeader(h) + [];
  }

  lemma NodeOfContent(t: Node, max: nat, content: Bytes, size: nat)
    requires Writable(t) && max < U16_LIMIT && EncodeNode(t, max) <= content
    requires (t.Count() + 1) * ENTRY_SIZE <= size <= |content|
    ensures NewItem(content[..size]) == Ok(ItemOf(t, max))
  {
    var node := EncodeNode(t, max);
    NodeRoundTrip(t, max, content[|node|..size]);
    assert content[..size] == node + content[|node|..size];
  }

  /** A stored child is loaded. */
  lemma ChildIsLoaded(fs: Fs, c: Child, max: nat)
    requires fs.Valid() && c.firstBlock < U32_LIMIT && c.block < U48_LIMIT && max < U16_LIMIT
    requires c.Child? && Writable(c.node) && Stored(fs, c.block, c.node, max)
    ensures LoadChild(fs, EncodeChild(c)) == Ok(ItemOf(c.node, max))
  {
    var content :| Holds(fs, c.block, c.node, max, content);
    var h := NodeHeader(c.node.Count(), max, c.node.Depth());
    var size := SizeOf(fs, h);
    ChildRoundTrip(c);
    HeaderOfContent(c.node, max, content);
    LoadChildReads(fs, EncodeChild(c), content[..ENTRY_SIZE], h, content[..size]);
    NodeOfContent(c.node, max, content, size);
  }

  lemma LeafIsVisited(fs: Fs, t: Node, max: nat, k: nat)
    requires fs.Valid() && Writable(t) && max < U16_LIMIT && t.LeafNode? && k < |t.extents|
    ensures Visits(fs)(At(ItemOf(t, max), k)) == Leaf(t.extents[k])
  {
    EntryOfNode(t, max, k);
    ExtentRoundTrip(t.extents[k]);
  }

  lemma ChildIsVisited(fs: Fs, t: Node, max: nat, k: nat) returns (m: nat)
    requires fs.Valid() && Writable(t) && max < U16_LIMIT && StoredBelow(fs, t) && t.InnerNode? && k < |t.children|
    ensures var visit := Visits(fs)(At(ItemOf(t, max), k));
            match t.children[k]
            case Lost(_, _, e) => visit == Broken(e)
            case Child(_, _, node) => m < U16_LIMIT && visit == Down(ItemOf(node, m))
  {
    var c := t.children[k];
    EntryOfNode(t, max, k);
    match c
    case Lost(_, _, e) =>
      m := 0;
      ChildRoundTrip(c);
      LoadFailsExactly(fs, c.block, e);
    case Child(_, _, node) =>
      m :| m < U16_LIMIT && Stored(fs, c.block, node, m);
      ChildIsLoaded(fs, c, m);
  }

  /** The walk finds a tree whose nodes are stored. */
  lemma {:induction false} StoredIsFound(fs: Fs, t: Node, max: nat)
    requires fs.Valid() && Writable(t) && max < U16_LIMIT && StoredBelow(fs, t)
    ensures Represents(Visits(fs), ItemOf(t, max), t)
    decreases t
  {
    var v, item := Visits(fs), ItemOf(t, max);
    EntryOfNode(t, max, t.Count());
    if t.LeafNode? {
      forall k | 0 <= k < |t.extents|
        ensures v(At(item, k)) == Leaf(t.extents[k])
      {
        LeafIsVisited(fs, t, max, k);
      }
    } else {
      forall k | 0 <= k < |t.children|
        ensures Finds(v, v(At(item, k)), t.children[k])
      {
        var m := ChildIsVisited(fs, t, max, k);
        if t.children[k].Child? {
          StoredIsFound(fs, t.children[k].node, m);
        }
      }
    }
  }

  /** A tree that is written to disk, with its root wherever the caller keeps it, is
      finite, and its walk yields the extents of its leaves from left to right, up to the
      first block that holds no node. The depths in the nodes do not matter. */
  lemma TreeRoundTrip(fs: Fs, t: Node, max: nat, rest: Bytes)
    requires fs.Valid() && Writable(t) && max < U16_LIMIT && StoredBelow(fs, t)
    ensures var root := NewItem(EncodeNode(t, max) + rest);
            && root.Ok? && Finite(fs, root.value)
            && Flatten(fs, root.value) == LeavesFrom(t, 0)
  {
    NodeRoundTrip(t, max, rest);
    StoredIsFound(fs, t, max);
    WalkFinds(Visits(fs), ItemOf(t, max), t, 0);
    assert At(ItemOf(t, max), 0) == ItemOf(t, max);
  }
}
