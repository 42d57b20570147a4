// Directory lookup through an htree (src/dir_htree.rs): binary search in the
// nodes on the way to one leaf, then a linear search of that leaf.

module Htree {
  import opened Basics
  import opened ByteReaders
  import opened DirScan
  import Paths

  const ENTRY_SIZE: nat := 8

  // ----- nodes

  /** The entries of an internal node, whole entries only. */
  type Node = entries: Bytes | |entries| % ENTRY_SIZE == 0

  /** `InternalNode::new`. */
  function NewNode(bytes: Bytes): (r: Result<Node>)
    ensures r.Ok? ==> r.value <= bytes
  {
    if |bytes| < ENTRY_SIZE then Err(Corrupt)
    else
      var end := ENTRY_SIZE * U16le(bytes, 2);
      if end > |bytes| then Err(Corrupt) else Ok(bytes[..end])
  }

  function NumEntries(node: Node): nat {
    |node| / ENTRY_SIZE
  }

  /** The hash of an entry; the first entry stands for everything below the second. */
  function HashAt(node: Node, i: nat): nat
    requires i < NumEntries(node)
  {
    if i == 0 then 0 else U32le(node, ENTRY_SIZE * i)
  }

  function BlockAt(node: Node, i: nat): nat
    requires i < NumEntries(node)
  {
    U32le(node, ENTRY_SIZE * i + 4)
  }

  function Hashes(node: Node): (hs: seq<nat>)
    ensures |hs| == NumEntries(node) && (hs != [] ==> hs[0] == 0)
    ensures forall i :: 0 <= i < |hs| ==> hs[i] == HashAt(node, i)
  {
    seq(NumEntries(node), i requires 0 <= i < NumEntries(node) => HashAt(node, i))
  }

  predicate Sorted(hs: seq<nat>) {
    forall i, j :: 0 <= i < j < |hs| ==> hs[i] <= hs[j]
  }

  /** The last of some hashes that is at most `hash`. */
  function LastAtMost(hs: seq<nat>, hash: nat): (r: nat)
    requires hs != [] && hs[0] == 0
    ensures r < |hs| && hs[r] <= hash
    ensures forall i :: r < i < |hs| ==> hash < hs[i]
  {
    var n := |hs| - 1;
    if hs[n] <= hash then n else LastAtMost(hs[..n], hash)
  }

  /** The hashes that binary search has not decided: those before `left` end in one
      that is at most the hash, and those after `right` start with one that is not. */
  ghost predicate Window(hs: seq<nat>, hash: nat, left: nat, right: int) {
    && left <= right + 1 <= |hs| && (left == 0 ==> 0 <= right && hs[0] == 0)
    && (left > 0 ==> hs[left - 1] <= hash)
    && (right + 1 < |hs| ==> hash < hs[right + 1])
  }

  /** What binary search ends at: a hash that is at most the given one while the next
      one is not, whether the hashes are sorted or not. */
  function Search(hs: seq<nat>, hash: nat, left: nat, right: int): (r: nat)
    requires Window(hs, hash, left, right)
    ensures r < |hs| && hs[r] <= hash && (r + 1 < |hs| ==> hash < hs[r + 1])
    decreases right + 1 - left
  {
    if left > right then left - 1
    else
      var mid := (left + right) / 2;
      if hs[mid] <= hash then Search(hs, hash, mid + 1, right) else Search(hs, hash, left, mid - 1)
  }

  lemma Halve(hs: seq<nat>, hash: nat, left: nat, right: int, mid: nat)
    requires Window(hs, hash, left, right) && left <= right && mid == (left + right) / 2
    ensures mid < |hs|
    ensures hs[mid] <= hash ==>
              Window(hs, hash, mid + 1, right) && Search(hs, hash, left, right) == Search(hs, hash, mid + 1, right)
    ensures hs[mid] > hash ==>
              && 0 < mid && Window(hs, hash, left, mid - 1)
              && Search(hs, hash, left, right) == Search(hs, hash, left, mid - 1)
  {
  }

  lemma LastIsUnique(hs: seq<nat>, hash: nat, i: nat)
    requires Sorted(hs) && hs != [] && hs[0] == 0
    requires i < |hs| && hs[i] <= hash && (i + 1 < |hs| ==> hash < hs[i + 1])
    ensures i == LastAtMost(hs, hash)
  {
  }

  /** Among sorted hashes that is the last one that is at most the given one. */
  lemma SearchIsLast(hs: seq<nat>, hash: nat)
    requires Sorted(hs) && hs != [] && hs[0] == 0
    ensures Search(hs, hash, 0, |hs| - 1) == LastAtMost(hs, hash)
  {
    LastIsUnique(hs, hash, Search(hs, hash, 0, |hs| - 1));
  }

  /** Where a node sends a hash. */
  function Child(node: Node, hash: nat): Result<nat> {
    if NumEntries(node) == 0 then Err(Corrupt)
    else Ok(BlockAt(node, Search(Hashes(node), hash, 0, NumEntries(node) - 1)))
  }

  /** The loop of `lookup_block_by_hash`, over the hashes of a node. */
  method BinarySearch(hs: seq<nat>, hash: nat) returns (index: nat)
    requires hs != [] && hs[0] == 0
    ensures index == Search(hs, hash, 0, |hs| - 1)
  {
    var left, right := 0, |hs| - 1;
    ghost var goal := Search(hs, hash, left, right);
    while left <= right
      invariant 0 <= left && Window(hs, hash, left, right) && Search(hs, hash, left, right) == goal
    {
      var mid := (left + right) / 2;
      Halve(hs, hash, left, right, mid);
      if hs[mid] <= hash {
        left := mid + 1;
      } else {
        assert 0 < mid;  // the checked subtraction cannot fail
        right := mid - 1;
      }
    }
    return left - 1;
  }

  /** `lookup_block_by_hash`: nothing exactly in an empty node. */
  method LookupBlockByHash(node: Node, hash: nat) returns (r: Option<nat>)
    ensures r.None? ==> Child(node, hash) == Err(Corrupt)
    ensures r.Some? ==> Child(node, hash) == Ok(r.value)
  {
    if NumEntries(node) == 0 {
      return None;
    }
    var index := BinarySearch(Hashes(node), hash);
    return Some(BlockAt(node, index));
  }

  // ----- the tree

  /** A directory with an htree: how its blocks are read, which blocks it has, which
      block `block_from_file_block` finds, and the name hash of an algorithm. */
  datatype Dir = Dir(
    fs: DirFs,
    blocks: Stream<nat>,
    fileBlock: nat -> Result<nat>,
    hash: (nat, Bytes) -> Result<nat>)

  function ReadChild(dir: Dir, child: nat): Result<Bytes> {
    var b :- dir.fileBlock(child);
    dir.fs.read(b, false)
  }

  datatype Leaf = Leaf(index: nat, block: Bytes)

  /** From a child block down to the leaf, through `levels` more nodes. */
  function Descend(dir: Dir, child: nat, levels: nat, hash: nat): Result<Leaf>
    requires dir.fs.Valid()
    decreases levels
  {
    var block :- ReadChild(dir, child);
    if levels == 0 then Ok(Leaf(child, block))
    else
      var node :- NewNode(block[8..]);
      var next :- Child(node, hash);
      Descend(dir, next, levels - 1, hash)
  }

  /** The leaf that the name's hash leads to. */
  function FindLeaf(dir: Dir, root: Bytes, name: Bytes): Result<Leaf>
    requires dir.fs.Valid() && |root| == dir.fs.blockSize
  {
    var hash :- dir.hash(root[0x1c], name);
    var node :- NewNode(root[0x20..]);
    var child :- Child(node, hash);
    Descend(dir, child, root[0x1e], hash)
  }

  /** `find_leaf_node`. */
  method FindLeafNode(dir: Dir, root: Bytes, name: Bytes) returns (r: Result<Leaf>)
    requires dir.fs.Valid() && |root| == dir.fs.blockSize
    ensures r == FindLeaf(dir, root, name)
  {
    var hash :- dir.hash(root[0x1c], name);
    var depth: nat := root[0x1e];
    var rootNode :- NewNode(root[0x20..]);
    var first := LookupBlockByHash(rootNode, hash);
    if first.None? {
      return Err(Corrupt);
    }
    var child, block, level := first.value, root, 0;
    ghost var goal := FindLeaf(dir, root, name);
    while level <= depth
      invariant level <= depth + 1
      invariant level <= depth ==> Descend(dir, child, depth - level, hash) == goal
      invariant level > depth ==> goal == Ok(Leaf(child, block))
    {
      var index :- dir.fileBlock(child);
      block :- dir.fs.read(index, false);
      if level != depth {
        var node :- NewNode(block[8..]);
        var next := LookupBlockByHash(node, hash);
        if next.None? {
          return Err(Corrupt);
        }
        child := next.value;
      }
      level := level + 1;
    }
    return Ok(Leaf(child, block));
  }

  // ----- lookup

  /** `read_root_block`. */
  function RootBlock(dir: Dir): Result<Bytes> {
    if dir.blocks.items == [] then Err(if dir.blocks.err.Some? then dir.blocks.err.value else Corrupt)
    else dir.fs.read(dir.blocks.items[0], true)
  }

  /** The entry at a fixed offset, which must have the given name. */
  function EntryAt(dir: Dir, root: Bytes, offset: nat, name: Bytes): Result<Entry>
    requires offset <= |root|
  {
    var parsed :- dir.fs.parse(root[offset..]);
    if parsed.0.Some? && parsed.0.value.name == name then Ok(parsed.0.value) else Err(Corrupt)
  }

  predicate IsDots(name: Bytes) {
    name == Paths.CUR_DIR || name == Paths.PARENT_DIR
  }

  /** What the lookup of a name finds. */
  function HtreeLookup(dir: Dir, name: Bytes): Result<Entry>
    requires dir.fs.Valid()
  {
    var root :- RootBlock(dir);
    if name == Paths.CUR_DIR then EntryAt(dir, root, 0, name)
    else if name == Paths.PARENT_DIR then EntryAt(dir, root, 12, name)
    else
      var leaf :- FindLeaf(dir, root, name);
      FindIn(ScanBlock(dir.fs.parse, leaf.block, 0), name)
  }

  /** `read_dot_or_dotdot`. */
  method ReadDotOrDotdot(dir: Dir, root: Bytes, name: Bytes) returns (r: Result<Option<Entry>>)
    requires 12 <= |root|
    ensures !IsDots(name) ==> r == Ok(None)
    ensures IsDots(name) ==>
              match EntryAt(dir, root, if name == Paths.CUR_DIR then 0 else 12, name)
              case Err(e) => r == Err(e)
              case Ok(entry) => r == Ok(Some(entry))
  {
    var offset := 0;
    if name == Paths.CUR_DIR {
      offset := 0;
    } else if name == Paths.PARENT_DIR {
      offset := 12;
    } else {
      return Ok(None);
    }
    var parsed :- dir.fs.parse(root[offset..]);
    if parsed.0.None? {
      return Err(Corrupt);
    }
    if parsed.0.value.name == name {
      return Ok(parsed.0);
    }
    return Err(Corrupt);
  }

  lemma FindFirst(e: Option<Entry>, rest: Stream<Entry>, name: Bytes)
    ensures FindIn(Single(e).Then(rest), name) ==
            if e.Some? && e.value.name == name then Ok(e.value) else FindIn(rest, name)
  {
    SingleThen(e, rest);
    if e.Some? {
      assert Single(e).Then(rest).Skip(1) == rest;
    }
  }

  /** One step of the search of a leaf. */
  lemma FindStep(parse: Parser, block: Bytes, offset: nat, name: Bytes)
    requires offset < |block|
    ensures var parsed := parse(block[offset..]);
            FindIn(ScanBlock(parse, block, offset), name) ==
            if parsed.Err? then Err(parsed.error)
            else if parsed.value.0.Some? && parsed.value.0.value.name == name then Ok(parsed.value.0.value)
            else FindIn(ScanBlock(parse, block, offset + parsed.value.1), name)
  {
    var parsed := parse(block[offset..]);
    if parsed.Ok? {
      FindFirst(parsed.value.0, ScanBlock(parse, block, offset + parsed.value.1), name);
    }
  }

  /** The linear search of a leaf. */
  method SearchLeaf(dir: Dir, block: Bytes, name: Bytes) returns (r: Result<Entry>)
    ensures r == FindIn(ScanBlock(dir.fs.parse, block, 0), name)
  {
    ghost var goal := FindIn(ScanBlock(dir.fs.parse, block, 0), name);
    var offset := 0;
    while offset < |block|
      invariant FindIn(ScanBlock(dir.fs.parse, block, offset), name) == goal
      decreases |block| - offset
    {
      FindStep(dir.fs.parse, block, offset, name);
      var parsed :- dir.fs.parse(block[offset..]);
      offset := offset + parsed.1;
      if parsed.0.Some? && parsed.0.value.name == name {
        return Ok(parsed.0.value);
      }
    }
    return Err(NotFound);
  }

  /** `get_dir_entry_via_htree`. */
  method GetDirEntryViaHtree(dir: Dir, name: Bytes) returns (r: Result<Entry>)
    requires dir.fs.Valid()
    ensures r == HtreeLookup(dir, name)
  {
    var root :- RootBlock(dir);
    var dots :- ReadDotOrDotdot(dir, root, name);
    if dots.Some? {
      return Ok(dots.value);
    }
    var leaf :- FindLeafNode(dir, root, name);
    r := SearchLeaf(dir, leaf.block, name);
  }
}
