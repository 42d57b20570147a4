// Lookup through the htree agrees with scanning the directory.

module HtreeProps {
  import opened Basics
  import opened DirScan
  import opened Htree
  import Paths

  ghost predicate HasName(entries: seq<Entry>, name: Bytes) {
    exists i :: 0 <= i < |entries| && entries[i].name == name
  }

  lemma HasNameFirst(entries: seq<Entry>, name: Bytes)
    requires entries != []
    ensures HasName(entries, name) <==> entries[0].name == name || HasName(entries[1..], name)
  {
    if HasName(entries, name) && entries[0].name != name {
      var i :| 0 <= i < |entries| && entries[i].name == name;
      assert entries[1..][i - 1].name == name;
    }
    if HasName(entries[1..], name) {
      var i :| 0 <= i < |entries[1..]| && entries[1..][i].name == name;
      assert entries[i + 1].name == name;
    }
  }

  /** A search of entries without an error finds the name exactly if it is there. */
  lemma {:induction false} FindsNames(entries: Stream<Entry>, name: Bytes)
    requires entries.err.None?
    ensures HasName(entries.items, name) <==> FindIn(entries, name).Ok?
    ensures FindIn(entries, name).Err? ==> FindIn(entries, name) == Err(NotFound)
    decreases |entries.items|
  {
    if entries.items != [] {
      HasNameFirst(entries.items, name);
      if entries.items[0].name != name {
        FindsNames(entries.Skip(1), name);
      }
    }
  }

  lemma {:induction false} FindThen(a: Stream<Entry>, b: Stream<Entry>, name: Bytes)
    requires a.err.None?
    ensures FindIn(a.Then(b), name) == if HasName(a.items, name) then FindIn(a, name) else FindIn(b, name)
    decreases |a.items|
  {
    if a.items == [] {
      assert a.Then(b) == b by { assert [] + b.items == b.items; }
    } else {
      HasNameFirst(a.items, name);
      if a.items[0].name != name {
        assert a.Then(b).Skip(1) == a.Skip(1).Then(b) by {
          assert (a.items + b.items)[1..] == a.items[1..] + b.items;
        }
        FindThen(a.Skip(1), b, name);
      }
    }
  }

  // ----- the scan, block by block

  /** The entries of block `j` of the directory. */
  ghost function BlockEntries(dir: Dir, j: nat): Stream<Entry>
    requires j < |dir.blocks.items|
  {
    match dir.fs.read(dir.blocks.items[j], j == 0)
    case Err(e) => Stream([], Some(e))
    case Ok(block) => ScanBlock(dir.fs.parse, block, 0)
  }

  /** The entries of the blocks from `j` on. */
  ghost function ScanFrom(dir: Dir, j: nat): Stream<Entry> {
    ScanDir(dir.fs, dir.blocks.Skip(j), j == 0)
  }

  lemma ScanFromBlock(dir: Dir, j: nat)
    requires j < |dir.blocks.items| && ScanFrom(dir, j).err.None?
    ensures ScanFrom(dir, j) == BlockEntries(dir, j).Then(ScanFrom(dir, j + 1))
    ensures BlockEntries(dir, j).err.None? && ScanFrom(dir, j + 1).err.None?
  {
    assert dir.blocks.Skip(j).Skip(1) == dir.blocks.Skip(j + 1);
    assert dir.blocks.Skip(j).items[0] == dir.blocks.items[j];
  }

  lemma {:induction false} NotAfterwards(dir: Dir, j: nat, name: Bytes)
    requires j <= |dir.blocks.items| && ScanFrom(dir, j).err.None?
    requires forall k :: j <= k < |dir.blocks.items| ==> !HasName(BlockEntries(dir, k).items, name)
    ensures FindIn(ScanFrom(dir, j), name) == Err(NotFound)
    decreases |dir.blocks.items| - j
  {
    if j < |dir.blocks.items| {
      ScanFromBlock(dir, j);
      FindThen(BlockEntries(dir, j), ScanFrom(dir, j + 1), name);
      NotAfterwards(dir, j + 1, name);
    }
  }

  /** If a name can only be in one block, scanning finds what that block has. */
  lemma {:induction false} OnlyInOneBlock(dir: Dir, j: nat, leaf: nat, name: Bytes)
    requires j <= leaf < |dir.blocks.items| && ScanFrom(dir, j).err.None?
    requires forall k :: 0 <= k < |dir.blocks.items| && k != leaf ==> !HasName(BlockEntries(dir, k).items, name)
    ensures FindIn(ScanFrom(dir, j), name) == FindIn(BlockEntries(dir, leaf), name)
    decreases leaf - j
  {
    ScanFromBlock(dir, j);
    FindThen(BlockEntries(dir, j), ScanFrom(dir, j + 1), name);
    if j < leaf {
      OnlyInOneBlock(dir, j + 1, leaf, name);
    } else {
      FindsNames(BlockEntries(dir, leaf), name);
      NotAfterwards(dir, leaf + 1, name);
    }
  }

  // ----- well-formed directories

  /** The root starts with the entries of "." and "..", at offsets 0 and 12. */
  ghost predicate StartsWithDots(dir: Dir, root: Bytes)
    requires 12 <= |root|
  {
    && EntryAt(dir, root, 0, Paths.CUR_DIR).Ok? && EntryAt(dir, root, 12, Paths.PARENT_DIR).Ok?
    && dir.fs.parse(root).Ok? && dir.fs.parse(root).value.1 == 12
  }

  /** Where `block_from_file_block` finds a block, it is the one that the iterator over
      the directory's blocks yields. */
  ghost predicate LookupAgrees(dir: Dir) {
    forall i :: 0 <= i < |dir.blocks.items| && dir.fileBlock(i).Ok? ==> dir.fileBlock(i).value == dir.blocks.items[i]
  }

  /** A node with sorted entries, all of which lead to good children. */
  ghost predicate GoodNode(dir: Dir, bytes: Bytes, levels: nat)
    requires dir.fs.Valid()
    decreases levels, 1
  {
    && NewNode(bytes).Ok?
    && var node := NewNode(bytes).value;
       && NumEntries(node) > 0 && Sorted(Hashes(node))
       && forall i :: 0 <= i < NumEntries(node) ==> GoodChild(dir, BlockAt(node, i), levels)
  }

  /** A block of the directory that can be read: a leaf, or a good node when there are
      more levels. */
  ghost predicate GoodChild(dir: Dir, child: nat, levels: nat)
    requires dir.fs.Valid()
    decreases levels, 0
  {
    && 0 < child < |dir.blocks.items| && ReadChild(dir, child).Ok?
    && (levels > 0 ==> GoodNode(dir, ReadChild(dir, child).value[8..], levels - 1))
  }

  /** The leaf below a good child where a hash belongs: in each node the last entry that
      is at most the hash leads to it. */
  ghost function Route(dir: Dir, child: nat, levels: nat, hash: nat): nat
    requires dir.fs.Valid() && GoodChild(dir, child, levels)
    decreases levels
  {
    if levels == 0 then child
    else
      assert GoodNode(dir, ReadChild(dir, child).value[8..], levels - 1);
      var node := NewNode(ReadChild(dir, child).value[8..]).value;
      Route(dir, BlockAt(node, LastAtMost(Hashes(node), hash)), levels - 1, hash)
  }

  lemma ChildIsLast(dir: Dir, bytes: Bytes, levels: nat, hash: nat)
    requires dir.fs.Valid() && GoodNode(dir, bytes, levels)
    ensures var node := NewNode(bytes).value;
            var child := BlockAt(node, LastAtMost(Hashes(node), hash));
            Child(node, hash) == Ok(child) && GoodChild(dir, child, levels)
  {
    SearchIsLast(Hashes(NewNode(bytes).value), hash);
  }

  /** The search of the tree ends at the leaf where the hash belongs. */
  lemma {:induction false} DescendsToRoute(dir: Dir, child: nat, levels: nat, hash: nat)
    requires dir.fs.Valid() && GoodChild(dir, child, levels)
    ensures var leaf := Route(dir, child, levels, hash);
            && 0 < leaf < |dir.blocks.items| && ReadChild(dir, leaf).Ok?
            && Descend(dir, child, levels, hash) == Ok(Leaf(leaf, ReadChild(dir, leaf).value))
    decreases levels
  {
    if levels > 0 {
      var next := RouteStep(dir, child, levels, hash);
      DescendsToRoute(dir, next, levels - 1, hash);
    }
  }

  /** The search and the route take the same step. */
  lemma RouteStep(dir: Dir, child: nat, levels: nat, hash: nat) returns (next: nat)
    requires dir.fs.Valid() && GoodChild(dir, child, levels) && levels > 0
    ensures GoodChild(dir, next, levels - 1)
    ensures Route(dir, child, levels, hash) == Route(dir, next, levels - 1, hash)
    ensures Descend(dir, child, levels, hash) == Descend(dir, next, levels - 1, hash)
  {
    var bytes := ReadChild(dir, child).value[8..];
    ChildIsLast(dir, bytes, levels - 1, hash);
    next := Child(NewNode(bytes).value, hash).value;
  }

  /** A root block with the two dot entries, a known hash algorithm and a good node. */
  ghost predicate GoodRoot(dir: Dir, root: Bytes)
    requires dir.fs.Valid()
  {
    && |root| == dir.fs.blockSize && StartsWithDots(dir, root)
    && (forall name: Bytes :: dir.hash(root[0x1c], name).Ok?)
    && GoodNode(dir, root[0x20..], root[0x1e])
  }

  /** The leaf where a name belongs. */
  ghost function RouteOf(dir: Dir, root: Bytes, name: Bytes): nat
    requires dir.fs.Valid() && GoodRoot(dir, root)
  {
    var hash := dir.hash(root[0x1c], name).value;
    var node := NewNode(root[0x20..]).value;
    Route(dir, BlockAt(node, LastAtMost(Hashes(node), hash)), root[0x1e], hash)
  }

  lemma FindsRoute(dir: Dir, root: Bytes, name: Bytes)
    requires dir.fs.Valid() && GoodRoot(dir, root)
    ensures var leaf := RouteOf(dir, root, name);
            && 0 < leaf < |dir.blocks.items| && ReadChild(dir, leaf).Ok?
            && FindLeaf(dir, root, name) == Ok(Leaf(leaf, ReadChild(dir, leaf).value))
  {
    var hash := dir.hash(root[0x1c], name).value;
    ChildIsLast(dir, root[0x20..], root[0x1e], hash);
    DescendsToRoute(dir, Child(NewNode(root[0x20..]).value, hash).value, root[0x1e], hash);
  }

  /** Every name is in the leaf where it belongs, except for the dot entries. */
  ghost predicate NamesInPlace(dir: Dir, root: Bytes)
    requires dir.fs.Valid() && GoodRoot(dir, root)
  {
    forall k, name ::
      0 <= k < |dir.blocks.items| && !IsDots(name) && HasName(BlockEntries(dir, k).items, name) ==>
        k == RouteOf(dir, root, name)
  }

  ghost predicate WellFormed(dir: Dir) {
    && dir.fs.Valid()
    && LookupAgrees(dir)
    && ScanDir(dir.fs, dir.blocks, true).err.None?
    && RootBlock(dir).Ok?
    && GoodRoot(dir, RootBlock(dir).value)
    && NamesInPlace(dir, RootBlock(dir).value)
  }

  lemma DotsAreFirst(dir: Dir, root: Bytes, rest: Stream<Entry>)
    requires dir.fs.Valid() && |root| == dir.fs.blockSize && StartsWithDots(dir, root)
    ensures var entries := ScanBlock(dir.fs.parse, root, 0).Then(rest);
            && FindIn(entries, Paths.CUR_DIR) == EntryAt(dir, root, 0, Paths.CUR_DIR)
            && FindIn(entries, Paths.PARENT_DIR) == EntryAt(dir, root, 12, Paths.PARENT_DIR)
  {
    assert root[0..] == root;
    ScanStep(dir.fs.parse, root, 0, rest);
    ScanStep(dir.fs.parse, root, 12, rest);
    var first, second := dir.fs.parse(root).value, dir.fs.parse(root[12..]).value;
    var afterSecond := ScanBlock(dir.fs.parse, root, 12 + second.1).Then(rest);
    FindFirst(first.0, ScanBlock(dir.fs.parse, root, 12).Then(rest), Paths.CUR_DIR);
    FindFirst(first.0, ScanBlock(dir.fs.parse, root, 12).Then(rest), Paths.PARENT_DIR);
    FindFirst(second.0, afterSecond, Paths.PARENT_DIR);
  }

  /** A name other than a dot is found in its leaf, by the htree and by the scan. */
  lemma FoundInPlace(dir: Dir, root: Bytes, name: Bytes)
    requires WellFormed(dir) && RootBlock(dir) == Ok(root) && !IsDots(name)
    ensures HtreeLookup(dir, name) == FindIn(ScanFrom(dir, 0), name)
  {
    var leaf := RouteOf(dir, root, name);
    FindsRoute(dir, root, name);
    assert dir.fileBlock(leaf).value == dir.blocks.items[leaf];
    assert BlockEntries(dir, leaf) == ScanBlock(dir.fs.parse, ReadChild(dir, leaf).value, 0);
    assert dir.blocks.Skip(0) == dir.blocks;
    OnlyInOneBlock(dir, 0, leaf, name);
  }

  /** In a well-formed directory the htree finds, for every name, the entry that the
      linear scan finds, and nothing exactly when the scan finds nothing. */
  lemma HtreeAgreesWithScan(dir: Dir, name: Bytes)
    requires WellFormed(dir)
    ensures HtreeLookup(dir, name) == FindIn(ScanDir(dir.fs, dir.blocks, true), name)
    ensures HtreeLookup(dir, name).Ok? <==> HasName(ScanDir(dir.fs, dir.blocks, true).items, name)
    ensures HtreeLookup(dir, name).Err? ==> HtreeLookup(dir, name) == Err(NotFound)
  {
    var root := RootBlock(dir).value;
    assert dir.blocks.Skip(0) == dir.blocks;
    FindsNames(ScanDir(dir.fs, dir.blocks, true), name);
    if IsDots(name) {
      DotsAreFirst(dir, root, ScanFrom(dir, 1));
      ScanFromBlock(dir, 0);
    } else {
      FoundInPlace(dir, root, name);
    }
  }

  /** `get_dir_entry_inode_by_name` gives the same answer with and without the htree. */
  method LookUpBothWays(dir: Dir, name: Bytes) returns (fast: Result<Entry>, slow: Result<Entry>)
    requires WellFormed(dir)
    ensures fast == slow
    ensures fast == FindIn(ScanDir(dir.fs, dir.blocks, true), name)
  {
    fast := GetDirEntryViaHtree(dir, name);
    slow := FindByScan(dir.fs, dir.blocks, name);
    HtreeAgreesWithScan(dir, name);
  }
}
