// A file on a mounted filesystem whose extent tree passes every check of the source
// and whose blocks can never be iterated.

module ExtentExample {
  import opened Basics
  import opened ExtentTree
  import opened ExtentWalk
  import opened ExtentCycle
  import ExtentBlocks
  import BlockCache
  import opened FileMap
  import opened MountedFile

  const BLOCK_SIZE: nat := 1024
  const NODE_BLOCK: nat := 7

  /** A node of depth 1 with one entry, which points to block 7. */
  function CyclicNode(): (r: Bytes)
    ensures |r| == 2 * ENTRY_SIZE
  {
    [0x0a, 0xf3, 1, 0, 1, 0, 1, 0, 0, 0, 0, 0, 0, 0, 0, 0, 7, 0, 0, 0, 0, 0, 0, 0]
  }

  ghost predicate IsCyclicNode(node: Bytes) {
    && |node| == 2 * ENTRY_SIZE && ReadHeader(node) == Ok(NodeHeader(1, 1, 1))
    && ReadHeader(node[..ENTRY_SIZE]) == Ok(NodeHeader(1, 1, 1))
    && ChildBlock(node[ENTRY_SIZE..2 * ENTRY_SIZE]) == NODE_BLOCK
  }

  lemma CyclicNodeIs()
    ensures IsCyclicNode(CyclicNode())
  {
    var node := CyclicNode();
    var entry := node[ENTRY_SIZE..2 * ENTRY_SIZE];
    assert entry[4] == 7 && entry[5] == 0 && entry[6] == 0 && entry[7] == 0 && entry[8] == 0 && entry[9] == 0;
  }

  /** A device of eight blocks, the last of which starts with the node. */
  ghost predicate IsCyclicVolume(v: Volume, node: Bytes) {
    && v.blockSize == BLOCK_SIZE && v.blocksCount == 8 && |v.device| == 8 * BLOCK_SIZE && !v.hasChecksums
    && node <= v.device[NODE_BLOCK * BLOCK_SIZE..]
  }

  /** A file that is not empty, whose inode holds the node. */
  ghost predicate IsCyclicInode(inode: Inode, node: Bytes) {
    && inode.usesExtents && |inode.inlineData| == INLINE_DATA_LEN && node <= inode.inlineData
    && 0 < inode.size <= BLOCK_SIZE
  }

  lemma ReadsNode(v: Volume, node: Bytes, n: nat)
    requires IsCyclicVolume(v, node) && n <= |node| == 2 * ENTRY_SIZE
    ensures Mount(v, map[]).read(NODE_BLOCK, 0, n) == Ok(node[..n])
  {
    var block := BlockCache.BlockOf(v.device, BLOCK_SIZE, NODE_BLOCK);
    assert block == v.device[NODE_BLOCK * BLOCK_SIZE..];
    assert block[0..n] == node[..n];
  }

  lemma NodeFromBytes(node: Bytes, bytes: Bytes)
    requires IsCyclicNode(node) && node <= bytes
    ensures NewItem(bytes) == Ok(Item(node, 0, 1))
  {
    assert ReadHeader(bytes) == ReadHeader(node);
    assert bytes[..2 * ENTRY_SIZE] == node;
  }

  /** The node in block 7 is its own child. */
  lemma NodeIsItsChild(v: Volume, node: Bytes)
    requires IsCyclicVolume(v, node) && IsCyclicNode(node)
    ensures var fs := Mount(v, map[]).Fs();
            fs.Valid() && VisitNext(fs, Item(node, 0, 1)) == Down(Item(node, 0, 1))
  {
    MountIsValid(v, map[]);
    ViewsAreValid(Mount(v, map[]));
    ReadsNode(v, node, ENTRY_SIZE);
    ReadsNode(v, node, 2 * ENTRY_SIZE);
    assert node[..2 * ENTRY_SIZE] == node;
    NodeFromBytes(node, node);
  }

  lemma SelfIsCycle(v: Visitor, node: Item)
    requires v(node) == Down(node)
    ensures MeetsCycle(v, node)
  {
    assert IsPathTo(v, [node, node], node, node);
    assert GetsTo(v, node, node);
  }

  lemma NeverEnough(fs: Fs, node: Item, total: nat)
    requires fs.Valid() && Visits(fs)(node) == Down(node) && total > 0
    ensures !ExtentBlocks.Enough(fs, node, total)
  {
    forall n: nat
      ensures !ExtentBlocks.Suffices(WalkFor(fs, node, n), total)
    {
      CycleNeverEnds(Visits(fs), [], node, n);
      assert [] + [node] == [node];
    }
  }

  /** On such a device the walk of the file's extent tree meets a cycle; it never ends,
      and never gets to the first block of the file. */
  lemma CyclicFile(v: Volume, inode: Inode, node: Bytes)
    requires IsCyclicVolume(v, node) && IsCyclicInode(inode, node) && IsCyclicNode(node)
    ensures IsInode(Mount(v, map[]), inode) && HasTree(inode) && Mount(v, map[]).Fs().Valid()
    ensures MeetsCycle(Visits(Mount(v, map[]).Fs()), TreeOf(inode))
    ensures !Stops(Visits(Mount(v, map[]).Fs()), TreeOf(inode))
    ensures !WellFormed(Mount(v, map[]), inode)
  {
    var disk, item := Mount(v, map[]), Item(node, 0, 1);
    MountIsValid(v, map[]);
    NodeFromBytes(node, inode.inlineData);
    NodeIsItsChild(v, node);
    SelfIsCycle(Visits(disk.Fs()), item);
    WalkEndsUnlessCyclic(disk.Fs(), item);
    NeverEnough(disk.Fs(), item, inode.NumBlocks(BLOCK_SIZE));
  }

  /** There are such a device and file. */
  lemma CycleExists() returns (v: Volume, inode: Inode, node: Bytes)
    ensures IsCyclicVolume(v, node) && IsCyclicInode(inode, node) && IsCyclicNode(node)
    ensures IsInode(Mount(v, map[]), inode) && HasTree(inode) && Mount(v, map[]).Fs().Valid()
    ensures !Stops(Visits(Mount(v, map[]).Fs()), TreeOf(inode))
  {
    node := CyclicNode();
    CyclicNodeIs();
    var before := ZeroBytes(NODE_BLOCK * BLOCK_SIZE);
    var block := node + ZeroBytes(BLOCK_SIZE - 2 * ENTRY_SIZE);
    v := Volume(before + block, BLOCK_SIZE, 8, false, (_, _) => true);
    assert (before + block)[NODE_BLOCK * BLOCK_SIZE..] == block;
    inode := Inode(true, node + ZeroBytes(INLINE_DATA_LEN - 2 * ENTRY_SIZE), 1);
    CyclicFile(v, inode, node);
  }
}
