// A directory, in bytes on a disk, that meets the hypotheses of `HtreeAgreesOnDisk`:
// a root block with "." and ".." and one htree entry, and one leaf with one file.

module HtreeExample {
  import opened Basics
  import opened ByteReaders
  import BlockMapIter
  import BlockMapProps
  import opened FileMap
  import opened DirScan
  import opened DirFormat
  import opened Htree
  import opened HtreeProps
  import opened DirOnDisk
  import Paths

  const BLOCK_SIZE: nat := 1024
  const ROOT_BLOCK: nat := 5
  const LEAF_BLOCK: nat := 6
  const HASH_ALG: nat := 1

  const CURRENT: Entry := Entry(2, Paths.CUR_DIR, 2)
  const PARENT: Entry := Entry(2, Paths.PARENT_DIR, 2)
  const FILE: Entry := Entry(11, [0x61], 1)

  // ----- the blocks

  /** What follows the name ".." in the root block, from offset 22 on: the hash algorithm
      at 0x1c, no more levels at 0x1e, and at 0x20 a node with one entry, for block 1. */
  function TreeBytes(): (r: Bytes)
    ensures |r| == 1002 && r[6] == HASH_ALG && r[8] == 0
    ensures r[12] == 1 && r[13] == 0 && r[14] == 1 && r[15] == 0 && r[16] == 0 && r[17] == 0
  {
    [0, 0, 0, 0, 0, 0, HASH_ALG, 0, 0, 0, 0, 0, 1, 0, 1, 0, 0, 0] + ZeroBytes(984)
  }

  function RootRecords(): (rs: seq<Record>)
    ensures AllValid(rs)
  {
    [Used(CURRENT, ZeroBytes(3)), Used(PARENT, TreeBytes())]
  }

  function LeafRecords(): (rs: seq<Record>)
    ensures AllValid(rs)
  {
    [Used(FILE, ZeroBytes(1015))]
  }

  lemma EncodePair(a: Record, b: Record)
    requires a.Valid() && b.Valid()
    ensures AllValid([a, b]) && EncodeAll([a, b]) == Encode(a) + Encode(b) && EncodeAll([b]) == Encode(b)
  {
    assert [a, b][1..] == [b];
    assert EncodeAll([b]) == Encode(b) + EncodeAll([]);
  }

  lemma UsedTail(e: Entry, pad: Bytes)
    requires Used(e, pad).Valid()
    ensures var n := NAME_OFFSET + |e.name|;
            |Encode(Used(e, pad))| == n + |pad| && Encode(Used(e, pad))[n..] == pad
  {
  }

  /** What the bytes of the root block say. */
  ghost predicate IsRoot(root: Bytes) {
    && |root| == BLOCK_SIZE
    && ScanBlock(ParseEntry, root, 0) == Stream([CURRENT, PARENT], None)
    && ParseEntry(root) == Ok((Some(CURRENT), 12))
    && ParseEntry(root[12..]) == Ok((Some(PARENT), 1012))
    && HoldsTree(root)
  }

  ghost predicate HoldsTree(root: Bytes)
    requires |root| == BLOCK_SIZE
  {
    && root[0x1c] == HASH_ALG && root[0x1e] == 0 && root[0x22] == 1 && root[0x23] == 0
    && root[0x24] == 1 && root[0x25] == 0 && root[0x26] == 0 && root[0x27] == 0
  }

  lemma RootTree(root: Bytes)
    requires |root| == BLOCK_SIZE && root[22..] == TreeBytes()
    ensures HoldsTree(root)
  {
    assert forall i :: 0 <= i < 1002 ==> root[22 + i] == root[22..][i];
    assert root[0x1c] == root[22 + 6] && root[0x1e] == root[22 + 8] && root[0x22] == root[22 + 12];
    assert root[0x23] == root[22 + 13] && root[0x24] == root[22 + 14] && root[0x25] == root[22 + 15];
    assert root[0x26] == root[22 + 16] && root[0x27] == root[22 + 17];
  }

  lemma RootEntries()
    ensures Entries(RootRecords()) == [CURRENT, PARENT]
  {
    var a, b := Used(CURRENT, ZeroBytes(3)), Used(PARENT, TreeBytes());
    assert [a, b][1..] == [b];
    assert Entries([b]) == [PARENT] + Entries([]);
  }

  lemma RootIsRoot()
    ensures IsRoot(EncodeAll(RootRecords()))
  {
    var a, b := Used(CURRENT, ZeroBytes(3)), Used(PARENT, TreeBytes());
    var root := EncodeAll(RootRecords());
    EncodePair(a, b);
    UsedTail(CURRENT, ZeroBytes(3));
    UsedTail(PARENT, TreeBytes());
    assert root[12..] == Encode(b) && root[22..] == TreeBytes();
    BlockRoundTrip(RootRecords(), []);
    assert EncodeAll(RootRecords()) + [] == EncodeAll(RootRecords());
    RootEntries();
    RecordRoundTrip(a, Encode(b));
    RecordRoundTrip(b, []);
    assert Encode(b) + [] == Encode(b);
    RootTree(root);
  }

  ghost predicate IsLeaf(leaf: Bytes) {
    |leaf| == BLOCK_SIZE && ScanBlock(ParseEntry, leaf, 0) == Stream([FILE], None)
  }

  lemma LeafIsLeaf()
    ensures IsLeaf(EncodeAll(LeafRecords()))
  {
    var a := Used(FILE, ZeroBytes(1015));
    EncodePair(a, a);
    UsedTail(FILE, ZeroBytes(1015));
    BlockRoundTrip(LeafRecords(), []);
    assert EncodeAll(LeafRecords()) + [] == EncodeAll(LeafRecords());
    assert Entries([a]) == [FILE] + Entries([]);
  }

  // ----- the disk

  function ContentOf(root: Bytes, leaf: Bytes, b: nat): (r: Bytes)
    requires |root| == BLOCK_SIZE && |leaf| == BLOCK_SIZE
    ensures |r| == BLOCK_SIZE
  {
    if b == ROOT_BLOCK then root else if b == LEAF_BLOCK then leaf else ZeroBytes(BLOCK_SIZE)
  }

  function ReadOf(root: Bytes, leaf: Bytes, b: nat, offset: nat, n: nat): (r: Result<Bytes>)
    requires |root| == BLOCK_SIZE && |leaf| == BLOCK_SIZE
    ensures r.Ok? ==> offset + n <= BLOCK_SIZE && r.value == ContentOf(root, leaf, b)[offset..offset + n]
  {
    if offset + n <= BLOCK_SIZE then Ok(ContentOf(root, leaf, b)[offset..offset + n]) else Err(Corrupt)
  }

  /** A disk whose blocks 5 and 6 hold the directory. */
  function DiskOf(root: Bytes, leaf: Bytes): Disk
    requires |root| == BLOCK_SIZE && |leaf| == BLOCK_SIZE
  {
    Disk((b: nat) => ContentOf(root, leaf, b),
         (b: nat, offset: nat, n: nat) => ReadOf(root, leaf, b, offset, n),
         BLOCK_SIZE, false, (_, _) => true)
  }

  lemma DiskIsValid(root: Bytes, leaf: Bytes)
    requires |root| == BLOCK_SIZE && |leaf| == BLOCK_SIZE
    ensures DiskOf(root, leaf).Valid()
  {
  }

  /** An inode with a block map of two blocks. */
  ghost predicate IsDirInode(inode: Inode) {
    && !inode.usesExtents && inode.size == 2 * BLOCK_SIZE && |inode.inlineData| == INLINE_DATA_LEN
    && U32le(inode.inlineData, 0) == ROOT_BLOCK && U32le(inode.inlineData, 4) == LEAF_BLOCK
  }

  function DirInode(): Inode {
    Inode(false, PutU32le(ROOT_BLOCK) + PutU32le(LEAF_BLOCK) + ZeroBytes(52), 2 * BLOCK_SIZE)
  }

  lemma DirInodeIs()
    ensures IsDirInode(DirInode())
  {
    var data := DirInode().inlineData;
    assert data[..4] == PutU32le(ROOT_BLOCK) && data[4..8] == PutU32le(LEAF_BLOCK);
    assert U32le(data, 0) == U32le(data[..4], 0) && U32le(data, 4) == U32le(data[4..8], 0);
  }

  lemma InodeIsWellFormed(disk: Disk, inode: Inode)
    requires disk.Valid() && disk.blockSize == BLOCK_SIZE && IsDirInode(inode)
    ensures FileMap.WellFormed(disk, inode) && inode.NumBlocks(disk.blockSize) == 2
  {
  }

  lemma EntriesOfDir(env: BlockMapIter.Env, root: BlockMapIter.Root)
    requires env.Valid() && root[0] == ROOT_BLOCK && root[1] == LEAF_BLOCK
    ensures BlockMapIter.FileBlocks(env, root, 2) == Stream([ROOT_BLOCK, LEAF_BLOCK], None)
  {
    BlockMapProps.BlocksAreEntries(env, root, 2, [ROOT_BLOCK, LEAF_BLOCK]);
  }

  lemma BlocksOfDir(disk: Disk, inode: Inode)
    requires disk.Valid() && disk.blockSize == BLOCK_SIZE && IsDirInode(inode)
    ensures FileMap.WellFormed(disk, inode)
    ensures BlocksOf(disk, inode) == Ok(Stream([ROOT_BLOCK, LEAF_BLOCK], None))
    ensures FileBlock(disk, inode, 1) == Ok(LEAF_BLOCK)
  {
    InodeIsWellFormed(disk, inode);
    ViewsAreValid(disk);
    EntriesOfDir(disk.Env(), RootOf(inode.inlineData));
  }

  // ----- the directory

  /** What the directory consists of. */
  ghost predicate IsExample(dir: Dir, root: Bytes, leaf: Bytes) {
    && dir.fs.Valid() && dir.fs.blockSize == BLOCK_SIZE && dir.fs.parse == ParseEntry
    && dir.blocks == Stream([ROOT_BLOCK, LEAF_BLOCK], None) && dir.fileBlock(1) == Ok(LEAF_BLOCK)
    && dir.fs.read(ROOT_BLOCK, true) == Ok(root) && dir.fs.read(LEAF_BLOCK, false) == Ok(leaf)
    && forall name: Bytes :: dir.hash(HASH_ALG, name).Ok?
  }

  function HashBy(h: Bytes -> nat): (nat, Bytes) -> Result<nat> {
    (alg: nat, name: Bytes) => if alg == HASH_ALG then Ok(h(name)) else Err(Incompatible)
  }

  ghost function ExampleDir(disk: Disk, inode: Inode, h: Bytes -> nat): Dir
    requires disk.Valid() && disk.blockSize == BLOCK_SIZE && IsDirInode(inode)
  {
    BlocksOfDir(disk, inode);
    DirOf(disk, inode, (_, _) => true, HashBy(h))
  }

  lemma ExampleIs(disk: Disk, inode: Inode, h: Bytes -> nat, root: Bytes, leaf: Bytes)
    requires disk.Valid() && disk.blockSize == BLOCK_SIZE && IsDirInode(inode)
    requires disk.read(ROOT_BLOCK, 0, BLOCK_SIZE) == Ok(root) && disk.read(LEAF_BLOCK, 0, BLOCK_SIZE) == Ok(leaf)
    ensures IsExample(ExampleDir(disk, inode, h), root, leaf)
  {
    BlocksOfDir(disk, inode);
    DirFsIsValid(disk, inode, (_, _) => true, HashBy(h));
  }

  lemma ScanExample(dir: Dir, root: Bytes, leaf: Bytes)
    requires IsExample(dir, root, leaf) && IsRoot(root) && IsLeaf(leaf)
    ensures ScanDir(dir.fs, dir.blocks, true) == Stream([CURRENT, PARENT, FILE], None)
    ensures BlockEntries(dir, 0).items == [CURRENT, PARENT] && BlockEntries(dir, 1).items == [FILE]
  {
    var rest := dir.blocks.Skip(1);
    assert rest == Stream([LEAF_BLOCK], None) && rest.Skip(1) == Stream([], None);
    assert ScanDir(dir.fs, rest, false) == Stream([FILE], None);
  }

  lemma NodeOfRoot(root: Bytes)
    requires IsRoot(root)
    ensures var node := NewNode(root[0x20..]);
            node.Ok? && NumEntries(node.value) == 1 && BlockAt(node.value, 0) == 1
  {
    var bytes := root[0x20..];
    assert U16le(bytes, 2) == 1;
    var node := bytes[..8];
    assert NewNode(bytes) == Ok(node) && NumEntries(node) == 1;
    assert U32le(node, 4) == 1;
  }

  lemma ExampleIsGood(dir: Dir, root: Bytes, leaf: Bytes)
    requires IsExample(dir, root, leaf) && IsRoot(root) && IsLeaf(leaf)
    ensures RootBlock(dir) == Ok(root) && GoodRoot(dir, root)
  {
    NodeOfRoot(root);
    var node := NewNode(root[0x20..]).value;
    assert GoodChild(dir, 1, 0);
    forall i | 0 <= i < NumEntries(node) ensures GoodChild(dir, BlockAt(node, i), 0) {
      assert i == 0;
    }
    assert GoodNode(dir, root[0x20..], 0);
    assert root[0..] == root;
  }

  lemma ExampleInPlace(dir: Dir, root: Bytes, leaf: Bytes)
    requires IsExample(dir, root, leaf) && IsRoot(root) && IsLeaf(leaf)
    ensures GoodTree(dir)
  {
    ExampleIsGood(dir, root, leaf);
    ScanExample(dir, root, leaf);
    forall k, name | 0 <= k < |dir.blocks.items| && !IsDots(name) && HasName(BlockEntries(dir, k).items, name)
      ensures k == RouteOf(dir, root, name)
    {
      assert k == 1;
      FindsRoute(dir, root, name);
    }
  }

  lemma FoundLast(name: Bytes)
    requires name == FILE.name
    ensures FindIn(Stream([CURRENT, PARENT, FILE], None), name) == Ok(FILE)
  {
    var all := Stream([CURRENT, PARENT, FILE], None);
    assert all.Skip(1) == Stream([PARENT, FILE], None) && all.Skip(1).Skip(1) == Stream([FILE], None);
    assert CURRENT.name[0] != name[0] && PARENT.name[0] != name[0];
    assert FindIn(Stream([FILE], None), name) == Ok(FILE);
    assert FindIn(Stream([PARENT, FILE], None), name) == Ok(FILE);
  }

  /** On any disk with these two blocks, whatever the hash function, the hypotheses hold
      and the file is found through the htree. */
  lemma ExampleAgrees(disk: Disk, inode: Inode, h: Bytes -> nat, root: Bytes, leaf: Bytes)
    requires disk.Valid() && disk.blockSize == BLOCK_SIZE && IsDirInode(inode) && IsRoot(root) && IsLeaf(leaf)
    requires disk.read(ROOT_BLOCK, 0, BLOCK_SIZE) == Ok(root) && disk.read(LEAF_BLOCK, 0, BLOCK_SIZE) == Ok(leaf)
    ensures var dir := ExampleDir(disk, inode, h);
            GoodTree(dir) && HtreeLookup(dir, FILE.name) == Ok(FILE)
  {
    var dir := ExampleDir(disk, inode, h);
    BlocksOfDir(disk, inode);
    ExampleIs(disk, inode, h, root, leaf);
    ExampleInPlace(dir, root, leaf);
    ScanExample(dir, root, leaf);
    HtreeAgreesOnDisk(disk, inode, (_, _) => true, HashBy(h), FILE.name);
    FoundLast(FILE.name);
  }

  /** There is such a disk: the blocks are written in the format of the source. */
  lemma ExampleExists(h: Bytes -> nat)
    ensures var root, leaf := EncodeAll(RootRecords()), EncodeAll(LeafRecords());
            && IsRoot(root) && IsLeaf(leaf) && DiskOf(root, leaf).Valid() && IsDirInode(DirInode())
            && var dir := ExampleDir(DiskOf(root, leaf), DirInode(), h);
               GoodTree(dir) && HtreeLookup(dir, FILE.name) == Ok(FILE)
  {
    var root, leaf := EncodeAll(RootRecords()), EncodeAll(LeafRecords());
    RootIsRoot();
    LeafIsLeaf();
    DiskReads(root, leaf);
    DirInodeIs();
    ExampleAgrees(DiskOf(root, leaf), DirInode(), h, root, leaf);
  }

  lemma DiskReads(root: Bytes, leaf: Bytes)
    requires |root| == BLOCK_SIZE && |leaf| == BLOCK_SIZE
    ensures var disk := DiskOf(root, leaf);
            && disk.Valid()
            && disk.read(ROOT_BLOCK, 0, BLOCK_SIZE) == Ok(root) && disk.read(LEAF_BLOCK, 0, BLOCK_SIZE) == Ok(leaf)
  {
    DiskIsValid(root, leaf);
    assert root[0..BLOCK_SIZE] == root && leaf[0..BLOCK_SIZE] == leaf;
  }
}
