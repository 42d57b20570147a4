// Directories as files of a filesystem: the blocks come from the file's extents or
// block map, the entries are parsed from bytes, and a block of a directory is looked
// up by `block_from_file_block`.

module DirOnDisk {
  import opened Basics
  import ExtentWalk
  import ExtentBlocks
  import opened FileMap
  import DirFormat
  import opened DirScan
  import opened Htree
  import HtreeProps

  /** `DirBlock::read`; `blockOk` says whether the checksum matches, which depends on
      whether the block is the first one. */
  function ReadDirBlock(disk: Disk, blockOk: (Bytes, bool) -> bool, block: nat, first: bool): Result<Bytes> {
    var data :- disk.read(block, 0, disk.blockSize);
    if blockOk(data, first) then Ok(data) else Err(Corrupt)
  }

  /** The walk of the extent tree ends, and the root of the tree can be read. */
  ghost predicate IsReadable(disk: Disk, inode: Inode) {
    && IsWhole(disk, inode) && WellFormed(disk, inode) && BlocksOf(disk, inode).Ok?
  }

  ghost function DirOf(disk: Disk, inode: Inode, blockOk: (Bytes, bool) -> bool, hash: (nat, Bytes) -> Result<nat>): Dir
    requires IsReadable(disk, inode)
  {
    Dir(DirFs((block, first) => ReadDirBlock(disk, blockOk, block, first), ParseEntry, disk.blockSize),
        BlocksOf(disk, inode).value,
        (i: nat) => WholeSuffices(disk, inode, i); FileBlock(disk, inode, i),
        hash)
  }

  /** With extents, the tree can be walked and its extents are in file order. */
  ghost predicate InFileOrder(disk: Disk, inode: Inode)
    requires IsReadable(disk, inode)
  {
    inode.usesExtents ==>
      var exts := ExtentWalk.Flatten(disk.Fs(), TreeOf(inode));
      exts.err.None? && ExtentBlocks.Sorted(exts.items)
  }

  lemma DirFsIsValid(disk: Disk, inode: Inode, blockOk: (Bytes, bool) -> bool, hash: (nat, Bytes) -> Result<nat>)
    requires IsReadable(disk, inode) && 0x20 <= disk.blockSize
    ensures DirOf(disk, inode, blockOk, hash).fs.Valid()
  {
  }

  /** A block of the directory that can be looked up is the one that the block iterator
      yields, with extents and with a block map. */
  lemma LookupAgreesOnDisk(disk: Disk, inode: Inode, blockOk: (Bytes, bool) -> bool, hash: (nat, Bytes) -> Result<nat>)
    requires IsReadable(disk, inode) && InFileOrder(disk, inode)
    ensures HtreeProps.LookupAgrees(DirOf(disk, inode, blockOk, hash))
  {
    var blocks := BlocksOf(disk, inode).value;
    var found := DirOf(disk, inode, blockOk, hash).fileBlock;
    forall i | 0 <= i < |blocks.items| && found(i).Ok?
      ensures found(i).value == blocks.items[i]
    {
      WholeSuffices(disk, inode, i);
      FileBlockAgrees(disk, inode, i, if HasTree(inode) then ExtentWalk.Flatten(disk.Fs(), TreeOf(inode))
                                      else Stream([], None));
    }
  }

  /** An htree directory whose tree is well formed and whose names are in place. */
  ghost predicate GoodTree(dir: Dir) {
    && dir.fs.Valid() && RootBlock(dir).Ok?
    && HtreeProps.GoodRoot(dir, RootBlock(dir).value)
    && HtreeProps.NamesInPlace(dir, RootBlock(dir).value)
  }

  /** On disk, with extents in file order or with a block map, lookup through the htree
      agrees with scanning the directory, for every name. */
  lemma HtreeAgreesOnDisk(disk: Disk, inode: Inode, blockOk: (Bytes, bool) -> bool,
                          hash: (nat, Bytes) -> Result<nat>, name: Bytes)
    requires IsReadable(disk, inode) && InFileOrder(disk, inode)
    requires var dir := DirOf(disk, inode, blockOk, hash);
             GoodTree(dir) && ScanDir(dir.fs, dir.blocks, true).err.None?
    ensures var dir := DirOf(disk, inode, blockOk, hash);
            && HtreeLookup(dir, name) == FindIn(ScanDir(dir.fs, dir.blocks, true), name)
            && (HtreeLookup(dir, name).Err? ==> HtreeLookup(dir, name) == Err(NotFound))
  {
    LookupAgreesOnDisk(disk, inode, blockOk, hash);
    HtreeProps.HtreeAgreesWithScan(DirOf(disk, inode, blockOk, hash), name);
  }

  // ----- scanning a directory on disk

  /** The first blocks of the directory hold these records and pass their checksums. */
  ghost predicate HoldsOnDisk(disk: Disk, blockOk: (Bytes, bool) -> bool, blocks: seq<nat>,
                              contents: seq<DirFormat.Content>)
  {
    && |contents| <= |blocks|
    && forall i :: 0 <= i < |contents| ==>
         && contents[i].Valid() && (i < |contents| - 1 ==> contents[i].rest == [])
         && disk.read(blocks[i], 0, disk.blockSize) == Ok(contents[i].Encoded())
         && blockOk(contents[i].Encoded(), i == 0)
  }

  /** The block cannot be read, or does not pass its checksum. */
  ghost predicate Unreadable(disk: Disk, blockOk: (Bytes, bool) -> bool, block: nat, first: bool, e: Error) {
    var data := disk.read(block, 0, disk.blockSize);
    data == Err(e) || (data.Ok? && !blockOk(data.value, first) && e == Corrupt)
  }

  /** What ends the scan after the blocks that hold `contents`: something else than a
      record, the end of the blocks, or a block that cannot be read. */
  ghost predicate ScanEndsIn(disk: Disk, blockOk: (Bytes, bool) -> bool, blocks: Stream<nat>,
                             contents: seq<DirFormat.Content>, err: Option<Error>)
    requires |contents| <= |blocks.items|
  {
    var n := |contents|;
    if n > 0 && contents[n - 1].rest != [] then err == Some(Corrupt)
    else if n == |blocks.items| then err == blocks.err
    else err.Some? && Unreadable(disk, blockOk, blocks.items[n], n == 0, err.value)
  }

  ghost predicate ReadsFrom(fs: DirFs, disk: Disk, blockOk: (Bytes, bool) -> bool) {
    fs.parse == ParseEntry && forall b, first :: fs.read(b, first) == ReadDirBlock(disk, blockOk, b, first)
  }

  lemma HeldIsRead(fs: DirFs, disk: Disk, blockOk: (Bytes, bool) -> bool, blocks: seq<nat>,
                   contents: seq<DirFormat.Content>)
    requires ReadsFrom(fs, disk, blockOk) && HoldsOnDisk(disk, blockOk, blocks, contents)
    ensures DirFormat.Holds(fs, blocks, true, contents)
  {
  }

  lemma ScanOfBlocks(fs: DirFs, disk: Disk, blockOk: (Bytes, bool) -> bool, blocks: Stream<nat>,
                     contents: seq<DirFormat.Content>, err: Option<Error>)
    requires ReadsFrom(fs, disk, blockOk) && HoldsOnDisk(disk, blockOk, blocks.items, contents)
    requires ScanEndsIn(disk, blockOk, blocks, contents, err)
    ensures ScanDir(fs, blocks, true) == Stream(DirFormat.AllEntries(contents), err)
  {
    HeldIsRead(fs, disk, blockOk, blocks.items, contents);
    assert DirFormat.EndOfScan(fs, blocks, true, contents) == err;
    DirFormat.DirRoundTrip(fs, blocks, true, contents);
  }

  /** Scanning a directory on disk gives the entries of its blocks, in order, up to the
      first block that cannot be read, does not pass its checksum or has something else
      than records, or up to the end or the error of the directory's blocks. */
  lemma ScanOnDisk(disk: Disk, inode: Inode, blockOk: (Bytes, bool) -> bool, hash: (nat, Bytes) -> Result<nat>,
                   contents: seq<DirFormat.Content>, err: Option<Error>)
    requires IsReadable(disk, inode) && HoldsOnDisk(disk, blockOk, BlocksOf(disk, inode).value.items, contents)
    requires ScanEndsIn(disk, blockOk, BlocksOf(disk, inode).value, contents, err)
    ensures var dir := DirOf(disk, inode, blockOk, hash);
            ScanDir(dir.fs, dir.blocks, true) == Stream(DirFormat.AllEntries(contents), err)
  {
    var dir := DirOf(disk, inode, blockOk, hash);
    ScanOfBlocks(dir.fs, disk, blockOk, dir.blocks, contents, err);
  }
}
