// The blocks of a file, by extents or by block map (src/iters/file_blocks.rs).

module FileMap {
  import opened Basics
  import ExtentTree
  import ExtentWalk
  import ExtentBlocks
  import BlockMapIter
  import BlockLookup

  const INLINE_DATA_LEN: nat := 60

  /** A filesystem as a file sees it: `read` is `read_from_block`, which fails or
      returns part of a block. */
  datatype Disk = Disk(
    content: nat -> Bytes,
    read: (nat, nat, nat) -> Result<Bytes>,
    blockSize: nat,
    hasChecksums: bool,
    checksumOk: (Bytes, nat) -> bool)
  {
    ghost predicate Valid() {
      && 0 < blockSize
      && (forall b :: |content(b)| == blockSize)
      && (forall b, offset, n :: read(b, offset, n).Ok? ==> Slice(b, offset, n, read(b, offset, n).value))
    }

    ghost predicate Slice(b: nat, offset: nat, n: nat, data: Bytes)
      requires |content(b)| == blockSize
    {
      offset + n <= blockSize && data == content(b)[offset..offset + n]
    }

    /** As the extent tree walk sees it. */
    function Fs(): ExtentTree.Fs {
      ExtentTree.Fs((b, n) => read(b, 0, n), blockSize, hasChecksums, checksumOk)
    }

    /** As the block map iterators see it. */
    function Env(): BlockMapIter.Env {
      BlockMapIter.Env(b => read(b, 0, blockSize), blockSize)
    }
  }

  lemma ViewsAreValid(disk: Disk)
    requires disk.Valid() && disk.blockSize % 4 == 0
    ensures disk.Fs().Valid() && disk.Env().Valid()
  {
  }

  datatype Inode = Inode(usesExtents: bool, inlineData: Bytes, size: nat)
  {
    /** `file_size_in_blocks`. */
    function NumBlocks(blockSize: nat): nat
      requires blockSize > 0
    {
      (size + blockSize - 1) / blockSize
    }
  }

  /** The root of the block map, as stored in the inode. */
  function RootOf(inlineData: Bytes): BlockMapIter.Root
    requires |inlineData| == INLINE_DATA_LEN
  {
    BlockMapIter.PointersFrom(inlineData, 0)
  }

  /** What inodes are required to be: `Inode::from_bytes` checks the length and the number
      of blocks. */
  ghost predicate IsInode(disk: Disk, inode: Inode) {
    && disk.Valid() && disk.blockSize % 4 == 0
    && |inode.inlineData| == INLINE_DATA_LEN
    && inode.NumBlocks(disk.blockSize) < U32_LIMIT
  }

  /** The root of the extent tree of a file that uses one can be read. */
  predicate HasTree(inode: Inode) {
    inode.usesExtents && ExtentTree.NewItem(inode.inlineData).Ok?
  }

  function TreeOf(inode: Inode): ExtentTree.Item
    requires HasTree(inode)
  {
    ExtentTree.NewItem(inode.inlineData).value
  }

  /** The blocks of the file can be iterated: if it has an extent tree, its walk gets to
      the end of the file, or to its own end. */
  ghost predicate WellFormed(disk: Disk, inode: Inode) {
    && IsInode(disk, inode) && disk.Fs().Valid()
    && (HasTree(inode) ==> ExtentBlocks.Enough(disk.Fs(), TreeOf(inode), inode.NumBlocks(disk.blockSize)))
  }

  /** What a new iterator over the blocks of a file yields. */
  ghost function BlocksOf(disk: Disk, inode: Inode): Result<Stream<nat>>
    requires WellFormed(disk, inode)
  {
    ViewsAreValid(disk);
    var total := inode.NumBlocks(disk.blockSize);
    if inode.usesExtents then
      var root :- ExtentTree.NewItem(inode.inlineData);
      Ok(ExtentBlocks.BlocksFor(disk.Fs(), root, total))
    else
      Ok(BlockMapIter.FileBlocks(disk.Env(), RootOf(inode.inlineData), total))
  }

  class FileBlocks {
    const extents: ExtentBlocks.ExtentsBlocks?
    const blockMap: BlockMapIter.BlockMap?
    ghost var repr: set<object>

    ghost predicate Valid()
      reads this, repr
    {
      && this in repr
      && (extents != null ==>
            && extents in repr && extents.extents in repr
            && extents.Valid())
      && (extents == null ==>
            && blockMap != null && blockMap in repr && blockMap.repr <= repr && this !in blockMap.repr
            && blockMap.Valid())
    }

    /** What is left to yield. */
    ghost function Rest(): Stream<nat>
      reads this, repr
      requires Valid()
    {
      if extents != null then extents.Rest() else blockMap.Rest()
    }

    constructor OfExtents(fs: ExtentTree.Fs, root: ExtentTree.Item, total: nat)
      requires fs.Valid() && ExtentBlocks.Enough(fs, root, total) && total < U32_LIMIT
      ensures Valid() && fresh(repr)
      ensures Rest() == ExtentBlocks.BlocksFor(fs, root, total)
    {
      var it := new ExtentBlocks.ExtentsBlocks(fs, root, total);
      extents, blockMap := it, null;
      repr := {this, it, it.extents};
    }

    constructor OfMap(env: BlockMapIter.Env, root: BlockMapIter.Root, total: nat)
      requires env.Valid() && total < U32_LIMIT
      ensures Valid() && fresh(repr)
      ensures Rest() == BlockMapIter.FileBlocks(env, root, total)
    {
      var it := new BlockMapIter.BlockMap(env, root, total);
      extents, blockMap := null, it;
      repr := {this} + it.repr;
    }

    method Next() returns (r: Option<Result<nat>>)
      requires Valid()
      modifies repr
      ensures Valid() && fresh(repr - old(repr))
      ensures Yielded(old(Rest()), r, Rest())
    {
      if extents != null {
        r := extents.Next();
      } else {
        r := blockMap.Next();
        repr := repr + blockMap.repr;
      }
    }
  }

  /** `FileBlocks::new`. */
  method OpenBlocks(disk: Disk, inode: Inode) returns (r: Result<FileBlocks>)
    requires WellFormed(disk, inode)
    ensures BlocksOf(disk, inode).Err? ==> r == Err(BlocksOf(disk, inode).error)
    ensures BlocksOf(disk, inode).Ok? ==>
              && r.Ok? && fresh(r.value.repr) && r.value.Valid()
              && r.value.Rest() == BlocksOf(disk, inode).value
  {
    ViewsAreValid(disk);
    var total := inode.NumBlocks(disk.blockSize);
    if inode.usesExtents {
      var root :- ExtentTree.NewItem(inode.inlineData);
      var blocks := new FileBlocks.OfExtents(disk.Fs(), root, total);
      return Ok(blocks);
    } else {
      var blocks := new FileBlocks.OfMap(disk.Env(), RootOf(inode.inlineData), total);
      return Ok(blocks);
    }
  }

  // ----- one block

  /** A block of the file can be searched for: if it has an extent tree, its walk gets to
      an extent that stops the search, or to its end. */
  ghost predicate CanFind(disk: Disk, inode: Inode, i: nat) {
    && IsInode(disk, inode) && disk.Fs().Valid()
    && (HasTree(inode) ==> BlockLookup.SearchEnds(disk.Fs(), TreeOf(inode), i))
  }

  /** What `block_from_file_block` finds. */
  ghost function FileBlock(disk: Disk, inode: Inode, i: nat): Result<nat>
    requires CanFind(disk, inode, i)
  {
    ViewsAreValid(disk);
    if inode.usesExtents then
      var root :- ExtentTree.NewItem(inode.inlineData);
      BlockLookup.BlockFound(BlockLookup.SearchFor(disk.Fs(), root, i), i)
    else
      BlockLookup.Nth(BlockMapIter.FileBlocks(disk.Env(), RootOf(inode.inlineData), inode.NumBlocks(disk.blockSize)), i)
  }

  /** `block_from_file_block`. */
  method BlockFromFileBlock(disk: Disk, inode: Inode, i: nat) returns (r: Result<nat>)
    requires CanFind(disk, inode, i)
    ensures r == FileBlock(disk, inode, i)
  {
    ViewsAreValid(disk);
    if inode.usesExtents {
      r := BlockLookup.BlockFromExtents(disk.Fs(), inode.inlineData, i);
    } else {
      r := BlockLookup.BlockFromMap(disk.Env(), RootOf(inode.inlineData), inode.NumBlocks(disk.blockSize), i);
    }
  }

  /** `exts` is what a walk of the extent tree yields that is far enough both for the
      blocks of the file and for finding block `i`. */
  ghost predicate AreExtents(disk: Disk, inode: Inode, i: nat, exts: Stream<ExtentTree.Extent>)
    requires disk.Fs().Valid() && disk.blockSize > 0 && HasTree(inode)
  {
    exists n: nat ::
      var p := ExtentWalk.WalkFor(disk.Fs(), TreeOf(inode), n);
      && ExtentBlocks.Suffices(p, inode.NumBlocks(disk.blockSize)) && BlockLookup.Settles(p, i)
      && exts == p.extents
  }

  lemma ExtentsDecide(disk: Disk, inode: Inode, i: nat, exts: Stream<ExtentTree.Extent>)
    requires IsInode(disk, inode) && disk.Fs().Valid() && HasTree(inode) && AreExtents(disk, inode, i, exts)
    ensures WellFormed(disk, inode) && CanFind(disk, inode, i) && ExtentBlocks.AllInRange(exts.items)
    ensures BlocksOf(disk, inode) == Ok(ExtentBlocks.Emit(exts, 0, inode.NumBlocks(disk.blockSize)))
    ensures FileBlock(disk, inode, i) == BlockLookup.ExtentBlock(exts, i)
  {
    var n: nat :|
      var p := ExtentWalk.WalkFor(disk.Fs(), TreeOf(inode), n);
      && ExtentBlocks.Suffices(p, inode.NumBlocks(disk.blockSize)) && BlockLookup.Settles(p, i)
      && exts == p.extents;
    ExtentBlocks.WalkInRange(disk.Fs(), TreeOf(inode), n);
    ExtentBlocks.BlocksForWalk(disk.Fs(), TreeOf(inode), inode.NumBlocks(disk.blockSize), n);
    BlockLookup.SearchForWalk(disk.Fs(), TreeOf(inode), i, n);
  }

  /** A found block is the one that the iterator yields at the same position: always
      with a block map, and with extents in file order exactly where one covers it. */
  lemma FileBlockAgrees(disk: Disk, inode: Inode, i: nat, exts: Stream<ExtentTree.Extent>)
    requires WellFormed(disk, inode) && CanFind(disk, inode, i)
    requires BlocksOf(disk, inode).Ok? && i < |BlocksOf(disk, inode).value.items|
    requires inode.usesExtents ==>
               AreExtents(disk, inode, i, exts) && exts.err.None? && ExtentBlocks.Sorted(exts.items)
    ensures !inode.usesExtents ==> FileBlock(disk, inode, i) == Ok(BlocksOf(disk, inode).value.items[i])
    ensures inode.usesExtents ==>
              FileBlock(disk, inode, i) ==
              if BlockLookup.Reachable(exts.items, i) then Ok(BlocksOf(disk, inode).value.items[i]) else Err(Corrupt)
  {
    if inode.usesExtents {
      ExtentsDecide(disk, inode, i, exts);
      ExtentBlocks.BlockCount(exts, inode.NumBlocks(disk.blockSize));
      BlockLookup.SearchAgrees(exts, inode.NumBlocks(disk.blockSize), i);
    }
  }

  // ----- finite trees

  /** The walk of the extent tree, if there is one, ends. */
  ghost predicate IsWhole(disk: Disk, inode: Inode) {
    && IsInode(disk, inode) && disk.Fs().Valid()
    && (HasTree(inode) ==> ExtentWalk.Finite(disk.Fs(), TreeOf(inode)))
  }

  /** Then all blocks can be iterated and searched for. */
  lemma WholeSuffices(disk: Disk, inode: Inode, i: nat)
    requires IsWhole(disk, inode)
    ensures WellFormed(disk, inode) && CanFind(disk, inode, i)
    ensures HasTree(inode) ==>
              AreExtents(disk, inode, i, ExtentWalk.Flatten(disk.Fs(), TreeOf(inode)))
  {
    if HasTree(inode) {
      var n := ExtentWalk.WalkOfFinite(disk.Fs(), TreeOf(inode));
      var p := ExtentWalk.WalkFor(disk.Fs(), TreeOf(inode), n);
      assert ExtentBlocks.Suffices(p, inode.NumBlocks(disk.blockSize)) && BlockLookup.Settles(p, i);
    }
  }
}
