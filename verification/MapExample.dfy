// Two files that `read_bytes` panics on (src/file.rs), on mounted filesystems: one
// with a hole for an indirect block, and one that is larger than its block map.

module MapExample {
  import opened Basics
  import opened Arithmetic
  import BlockCache
  import BlockRead
  import BlockMapIter
  import opened BlockMapProps
  import JournalSpec
  import opened FileMap
  import opened FileCursor
  import opened FileSession
  import opened MountedFile

  const BLOCK_SIZE: nat := 1024

  // ----- a hole for an indirect block

  /** Block 0 starts in the reserved bytes and cannot be read from its start. */
  lemma ZeroPointerFails(v: Volume, journal: JournalSpec.JournalMap, level: nat)
    requires Mount(v, journal).Env().Valid() && BlockRead.MapBlock(journal, 0) == 0 && level > 0
    ensures BlockMapIter.Tree(Mount(v, journal).Env(), 0, level) == Stream([], Some(Corrupt))
  {
    assert Mount(v, journal).Env().read(0) == Err(Corrupt);
  }

  /** A zero pointer to an indirect block is an error and not a hole: the blocks after
      the direct ones cannot be iterated. */
  lemma ZeroIndirectPointer(v: Volume, journal: JournalSpec.JournalMap, inode: Inode)
    requires WellFormed(Mount(v, journal), inode) && !inode.usesExtents && BlockRead.MapBlock(journal, 0) == 0
    requires RootOf(inode.inlineData)[12] == 0 && inode.NumBlocks(v.blockSize) > 12
    ensures BlocksOf(Mount(v, journal), inode) ==
            Ok(Stream(RootOf(inode.inlineData)[..12], Some(Corrupt)))
  {
    ViewsAreValid(Mount(v, journal));
    ZeroPointerFails(v, journal, 1);
    var root := RootOf(inode.inlineData);
    assert root[0..12] + [] == root[..12];
  }

  /** A file of 13 blocks without data. */
  function SparseInode(): Inode {
    Inode(false, ZeroBytes(INLINE_DATA_LEN), 13 * BLOCK_SIZE)
  }

  lemma ZeroPointers(data: Bytes)
    requires data == ZeroBytes(INLINE_DATA_LEN)
    ensures RootOf(data)[..12] == seq(12, _ => 0) && RootOf(data)[12] == 0
  {
    assert forall i :: 0 <= i < 15 ==> RootOf(data)[i] == 0;
  }

  lemma SparseIsWellFormed(v: Volume, inode: Inode)
    requires v.blockSize == BLOCK_SIZE && inode == SparseInode()
    ensures WellFormed(Mount(v, map[]), inode) && inode.NumBlocks(v.blockSize) == 13
  {
    MountIsValid(v, map[]);
    ViewsAreValid(Mount(v, map[]));
  }

  lemma SparseBlocks(v: Volume, inode: Inode)
    requires v.blockSize == BLOCK_SIZE && inode == SparseInode()
    ensures WellFormed(Mount(v, map[]), inode)
    ensures BlocksOf(Mount(v, map[]), inode) == Ok(Stream(seq(12, _ => 0), Some(Corrupt)))
  {
    SparseIsWellFormed(v, inode);
    ZeroPointers(inode.inlineData);
    ZeroIndirectPointer(v, map[], inode);
  }

  /** On every filesystem with blocks of 1024 bytes, the first read of the last block
      of that file is an error, and the second panics. */
  lemma SparseFilePanics(v: Volume)
    requires v.blockSize == BLOCK_SIZE
    ensures WellFormed(Mount(v, map[]), SparseInode()) && BlocksOf(Mount(v, map[]), SparseInode()).Ok?
    ensures var disk, inode := Mount(v, map[]), SparseInode();
            var blocks := BlocksOf(disk, inode).value;
            var (first, c) := ReadStep(disk, inode, SeekStep(disk, blocks, 12 * BLOCK_SIZE), 1, None);
            first == Failed(Corrupt) && ReadStep(disk, inode, c, 1, None).0 == Panicked
  {
    var disk, inode := Mount(v, map[]), SparseInode();
    SparseBlocks(v, inode);
    var blocks := BlocksOf(disk, inode).value;
    TimesIsProduct(12, BLOCK_SIZE);
    TimesIsProduct(13, BLOCK_SIZE);
    IteratorErrorThenPanic(disk, inode, blocks, SeekStep(disk, blocks, 12 * BLOCK_SIZE), 1, None, 1, None);
  }

  // ----- a file that is larger than its map

  /** All pointers of the block lead to the block. */
  ghost predicate LeadsToItself(env: BlockMapIter.Env, b: nat)
    requires env.Valid()
  {
    && env.read(b).Ok?
    && forall i :: 0 <= i < PerBlock(env) ==> BlockMapIter.PointersFrom(env.read(b).value, 0)[i] == b
  }

  lemma {:induction false} LookupItself(env: BlockMapIter.Env, b: nat, level: nat, i: nat)
    requires env.Valid() && LeadsToItself(env, b) && i < Span(env, level)
    ensures Lookup(env, b, level, i) == Ok(b)
    decreases level, 0, 0
  {
    if level > 0 {
      LookupAmongItself(env, b, BlockMapIter.PointersFrom(env.read(b).value, 0), level - 1, i);
    }
  }

  lemma {:induction false} LookupAmongItself(env: BlockMapIter.Env, b: nat, pointers: seq<nat>, level: nat, i: nat)
    requires env.Valid() && LeadsToItself(env, b) && i < Times(|pointers|, Span(env, level))
    requires forall k :: 0 <= k < |pointers| ==> pointers[k] == b
    ensures LookupIn(env, pointers, level, i) == Ok(b)
    decreases level, 1, |pointers|
  {
    if i < Span(env, level) {
      LookupItself(env, b, level, i);
    } else {
      LookupAmongItself(env, b, pointers[1..], level, i - Span(env, level));
    }
  }

  lemma EntryItself(env: BlockMapIter.Env, root: BlockMapIter.Root, b: nat, i: nat)
    requires env.Valid() && LeadsToItself(env, b) && i < Capacity(env)
    requires forall k :: 0 <= k < 15 ==> root[k] == b
    ensures Entry(env, root, i) == Ok(b)
  {
    var j := i - 12;
    if 0 <= j {
      if j < Span(env, 1) {
        LookupItself(env, b, 1, j);
      } else if j - Span(env, 1) < Span(env, 2) {
        LookupItself(env, b, 2, j - Span(env, 1));
      } else {
        LookupItself(env, b, 3, j - Span(env, 1) - Span(env, 2));
      }
    }
  }

  /** The number 7 over and over. */
  ghost predicate AreSevens(s: Bytes) {
    |s| % 4 == 0 && forall i :: 0 <= i < |s| ==> s[i] == if i % 4 == 0 then 7 else 0
  }

  function Sevens(n: nat): (s: Bytes)
    requires n % 4 == 0
    ensures |s| == n && AreSevens(s)
  {
    seq(n, i => if i % 4 == 0 then 7 else 0)
  }

  lemma PartOfSevens(s: Bytes, i: nat, j: nat)
    requires AreSevens(s) && i <= j <= |s| && i % 4 == 0 && j % 4 == 0
    ensures AreSevens(s[i..j])
  {
    forall k | 0 <= k < j - i
      ensures s[i..j][k] == if k % 4 == 0 then 7 else 0
    {
      assert (i + k) % 4 == k % 4;
    }
  }

  lemma PointersAreSeven(s: Bytes, i: nat)
    requires AreSevens(s) && i < |s| / 4
    ensures BlockMapIter.PointersFrom(s, 0)[i] == 7
  {
    var k := 4 * i;
    assert s[k] == 7 && s[k + 1] == 0 && s[k + 2] == 0 && s[k + 3] == 0;
  }

  /** A device of eight blocks, all pointers in which are 7. */
  ghost predicate IsSevensVolume(v: Volume) {
    v.blockSize == BLOCK_SIZE && v.blocksCount == 8 && |v.device| == 8 * BLOCK_SIZE && AreSevens(v.device)
  }

  lemma BlockSeven(v: Volume)
    requires IsSevensVolume(v)
    ensures AreSevens(BlockCache.BlockOf(v.device, BLOCK_SIZE, 7))
  {
    PartOfSevens(v.device, 7 * BLOCK_SIZE, 8 * BLOCK_SIZE);
  }

  lemma ReadsSeven(v: Volume, offset: nat, n: nat)
    requires IsSevensVolume(v) && offset < BLOCK_SIZE && offset + n <= BLOCK_SIZE
    ensures Mount(v, map[]).read(7, offset, n) ==
            Ok(BlockCache.BlockOf(v.device, BLOCK_SIZE, 7)[offset..offset + n])
  {
    assert v.Has(7);
  }

  lemma SevensLeadToThemselves(v: Volume)
    requires IsSevensVolume(v)
    ensures var disk := Mount(v, map[]);
            disk.Valid() && disk.Env().Valid() && LeadsToItself(disk.Env(), 7)
  {
    var disk, block := Mount(v, map[]), BlockCache.BlockOf(v.device, BLOCK_SIZE, 7);
    MountIsValid(v, map[]);
    ViewsAreValid(disk);
    ReadsSeven(v, 0, BLOCK_SIZE);
    assert block[0..BLOCK_SIZE] == block;
    BlockSeven(v);
    forall i | 0 <= i < PerBlock(disk.Env())
      ensures BlockMapIter.PointersFrom(block, 0)[i] == 7
    {
      PointersAreSeven(block, i);
    }
  }

  /** A file of one block more than a map with 1024-byte blocks can describe, all
      pointers in which are 7. */
  ghost predicate IsHuge(inode: Inode) {
    && !inode.usesExtents && |inode.inlineData| == INLINE_DATA_LEN && AreSevens(inode.inlineData)
    && inode.size == (12 + 256 + 256 * 256 + 256 * 256 * 256 + 1) * BLOCK_SIZE
  }

  lemma HugeNumBlocks(inode: Inode)
    requires IsHuge(inode)
    ensures inode.NumBlocks(BLOCK_SIZE) == 12 + 256 + 256 * 256 + 256 * 256 * 256 + 1
  {
  }

  /** The blocks of a file whose pointers all lead to a block that leads to itself. */
  lemma BlocksItself(disk: Disk, inode: Inode, b: nat, values: seq<nat>)
    requires WellFormed(disk, inode) && !inode.usesExtents && disk.Env().Valid() && LeadsToItself(disk.Env(), b)
    requires forall k :: 0 <= k < 15 ==> RootOf(inode.inlineData)[k] == b
    requires |values| == Min(inode.NumBlocks(disk.blockSize), Capacity(disk.Env()))
    requires forall i :: 0 <= i < |values| ==> values[i] == b
    ensures BlocksOf(disk, inode) == Ok(Stream(values, None))
  {
    forall i | 0 <= i < |values|
      ensures Entry(disk.Env(), RootOf(inode.inlineData), i) == Ok(values[i])
    {
      EntryItself(disk.Env(), RootOf(inode.inlineData), b, i);
    }
    MapIsComplete(disk, inode, values);
  }

  lemma HugeRoot(inode: Inode)
    requires IsHuge(inode)
    ensures forall k :: 0 <= k < 15 ==> RootOf(inode.inlineData)[k] == 7
  {
    forall k | 0 <= k < 15
      ensures RootOf(inode.inlineData)[k] == 7
    {
      PointersAreSeven(inode.inlineData, k);
    }
  }

  lemma HugeIsWellFormed(v: Volume, inode: Inode)
    requires IsSevensVolume(v) && IsHuge(inode)
    ensures WellFormed(Mount(v, map[]), inode) && Mount(v, map[]).Env().Valid()
    ensures Capacity(Mount(v, map[]).Env()) == 12 + 256 + 256 * 256 + 256 * 256 * 256
  {
    MountIsValid(v, map[]);
    ViewsAreValid(Mount(v, map[]));
    CapacityIs(Mount(v, map[]).Env());
    HugeNumBlocks(inode);
  }

  /** All blocks of that file can be read, up to the end of its map. */
  lemma HugeBlocks(v: Volume, inode: Inode, values: seq<nat>)
    requires IsSevensVolume(v) && IsHuge(inode)
    requires |values| == 12 + 256 + 256 * 256 + 256 * 256 * 256 && forall i :: 0 <= i < |values| ==> values[i] == 7
    ensures WellFormed(Mount(v, map[]), inode)
    ensures BlocksOf(Mount(v, map[]), inode) == Ok(Stream(values, None))
    ensures Readable(Mount(v, map[]), Stream(values, None))
  {
    HugeIsWellFormed(v, inode);
    HugeNumBlocks(inode);
    HugeRoot(inode);
    SevensLeadToThemselves(v);
    BlocksItself(Mount(v, map[]), inode, 7, values);
    SevensAreReadable(v, values);
  }

  lemma SevensAreReadable(v: Volume, values: seq<nat>)
    requires IsSevensVolume(v) && forall i :: 0 <= i < |values| ==> values[i] == 7
    ensures Readable(Mount(v, map[]), Stream(values, None))
  {
    forall offset: nat, n: nat | offset < BLOCK_SIZE && offset + n <= BLOCK_SIZE
      ensures Mount(v, map[]).read(7, offset, n).Ok?
    {
      ReadsSeven(v, offset, n);
    }
  }

  /** Reading the last byte of that file panics. */
  lemma HugeReadPanics(v: Volume, inode: Inode, values: seq<nat>)
    requires IsSevensVolume(v) && IsHuge(inode)
    requires |values| == 12 + 256 + 256 * 256 + 256 * 256 * 256 && forall i :: 0 <= i < |values| ==> values[i] == 7
    ensures var disk := Mount(v, map[]);
            && WellFormed(disk, inode) && BlocksOf(disk, inode) == Ok(Stream(values, None))
            && ReadStep(disk, inode, SeekStep(disk, Stream(values, None), inode.size - 1), 1, None).0 == Panicked
  {
    HugeBlocks(v, inode, values);
    TimesIsProduct(|values|, BLOCK_SIZE);
    PanicsAfterSeek(Mount(v, map[]), inode, Stream(values, None), inode.size - 1, 1, None);
  }

  /** There are such a device and file. */
  lemma HugeFilePanics() returns (v: Volume, inode: Inode)
    ensures IsSevensVolume(v) && IsHuge(inode) && WellFormed(Mount(v, map[]), inode)
    ensures var disk := Mount(v, map[]);
            && BlocksOf(disk, inode).Ok?
            && ReadStep(disk, inode, SeekStep(disk, BlocksOf(disk, inode).value, inode.size - 1), 1, None).0 == Panicked
  {
    v := Volume(Sevens(8 * BLOCK_SIZE), BLOCK_SIZE, 8, false, (_, _) => true);
    inode := Inode(false, Sevens(INLINE_DATA_LEN), (12 + 256 + 256 * 256 + 256 * 256 * 256 + 1) * BLOCK_SIZE);
    HugeReadPanics(v, inode, seq(12 + 256 + 256 * 256 + 256 * 256 * 256, _ => 7));
  }
}
