// `Ext4::read_from_block` (src/lib.rs): the journal remaps the block index, the
// bounds are checked, and the bytes come from the block cache. It is proved to
// agree with reading the device directly, also when the journal is installed
// over a warm cache.

module BlockRead {
  import opened Basics
  import opened BlockCache
  import opened CacheProps
  import JournalSpec

  const RESERVED_BYTES: nat := 1024

  /** `Journal::map_block_index`. */
  function MapBlock(journal: JournalSpec.JournalMap, block: nat): nat {
    if block in journal then journal[block] else block
  }

  /** The bounds of a read: not in the reserved bytes, and inside one block. */
  predicate InBounds(blockSize: nat, blocksCount: nat, block: nat, offset: nat, len: nat) {
    && !(block == 0 && offset < RESERVED_BYTES)
    && block < blocksCount
    && offset < blockSize
    && offset + len <= blockSize
  }

  /** Reading the device without a cache: the reference for `ReadFromBlock`. */
  function DirectRead(device: Bytes, blockSize: nat, blocksCount: nat, journal: JournalSpec.JournalMap,
                      block: nat, offset: nat, len: nat): Result<Bytes>
  {
    var b := MapBlock(journal, block);
    if !InBounds(blockSize, blocksCount, b, offset, len) then Err(Corrupt)
    else if (b + 1) * blockSize > |device| then Err(Io)
    else Ok(BlockOf(device, blockSize, b)[offset..offset + len])
  }

  /** The callback given to the cache: read the device from the block on. The
      device may be down, and a failed read leaves garbage in the buffer. */
  function DeviceReader(device: Bytes, blockSize: nat, block: nat, up: bool): (f: ReadFn)
    ensures FillsBuffer(f) && Honest(f, device, block * blockSize)
    ensures forall n :: f(n).error.None? <==>
                        up && block * blockSize < U64_LIMIT && block * blockSize + n <= |device|
  {
    (n: nat) =>
      if block * blockSize >= U64_LIMIT then Fill(seq(n, _ => 0), Some(Corrupt))
      else if up && block * blockSize + n <= |device| then
        Fill(device[block * blockSize..block * blockSize + n], None)
      else Fill(seq(n, _ => 0), Some(Io))
  }

  /** What a read through the cache returns, and the cache it leaves. */
  datatype ReadOutcome = ReadOutcome(cache: Cache, result: Result<Bytes>)

  function CachedRead(c: Cache, device: Bytes, journal: JournalSpec.JournalMap, block: nat, offset: nat, len: nat,
                      up: bool): ReadOutcome
    requires c.WellFormed()
  {
    var b := MapBlock(journal, block);
    if !InBounds(c.blockSize, c.numFsBlocks, b, offset, len) then ReadOutcome(c, Err(Corrupt))
    else
      var got := Get(c, b, DeviceReader(device, c.blockSize, b, up));
      match got.result
      case Err(e) => ReadOutcome(got.cache, Err(e))
      case Ok(data) =>
        DataLength(c, b, DeviceReader(device, c.blockSize, b, up));
        ReadOutcome(got.cache, Ok(data[offset..offset + len]))
  }

  lemma DataLength(c: Cache, block: nat, f: ReadFn)
    requires c.WellFormed() && block < c.numFsBlocks && FillsBuffer(f)
    ensures Get(c, block, f).result.Ok? ==> |Get(c, block, f).result.value| == c.blockSize
  {
  }

  /** Reading through the cache agrees with reading the device directly: a
      successful read of a block other than 0 gives the bytes of the remapped
      block, whatever journal is installed; block 0 may read as zeros; a read
      out of bounds fails in the same way; and a failure changes nothing. */
  lemma CachedReadIsDirect(c: Cache, device: Bytes, journal: JournalSpec.JournalMap, block: nat, offset: nat,
                           len: nat, up: bool)
    requires c.WellFormed() && Faithful(c, device)
    ensures var r := CachedRead(c, device, journal, block, offset, len, up);
            var direct := DirectRead(device, c.blockSize, c.numFsBlocks, journal, block, offset, len);
            && r.cache.WellFormed() && Faithful(r.cache, device)
            && r.cache == c.(entries := r.cache.entries) && |r.cache.entries| == |c.entries|
            && (r.result.Ok? && MapBlock(journal, block) != 0 ==> r.result == direct)
            && (r.result.Ok? ==> r.result == direct || IsPlaceholder(len, r.result.value))
            && (r.result.Err? ==> r.cache == c)
            && (direct == Err(Corrupt) ==> r.result == direct)
  {
    var b := MapBlock(journal, block);
    if InBounds(c.blockSize, c.numFsBlocks, b, offset, len) {
      var f := DeviceReader(device, c.blockSize, b, up);
      GetKeepsShape(c, b, f);
      GetIsFaithful(c, b, f, device);
      DataLength(c, b, f);
    }
  }

  lemma GroupOnDevice(b: nat, n: nat, numFsBlocks: nat, blockSize: nat)
    requires b + n <= numFsBlocks
    ensures b * blockSize + n * blockSize <= numFsBlocks * blockSize
  {
    BufferFits(b + n, numFsBlocks, blockSize);
    assert (b + n) * blockSize == b * blockSize + n * blockSize;
  }

  /** While the device is up, a read in bounds fails only if the group of blocks
      it has to read goes beyond the end of the device. */
  lemma CachedReadSucceeds(c: Cache, device: Bytes, journal: JournalSpec.JournalMap, block: nat, offset: nat, len: nat)
    requires c.WellFormed() && |device| < U64_LIMIT
    requires c.numFsBlocks * c.blockSize <= |device|
    requires InBounds(c.blockSize, c.numFsBlocks, MapBlock(journal, block), offset, len)
    ensures CachedRead(c, device, journal, block, offset, len, true).result.Ok?
  {
    var b := MapBlock(journal, block);
    GroupOnDevice(b, c.NumBlocksToRead(b), c.numFsBlocks, c.blockSize);
  }

  /** The block of the device that a block index stands for: the journal's copy of the
      block, where it has one. */
  ghost predicate StandsFor(journal: JournalSpec.JournalMap, block: nat, b: nat) {
    || (block in journal && journal[block] == b)
    || (block !in journal && block == b)
  }

  /** The device has `data` in block `b`, from `offset` on. */
  predicate Holds(device: Bytes, blockSize: nat, b: nat, offset: nat, data: Bytes) {
    var start := b * blockSize + offset;
    0 <= start && start + |data| <= |device| && device[start..start + |data|] == data
  }

  /** The position of the block is no 64-bit number. */
  predicate Overflows(blockSize: nat, b: nat) {
    b * blockSize >= U64_LIMIT
  }

  lemma SliceOfBlock(device: Bytes, blockSize: nat, b: nat, offset: nat, len: nat)
    requires (b + 1) * blockSize <= |device| && offset + len <= blockSize
    ensures Holds(device, blockSize, b, offset, BlockOf(device, blockSize, b)[offset..offset + len])
  {
    assert (b + 1) * blockSize == b * blockSize + blockSize;
    SliceOfSlice(device, b * blockSize, blockSize, offset, len);
  }

  /** Reading block `block` from the device, written out: the bytes are those of the
      block it stands for, and every other outcome is an error. */
  lemma DirectReadIs(device: Bytes, blockSize: nat, blocksCount: nat, journal: JournalSpec.JournalMap,
                     block: nat, b: nat, offset: nat, len: nat)
    requires StandsFor(journal, block, b)
    ensures var r := DirectRead(device, blockSize, blocksCount, journal, block, offset, len);
            if (b == 0 && offset < 1024) || b >= blocksCount || offset >= blockSize || offset + len > blockSize then
              r == Err(Corrupt)
            else if (b + 1) * blockSize > |device| then r == Err(Io)
            else r.Ok? && |r.value| == len && Holds(device, blockSize, b, offset, r.value)
  {
    if InBounds(blockSize, blocksCount, b, offset, len) && (b + 1) * blockSize <= |device| {
      SliceOfBlock(device, blockSize, b, offset, len);
    }
  }

  /** In bounds a read through the cache fails only as the device does. */
  lemma CachedReadFails(c: Cache, device: Bytes, journal: JournalSpec.JournalMap, block: nat, offset: nat,
                        len: nat, up: bool)
    requires c.WellFormed() && InBounds(c.blockSize, c.numFsBlocks, MapBlock(journal, block), offset, len)
    ensures var b, r := MapBlock(journal, block), CachedRead(c, device, journal, block, offset, len, up).result;
            r.Err? ==> r == Err(if Overflows(c.blockSize, b) then Corrupt else Io)
  {
  }

  /** Reading through the cache, written out. A read fails with `Corrupt` out of bounds,
      and in bounds only as the device does; what it gives are the bytes of the block
      that `block` stands for, or zeros for block 0. */
  lemma CachedReadIs(c: Cache, device: Bytes, journal: JournalSpec.JournalMap, block: nat, b: nat, offset: nat,
                     len: nat, up: bool)
    requires c.WellFormed() && Faithful(c, device) && StandsFor(journal, block, b)
    ensures var r := CachedRead(c, device, journal, block, offset, len, up).result;
            if (b == 0 && offset < 1024) || b >= c.numFsBlocks || offset >= c.blockSize || offset + len > c.blockSize
            then r == Err(Corrupt)
            else if r.Err? then r == Err(if Overflows(c.blockSize, b) then Corrupt else Io)
            else
              && |r.value| == len
              && (Holds(device, c.blockSize, b, offset, r.value) || (b == 0 && IsPlaceholder(len, r.value)))
  {
    CachedReadIsDirect(c, device, journal, block, offset, len, up);
    DirectReadIs(device, c.blockSize, c.numFsBlocks, journal, block, b, offset, len);
    if InBounds(c.blockSize, c.numFsBlocks, b, offset, len) {
      CachedReadFails(c, device, journal, block, offset, len, up);
    }
  }

  class Ext4 {
    const device: Bytes
    const blockSize: nat
    const blocksCount: nat
    const cache: BlockCache
    var journal: JournalSpec.JournalMap

    ghost predicate Valid()
      reads this, cache
    {
      && cache.Valid()
      && cache.blockSize == blockSize && cache.numFsBlocks == blocksCount
      && Faithful(cache.Value(), device)
    }

    /** Before the journal is loaded it is taken to be empty. */
    constructor (device: Bytes, blockSize: nat, blocksCount: nat)
      requires 1024 <= blockSize
      ensures Valid() && fresh(cache) && fresh(cache.readBuf)
      ensures this.device == device && this.blockSize == blockSize && this.blocksCount == blocksCount
      ensures journal == map[]
    {
      var (group, numEntries) := DefaultOpts(blockSize);
      var c := new BlockCache(blockSize, group, numEntries, blocksCount);
      FreshIsFaithful(blockSize, group, numEntries, blocksCount, device);
      this.device := device;
      this.blockSize := blockSize;
      this.blocksCount := blocksCount;
      cache := c;
      journal := map[];
    }

    /** The end of `Ext4::load`: the loaded journal replaces the empty one, and
        the cache stays as it is. */
    method InstallJournal(loaded: JournalSpec.JournalMap)
      requires Valid()
      modifies this
      ensures Valid() && journal == loaded
      ensures cache.Value() == old(cache.Value())
    {
      journal := loaded;
    }

    /** Get a block through the cache and copy a part of it. */
    method CopyFromBlock(block: nat, offset: nat, dst: array<byte>, up: bool) returns (r: Result<()>)
      requires Valid() && dst != cache.readBuf
      requires block < blocksCount && offset + dst.Length <= blockSize
      modifies dst, cache, cache.readBuf
      ensures Valid()
      ensures var got := Get(old(cache.Value()), block, DeviceReader(device, blockSize, block, up));
              && cache.Value() == got.cache
              && (got.result.Err? ==> r == Err(got.result.error) && dst[..] == old(dst[..]))
              && (got.result.Ok? ==> r.Ok? && |got.result.value| == blockSize
                                     && dst[..] == got.result.value[offset..offset + dst.Length])
    {
      var f := DeviceReader(device, blockSize, block, up);
      DataLength(cache.Value(), block, f);
      GetIsFaithful(cache.Value(), block, f, device);
      var cachedBlock := cache.GetOrInsertBlocks(block, f);
      if cachedBlock.Err? {
        return Err(cachedBlock.error);
      }
      forall i | 0 <= i < dst.Length {
        dst[i] := cachedBlock.value[offset + i];
      }
      assert dst[..] == cachedBlock.value[offset..offset + dst.Length];
      r := Ok(());
    }

    /** `read_from_block`. */
    method ReadFromBlock(originalBlock: nat, offset: nat, dst: array<byte>, up: bool) returns (r: Result<()>)
      requires Valid() && dst != cache.readBuf
      modifies dst, cache, cache.readBuf
      ensures Valid()
      ensures var spec := CachedRead(old(cache.Value()), device, journal, originalBlock, offset, dst.Length, up);
              && cache.Value() == spec.cache
              && (spec.result.Err? ==> r == Err(spec.result.error) && dst[..] == old(dst[..]))
              && (spec.result.Ok? ==> r.Ok? && dst[..] == spec.result.value)
      ensures var b := if originalBlock in journal then journal[originalBlock] else originalBlock;
              r.Ok? && b != 0 ==> Holds(device, blockSize, b, offset, dst[..])
    {
      CachedReadIs(cache.Value(), device, journal, originalBlock, MapBlock(journal, originalBlock), offset,
                   dst.Length, up);
      var blockIndex := MapBlock(journal, originalBlock);
      if blockIndex == 0 && offset < RESERVED_BYTES {
        return Err(Corrupt);
      }
      if blockIndex >= blocksCount {
        return Err(Corrupt);
      }
      if offset >= blockSize {
        return Err(Corrupt);
      }
      var readEnd := offset + dst.Length;
      if readEnd > blockSize {
        return Err(Corrupt);
      }
      r := CopyFromBlock(blockIndex, offset, dst, up);
    }
  }
}
