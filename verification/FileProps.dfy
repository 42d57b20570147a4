// The cursor refines a flat array of bytes: a read sees the concatenation of the
// file's blocks, cut at the file's size.

module FileProps {
  import opened Basics
  import opened Arithmetic
  import opened FileMap
  import opened FileCursor

  // ----- the flat file

  function BlockBytes(disk: Disk, block: nat): Bytes {
    if block == 0 then ZeroBytes(disk.blockSize) else disk.content(block)
  }

  /** All bytes of the blocks. */
  function Flat(disk: Disk, items: seq<nat>): Bytes {
    if items == [] then [] else BlockBytes(disk, items[0]) + Flat(disk, items[1..])
  }

  lemma {:induction false} FlatLength(disk: Disk, items: seq<nat>)
    requires disk.Valid()
    ensures |Flat(disk, items)| == Times(|items|, disk.blockSize)
    decreases |items|
  {
    if items != [] {
      FlatLength(disk, items[1..]);
    }
  }

  lemma SliceOfTail(a: Bytes, b: Bytes, i: nat, j: nat)
    requires |a| <= i <= j <= |a| + |b|
    ensures (a + b)[i..j] == b[i - |a|..j - |a|]
  {
  }

  lemma SliceOfHead(a: Bytes, b: Bytes, i: nat, j: nat)
    requires i <= j <= |a|
    ensures (a + b)[i..j] == a[i..j]
  {
  }

  lemma BlockLength(disk: Disk, block: nat)
    requires disk.Valid()
    ensures |BlockBytes(disk, block)| == disk.blockSize
  {
  }

  /** A slice of the flat file that lies within one block. */
  lemma {:induction false} FlatSlice(disk: Disk, items: seq<nat>, pos: nat, n: nat)
    requires disk.Valid() && Quotient(pos, disk.blockSize) < |items|
    requires Remainder(pos, disk.blockSize) + n <= disk.blockSize
    ensures |BlockBytes(disk, items[Quotient(pos, disk.blockSize)])| == disk.blockSize
    ensures pos + n <= |Flat(disk, items)|
    ensures var offset := Remainder(pos, disk.blockSize);
            Flat(disk, items)[pos..pos + n] ==
            BlockBytes(disk, items[Quotient(pos, disk.blockSize)])[offset..offset + n]
    decreases |items|
  {
    var first, rest := BlockBytes(disk, items[0]), Flat(disk, items[1..]);
    BlockLength(disk, items[0]);
    if pos < disk.blockSize {
      SliceOfHead(first, rest, pos, pos + n);
    } else {
      var q := Quotient(pos - disk.blockSize, disk.blockSize);
      FlatSlice(disk, items[1..], pos - disk.blockSize, n);
      SliceOfTail(first, rest, pos, pos + n);
      assert q + 1 == Quotient(pos, disk.blockSize) && items[1..][q] == items[q + 1];
    }
  }

  lemma BlockReads(disk: Disk, block: nat, offset: nat, n: nat, fault: Option<Error>)
    requires disk.Valid() && offset + n <= disk.blockSize
    ensures var r := ReadBlock(disk, block, offset, n, fault);
            r.Ok? ==> r.value == BlockBytes(disk, block)[offset..offset + n]
  {
  }

  // ----- one read

  /** The cursor is where its position says: the current block, if there is one, is
      the one at the position, and the iterator continues after it. */
  ghost predicate At(disk: Disk, blocks: Stream<nat>, c: Cursor)
    requires disk.blockSize > 0
  {
    var q := Quotient(c.position, disk.blockSize);
    if c.blockIndex.None? then c.rest == blocks.Skip(q)
    else q < |blocks.items| && c.blockIndex.value == blocks.items[q] && c.rest == blocks.Skip(q + 1)
  }

  /** The length of a read that stays within the file and within the block. */
  function ReadLength(disk: Disk, inode: Inode, pos: nat, len: nat): nat
    requires disk.blockSize > 0 && pos < inode.size
  {
    Min(Min(len, inode.size - pos), disk.blockSize - Remainder(pos, disk.blockSize))
  }

  lemma Fetches(disk: Disk, blocks: Stream<nat>, c: Cursor)
    requires disk.blockSize > 0 && At(disk, blocks, c)
    ensures var q := Quotient(c.position, disk.blockSize);
            var (block, d) := FetchBlock(c);
            && d.position == c.position
            && (q < |blocks.items| ==>
                  && block == Some(Ok(blocks.items[q])) && d.blockIndex == Some(blocks.items[q])
                  && At(disk, blocks, d))
            && (q == |blocks.items| && blocks.err.Some? ==>
                  block == Some(Err(blocks.err.value)) && d == Cursor(c.position, None, Stream([], None)))
            && (q > |blocks.items| || (q == |blocks.items| && blocks.err.None?) ==> block == None && d == c)
  {
  }

  lemma StaysAt(disk: Disk, blocks: Stream<nat>, c: Cursor, m: nat)
    requires disk.blockSize > 0 && At(disk, blocks, c) && c.blockIndex.Some?
    requires Remainder(c.position, disk.blockSize) + m <= disk.blockSize
    ensures At(disk, blocks, After(disk, c, m))
  {
    QuotientAfter(c.position, m, disk.blockSize);
  }

  lemma ReadsFlat(disk: Disk, blocks: Stream<nat>, pos: nat, m: nat, fault: Option<Error>)
    requires disk.Valid() && Quotient(pos, disk.blockSize) < |blocks.items|
    requires Remainder(pos, disk.blockSize) + m <= disk.blockSize
    ensures var r := ReadBlock(disk, blocks.items[Quotient(pos, disk.blockSize)],
                               Remainder(pos, disk.blockSize), m, fault);
            r.Ok? ==> pos + m <= |Flat(disk, blocks.items)| && r.value == Flat(disk, blocks.items)[pos..pos + m]
  {
    BlockReads(disk, blocks.items[Quotient(pos, disk.blockSize)], Remainder(pos, disk.blockSize), m, fault);
    FlatSlice(disk, blocks.items, pos, m);
  }

  // ----- a read of the flat file

  /** A place in a flat file. The block iterator is `spent` once it has given its
      error, until the next seek. */
  datatype Place = Place(pos: nat, spent: bool)

  /** Read `m` bytes of the flat file at `pos`, in a block that it has. */
  ghost function FlatData(disk: Disk, items: seq<nat>, pos: nat, m: nat, fault: Option<Error>): (Reply, Place)
    requires disk.Valid() && Quotient(pos, disk.blockSize) < |items|
    requires Remainder(pos, disk.blockSize) + m <= disk.blockSize
  {
    FlatSlice(disk, items, pos, m);
    match ReadBlock(disk, items[Quotient(pos, disk.blockSize)], Remainder(pos, disk.blockSize), m, fault)
    case Err(e) => (Failed(e), Place(pos, false))
    case Ok(_) => (Data(Flat(disk, items)[pos..pos + m]), Place(pos + m, false))
  }

  /** What a read does to a place in a flat file: at the end of the file, nothing;
      where the file has a block, the bytes there or the error of the disk; just after
      the last block, the error of the block iterator; and otherwise a panic. */
  ghost function FlatRead(disk: Disk, inode: Inode, blocks: Stream<nat>, p: Place, len: nat, fault: Option<Error>):
    (Reply, Place)
    requires disk.Valid()
  {
    var q := Quotient(p.pos, disk.blockSize);
    if len == 0 || p.pos >= inode.size then (Data([]), p)
    else if p.spent || q > |blocks.items| then (Panicked, p)
    else if q < |blocks.items| then
      FlatData(disk, blocks.items, p.pos, ReadLength(disk, inode, p.pos, len), fault)
    else if blocks.err.Some? then (Failed(blocks.err.value), Place(p.pos, true))
    else (Panicked, p)
  }

  /** The cursor is at the place. */
  ghost predicate InStep(disk: Disk, blocks: Stream<nat>, c: Cursor, p: Place)
    requires disk.blockSize > 0
  {
    && c.position == p.pos
    && if p.spent then c.blockIndex == None && c.rest == Stream([], None) else At(disk, blocks, c)
  }

  lemma ReadsFromBlock(disk: Disk, blocks: Stream<nat>, c: Cursor, n: nat, m: nat, fault: Option<Error>)
    requires disk.Valid() && At(disk, blocks, c) && c.blockIndex.Some?
    requires m == Min(n, disk.blockSize - Remainder(c.position, disk.blockSize))
    ensures var (reply, d) := FromBlock(disk, c, c.blockIndex.value, n, fault);
            var (flat, p) := FlatData(disk, blocks.items, c.position, m, fault);
            reply == flat && InStep(disk, blocks, d, p)
  {
    ReadsFlat(disk, blocks, c.position, m, fault);
    StaysAt(disk, blocks, c, m);
  }

  lemma ReadWithBlock(disk: Disk, inode: Inode, blocks: Stream<nat>, c: Cursor, len: nat, fault: Option<Error>)
    requires disk.Valid() && At(disk, blocks, c) && len > 0 && c.position < inode.size
    requires Quotient(c.position, disk.blockSize) < |blocks.items|
    ensures var (reply, d) := ReadStep(disk, inode, c, len, fault);
            var (flat, p) := FlatData(disk, blocks.items, c.position, ReadLength(disk, inode, c.position, len), fault);
            reply == flat && InStep(disk, blocks, d, p)
  {
    Fetches(disk, blocks, c);
    ReadsFromBlock(disk, blocks, FetchBlock(c).1, Min(len, inode.size - c.position),
                   ReadLength(disk, inode, c.position, len), fault);
  }

  lemma ReadWithoutBlock(disk: Disk, inode: Inode, blocks: Stream<nat>, c: Cursor, p: Place, len: nat,
                         fault: Option<Error>)
    requires disk.Valid() && InStep(disk, blocks, c, p) && len > 0 && c.position < inode.size
    requires p.spent || Quotient(c.position, disk.blockSize) >= |blocks.items|
    ensures var (reply, d) := ReadStep(disk, inode, c, len, fault);
            var (flat, next) := FlatRead(disk, inode, blocks, p, len, fault);
            reply == flat && InStep(disk, blocks, d, next)
  {
    if !p.spent {
      Fetches(disk, blocks, c);
    }
  }

  /** Every read of a cursor is a read of the flat file. */
  lemma ReadIs(disk: Disk, inode: Inode, blocks: Stream<nat>, c: Cursor, p: Place, len: nat, fault: Option<Error>)
    requires disk.Valid() && InStep(disk, blocks, c, p)
    ensures var (reply, d) := ReadStep(disk, inode, c, len, fault);
            var (flat, next) := FlatRead(disk, inode, blocks, p, len, fault);
            reply == flat && InStep(disk, blocks, d, next)
  {
    if len > 0 && c.position < inode.size {
      if !p.spent && Quotient(c.position, disk.blockSize) < |blocks.items| {
        ReadWithBlock(disk, inode, blocks, c, len, fault);
      } else {
        ReadWithoutBlock(disk, inode, blocks, c, p, len, fault);
      }
    }
  }
}
