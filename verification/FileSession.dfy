// Whole runs of a cursor (src/file.rs) and reading a whole file (src/lib.rs).

module FileSession {
  import opened Basics
  import opened Arithmetic
  import opened FileMap
  import opened FileCursor
  import opened FileProps
  import ExtentWalk
  import ExtentBlocks
  import BlockMapProps

  // ----- files that have all their blocks

  /** The block iterator has a block for every byte of the file. */
  ghost predicate Complete(disk: Disk, inode: Inode, blocks: Stream<nat>)
    requires disk.blockSize > 0
  {
    inode.size <= Times(|blocks.items|, disk.blockSize)
  }

  lemma RoundUp(size: nat, n: nat, d: nat)
    requires d > 0
    ensures (size + d - 1) / d <= n <==> size <= Times(n, d)
  {
    QuotientIs(size + d - 1, d);
    QuotientBelow(size + d - 1, n + 1, d);
  }

  /** A file has a block for every byte if it has as many blocks as its size needs. */
  lemma CompleteIs(disk: Disk, inode: Inode, blocks: Stream<nat>)
    requires disk.blockSize > 0
    ensures Complete(disk, inode, blocks) <==> inode.NumBlocks(disk.blockSize) <= |blocks.items|
  {
    RoundUp(inode.size, |blocks.items|, disk.blockSize);
  }

  /** With extents a file is complete exactly if the walk of its tree meets no error
      before the end of the file. */
  lemma ExtentsAreComplete(disk: Disk, inode: Inode)
    requires WellFormed(disk, inode) && inode.usesExtents && BlocksOf(disk, inode).Ok?
    ensures Complete(disk, inode, BlocksOf(disk, inode).value) <==> BlocksOf(disk, inode).value.err.None?
  {
    var total := inode.NumBlocks(disk.blockSize);
    var n: nat :| ExtentBlocks.Suffices(ExtentWalk.WalkFor(disk.Fs(), TreeOf(inode), n), total);
    ExtentBlocks.BlocksForWalk(disk.Fs(), TreeOf(inode), total, n);
    ExtentBlocks.EmitEnds(ExtentWalk.WalkFor(disk.Fs(), TreeOf(inode), n).extents, 0, total);
    CompleteIs(disk, inode, BlocksOf(disk, inode).value);
  }

  /** With a block map whose needed blocks can be read it is complete exactly if the
      map has room for it. */
  lemma MapIsComplete(disk: Disk, inode: Inode, values: seq<nat>)
    requires WellFormed(disk, inode) && !inode.usesExtents && disk.Env().Valid()
    requires |values| == Min(inode.NumBlocks(disk.blockSize), BlockMapProps.Capacity(disk.Env()))
    requires forall i :: 0 <= i < |values| ==>
                           BlockMapProps.Entry(disk.Env(), RootOf(inode.inlineData), i) == Ok(values[i])
    ensures BlocksOf(disk, inode) == Ok(Stream(values, None))
    ensures Complete(disk, inode, Stream(values, None)) <==>
            inode.NumBlocks(disk.blockSize) <= BlockMapProps.Capacity(disk.Env())
  {
    BlockMapProps.BlocksAreEntries(disk.Env(), RootOf(inode.inlineData), inode.NumBlocks(disk.blockSize), values);
    CompleteIs(disk, inode, Stream(values, None));
  }

  // ----- runs

  datatype Op = Read(len: nat, fault: Option<Error>) | Seek(position: nat)

  function CursorStep(disk: Disk, inode: Inode, blocks: Stream<nat>, c: Cursor, op: Op): (Reply, Cursor)
    requires disk.blockSize > 0
  {
    match op
    case Seek(p) => (Data([]), SeekStep(disk, blocks, p))
    case Read(len, fault) => ReadStep(disk, inode, c, len, fault)
  }

  /** What an operation does to a place in a flat file. */
  ghost function FlatStep(disk: Disk, inode: Inode, blocks: Stream<nat>, p: Place, op: Op): (Reply, Place)
    requires disk.Valid()
  {
    match op
    case Seek(pos) => (Data([]), Place(pos, false))
    case Read(len, fault) => FlatRead(disk, inode, blocks, p, len, fault)
  }

  lemma StepIsFlat(disk: Disk, inode: Inode, blocks: Stream<nat>, c: Cursor, p: Place, op: Op)
    requires disk.Valid() && InStep(disk, blocks, c, p)
    ensures var (reply, d) := CursorStep(disk, inode, blocks, c, op);
            var (flat, next) := FlatStep(disk, inode, blocks, p, op);
            reply == flat && InStep(disk, blocks, d, next)
  {
    if op.Read? {
      ReadIs(disk, inode, blocks, c, p, op.len, op.fault);
    }
  }

  /** The replies to a run, which a panic ends. */
  function CursorRun(disk: Disk, inode: Inode, blocks: Stream<nat>, c: Cursor, ops: seq<Op>): seq<Reply>
    requires disk.blockSize > 0
    decreases |ops|
  {
    if ops == [] then []
    else
      var (reply, d) := CursorStep(disk, inode, blocks, c, ops[0]);
      [reply] + if reply.Panicked? then [] else CursorRun(disk, inode, blocks, d, ops[1..])
  }

  ghost function FlatRun(disk: Disk, inode: Inode, blocks: Stream<nat>, p: Place, ops: seq<Op>): seq<Reply>
    requires disk.Valid()
    decreases |ops|
  {
    if ops == [] then []
    else
      var (reply, next) := FlatStep(disk, inode, blocks, p, ops[0]);
      [reply] + if reply.Panicked? then [] else FlatRun(disk, inode, blocks, next, ops[1..])
  }

  /** Every run of reads, failed reads and seeks, on every file, gives the replies of
      the flat file; errors of the block iterator and panics are among them. */
  lemma {:induction false} RunsAreFlat(disk: Disk, inode: Inode, blocks: Stream<nat>, c: Cursor, p: Place, ops: seq<Op>)
    requires disk.Valid() && InStep(disk, blocks, c, p)
    ensures CursorRun(disk, inode, blocks, c, ops) == FlatRun(disk, inode, blocks, p, ops)
    decreases |ops|
  {
    if ops != [] {
      StepIsFlat(disk, inode, blocks, c, p, ops[0]);
      RunsAreFlat(disk, inode, blocks, CursorStep(disk, inode, blocks, c, ops[0]).1,
                  FlatStep(disk, inode, blocks, p, ops[0]).1, ops[1..]);
    }
  }

  // ----- when a read panics

  /** Where the block iterator has nothing to give any more: after its blocks, and
      after its error if it ends in one. */
  ghost function EndOfBlocks(disk: Disk, blocks: Stream<nat>): nat {
    Times(|blocks.items| + if blocks.err.Some? then 1 else 0, disk.blockSize)
  }

  /** A read, of any file and wherever the run has taken the cursor, panics exactly if
      it wants bytes of the file after the block iterator has given its error, or
      where it has neither a block nor an error to give. */
  lemma PanicsExactly(disk: Disk, inode: Inode, blocks: Stream<nat>, c: Cursor, p: Place, len: nat,
                      fault: Option<Error>)
    requires disk.Valid() && InStep(disk, blocks, c, p)
    ensures ReadStep(disk, inode, c, len, fault).0.Panicked? <==>
            len > 0 && p.pos < inode.size && (p.spent || EndOfBlocks(disk, blocks) <= p.pos)
  {
    ReadIs(disk, inode, blocks, c, p, len, fault);
    QuotientBelow(p.pos, |blocks.items|, disk.blockSize);
    QuotientBelow(p.pos, |blocks.items| + 1, disk.blockSize);
  }

  /** A read gives the error of the block iterator, and leaves it spent, exactly if it
      wants bytes of the block that the error stands for. */
  lemma SpendsExactly(disk: Disk, inode: Inode, blocks: Stream<nat>, p: Place, len: nat, fault: Option<Error>)
    requires disk.Valid() && !p.spent
    ensures var (reply, next) := FlatRead(disk, inode, blocks, p, len, fault);
            && (next.spent ==> reply == Failed(blocks.err.value) && next.pos == p.pos)
            && (next.spent <==>
                  && len > 0 && p.pos < inode.size
                  && Times(|blocks.items|, disk.blockSize) <= p.pos < EndOfBlocks(disk, blocks))
  {
    QuotientBelow(p.pos, |blocks.items|, disk.blockSize);
    QuotientBelow(p.pos, |blocks.items| + 1, disk.blockSize);
  }

  /** Where the file has a block, a read gives data of the flat file or an error of the
      disk, whatever becomes of later blocks. */
  lemma PlainRead(disk: Disk, inode: Inode, blocks: Stream<nat>, p: Place, len: nat, fault: Option<Error>)
    requires disk.Valid() && !p.spent && p.pos < Times(|blocks.items|, disk.blockSize) && p.pos < inode.size && len > 0
    ensures Quotient(p.pos, disk.blockSize) < |blocks.items|
    ensures FlatRead(disk, inode, blocks, p, len, fault) ==
            FlatData(disk, blocks.items, p.pos, ReadLength(disk, inode, p.pos, len), fault)
  {
    QuotientBelow(p.pos, |blocks.items|, disk.blockSize);
  }

  lemma FlatDataGives(disk: Disk, blocks: Stream<nat>, pos: nat, n: nat, fault: Option<Error>)
    requires disk.Valid() && Quotient(pos, disk.blockSize) < |blocks.items|
    requires Remainder(pos, disk.blockSize) + n <= disk.blockSize
    ensures var block, offset := blocks.items[Quotient(pos, disk.blockSize)], Remainder(pos, disk.blockSize);
            var (reply, next) := FlatData(disk, blocks.items, pos, n, fault);
            && (block == 0 ==> reply == Data(ZeroBytes(n)))
            && (block != 0 && fault.Some? ==> reply == Failed(fault.value))
            && (block != 0 && fault.None? ==>
                  var data := disk.read(block, offset, n);
                  reply == if data.Ok? then Data(data.value) else Failed(data.error))
            && next == Place(if reply.Data? then pos + n else pos, false)
  {
    ReadsFlat(disk, blocks, pos, n, fault);
  }

  /** The same, written out: a read goes up to the end of the buffer, of the file or of
      the block. In a hole it gives zeros, whether the device is up or not; elsewhere it
      gives what the disk does, and an error leaves the cursor where it was. */
  lemma ReadGives(disk: Disk, inode: Inode, blocks: Stream<nat>, c: Cursor, len: nat, fault: Option<Error>)
    requires disk.Valid() && At(disk, blocks, c) && c.position < inode.size && len > 0
    requires c.position < Times(|blocks.items|, disk.blockSize)
    ensures Quotient(c.position, disk.blockSize) < |blocks.items|
    ensures var block, offset := blocks.items[Quotient(c.position, disk.blockSize)],
              Remainder(c.position, disk.blockSize);
            var n := Min(Min(len, inode.size - c.position), disk.blockSize - offset);
            var (reply, d) := ReadStep(disk, inode, c, len, fault);
            && At(disk, blocks, d)
            && (block == 0 ==> reply == Data(ZeroBytes(n)))
            && (block != 0 && fault.Some? ==> reply == Failed(fault.value))
            && (block != 0 && fault.None? ==>
                  var data := disk.read(block, offset, n);
                  reply == if data.Ok? then Data(data.value) else Failed(data.error))
            && d.position == if reply.Data? then c.position + n else c.position
  {
    var p := Place(c.position, false);
    PlainRead(disk, inode, blocks, p, len, fault);
    ReadIs(disk, inode, blocks, c, p, len, fault);
    FlatDataGives(disk, blocks, c.position, ReadLength(disk, inode, c.position, len), fault);
  }

  /** After the block iterator fails, the next read panics. */
  lemma IteratorErrorThenPanic(disk: Disk, inode: Inode, blocks: Stream<nat>, c: Cursor, len: nat,
                               fault: Option<Error>, again: nat, fault2: Option<Error>)
    requires disk.Valid() && At(disk, blocks, c) && len > 0 && again > 0 && c.position < inode.size
    requires Times(|blocks.items|, disk.blockSize) <= c.position < EndOfBlocks(disk, blocks)
    ensures var (reply, d) := ReadStep(disk, inode, c, len, fault);
            && reply == Failed(blocks.err.value)
            && ReadStep(disk, inode, d, again, fault2).0 == Panicked
  {
    var p := Place(c.position, false);
    ReadIs(disk, inode, blocks, c, p, len, fault);
    SpendsExactly(disk, inode, blocks, p, len, fault);
    var d, next := ReadStep(disk, inode, c, len, fault).1, FlatRead(disk, inode, blocks, p, len, fault).1;
    PanicsExactly(disk, inode, blocks, d, next, again, fault2);
  }

  /** A seek drops the error if it passes it, and starts again before it. */
  lemma PanicsAfterSeek(disk: Disk, inode: Inode, blocks: Stream<nat>, pos: nat, len: nat, fault: Option<Error>)
    requires disk.Valid()
    ensures ReadStep(disk, inode, SeekStep(disk, blocks, pos), len, fault).0.Panicked? <==>
            len > 0 && EndOfBlocks(disk, blocks) <= pos < inode.size
  {
    PanicsExactly(disk, inode, blocks, SeekStep(disk, blocks, pos), Place(pos, false), len, fault);
  }

  // ----- chunks

  function Chunk(reply: Reply): Bytes {
    if reply.Data? then reply.data else []
  }

  /** The bytes that a run delivered, one chunk after the other. */
  function Join(replies: seq<Reply>): Bytes {
    if replies == [] then [] else Chunk(replies[0]) + Join(replies[1..])
  }

  /** The replies join to the bytes from `pos` on, up to `end`. */
  ghost predicate Joined(flat: Bytes, replies: seq<Reply>, pos: nat, end: nat) {
    pos <= end && (pos < end ==> end <= |flat|)
    && Join(replies) == if pos < end then flat[pos..end] else []
  }

  lemma JoinOne(reply: Reply)
    ensures Join([reply]) == Chunk(reply)
  {
    assert Chunk(reply) + Join([]) == Chunk(reply);
  }

  lemma JoinCons(reply: Reply, rest: seq<Reply>)
    ensures Join([reply] + rest) == Chunk(reply) + Join(rest)
  {
    assert ([reply] + rest)[1..] == rest;
  }

  lemma JoinFirst(flat: Bytes, pos: nat, reply: Reply, next: nat, rest: seq<Reply>, end: nat)
    requires Joined(flat, [reply], pos, next) && Joined(flat, rest, next, end)
    ensures Joined(flat, [reply] + rest, pos, end)
  {
    JoinCons(reply, rest);
    JoinOne(reply);
    if pos < next < end {
      JoinSlices(flat, pos, next, end);
    } else if pos == next {
      assert [] + Join(rest) == Join(rest);
    } else {
      assert Chunk(reply) + [] == Chunk(reply);
    }
  }

  lemma FlatDataChunk(disk: Disk, items: seq<nat>, pos: nat, m: nat, fault: Option<Error>)
    requires disk.Valid() && Quotient(pos, disk.blockSize) < |items|
    requires Remainder(pos, disk.blockSize) + m <= disk.blockSize && m > 0
    ensures var (reply, next) := FlatData(disk, items, pos, m, fault);
            && Joined(Flat(disk, items), [reply], pos, next.pos)
            && (next.pos == pos || next.pos == pos + m) && reply != Data([])
  {
    FlatSlice(disk, items, pos, m);
    JoinOne(FlatData(disk, items, pos, m, fault).0);
  }

  /** One read gives the bytes from the old place to the new one. */
  lemma FlatReadChunk(disk: Disk, inode: Inode, blocks: Stream<nat>, p: Place, len: nat, fault: Option<Error>)
    requires disk.Valid()
    ensures var (reply, next) := FlatRead(disk, inode, blocks, p, len, fault);
            && Joined(Flat(disk, blocks.items), [reply], p.pos, next.pos)
            && (next.pos <= inode.size || next.pos == p.pos)
            && (len > 0 && reply == Data([]) ==> next.pos >= inode.size)
  {
    if len > 0 && p.pos < inode.size && !p.spent && Quotient(p.pos, disk.blockSize) < |blocks.items| {
      FlatDataChunk(disk, blocks.items, p.pos, ReadLength(disk, inode, p.pos, len), fault);
    } else {
      JoinOne(FlatRead(disk, inode, blocks, p, len, fault).0);
    }
  }

  /** The replies to some reads join to the bytes from `pos` to `end`, which is the end
      of the file if the last one has nothing to deliver. */
  ghost predicate ReadsTo(flat: Bytes, size: nat, ops: seq<Op>, replies: seq<Reply>, pos: nat, end: nat) {
    var n := |replies|;
    && n <= |ops| && Joined(flat, replies, pos, end) && (end <= size || end == pos)
    && (n > 0 && ops[n - 1].Read? && ops[n - 1].len > 0 && replies[n - 1] == Data([]) ==> end >= size)
  }

  lemma ReadsToCons(flat: Bytes, size: nat, op: Op, ops: seq<Op>, reply: Reply, replies: seq<Reply>, pos: nat,
                    next: nat, end: nat)
    requires Joined(flat, [reply], pos, next) && (next <= size || next == pos)
    requires op.Read? && (op.len > 0 && reply == Data([]) ==> next >= size)
    requires ReadsTo(flat, size, ops, replies, next, end)
    ensures ReadsTo(flat, size, [op] + ops, [reply] + replies, pos, end)
  {
    JoinFirst(flat, pos, reply, next, replies, end);
    if replies == [] {
      NothingJoined(flat, next, end);
    } else {
      LastAfterFirst(op, ops, |replies| - 1);
      LastAfterFirst(reply, replies, |replies| - 1);
    }
  }

  lemma NothingJoined(flat: Bytes, pos: nat, end: nat)
    requires Joined(flat, [], pos, end)
    ensures end == pos
  {
  }

  lemma LastAfterFirst<T>(x: T, s: seq<T>, i: nat)
    requires i < |s|
    ensures ([x] + s)[i + 1] == s[i]
  {
  }

  lemma {:induction false} FlatReadsJoin(disk: Disk, inode: Inode, blocks: Stream<nat>, p: Place, ops: seq<Op>)
      returns (end: nat)
    requires disk.Valid() && forall i :: 0 <= i < |ops| ==> ops[i].Read?
    ensures ReadsTo(Flat(disk, blocks.items), inode.size, ops, FlatRun(disk, inode, blocks, p, ops), p.pos, end)
    decreases |ops|
  {
    if ops == [] {
      end := p.pos;
    } else {
      var (reply, next) := FlatStep(disk, inode, blocks, p, ops[0]);
      FlatReadChunk(disk, inode, blocks, p, ops[0].len, ops[0].fault);
      var rest := if reply.Panicked? then [] else FlatRun(disk, inode, blocks, next, ops[1..]);
      if reply.Panicked? {
        end := next.pos;
      } else {
        end := FlatReadsJoin(disk, inode, blocks, next, ops[1..]);
      }
      ReadsToCons(Flat(disk, blocks.items), inode.size, ops[0], ops[1..], reply, rest, p.pos, next.pos, end);
      assert [ops[0]] + ops[1..] == ops;
    }
  }

  /** Whatever the sizes of the reads and however often they fail, the chunks that are
      delivered join to a part of the file that starts at the position and, if a read
      has nothing left to deliver, reaches the end of the file. */
  lemma ReadsJoin(disk: Disk, inode: Inode, blocks: Stream<nat>, c: Cursor, p: Place, ops: seq<Op>)
      returns (end: nat)
    requires disk.Valid() && InStep(disk, blocks, c, p) && forall i :: 0 <= i < |ops| ==> ops[i].Read?
    ensures var replies := CursorRun(disk, inode, blocks, c, ops);
            var n := |replies|;
            && n <= |ops| && Joined(Flat(disk, blocks.items), replies, p.pos, end)
            && (end <= inode.size || end == p.pos)
            && (n > 0 && ops[n - 1].len > 0 && replies[n - 1] == Data([]) ==> end >= inode.size)
  {
    RunsAreFlat(disk, inode, blocks, c, p, ops);
    end := FlatReadsJoin(disk, inode, blocks, p, ops);
  }

  // ----- reading a whole file

  /** The contents of a file: the bytes of its blocks, up to its size. */
  ghost function Contents(disk: Disk, inode: Inode, blocks: Stream<nat>): (r: Bytes)
    requires disk.Valid() && Complete(disk, inode, blocks)
    ensures |r| == inode.size
  {
    FlatLength(disk, blocks.items);
    Flat(disk, blocks.items)[..inode.size]
  }

  /** Every block of the file can be read. */
  ghost predicate Readable(disk: Disk, blocks: Stream<nat>) {
    forall i, offset: nat, n: nat ::
      0 <= i < |blocks.items| && blocks.items[i] != 0 && offset < disk.blockSize && offset + n <= disk.blockSize ==>
        disk.read(blocks.items[i], offset, n).Ok?
  }

  /** The loop of `read_inode_file` has read the first `from` bytes. */
  ghost predicate ReadSoFar(disk: Disk, blocks: Stream<nat>, c: Cursor, dst: Bytes, from: nat)
    requires disk.blockSize > 0
  {
    && At(disk, blocks, c) && c.position == from
    && from <= |dst| && from <= |Flat(disk, blocks.items)| && dst[..from] == Flat(disk, blocks.items)[..from]
  }

  lemma ExtendPrefix(flat: Bytes, before: Bytes, from: nat, data: Bytes, after: Bytes)
    requires from + |data| <= |before| && from + |data| <= |flat| && before[..from] == flat[..from]
    requires data == flat[from..from + |data|] && after == before[..from] + data + before[from + |data|..]
    ensures |after| == |before| && after[..from + |data|] == flat[..from + |data|]
  {
    assert flat[..from + |data|] == flat[..from] + data;
  }

  /** A turn of the loop before the end: it reads some bytes, or fails with the disk,
      or the file has no more blocks. */
  ghost predicate Reads(disk: Disk, blocks: Stream<nat>, from: nat, fault: Option<Error>, reply: Reply, d: Cursor)
    requires disk.blockSize > 0
  {
    if from < |Flat(disk, blocks.items)| then
      match reply
      case Data(data) =>
        && At(disk, blocks, d) && |data| > 0 && d.position == from + |data| <= |Flat(disk, blocks.items)|
        && data == Flat(disk, blocks.items)[from..from + |data|]
      case Failed(_) => fault.Some? || !Readable(disk, blocks)
      case Panicked => false
    else reply == if blocks.err.Some? then Failed(blocks.err.value) else Panicked
  }

  lemma DataReads(disk: Disk, blocks: Stream<nat>, pos: nat, m: nat, fault: Option<Error>, d: Cursor)
    requires disk.Valid() && Quotient(pos, disk.blockSize) < |blocks.items| && pos < |Flat(disk, blocks.items)|
    requires Remainder(pos, disk.blockSize) + m <= disk.blockSize && m > 0
    requires InStep(disk, blocks, d, FlatData(disk, blocks.items, pos, m, fault).1)
    ensures Reads(disk, blocks, pos, fault, FlatData(disk, blocks.items, pos, m, fault).0, d)
  {
    FlatSlice(disk, blocks.items, pos, m);
  }

  lemma TurnWithBlock(disk: Disk, inode: Inode, blocks: Stream<nat>, c: Cursor, len: nat, fault: Option<Error>)
    requires disk.Valid() && At(disk, blocks, c) && 0 < len && c.position < inode.size
    requires Quotient(c.position, disk.blockSize) < |blocks.items|
    requires c.position < |Flat(disk, blocks.items)|
    ensures var (reply, d) := ReadStep(disk, inode, c, len, fault);
            Reads(disk, blocks, c.position, fault, reply, d)
  {
    ReadWithBlock(disk, inode, blocks, c, len, fault);
    DataReads(disk, blocks, c.position, ReadLength(disk, inode, c.position, len), fault,
              ReadStep(disk, inode, c, len, fault).1);
  }

  lemma TurnReads(disk: Disk, inode: Inode, blocks: Stream<nat>, c: Cursor, len: nat, fault: Option<Error>)
    requires disk.Valid() && At(disk, blocks, c) && c.position <= |Flat(disk, blocks.items)|
    requires 0 < len && c.position < inode.size
    ensures var (reply, d) := ReadStep(disk, inode, c, len, fault);
            Reads(disk, blocks, c.position, fault, reply, d)
  {
    FlatLength(disk, blocks.items);
    QuotientBelow(c.position, |blocks.items|, disk.blockSize);
    QuotientBelow(c.position, |blocks.items| + 1, disk.blockSize);
    if Quotient(c.position, disk.blockSize) < |blocks.items| {
      TurnWithBlock(disk, inode, blocks, c, len, fault);
    } else {
      ReadWithoutBlock(disk, inode, blocks, c, Place(c.position, false), len, fault);
    }
  }

  /** What a turn of the loop may end in. */
  ghost predicate Turned(disk: Disk, inode: Inode, blocks: Stream<nat>, from: nat, fault: Option<Error>, r: Outcome,
                         d: Cursor, after: Bytes)
    requires disk.Valid()
  {
    match r
    case Count(n) =>
      if n == 0 then Complete(disk, inode, blocks) && after == Contents(disk, inode, blocks)
      else ReadSoFar(disk, blocks, d, after, from + n)
    case Failure(e) =>
      fault.Some? || !Readable(disk, blocks) || (!Complete(disk, inode, blocks) && blocks.err == Some(e))
    case Panic => !Complete(disk, inode, blocks) && blocks.err.None?
  }

  lemma WholeFile(disk: Disk, inode: Inode, blocks: Stream<nat>, c: Cursor, dst: Bytes)
    requires disk.Valid() && ReadSoFar(disk, blocks, c, dst, inode.size) && |dst| == inode.size
    ensures Complete(disk, inode, blocks) && dst == Contents(disk, inode, blocks)
  {
    FlatLength(disk, blocks.items);
    assert dst[..inode.size] == dst;
  }

  lemma Turn(disk: Disk, inode: Inode, blocks: Stream<nat>, c: Cursor, before: Bytes, from: nat, fault: Option<Error>,
             reply: Reply, d: Cursor, r: Outcome, after: Bytes)
    requires disk.Valid() && ReadSoFar(disk, blocks, c, before, from) && |before| == inode.size && from < inode.size
    requires Reads(disk, blocks, from, fault, reply, d) && Delivered(reply, r, before, from, after)
    ensures Turned(disk, inode, blocks, from, fault, r, d, after)
  {
    FlatLength(disk, blocks.items);
    if r.Count? {
      ExtendPrefix(Flat(disk, blocks.items), before, from, reply.data, after);
    }
  }

  /** A read before the end of the buffer. */
  method ReadMore(file: File, dst: array<byte>, from: nat, fault: Option<Error>)
      returns (r: Outcome, ghost reply: Reply)
    requires file.disk.Valid() && from < dst.Length == file.inode.size
    requires At(file.disk, file.blocks, file.Now()) && file.Now().position == from
    requires from <= |Flat(file.disk, file.blocks.items)|
    modifies file, dst
    ensures Reads(file.disk, file.blocks, from, fault, reply, file.Now())
    ensures Delivered(reply, r, old(dst[..]), from, dst[..])
  {
    ghost var c := file.Now();
    TurnReads(file.disk, file.inode, file.blocks, c, dst.Length - from, fault);
    reply := ReadStep(file.disk, file.inode, c, dst.Length - from, fault).0;
    r := file.ReadBytes(dst, from, fault);
  }

  /** A read at the end of the buffer. */
  method ReadAtEnd(file: File, dst: array<byte>, fault: Option<Error>) returns (r: Outcome)
    requires file.disk.Valid()
    modifies file, dst
    ensures r == Count(0) && dst[..] == old(dst[..])
  {
    ghost var before := dst[..];
    r := file.ReadBytes(dst, dst.Length, fault);
    assert before[..dst.Length] + [] + before[dst.Length..] == before;
  }

  /** One turn of the loop: one call of `read_bytes`, at the end of the buffer or before it. */
  method ReadTurn(file: File, dst: array<byte>, from: nat, fault: Option<Error>) returns (r: Outcome)
    requires file.disk.Valid() && dst.Length == file.inode.size
    requires ReadSoFar(file.disk, file.blocks, file.Now(), dst[..], from)
    modifies file, dst
    ensures Turned(file.disk, file.inode, file.blocks, from, fault, r, file.Now(), dst[..])
  {
    ghost var c, before := file.Now(), dst[..];
    if from < dst.Length {
      ghost var reply;
      r, reply := ReadMore(file, dst, from, fault);
      Turn(file.disk, file.inode, file.blocks, c, before, from, fault, reply, file.Now(), r, dst[..]);
    } else {
      r := ReadAtEnd(file, dst, fault);
      WholeFile(file.disk, file.inode, file.blocks, c, before);
    }
  }

  /** `read_inode_file`. The result, if there is one, is the whole contents. With no
      failure of the device (`faults`) or of a block, that is the result exactly if
      the file has a block for every byte; otherwise it is the error of the block
      iterator, or a panic if that has none. */
  method ReadInodeFile(disk: Disk, inode: Inode, blocks: Stream<nat>, faults: nat -> Option<Error>) returns (r: Reply)
    requires disk.Valid()
    ensures r.Panicked? ==> !Complete(disk, inode, blocks) && blocks.err.None?
    ensures r.Data? ==> Complete(disk, inode, blocks) && r.data == Contents(disk, inode, blocks)
    ensures Readable(disk, blocks) && (forall k :: faults(k).None?) ==>
              r == if Complete(disk, inode, blocks) then Data(Contents(disk, inode, blocks))
                   else if blocks.err.Some? then Failed(blocks.err.value)
                   else Panicked
  {
    var dst := new byte[inode.size](_ => 0);
    var file := new File(disk, inode, blocks);
    var from, turn := 0, 0;
    while true
      invariant from <= dst.Length && ReadSoFar(disk, blocks, file.Now(), dst[..], from)
      decreases dst.Length - from
    {
      var bytesRead := ReadTurn(file, dst, from, faults(turn));
      if bytesRead.Failure? {
        return Failed(bytesRead.error);
      }
      if bytesRead.Panic? {
        return Panicked;
      }
      if bytesRead.n == 0 {
        return Data(dst[..]);
      }
      from, turn := from + bytesRead.n, turn + 1;
    }
  }

  /** Reading a file with a block map whose blocks can all be read panics exactly if
      the file is larger than the map can describe. */
  method ReadMappedFile(disk: Disk, inode: Inode, values: seq<nat>) returns (r: Reply)
    requires WellFormed(disk, inode) && !inode.usesExtents && disk.Env().Valid()
    requires |values| == Min(inode.NumBlocks(disk.blockSize), BlockMapProps.Capacity(disk.Env()))
    requires forall i :: 0 <= i < |values| ==>
                           BlockMapProps.Entry(disk.Env(), RootOf(inode.inlineData), i) == Ok(values[i])
    requires Readable(disk, Stream(values, None))
    ensures r.Data? || r.Panicked?
    ensures r.Panicked? <==> inode.NumBlocks(disk.blockSize) > BlockMapProps.Capacity(disk.Env())
    ensures r.Data? ==>
              Complete(disk, inode, Stream(values, None)) && r.data == Contents(disk, inode, Stream(values, None))
  {
    MapIsComplete(disk, inode, values);
    r := ReadInodeFile(disk, inode, Stream(values, None), _ => None);
  }
}
