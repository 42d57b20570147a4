// How a journal ends, told from its bytes. After its complete transactions and
// the first records of an unfinished one, a journal either ends quietly, and is
// then replayed up to there, or it cannot be loaded. Which one is decided by
// the next block alone, or by the lack of one.

module JournalEnds {
  import opened Basics
  import opened ByteReaders
  import opened JournalFormat
  import opened JournalSpec
  import opened JournalProps

  // ----- what can be wrong with a descriptor block

  /** The first `k` tags have their data in the log, and what comes next fails with `e`:
      the tags, the log, the read of the data block or its checksum. */
  predicate TagsFailAt(env: Env, tags: Stream<Tag>, log: Stream<nat>, sequence: nat, k: nat, e: Error) {
    && k <= |tags.items| && k <= |log.items|
    && (forall i :: 0 <= i < k ==> Matches(env, tags.items[i], log.items[i], sequence))
    && if k == |tags.items| then tags.err == Some(e)
       else if k == |log.items| then e == (if log.err.Some? then log.err.value else Corrupt)
       else
         && !Matches(env, tags.items[k], log.items[k], sequence)
         && e == var data := env.read(log.items[k]); if data.Err? then data.error else Corrupt
  }

  ghost predicate TagsFail(env: Env, tags: Stream<Tag>, log: Stream<nat>, sequence: nat, e: Error) {
    exists k :: TagsFailAt(env, tags, log, sequence, k, e)
  }

  lemma {:induction false} PairTagsFails(env: Env, tags: Stream<Tag>, log: Stream<nat>, sequence: nat,
                                         k: nat, e: Error)
    requires TagsFailAt(env, tags, log, sequence, k, e)
    ensures PairTags(env, tags, log, sequence) == Err(e)
    decreases k
  {
    if k > 0 {
      assert Matches(env, tags.items[0], log.items[0], sequence);
      assert TagsFailAt(env, tags.Skip(1), log.Skip(1), sequence, k - 1, e) by {
        forall i | 0 <= i < k - 1
          ensures Matches(env, tags.items[1..][i], log.items[1..][i], sequence)
        {
          assert Matches(env, tags.items[i + 1], log.items[i + 1], sequence);
        }
      }
      PairTagsFails(env, tags.Skip(1), log.Skip(1), sequence, k - 1, e);
    }
  }

  lemma FailsLater(env: Env, tags: Stream<Tag>, log: Stream<nat>, sequence: nat, k: nat, e: Error)
    requires tags.items != [] && log.items != [] && Matches(env, tags.items[0], log.items[0], sequence)
    requires TagsFailAt(env, tags.Skip(1), log.Skip(1), sequence, k, e)
    ensures TagsFailAt(env, tags, log, sequence, k + 1, e)
  {
    forall i | 0 <= i < k + 1
      ensures Matches(env, tags.items[i], log.items[i], sequence)
    {
      if i > 0 {
        assert Matches(env, tags.items[1..][i - 1], log.items[1..][i - 1], sequence);
      }
    }
  }

  lemma {:induction false} PairTagsFailsWhere(env: Env, tags: Stream<Tag>, log: Stream<nat>, sequence: nat)
      returns (k: nat)
    requires PairTags(env, tags, log, sequence).Err?
    ensures TagsFailAt(env, tags, log, sequence, k, PairTags(env, tags, log, sequence).error)
    decreases |tags.items|
  {
    if tags.items == [] || log.items == [] || !Matches(env, tags.items[0], log.items[0], sequence) {
      k := 0;
    } else {
      k := PairTagsFailsWhere(env, tags.Skip(1), log.Skip(1), sequence);
      FailsLater(env, tags, log, sequence, k, PairTags(env, tags, log, sequence).error);
      k := k + 1;
    }
  }

  lemma TagsFailExactly(env: Env, tags: Stream<Tag>, log: Stream<nat>, sequence: nat, e: Error)
    ensures TagsFail(env, tags, log, sequence, e) <==> PairTags(env, tags, log, sequence) == Err(e)
  {
    if k :| TagsFailAt(env, tags, log, sequence, k, e) {
      PairTagsFails(env, tags, log, sequence, k, e);
    }
    if PairTags(env, tags, log, sequence) == Err(e) {
      var k := PairTagsFailsWhere(env, tags, log, sequence);
    }
  }

  // ----- the two ways to end

  /** The table of a revocation block is not a list of 64-bit words inside the block. */
  predicate BadTable(block: Block) {
    U32be(block, 12) % 8 != 0 || U32be(block, 12) > |block| - 20
  }

  /** Why a readable block at the front of `log` is taken for the end of the journal: it
      is no journal block, or has another number, or is damaged. */
  ghost predicate EndsAt(env: Env, block: Block, log: Stream<nat>, sequence: nat) {
    || U32be(block, 0) != 0xc03b3998
    || U32be(block, 8) != sequence
    || (U32be(block, 4) == 1 &&
        (!env.descriptorOk(block) || TagsFail(env, TagStream(block[12..]), log.Skip(1), sequence, Corrupt)))
    || (U32be(block, 4) == 2 && !env.commitOk(block))
    || (U32be(block, 4) == 5 && (!env.revocationOk(block) || BadTable(block)))
  }

  /** Why a readable block at the front of `log` cannot be loaded. */
  ghost predicate FailsAt(env: Env, block: Block, log: Stream<nat>, sequence: nat, e: Error) {
    && U32be(block, 0) == 0xc03b3998
    && U32be(block, 8) == sequence
    && (|| (U32be(block, 4) !in {1, 2, 5} && e == Incompatible)
        || (U32be(block, 4) == 1 && env.descriptorOk(block) && e != Corrupt &&
            TagsFail(env, TagStream(block[12..]), log.Skip(1), sequence, e)))
  }

  /** The journal ends quietly in front of `log`. */
  ghost predicate EndsQuietly(env: Env, log: Stream<nat>, sequence: nat) {
    if log.items == [] then log.err.None?
    else
      var read := env.read(log.items[0]);
      if read.Err? then read.error == Corrupt else EndsAt(env, read.value, log, sequence)
  }

  /** The journal cannot be read in front of `log`. */
  ghost predicate Fails(env: Env, log: Stream<nat>, sequence: nat, e: Error) {
    if log.items == [] then log.err == Some(e)
    else
      var read := env.read(log.items[0]);
      if read.Err? then read.error == e && e != Corrupt else FailsAt(env, read.value, log, sequence, e)
  }

  lemma TableExactly(block: Block)
    ensures RevocationTable(block) ==
            if BadTable(block) then Err(Corrupt) else Ok(Words(block[16..|block| - 4], U32be(block, 12) / 8))
  {
    var data := block[12..|block| - 4];
    assert block == block[..12] + data + block[|block| - 4..];
    ReadInside(block[..12], data, block[|block| - 4..], 0);
    assert data[4..] == block[16..|block| - 4];
  }

  /** A block at the front of a log is a record, or ends the journal, or fails. */
  lemma BlockIsRead(env: Env, log: Stream<nat>, sequence: nat)
    requires log.items != [] && env.read(log.items[0]).Ok?
    ensures var block, r := env.read(log.items[0]).value, ReadRecord(env, log, sequence);
            && (EndsAt(env, block, log, sequence) <==> r == End || r == Fault(Corrupt))
            && (forall e :: FailsAt(env, block, log, sequence, e) <==> r == Fault(e) && e != Corrupt)
  {
    var block := env.read(log.items[0]).value;
    TableExactly(block);
    forall e
      ensures TagsFail(env, TagStream(block[12..]), log.Skip(1), sequence, e) <==>
              PairTags(env, TagStream(block[12..]), log.Skip(1), sequence) == Err(e)
    {
      TagsFailExactly(env, TagStream(block[12..]), log.Skip(1), sequence, e);
    }
  }

  lemma LogIsStopped(env: Env, log: Stream<nat>, sequence: nat)
    ensures var rd := Records(env);
            var r := ReadTxn(rd, log, sequence);
            && (EndsQuietly(env, log, sequence) ==> r.Unfinished? && !r.stop.Fatal?)
            && (forall e :: Fails(env, log, sequence, e) ==> r == Unfinished(Fatal(e)))
  {
    if log.items != [] && env.read(log.items[0]).Ok? {
      BlockIsRead(env, log, sequence);
    }
  }

  // ----- the records before the end

  /** The journal blocks `blocks` are the records `body`, none of them a commit. */
  ghost predicate AreRecords(shape: Shape, blocks: seq<nat>, body: seq<Record>, sequence: nat)
    decreases |body|
  {
    if body == [] then blocks == []
    else
      && !body[0].Commit? && body[0].Len() <= |blocks|
      && shape(blocks[..body[0].Len()], body[0], sequence)
      && AreRecords(shape, blocks[body[0].Len()..], body[1..], sequence)
  }

  /** Records in front do not change why reading stops. */
  lemma {:induction false} StopsAfterRecords(rd: Reader, shape: Shape, blocks: seq<nat>, body: seq<Record>,
                                             sequence: nat, rest: Stream<nat>)
    requires Bounded(rd) && ReadsShape(rd, shape) && AreRecords(shape, blocks, body, sequence)
    requires ReadTxn(rd, rest, sequence).Unfinished?
    ensures ReadTxn(rd, Stream(blocks + rest.items, rest.err), sequence) == ReadTxn(rd, rest, sequence)
    decreases |body|
  {
    if body == [] {
      assert blocks + rest.items == rest.items;
    } else {
      var k := body[0].Len();
      SlicesOfConcat(blocks, rest.items, k);
      assert ReadsAt(rd, shape, Stream(blocks + rest.items, rest.err), sequence, body[0]);
      StopsAfterRecords(rd, shape, blocks[k..], body[1..], sequence, rest);
    }
  }

  /** A journal: complete transactions, some records of an unfinished one, and the rest. */
  datatype Layout = Layout(parts: seq<seq<nat>>, bodies: seq<seq<Record>>, blocks: seq<nat>, body: seq<Record>,
                           rest: Stream<nat>)
  {
    /** The number of the transaction that is not complete. */
    function Number(sequence: nat): nat {
      sequence + |parts|
    }

    function Tail(): Stream<nat> {
      Stream(blocks + rest.items, rest.err)
    }

    function Blocks(): Stream<nat> {
      Stream(Concat(parts) + Tail().items, rest.err)
    }

    /** The transactions are numbered from `sequence` on. */
    ghost predicate Valid(shape: Shape, sequence: nat) {
      && IsLog(shape, parts, bodies, sequence)
      && AreRecords(shape, blocks, body, Number(sequence))
    }
  }

  lemma TailStops(rd: Reader, shape: Shape, layout: Layout, number: nat)
    requires Bounded(rd) && ReadsShape(rd, shape) && AreRecords(shape, layout.blocks, layout.body, number)
    requires number < U32_LIMIT && ReadTxn(rd, layout.rest, number).Unfinished?
    ensures RestLog(Txns(rd), layout.Tail(), number) == Log([], [], ReadTxn(rd, layout.rest, number).stop)
  {
    StopsAfterRecords(rd, shape, layout.blocks, layout.body, number, layout.rest);
    ReadLogStep(Txns(rd), layout.Tail(), number, ReadTxn(rd, layout.Tail(), number));
  }

  /** The transactions are the complete ones, and reading stops where the rest does. */
  lemma LayoutIsRead(rd: Reader, shape: Shape, layout: Layout, sequence: nat)
    requires Bounded(rd) && ReadsShape(rd, shape) && layout.Valid(shape, sequence)
    requires layout.Number(sequence) < U32_LIMIT
    requires ReadTxn(rd, layout.rest, layout.Number(sequence)).Unfinished?
    ensures var log := ReadLog(Txns(rd), layout.Blocks(), sequence);
            && log.txns == TxnsOf(layout.bodies)
            && log.stop == ReadTxn(rd, layout.rest, layout.Number(sequence)).stop
  {
    TxnsAreRead(rd, shape);
    LogIsRead(Txns(rd), shape, layout.parts, layout.bodies, sequence, layout.Tail());
    TailStops(rd, shape, layout, layout.Number(sequence));
    assert TxnsOf(layout.bodies) + [] == TxnsOf(layout.bodies);
  }

  /** A journal that ends quietly is replayed up to there. */
  lemma QuietJournalIsReplayed(env: Env, layout: Layout, sequence: nat)
    requires layout.Valid(RecordShape(env), sequence) && layout.Number(sequence) < U32_LIMIT
    requires EndsQuietly(env, layout.rest, layout.Number(sequence))
    ensures Replay(env, layout.Blocks(), sequence) == Ok(Overlay(map[], TxnsOf(layout.bodies)))
  {
    LogIsStopped(env, layout.rest, layout.Number(sequence));
    RecordsHaveShape(env);
    LayoutIsRead(Records(env), RecordShape(env), layout, sequence);
  }

  /** A journal that cannot be read further is not loaded, whatever it holds before. */
  lemma FailingJournalIsRefused(env: Env, layout: Layout, sequence: nat, e: Error)
    requires layout.Valid(RecordShape(env), sequence) && layout.Number(sequence) < U32_LIMIT
    requires Fails(env, layout.rest, layout.Number(sequence), e)
    ensures Replay(env, layout.Blocks(), sequence) == Err(e)
  {
    LogIsStopped(env, layout.rest, layout.Number(sequence));
    RecordsHaveShape(env);
    LayoutIsRead(Records(env), RecordShape(env), layout, sequence);
  }

  /** The commit with the largest number is the last thing that is read. */
  lemma LastNumberEndsJournal(env: Env, layout: Layout, sequence: nat)
    requires layout.Valid(RecordShape(env), sequence) && sequence < U32_LIMIT && layout.Number(sequence) == U32_LIMIT
    ensures Replay(env, layout.Blocks(), sequence) == Ok(Overlay(map[], TxnsOf(layout.bodies)))
  {
    CompleteLogIsReplayed(env, layout.parts, layout.bodies, sequence, layout.Tail());
  }

  // ----- every journal has such a layout

  /** The records in front of a log that holds no commit after them. */
  lemma {:induction false} RecordsInFront(rd: Reader, shape: Shape, log: Stream<nat>, sequence: nat)
      returns (blocks: seq<nat>, body: seq<Record>, rest: Stream<nat>)
    requires Bounded(rd) && ReadsShape(rd, shape) && ReadTxn(rd, log, sequence).Unfinished?
    ensures log == Stream(blocks + rest.items, rest.err) && AreRecords(shape, blocks, body, sequence)
    ensures rest.items != [] ==> !rd(rest, sequence).Rec?
    decreases |log.items|
  {
    if log.items == [] || !rd(log, sequence).Rec? {
      blocks, body, rest := [], [], log;
      assert [] + log.items == log.items;
    } else {
      var record := rd(log, sequence).record;
      var k := record.Len();
      assert ReadsAt(rd, shape, log, sequence, record);
      var later, records;
      later, records, rest := RecordsInFront(rd, shape, log.Skip(k), sequence);
      blocks, body := log.items[..k] + later, [record] + records;
      assert blocks[..k] == log.items[..k] && blocks[k..] == later && body[1..] == records;
      assert log.items == log.items[..k] + log.items[k..];
      assert blocks + rest.items == log.items[..k] + (later + rest.items);
    }
  }

  lemma NoTxnLeft(rd: Reader, log: Stream<nat>, sequence: nat)
    requires Bounded(rd) && ReadLog(Txns(rd), log, sequence).txns == []
    ensures ReadTxn(rd, log, sequence).Unfinished?
  {
    ReadLogStep(Txns(rd), log, sequence, ReadTxn(rd, log, sequence));
  }

  lemma PartsInFront(rd: Reader, shape: Shape, log: Stream<nat>, sequence: nat)
      returns (parts: seq<seq<nat>>, bodies: seq<seq<Record>>, tail: Stream<nat>)
    requires Bounded(rd) && ReadsShape(rd, shape)
    ensures IsLog(shape, parts, bodies, sequence) && log == Stream(Concat(parts) + tail.items, tail.err)
    ensures sequence <= U32_LIMIT ==> sequence + |parts| <= U32_LIMIT
    ensures sequence + |parts| < U32_LIMIT ==> ReadTxn(rd, tail, sequence + |parts|).Unfinished?
  {
    TxnsAreFound(rd, shape);
    parts, bodies := LogIsFound(Txns(rd), shape, log, sequence);
    tail := log.Skip(|Concat(parts)|);
    assert log.items == log.items[..|Concat(parts)|] + tail.items;
    if sequence + |parts| < U32_LIMIT {
      NoTxnLeft(rd, tail, sequence + |parts|);
    }
  }

  lemma LayoutIsFound(rd: Reader, shape: Shape, log: Stream<nat>, sequence: nat) returns (layout: Layout)
    requires Bounded(rd) && ReadsShape(rd, shape)
    ensures layout.Blocks() == log && layout.Valid(shape, sequence)
    ensures sequence <= U32_LIMIT ==> layout.Number(sequence) <= U32_LIMIT
    ensures var number := layout.Number(sequence);
            number < U32_LIMIT && layout.rest.items != [] ==> !rd(layout.rest, number).Rec?
  {
    var parts, bodies, tail := PartsInFront(rd, shape, log, sequence);
    var blocks, body, rest := [], [], tail;
    assert [] + tail.items == tail.items;
    if sequence + |parts| < U32_LIMIT {
      blocks, body, rest := RecordsInFront(rd, shape, tail, sequence + |parts|);
    }
    layout := Layout(parts, bodies, blocks, body, rest);
  }

  lemma RestIsClassified(env: Env, rest: Stream<nat>, sequence: nat)
    requires rest.items != [] ==> !ReadRecord(env, rest, sequence).Rec?
    ensures EndsQuietly(env, rest, sequence) || exists e :: Fails(env, rest, sequence, e)
  {
    if rest.items == [] {
      assert rest.err.Some? ==> Fails(env, rest, sequence, rest.err.value);
    } else if env.read(rest.items[0]).Err? {
      var e := env.read(rest.items[0]).error;
      assert e != Corrupt ==> Fails(env, rest, sequence, e);
    } else {
      BlockIsRead(env, rest, sequence);
      var r := ReadRecord(env, rest, sequence);
      if r.Fault? && r.error != Corrupt {
        assert Fails(env, rest, sequence, r.error);
      }
    }
  }

  lemma EveryJournalHasLayout(env: Env, log: Stream<nat>, sequence: nat) returns (layout: Layout)
    requires sequence < U32_LIMIT
    ensures layout.Blocks() == log && layout.Valid(RecordShape(env), sequence)
    ensures layout.Number(sequence) <= U32_LIMIT
    ensures || layout.Number(sequence) == U32_LIMIT
            || EndsQuietly(env, layout.rest, layout.Number(sequence))
            || exists e :: Fails(env, layout.rest, layout.Number(sequence), e)
  {
    RecordsHaveShape(env);
    layout := LayoutIsFound(Records(env), RecordShape(env), log, sequence);
    if layout.Number(sequence) < U32_LIMIT {
      RestIsClassified(env, layout.rest, layout.Number(sequence));
    }
  }

  /** Every journal has a layout, and the blocks after its records decide whether replay
      fails and with which error, or gives the overlay of its complete transactions. */
  lemma ReplayExactly(env: Env, log: Stream<nat>, sequence: nat) returns (layout: Layout)
    requires sequence < U32_LIMIT
    ensures layout.Blocks() == log && layout.Valid(RecordShape(env), sequence)
    ensures layout.Number(sequence) <= U32_LIMIT
    ensures var number := layout.Number(sequence);
            && (Replay(env, log, sequence) == Ok(Overlay(map[], TxnsOf(layout.bodies))) <==>
                number == U32_LIMIT || EndsQuietly(env, layout.rest, number))
            && (forall e :: Replay(env, log, sequence) == Err(e) <==>
                              number < U32_LIMIT && Fails(env, layout.rest, number, e))
  {
    layout := EveryJournalHasLayout(env, log, sequence);
    var number := layout.Number(sequence);
    if number == U32_LIMIT {
      LastNumberEndsJournal(env, layout, sequence);
    } else if EndsQuietly(env, layout.rest, number) {
      QuietJournalIsReplayed(env, layout, sequence);
      LogIsStopped(env, layout.rest, number);
    } else {
      var e :| Fails(env, layout.rest, number, e);
      FailingJournalIsRefused(env, layout, sequence, e);
      LogIsStopped(env, layout.rest, number);
    }
  }
}
