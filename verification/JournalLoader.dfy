// `load_block_map` (src/journal/block_map.rs): the state machine that reads the
// journal block by block, proved to compute the replay of module JournalSpec.

module JournalLoader {
  import opened Basics
  import opened JournalFormat
  import opened JournalSpec

  // ----- what is still to come, seen from the middle of a transaction

  ghost function ReplayOver(rd: Reader, m: JournalMap, log: Stream<nat>, sequence: nat): Result<JournalMap>
    requires Bounded(rd)
  {
    var l := ReadLog(Txns(rd), log, sequence);
    if l.stop.Fatal? then Err(l.stop.error) else Ok(Overlay(m, l.txns))
  }

  ghost function AfterCommit(rd: Reader, m: JournalMap, log: Stream<nat>, sequence: nat): Result<JournalMap>
    requires Bounded(rd)
  {
    if sequence + 1 >= U32_LIMIT then Ok(m) else ReplayOver(rd, m, log, sequence + 1)
  }

  /** Where the current transaction leaves the committed map and the log. */
  datatype CommitPoint = NoCommit(stop: Stop) | Committed(m: JournalMap, log: Stream<nat>)

  /** The commit point, given the committed map, the uncommitted one, the
      revocations of the current transaction and how that transaction ends. */
  ghost function CommitOf(m: JournalMap, uncommitted: JournalMap, revoked: set<nat>,
                          reading: TxnReading, log: Stream<nat>): CommitPoint
  {
    match reading
    case Unfinished(stop) => NoCommit(stop)
    case Complete(txn, used) =>
      Committed(m + (ApplyWrites(uncommitted, txn.writes) - (revoked + ToSet(txn.revoked))), log.Skip(used))
  }

  ghost function Resume(rd: Reader, m: JournalMap, c: CommitPoint, sequence: nat): Result<JournalMap>
    requires Bounded(rd)
  {
    match c
    case NoCommit(stop) => if stop.Fatal? then Err(stop.error) else Ok(m)
    case Committed(m', log) => AfterCommit(rd, m', log, sequence)
  }

  /** The final result, seen from the middle of a transaction. */
  ghost function Expected(rd: Reader, m: JournalMap, uncommitted: JournalMap, revoked: set<nat>,
                          log: Stream<nat>, sequence: nat): Result<JournalMap>
    requires Bounded(rd)
  {
    Resume(rd, m, CommitOf(m, uncommitted, revoked, ReadTxn(rd, log, sequence), log), sequence)
  }

  lemma ExpectedAtStart(rd: Reader, m: JournalMap, log: Stream<nat>, sequence: nat)
    requires Bounded(rd)
    ensures Expected(rd, m, map[], {}, log, sequence) == ReplayOver(rd, m, log, sequence)
  {
    var t := ReadTxn(rd, log, sequence);
    if t.Complete? {
      assert {} + ToSet(t.txn.revoked) == ToSet(t.txn.revoked);
      OverlayFirst(m, t.txn, []);
      assert [t.txn] + [] == [t.txn];
      if sequence + 1 < U32_LIMIT {
        OverlayFirst(m, t.txn, ReadLog(Txns(rd), log.Skip(t.used), sequence + 1).txns);
      }
    }
  }

  lemma OverlayFirst(m: JournalMap, txn: Txn, rest: seq<Txn>)
    ensures Overlay(m, [txn] + rest) == Overlay(m + Effect(txn), rest)
  {
    assert ([txn] + rest)[1..] == rest;
  }

  lemma {:induction false} ApplyWritesConcat(m: JournalMap, a: seq<Write>, b: seq<Write>)
    ensures ApplyWrites(m, a + b) == ApplyWrites(ApplyWrites(m, a), b)
    decreases |a|
  {
    if a == [] {
      assert a + b == b;
    } else {
      assert (a + b)[1..] == a[1..] + b;
      ApplyWritesConcat(m[a[0].block := a[0].copy], a[1..], b);
    }
  }

  lemma SkipTwice(log: Stream<nat>, a: nat, b: nat)
    requires a + b <= |log.items|
    ensures log.Skip(a).Skip(b) == log.Skip(a + b)
  {
    assert log.items[a..][b..] == log.items[a + b..];
  }

  lemma CommitAfterDescriptor(m: JournalMap, un: JournalMap, revoked: set<nat>,
                              reading: TxnReading, log: Stream<nat>, writes: seq<Write>)
    requires reading.Complete? ==> 1 + |writes| + reading.used <= |log.items|
    ensures CommitOf(m, un, revoked, reading.After(Descriptor(writes)), log) ==
            CommitOf(m, ApplyWrites(un, writes), revoked, reading, log.Skip(1 + |writes|))
  {
    if reading.Complete? {
      ApplyWritesConcat(un, writes, reading.txn.writes);
      SkipTwice(log, 1 + |writes|, reading.used);
    }
  }

  lemma CommitAfterRevocation(m: JournalMap, un: JournalMap, revoked: set<nat>,
                              reading: TxnReading, log: Stream<nat>, blocks: seq<nat>)
    requires reading.Complete? ==> 1 + reading.used <= |log.items|
    ensures CommitOf(m, un, revoked, reading.After(Revocation(blocks)), log) ==
            CommitOf(m, un, revoked + ToSet(blocks), reading, log.Skip(1))
  {
    if reading.Complete? {
      SkipTwice(log, 1, reading.used);
      assert revoked + ToSet(blocks + reading.txn.revoked) == revoked + ToSet(blocks) + ToSet(reading.txn.revoked);
    }
  }

  lemma CommitAtOnce(m: JournalMap, un: JournalMap, revoked: set<nat>, log: Stream<nat>)
    ensures CommitOf(m, un, revoked, Complete(Txn([], []), 1), log) ==
            Committed(m + (un - revoked), log.Skip(1))
  {
    assert revoked + ToSet([]) == revoked;
  }

  // ----- the loader

  /** The variables of the loader that outlive a record. */
  datatype State = State(
    blockMap: JournalMap,
    uncommitted: JournalMap,
    revoked: seq<nat>,
    journalBlocks: Stream<nat>,
    sequence: nat,
    isDone: bool)

  /** How what was read at the front of the log changes the loader. After a failure
      only the committed map matters. */
  ghost predicate Processed(reading: Reading, s: State, r: Result<()>, t: State) {
    match reading
    case End => r.Ok? && t == s.(isDone := true)
    case Fault(e) => r == Err(e) && t.blockMap == s.blockMap
    case Rec(Descriptor(writes)) =>
      && r.Ok?
      && t == s.(uncommitted := ApplyWrites(s.uncommitted, writes),
                 journalBlocks := s.journalBlocks.Skip(|writes|))
    case Rec(Revocation(blocks)) =>
      r.Ok? && t == s.(revoked := s.revoked + blocks)
    case Rec(Commit) =>
      var committed := s.(blockMap := s.blockMap + (s.uncommitted - ToSet(s.revoked)),
                          uncommitted := map[], revoked := []);
      if s.sequence + 1 >= U32_LIMIT then r == Err(Corrupt) && t == committed
      else r.Ok? && t == committed.(sequence := s.sequence + 1)
  }

  /** How the tags of a descriptor block change the loader. */
  ghost function TagsResult(s: State, writes: Result<seq<Write>>): Result<State> {
    match writes
    case Err(e) => Err(e)
    case Ok(ws) =>
      Ok(s.(uncommitted := ApplyWrites(s.uncommitted, ws), journalBlocks := s.journalBlocks.Skip(|ws|)))
  }

  /** How one tag changes the loader. */
  ghost function AfterTag(s: State, w: Write): State {
    s.(uncommitted := s.uncommitted[w.block := w.copy], journalBlocks := s.journalBlocks.Skip(1))
  }

  lemma TagStep(env: Env, s: State, before: Stream<Tag>, tag: Tag, after: Stream<Tag>)
    requires before == Stream([tag] + after.items, after.err)
    ensures var block := DataBlock(env, tag, s.journalBlocks, s.sequence);
            TagsResult(s, PairTags(env, before, s.journalBlocks, s.sequence)) ==
            if block.Err? then Err(block.error)
            else
              var t := AfterTag(s, Write(tag.block, block.value));
              TagsResult(t, PairTags(env, after, t.journalBlocks, t.sequence))
  {
    assert before.Skip(1) == after;
    var rest := PairTags(env, after, s.journalBlocks.Skip(1), s.sequence);
    if rest.Ok? && DataBlock(env, tag, s.journalBlocks, s.sequence).Ok? {
      SkipTwice(s.journalBlocks, 1, |rest.value|);
      var w := Write(tag.block, s.journalBlocks.items[0]);
      assert ([w] + rest.value)[1..] == rest.value;
    }
  }

  class BlockMapLoader {
    const env: Env

    /** The output: entries of complete transactions. */
    var blockMap: JournalMap
    var uncommittedBlockMap: JournalMap
    var revokedBlocks: seq<nat>
    /** What is left of the iterator over the blocks of the journal. */
    var journalBlocks: Stream<nat>
    var blockIndex: nat
    var block: Bytes
    var sequence: nat
    var isDone: bool

    /** `start_block` blocks of the journal file are skipped. */
    constructor (env: Env, fileBlocks: Stream<nat>, startBlock: nat, sequence: nat)
      ensures this.env == env && blockMap == map[] && uncommittedBlockMap == map[]
      ensures revokedBlocks == [] && journalBlocks == fileBlocks.Skip(startBlock)
      ensures this.sequence == sequence && !isDone
    {
      this.env := env;
      blockMap, uncommittedBlockMap, revokedBlocks := map[], map[], [];
      journalBlocks := fileBlocks.Skip(startBlock);
      blockIndex, block := 0, [];
      this.sequence := sequence;
      isDone := false;
    }

    ghost function Now(): State
      reads this
    {
      State(blockMap, uncommittedBlockMap, revokedBlocks, journalBlocks, sequence, isDone)
    }

    /** The current block and all blocks after it. */
    ghost function FromCurrent(): Stream<nat>
      reads this
    {
      Stream([blockIndex] + journalBlocks.items, journalBlocks.err)
    }

    /** `Iterator::next` of the journal's blocks. */
    method NextJournalBlock() returns (r: Option<Result<nat>>)
      modifies this`journalBlocks
      ensures r.None? ==> old(journalBlocks) == Stream([], None) && journalBlocks == old(journalBlocks)
      ensures r.Some? && r.value.Err? ==> old(journalBlocks) == Stream([], Some(r.value.error))
      ensures r.Some? && r.value.Ok? ==>
                && old(journalBlocks) == Stream([r.value.value] + journalBlocks.items, journalBlocks.err)
                && journalBlocks == old(journalBlocks).Skip(1)
    {
      if journalBlocks.items != [] {
        r := Some(Ok(journalBlocks.items[0]));
        journalBlocks := journalBlocks.Skip(1);
      } else if journalBlocks.err.Some? {
        r := Some(Err(journalBlocks.err.value));
        journalBlocks := Stream([], None);
      } else {
        r := None;
      }
    }

    /** Take the next block of the journal, check it against its tag and enter
        it in the uncommitted map. */
    method ProcessTag(tag: Tag) returns (r: Result<nat>)
      modifies this`journalBlocks, this`uncommittedBlockMap
      ensures r == DataBlock(env, tag, old(journalBlocks), sequence)
      ensures r.Ok? ==> Now() == AfterTag(old(Now()), Write(tag.block, r.value))
    {
      var next := NextJournalBlock();
      if next.None? {
        return Err(Corrupt);
      }
      if next.value.Err? {
        return Err(next.value.error);
      }
      var blockIndex := next.value.value;
      var data := env.read(blockIndex);
      if data.Err? {
        return Err(data.error);
      }
      if env.dataChecksum(sequence, data.value) != tag.checksum {
        return Err(Corrupt);
      }
      uncommittedBlockMap := uncommittedBlockMap[tag.block := blockIndex];
      r := Ok(blockIndex);
    }

    method ProcessDescriptorBlock() returns (r: Result<()>)
      requires |block| >= HEADER_SIZE
      modifies this`uncommittedBlockMap, this`journalBlocks
      ensures !env.descriptorOk(block) ==> r == Err(Corrupt)
      ensures env.descriptorOk(block) ==>
                TagsResult(old(Now()), PairTags(env, TagStream(block[HEADER_SIZE..]), old(journalBlocks), sequence)) ==
                if r.Ok? then Ok(Now()) else Err(r.error)
    {
      if !env.descriptorOk(block) {
        return Err(Corrupt);
      }
      var tags := new DescriptorBlockTagIter(block[HEADER_SIZE..]);
      ghost var expected := TagsResult(Now(), PairTags(env, tags.Rest(), journalBlocks, sequence));
      while true
        invariant TagsResult(Now(), PairTags(env, tags.Rest(), journalBlocks, sequence)) == expected
        decreases |tags.Rest().items|
      {
        ghost var before, left := Now(), tags.Rest();
        var tag := tags.Next();
        if tag.None? {
          return Ok(());
        }
        if tag.value.Err? {
          return Err(tag.value.error);
        }
        var block := ProcessTag(tag.value.value);
        TagStep(env, before, left, tag.value.value, tags.Rest());
        if block.Err? {
          return Err(block.error);
        }
      }
    }

    method ProcessRevocationBlock() returns (r: Result<()>)
      requires |block| >= HEADER_SIZE + 8
      modifies this`revokedBlocks
      ensures !env.revocationOk(block) ==> r == Err(Corrupt)
      ensures env.revocationOk(block) ==>
                var table := RevocationTable(block);
                if table.Err? then r == Err(table.error)
                else r.Ok? && revokedBlocks == old(revokedBlocks) + table.value
    {
      if !env.revocationOk(block) {
        return Err(Corrupt);
      }
      var table := ReadRevocationBlockTable(block, revokedBlocks);
      if table.Err? {
        return Err(table.error);
      }
      revokedBlocks := table.value;
      return Ok(());
    }

    method ProcessCommitBlock() returns (r: Result<()>)
      modifies this`uncommittedBlockMap, this`blockMap, this`revokedBlocks, this`sequence
      ensures !env.commitOk(block) ==> r == Err(Corrupt) && blockMap == old(blockMap)
      ensures env.commitOk(block) ==>
                && blockMap == old(blockMap) + (old(uncommittedBlockMap) - ToSet(old(revokedBlocks)))
                && uncommittedBlockMap == map[] && revokedBlocks == []
                && (if old(sequence) + 1 >= U32_LIMIT then r == Err(Corrupt) && sequence == old(sequence)
                    else r.Ok? && sequence == old(sequence) + 1)
    {
      if !env.commitOk(block) {
        return Err(Corrupt);
      }
      var i := 0;
      while i < |revokedBlocks|
        invariant i <= |revokedBlocks| && revokedBlocks == old(revokedBlocks)
        invariant blockMap == old(blockMap) && sequence == old(sequence)
        invariant uncommittedBlockMap == old(uncommittedBlockMap) - ToSet(revokedBlocks[..i])
      {
        uncommittedBlockMap := uncommittedBlockMap - {revokedBlocks[i]};
        assert revokedBlocks[..i + 1] == revokedBlocks[..i] + [revokedBlocks[i]];
        i := i + 1;
      }
      assert revokedBlocks[..i] == revokedBlocks;
      revokedBlocks := [];
      blockMap := blockMap + uncommittedBlockMap;
      uncommittedBlockMap := map[];
      if sequence + 1 >= U32_LIMIT {
        return Err(Corrupt);
      }
      sequence := sequence + 1;
      return Ok(());
    }

    /** Process the record that starts with the current block. */
    method ProcessNext() returns (r: Result<()>)
      requires !isDone
      modifies this
      ensures Processed(ReadRecord(env, old(FromCurrent()), old(sequence)), old(Now()), r, Now())
    {
      assert FromCurrent().Skip(1) == journalBlocks;
      var read := env.read(blockIndex);
      if read.Err? {
        return Err(read.error);
      }
      block := read.value;
      var header := ReadHeader(block);
      if header.None? {
        isDone := true;
        return Ok(());
      }
      if header.value.sequence != sequence {
        return Err(Corrupt);
      }
      if header.value.blockType == DESCRIPTOR {
        r := ProcessDescriptorBlock();
      } else if header.value.blockType == REVOCATION {
        r := ProcessRevocationBlock();
      } else if header.value.blockType == COMMIT {
        r := ProcessCommitBlock();
      } else {
        return Err(Incompatible);
      }
    }
  }

  ghost function ExpectedOf(rd: Reader, s: State): Result<JournalMap>
    requires Bounded(rd)
  {
    Expected(rd, s.blockMap, s.uncommitted, ToSet(s.revoked), s.journalBlocks, s.sequence)
  }

  /** The expected result is still expected in `t`, or has been reached. */
  ghost predicate KeepsExpected(rd: Reader, log: Stream<nat>, s: State, r: Result<()>, t: State)
    requires Bounded(rd)
  {
    var expected := ExpectedOf(rd, s.(journalBlocks := log));
    if r.Err? && !r.error.Corrupt? then expected == Err(r.error)
    else if r.Err? || t.isDone then expected == Ok(t.blockMap)
    else expected == ExpectedOf(rd, t) && |t.journalBlocks.items| < |log.items|
  }

  lemma NoRecordKeepsExpected(rd: Reader, log: Stream<nat>, s: State, r: Result<()>, t: State)
    requires Bounded(rd) && log.items != [] && !rd(log, s.sequence).Rec?
    requires Processed(rd(log, s.sequence), s, r, t)
    ensures KeepsExpected(rd, log, s, r, t)
  {
    var stop := ReadTxn(rd, log, s.sequence);
    assert stop.Unfinished?;
  }

  /** Processing a record keeps the expected result, or reaches it. */
  lemma ProcessedKeepsExpected(rd: Reader, log: Stream<nat>, s: State, r: Result<()>, t: State)
    requires Bounded(rd) && log.items != [] && !s.isDone
    requires s.journalBlocks == log.Skip(1) && Processed(rd(log, s.sequence), s, r, t)
    ensures KeepsExpected(rd, log, s, r, t)
  {
    var reading := rd(log, s.sequence);
    if !reading.Rec? {
      NoRecordKeepsExpected(rd, log, s, r, t);
    } else {
      match reading.record
      case Commit => CommitKeepsExpected(rd, log, s, r, t);
      case Descriptor(writes) => DescriptorKeepsExpected(rd, log, s, r, t, writes);
      case Revocation(blocks) => RevocationKeepsExpected(rd, log, s, r, t, blocks);
    }
  }

  lemma TxnStartsWith(rd: Reader, log: Stream<nat>, sequence: nat, record: Record)
    requires Bounded(rd) && log.items != []
    requires rd(log, sequence) == Rec(record)
    ensures record.Len() <= |log.items|
    ensures ReadTxn(rd, log, sequence) ==
            if record.Commit? then Complete(Txn([], []), 1)
            else ReadTxn(rd, log.Skip(record.Len()), sequence).After(record)
  {
  }

  lemma ResumeCommitted(rd: Reader, m: JournalMap, committed: JournalMap, log: Stream<nat>, sequence: nat)
    requires Bounded(rd)
    ensures Resume(rd, m, Committed(committed, log), sequence) ==
            if sequence + 1 >= U32_LIMIT then Ok(committed)
            else Expected(rd, committed, map[], {}, log, sequence + 1)
  {
    ExpectedAtStart(rd, committed, log, sequence + 1);
  }

  lemma CommitKeepsExpected(rd: Reader, log: Stream<nat>, s: State, r: Result<()>, t: State)
    requires Bounded(rd) && log.items != [] && !s.isDone && s.journalBlocks == log.Skip(1)
    requires rd(log, s.sequence) == Rec(Record.Commit)
    requires Processed(rd(log, s.sequence), s, r, t)
    ensures KeepsExpected(rd, log, s, r, t)
  {
    TxnStartsWith(rd, log, s.sequence, Record.Commit);
    CommitAtOnce(s.blockMap, s.uncommitted, ToSet(s.revoked), log);
    ResumeCommitted(rd, s.blockMap, t.blockMap, log.Skip(1), s.sequence);
    assert ToSet([]) == {};
  }

  lemma DescriptorKeepsExpected(rd: Reader, log: Stream<nat>, s: State, r: Result<()>, t: State, writes: seq<Write>)
    requires Bounded(rd) && log.items != [] && !s.isDone && s.journalBlocks == log.Skip(1)
    requires rd(log, s.sequence) == Rec(Descriptor(writes))
    requires Processed(rd(log, s.sequence), s, r, t)
    ensures KeepsExpected(rd, log, s, r, t)
  {
    TxnStartsWith(rd, log, s.sequence, Descriptor(writes));
    SkipTwice(log, 1, |writes|);
    var rest := ReadTxn(rd, t.journalBlocks, s.sequence);
    CommitAfterDescriptor(s.blockMap, s.uncommitted, ToSet(s.revoked), rest, log, writes);
  }

  lemma RevocationKeepsExpected(rd: Reader, log: Stream<nat>, s: State, r: Result<()>, t: State, blocks: seq<nat>)
    requires Bounded(rd) && log.items != [] && !s.isDone && s.journalBlocks == log.Skip(1)
    requires rd(log, s.sequence) == Rec(Revocation(blocks))
    requires Processed(rd(log, s.sequence), s, r, t)
    ensures KeepsExpected(rd, log, s, r, t)
  {
    TxnStartsWith(rd, log, s.sequence, Revocation(blocks));
    var rest := ReadTxn(rd, log.Skip(1), s.sequence);
    CommitAfterRevocation(s.blockMap, s.uncommitted, ToSet(s.revoked), rest, log, blocks);
    assert ToSet(s.revoked) + ToSet(blocks) == ToSet(s.revoked + blocks);
  }

  /** `load_block_map`: replay the journal that occupies `fileBlocks`. */
  method LoadBlockMap(env: Env, fileBlocks: Stream<nat>, startBlock: nat, sequence: nat)
    returns (r: Result<JournalMap>)
    ensures r == Replay(env, fileBlocks.Skip(startBlock), sequence)
  {
    var loader := new BlockMapLoader(env, fileBlocks, startBlock, sequence);
    ghost var expected := Replay(env, fileBlocks.Skip(startBlock), sequence);
    ghost var rd := Records(env);
    ExpectedAtStart(rd, map[], fileBlocks.Skip(startBlock), sequence);
    assert ToSet([]) == {};
    while true
      invariant loader.env == env && !loader.isDone
      invariant ExpectedOf(rd, loader.Now()) == expected
      decreases |loader.journalBlocks.items|
    {
      ghost var log := loader.journalBlocks;
      var next := loader.NextJournalBlock();
      if next.None? {
        break;
      }
      if next.value.Err? {
        return Err(next.value.error);
      }
      loader.blockIndex := next.value.value;
      assert loader.FromCurrent() == log;
      ghost var before := loader.Now();
      var processed := loader.ProcessNext();
      ProcessedKeepsExpected(rd, log, before, processed, loader.Now());
      if processed.Err? {
        if processed.error.Corrupt? {
          break;
        }
        return Err(processed.error);
      }
      if loader.isDone {
        break;
      }
    }
    r := Ok(loader.blockMap);
  }
}
