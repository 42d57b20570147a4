// A journal, in bytes, where a revoked block stays mapped: a transaction that
// writes the block (descriptor, data and commit) and one that revokes it
// (revocation and commit).

module JournalExample {
  import opened Basics
  import opened ByteReaders
  import opened JournalFormat
  import opened JournalSpec
  import opened JournalProps
  import opened JournalRevocation

  function EncodeHeader(blockType: nat, sequence: nat): (r: Bytes)
    requires blockType < U32_LIMIT && sequence < U32_LIMIT
    ensures |r| == HEADER_SIZE
  {
    PutU32be(0xc03b3998) + PutU32be(blockType) + PutU32be(sequence)
  }

  /** A written header is read back, whatever follows it. */
  lemma HeaderRoundTrip(blockType: nat, sequence: nat, rest: Bytes)
    requires blockType < U32_LIMIT && sequence < U32_LIMIT
    ensures ReadHeader(EncodeHeader(blockType, sequence) + rest) == Some(Header(blockType, sequence))
  {
    var a, b, c := PutU32be(0xc03b3998), PutU32be(blockType), PutU32be(sequence);
    ReadInside([], a, b + c + rest, 0);
    ReadInside(a, b, c + rest, 0);
    ReadInside(a + b, c, rest, 0);
    var s := EncodeHeader(blockType, sequence) + rest;
    assert s == [] + a + (b + c + rest) && s == a + b + (c + rest) && s == (a + b) + c + rest;
  }

  /** The only tag of its block: it is the last one, and has no UUID. */
  function OnlyTag(block: nat): (tag: Tag)
    ensures tag.EncodedSize() == SIZE_WITHOUT_UUID
  {
    Tag(block, 0, LAST_TAG + UUID_OMITTED)
  }

  /** The tag, padded to the end of its block. */
  function TagBytes(block: nat): (r: Bytes)
    requires block < U64_LIMIT
    ensures |r| == MIN_BLOCK_SIZE - HEADER_SIZE
  {
    OneTag(block);
    EncodeTags([OnlyTag(block)], [[]]) + ZeroBytes(MIN_BLOCK_SIZE - HEADER_SIZE - SIZE_WITHOUT_UUID)
  }

  lemma OneTag(block: nat)
    requires block < U64_LIMIT
    ensures |EncodeTags([OnlyTag(block)], [[]])| == SIZE_WITHOUT_UUID
  {
    assert EncodeTags([], []) == [];
  }

  function DescriptorBlock(block: nat, sequence: nat): (r: Block)
    requires block < U64_LIMIT && sequence < U32_LIMIT
    ensures |r| == MIN_BLOCK_SIZE
  {
    EncodeHeader(DESCRIPTOR, sequence) + TagBytes(block)
  }

  /** What lies between the table of one block and the checksum at the end. */
  function Padding(): (r: Bytes)
    ensures |r| == MIN_BLOCK_SIZE - HEADER_SIZE - 16
  {
    ZeroBytes(MIN_BLOCK_SIZE - HEADER_SIZE - 16)
  }

  function RevocationBlock(block: nat, sequence: nat): (r: Block)
    requires block < U64_LIMIT && sequence < U32_LIMIT
    ensures |r| == MIN_BLOCK_SIZE
  {
    EncodeHeader(REVOCATION, sequence) + PutU32be(8) + EncodeWords([block]) + Padding() + ZeroBytes(4)
  }

  function CommitBlock(sequence: nat): (r: Block)
    requires sequence < U32_LIMIT
    ensures |r| == MIN_BLOCK_SIZE
  {
    EncodeHeader(COMMIT, sequence) + ZeroBytes(MIN_BLOCK_SIZE - HEADER_SIZE)
  }

  lemma DescriptorReads(block: nat, sequence: nat)
    requires block < U64_LIMIT && sequence < U32_LIMIT
    ensures var b := DescriptorBlock(block, sequence);
            && ReadHeader(b) == Some(Header(DESCRIPTOR, sequence))
            && TagStream(b[HEADER_SIZE..]) == Stream([OnlyTag(block)], None)
  {
    HeaderRoundTrip(DESCRIPTOR, sequence, TagBytes(block));
    assert DescriptorBlock(block, sequence)[HEADER_SIZE..] == TagBytes(block);
    TagsRoundTrip([OnlyTag(block)], [[]], ZeroBytes(MIN_BLOCK_SIZE - HEADER_SIZE - SIZE_WITHOUT_UUID));
  }

  lemma RevocationReads(block: nat, sequence: nat)
    requires block < U64_LIMIT && sequence < U32_LIMIT
    ensures var b := RevocationBlock(block, sequence);
            && ReadHeader(b) == Some(Header(REVOCATION, sequence))
            && RevocationTable(b) == Ok([block])
  {
    var header, words := EncodeHeader(REVOCATION, sequence), EncodeWords([block]);
    RevocationRoundTrip(header, PutU32be(8), [block], Padding(), ZeroBytes(4));
    HeaderRoundTrip(REVOCATION, sequence, PutU32be(8) + words + Padding() + ZeroBytes(4));
    assert RevocationBlock(block, sequence) == header + (PutU32be(8) + words + Padding() + ZeroBytes(4));
  }

  /** Blocks 1 to 5 of the device hold the journal. */
  function JournalBlock(block: nat, sequence: nat, b: nat): (r: Block)
    requires block < U64_LIMIT && sequence + 1 < U32_LIMIT
    ensures |r| == MIN_BLOCK_SIZE
  {
    if b == 1 then DescriptorBlock(block, sequence)
    else if b == 3 then CommitBlock(sequence)
    else if b == 4 then RevocationBlock(block, sequence + 1)
    else if b == 5 then CommitBlock(sequence + 1)
    else ZeroBytes(MIN_BLOCK_SIZE)
  }

  /** All checksums match. */
  function JournalOf(block: nat, sequence: nat): Env
    requires block < U64_LIMIT && sequence + 1 < U32_LIMIT
  {
    Env((b: nat) => Ok(JournalBlock(block, sequence, b)), _ => true, _ => true, _ => true, (_, _) => 0)
  }

  lemma CommitReads(sequence: nat)
    requires sequence < U32_LIMIT
    ensures ReadHeader(CommitBlock(sequence)) == Some(Header(COMMIT, sequence))
  {
    HeaderRoundTrip(COMMIT, sequence, ZeroBytes(MIN_BLOCK_SIZE - HEADER_SIZE));
  }

  /** A transaction of one record and its commit. */
  lemma ShortTxn(shape: Shape, blocks: seq<nat>, record: Record, commit: nat, sequence: nat)
    requires |blocks| == record.Len() && !record.Commit? && shape(blocks, record, sequence)
    requires shape([commit], Record.Commit, sequence)
    ensures IsTxn(shape, blocks + [commit], [record], sequence)
  {
    var all := blocks + [commit];
    assert all[..record.Len()] == blocks && all[record.Len()..] == [commit] && [record][1..] == [];
  }

  lemma FirstRecord(block: nat, sequence: nat)
    requires block < U64_LIMIT && sequence + 1 < U32_LIMIT
    ensures IsRecord(JournalOf(block, sequence), [1, 2], Descriptor([Write(block, 2)]), sequence)
  {
    DescriptorReads(block, sequence);
  }

  lemma SecondRecord(block: nat, sequence: nat)
    requires block < U64_LIMIT && sequence + 1 < U32_LIMIT
    ensures IsRecord(JournalOf(block, sequence), [4], Revocation([block]), sequence + 1)
  {
    RevocationReads(block, sequence + 1);
  }

  lemma Commits(block: nat, sequence: nat)
    requires block < U64_LIMIT && sequence + 1 < U32_LIMIT
    ensures IsRecord(JournalOf(block, sequence), [3], Record.Commit, sequence)
    ensures IsRecord(JournalOf(block, sequence), [5], Record.Commit, sequence + 1)
  {
    CommitReads(sequence);
    CommitReads(sequence + 1);
  }

  lemma FirstTxn(block: nat, sequence: nat)
    requires block < U64_LIMIT && sequence + 1 < U32_LIMIT
    ensures IsTxn(RecordShape(JournalOf(block, sequence)), [1, 2, 3], [Descriptor([Write(block, 2)])], sequence)
  {
    FirstRecord(block, sequence);
    Commits(block, sequence);
    ShortTxn(RecordShape(JournalOf(block, sequence)), [1, 2], Descriptor([Write(block, 2)]), 3, sequence);
    assert [1, 2] + [3] == [1, 2, 3];
  }

  lemma SecondTxn(block: nat, sequence: nat)
    requires block < U64_LIMIT && sequence + 1 < U32_LIMIT
    ensures IsTxn(RecordShape(JournalOf(block, sequence)), [4, 5], [Revocation([block])], sequence + 1)
  {
    SecondRecord(block, sequence);
    Commits(block, sequence);
    ShortTxn(RecordShape(JournalOf(block, sequence)), [4], Revocation([block]), 5, sequence + 1);
    assert [4] + [5] == [4, 5];
  }

  lemma TxnsOfJournal(block: nat)
    ensures TxnsOf([[Descriptor([Write(block, 2)])], [Revocation([block])]]) ==
            [Txn([Write(block, 2)], []), Txn([], [block])]
  {
    var first, second := [Descriptor([Write(block, 2)])], [Revocation([block])];
    assert first[1..] == [] && TxnOf(first) == Txn([Write(block, 2)], []);
    assert second[1..] == [] && TxnOf(second) == Txn([], [block]);
    assert [first, second][1..] == [second];
    assert TxnsOf([second]) == [TxnOf(second)];
  }

  /** The journal in blocks 1 to 5, which all have 1024 bytes, revokes the block, which
      the loader still maps to the copy in block 2. */
  lemma RevokedBlockIsStillMapped(block: nat, sequence: nat)
    requires block < U64_LIMIT && sequence + 1 < U32_LIMIT
    ensures var env, log := JournalOf(block, sequence), Stream([1, 2, 3, 4, 5], None);
            && (forall b :: env.read(b).Ok? && |env.read(b).value| == MIN_BLOCK_SIZE)
            && Replay(env, log, sequence) == Ok(map[block := 2])
            && StrictReplay(env, log, sequence) == Ok(map[])
  {
    var env := JournalOf(block, sequence);
    var first, second := [Descriptor([Write(block, 2)])], [Revocation([block])];
    FirstTxn(block, sequence);
    SecondTxn(block, sequence);
    TwoTxns(RecordShape(env), [1, 2, 3], first, [4, 5], second, sequence);
    assert [1, 2, 3] + [4, 5] == [1, 2, 3, 4, 5];
    ReplayOf(env, [[1, 2, 3], [4, 5]], [first, second], sequence);
    TxnsOfJournal(block);
    RevokedLater(block, 2);
  }

  lemma TwoTxns(shape: Shape, a: seq<nat>, first: seq<Record>, b: seq<nat>, second: seq<Record>, sequence: nat)
    requires IsTxn(shape, a, first, sequence) && IsTxn(shape, b, second, sequence + 1)
    ensures IsLog(shape, [a, b], [first, second], sequence) && Concat([a, b]) == a + b
  {
    assert [a, b][1..] == [b] && [first, second][1..] == [second] && [b][1..] == [] && [second][1..] == [];
    assert Concat([b]) == b + [];
  }

  /** A journal of complete transactions and nothing else. */
  lemma ReplayOf(env: Env, parts: seq<seq<nat>>, bodies: seq<seq<Record>>, sequence: nat)
    requires IsLog(RecordShape(env), parts, bodies, sequence)
    requires sequence < U32_LIMIT && sequence + |parts| <= U32_LIMIT
    ensures Replay(env, Stream(Concat(parts), None), sequence) == Ok(Overlay(map[], TxnsOf(bodies)))
    ensures StrictReplay(env, Stream(Concat(parts), None), sequence) == Ok(StrictOverlay(TxnsOf(bodies)))
  {
    RecordsHaveShape(env);
    TxnsAreRead(Records(env), RecordShape(env));
    LogIsRead(Txns(Records(env)), RecordShape(env), parts, bodies, sequence, Stream([], None));
    assert TxnsOf(bodies) + [] == TxnsOf(bodies) && Concat(parts) + [] == Concat(parts);
  }
}
