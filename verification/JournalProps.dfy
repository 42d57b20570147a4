// What journal replay promises: exactly the complete transactions of the log
// count, however the log ends, and cutting the log anywhere (a crash while it
// was written) keeps exactly the transactions committed before the cut.

module JournalProps {
  import opened Basics
  import opened JournalFormat
  import opened JournalSpec

  // ----- a declarative description of records

  /** `block` holds data with the checksum that `tag` records. */
  predicate Matches(env: Env, tag: Tag, block: nat, sequence: nat) {
    var data := env.read(block);
    data.Ok? && env.dataChecksum(sequence, data.value) == tag.checksum
  }

  lemma {:induction false} PairTagsExactly(env: Env, tags: Stream<Tag>, log: Stream<nat>, sequence: nat,
                                           writes: seq<Write>)
    ensures PairTags(env, tags, log, sequence) == Ok(writes) <==>
            && tags.err.None? && |writes| == |tags.items| <= |log.items|
            && (forall i :: 0 <= i < |writes| ==>
                              && writes[i] == Write(tags.items[i].block, log.items[i])
                              && Matches(env, tags.items[i], log.items[i], sequence))
    decreases |tags.items|
  {
    if tags.items != [] && log.items != [] && writes != [] {
      PairTagsExactly(env, tags.Skip(1), log.Skip(1), sequence, writes[1..]);
      assert writes == [writes[0]] + writes[1..];
    } else if tags.items != [] && log.items != [] {
      assert PairTags(env, tags, log, sequence) != Ok(writes);
    }
  }

  /** The journal blocks `blocks` are exactly one record. */
  predicate IsRecord(env: Env, blocks: seq<nat>, record: Record, sequence: nat) {
    && |blocks| == record.Len()
    && env.read(blocks[0]).Ok?
    && var block := env.read(blocks[0]).value;
    match record
    case Descriptor(writes) =>
      var tags := TagStream(block[HEADER_SIZE..]);
      && ReadHeader(block) == Some(Header(DESCRIPTOR, sequence)) && env.descriptorOk(block)
      && tags.err.None? && |tags.items| == |writes|
      && (forall i :: 0 <= i < |writes| ==>
                        && writes[i] == Write(tags.items[i].block, blocks[1 + i])
                        && Matches(env, tags.items[i], blocks[1 + i], sequence))
    case Revocation(revoked) =>
      && ReadHeader(block) == Some(Header(REVOCATION, sequence)) && env.revocationOk(block)
      && RevocationTable(block) == Ok(revoked)
    case Commit =>
      ReadHeader(block) == Some(Header(COMMIT, sequence)) && env.commitOk(block)
  }

  /** Reading finds a record exactly where one is. */
  lemma ReadRecordExactly(env: Env, log: Stream<nat>, sequence: nat, record: Record)
    requires log.items != []
    ensures ReadRecord(env, log, sequence) == Rec(record) <==>
            record.Len() <= |log.items| && IsRecord(env, log.items[..record.Len()], record, sequence)
  {
    var read := env.read(log.items[0]);
    if read.Ok? && record.Descriptor? {
      PairTagsExactly(env, TagStream(read.value[HEADER_SIZE..]), log.Skip(1), sequence, record.writes);
    }
  }

  // ----- transactions, for any way to tell records

  /** Says whether some blocks are exactly one record of a transaction. */
  type Shape = (seq<nat>, Record, nat) -> bool

  ghost predicate ReadsAt(rd: Reader, shape: Shape, log: Stream<nat>, sequence: nat, record: Record)
    requires log.items != []
  {
    rd(log, sequence) == Rec(record) <==>
    record.Len() <= |log.items| && shape(log.items[..record.Len()], record, sequence)
  }

  /** `rd` reads the records that `shape` describes, and no others. */
  ghost predicate ReadsShape(rd: Reader, shape: Shape) {
    forall log: Stream<nat>, sequence: nat, record: Record :: log.items != [] ==>
      ReadsAt(rd, shape, log, sequence, record)
  }

  function RecordShape(env: Env): Shape {
    (blocks: seq<nat>, record: Record, sequence: nat) => IsRecord(env, blocks, record, sequence)
  }

  lemma RecordsHaveShape(env: Env)
    ensures ReadsShape(Records(env), RecordShape(env))
  {
    forall log: Stream<nat>, sequence: nat, record: Record | log.items != []
      ensures ReadsAt(Records(env), RecordShape(env), log, sequence, record)
    {
      ReadRecordExactly(env, log, sequence, record);
    }
  }

  /** The journal blocks `blocks` are the records `body` and then a commit. */
  ghost predicate IsTxn(shape: Shape, blocks: seq<nat>, body: seq<Record>, sequence: nat)
    decreases |body|
  {
    if body == [] then |blocks| == 1 && shape(blocks, Record.Commit, sequence)
    else
      && !body[0].Commit? && body[0].Len() <= |blocks|
      && shape(blocks[..body[0].Len()], body[0], sequence)
      && IsTxn(shape, blocks[body[0].Len()..], body[1..], sequence)
  }

  function TxnOf(body: seq<Record>): Txn
    decreases |body|
  {
    if body == [] then Txn([], []) else TxnOf(body[1..]).Prepend(body[0])
  }

  /** A transaction has the writes and the revocations of its records in their order. */
  lemma {:induction false} TxnOfParts(a: seq<Record>, b: seq<Record>)
    ensures TxnOf(a + b).writes == TxnOf(a).writes + TxnOf(b).writes
    ensures TxnOf(a + b).revoked == TxnOf(a).revoked + TxnOf(b).revoked
    decreases |a|
  {
    if a == [] {
      assert a + b == b;
      assert [] + TxnOf(b).writes == TxnOf(b).writes && [] + TxnOf(b).revoked == TxnOf(b).revoked;
    } else {
      assert (a + b)[1..] == a[1..] + b;
      TxnOfParts(a[1..], b);
      TxnOfRecord(a[0], TxnOf(a[1..]), TxnOf(b));
    }
  }

  lemma TxnOfRecord(record: Record, first: Txn, rest: Txn)
    ensures var all := Txn(first.writes + rest.writes, first.revoked + rest.revoked);
            && all.Prepend(record).writes == first.Prepend(record).writes + rest.writes
            && all.Prepend(record).revoked == first.Prepend(record).revoked + rest.revoked
  {
    if record.Descriptor? {
      assert record.writes + (first.writes + rest.writes) == record.writes + first.writes + rest.writes;
    } else if record.Revocation? {
      assert record.blocks + (first.revoked + rest.revoked) == record.blocks + first.revoked + rest.revoked;
    }
  }

  lemma SlicesOfConcat(a: seq<nat>, b: seq<nat>, k: nat)
    requires k <= |a|
    ensures (a + b)[..k] == a[..k] && (a + b)[k..] == a[k..] + b
    ensures k == |a| ==> a[..k] == a
  {
  }

  /** A transaction that is laid out in full is read back, whatever follows. */
  lemma {:induction false} TxnIsRead(rd: Reader, shape: Shape, blocks: seq<nat>, body: seq<Record>,
                                     sequence: nat, more: Stream<nat>)
    requires Bounded(rd) && ReadsShape(rd, shape) && IsTxn(shape, blocks, body, sequence)
    ensures ReadTxn(rd, Stream(blocks + more.items, more.err), sequence) == Complete(TxnOf(body), |blocks|)
    decreases |body|
  {
    var log := Stream(blocks + more.items, more.err);
    var record := if body == [] then Record.Commit else body[0];
    var k := record.Len();
    SlicesOfConcat(blocks, more.items, k);
    assert ReadsAt(rd, shape, log, sequence, record);
    if body != [] {
      TxnIsRead(rd, shape, blocks[k..], body[1..], sequence, more);
    }
  }

  /** The records that are read before the commit. */
  ghost function BodyOf(rd: Reader, log: Stream<nat>, sequence: nat): (body: seq<Record>)
    requires Bounded(rd) && ReadTxn(rd, log, sequence).Complete?
    decreases |log.items|
  {
    var record := rd(log, sequence).record;
    if record.Commit? then []
    else [record] + BodyOf(rd, log.Skip(record.Len()), sequence)
  }

  /** What is read as a transaction is one. */
  lemma {:induction false} ReadTxnIsTxn(rd: Reader, shape: Shape, log: Stream<nat>, sequence: nat)
    requires Bounded(rd) && ReadsShape(rd, shape) && ReadTxn(rd, log, sequence).Complete?
    ensures var r := ReadTxn(rd, log, sequence);
            && IsTxn(shape, log.items[..r.used], BodyOf(rd, log, sequence), sequence)
            && r.txn == TxnOf(BodyOf(rd, log, sequence))
    decreases |log.items|
  {
    var record := rd(log, sequence).record;
    var k := record.Len();
    assert ReadsAt(rd, shape, log, sequence, record);
    if !record.Commit? {
      var rest, used := log.Skip(k), ReadTxn(rd, log, sequence).used;
      ReadTxnIsTxn(rd, shape, rest, sequence);
      PrefixInParts(log.items, k, used);
      assert ([record] + BodyOf(rd, rest, sequence))[1..] == BodyOf(rd, rest, sequence);
    }
  }

  lemma PrefixInParts(items: seq<nat>, k: nat, n: nat)
    requires k <= n <= |items|
    ensures items[..n][..k] == items[..k] && items[..n][k..] == items[k..][..n - k]
  {
  }

  /** The last block of a transaction is a commit. */
  lemma {:induction false} TxnEndsInCommit(rd: Reader, shape: Shape, log: Stream<nat>, sequence: nat)
    requires Bounded(rd) && ReadsShape(rd, shape) && ReadTxn(rd, log, sequence).Complete?
    ensures shape([log.items[ReadTxn(rd, log, sequence).used - 1]], Record.Commit, sequence)
    decreases |log.items|
  {
    var record := rd(log, sequence).record;
    if record.Commit? {
      assert ReadsAt(rd, shape, log, sequence, record);
      assert log.items[..1] == [log.items[0]];
    } else {
      TxnEndsInCommit(rd, shape, log.Skip(record.Len()), sequence);
    }
  }

  // ----- logs, for any way to read transactions

  /** The log that starts with the transaction read as `first`. */
  ghost function LogAfter(first: TxnReading, rest: Log, sequence: nat): Log {
    match first
    case Unfinished(stop) => Log([], [], stop)
    case Complete(txn, used) =>
      if sequence + 1 >= U32_LIMIT then Log([txn], [used], Damaged) else rest.After(txn, used)
  }

  lemma ReadLogStep(rt: TxnReader, log: Stream<nat>, sequence: nat, first: TxnReading)
    requires Progresses(rt) && rt(log, sequence) == first
    ensures first.Unfinished? ==> ReadLog(rt, log, sequence) == Log([], [], first.stop)
    ensures first.Complete? ==>
              ReadLog(rt, log, sequence) == LogAfter(first, ReadLog(rt, log.Skip(first.used), sequence + 1), sequence)
  {
  }

  /** Block `end - 1` is a commit of transaction `sequence`. */
  ghost predicate CommitEndsAt(shape: Shape, items: seq<nat>, end: nat, sequence: nat) {
    0 < end <= |items| && shape([items[end - 1]], Record.Commit, sequence)
  }

  ghost predicate EndsInCommit(rt: TxnReader, shape: Shape, log: Stream<nat>, sequence: nat) {
    rt(log, sequence).Complete? ==> CommitEndsAt(shape, log.items, rt(log, sequence).used, sequence)
  }

  ghost predicate EndInCommits(rt: TxnReader, shape: Shape) {
    forall log: Stream<nat>, sequence: nat :: EndsInCommit(rt, shape, log, sequence)
  }

  lemma CommitEndsAfter(shape: Shape, items: seq<nat>, rest: Log, txn: Txn, used: nat, i: nat, sequence: nat)
    requires used <= |items| && 0 < i <= |rest.ends|
    requires CommitEndsAt(shape, items[used..], rest.ends[i - 1], sequence)
    ensures CommitEndsAt(shape, items, rest.After(txn, used).ends[i], sequence)
  {
    assert items[used..][rest.ends[i - 1] - 1] == items[used + rest.ends[i - 1] - 1];
  }

  /** The transactions of a log after the first one are those of the rest. */
  lemma LaterTxn(rt: TxnReader, log: Stream<nat>, sequence: nat, i: nat)
    requires Progresses(rt) && 0 < i < |ReadLog(rt, log, sequence).txns|
    ensures var r := rt(log, sequence);
            && r.Complete? && i <= |ReadLog(rt, log.Skip(r.used), sequence + 1).txns|
            && ReadLog(rt, log, sequence) == ReadLog(rt, log.Skip(r.used), sequence + 1).After(r.txn, r.used)
  {
    ReadLogStep(rt, log, sequence, rt(log, sequence));
  }

  lemma FirstEnd(rt: TxnReader, log: Stream<nat>, sequence: nat)
    requires Progresses(rt) && ReadLog(rt, log, sequence).txns != []
    ensures rt(log, sequence).Complete? && ReadLog(rt, log, sequence).ends[0] == rt(log, sequence).used
  {
    ReadLogStep(rt, log, sequence, rt(log, sequence));
  }

  lemma {:induction false} LogEnds(rt: TxnReader, shape: Shape, log: Stream<nat>, sequence: nat, i: nat)
    requires Progresses(rt) && EndInCommits(rt, shape) && i < |ReadLog(rt, log, sequence).txns|
    ensures CommitEndsAt(shape, log.items, ReadLog(rt, log, sequence).ends[i], sequence + i)
    decreases |log.items|
  {
    var r := rt(log, sequence);
    if i == 0 {
      FirstEnd(rt, log, sequence);
      assert EndsInCommit(rt, shape, log, sequence);
    } else {
      LaterTxn(rt, log, sequence, i);
      LogEnds(rt, shape, log.Skip(r.used), sequence + 1, i - 1);
      CommitEndsAfter(shape, log.items, ReadLog(rt, log.Skip(r.used), sequence + 1), r.txn, r.used, i, sequence + i);
    }
  }

  lemma TxnsEndInCommits(rd: Reader, shape: Shape)
    requires Bounded(rd) && ReadsShape(rd, shape)
    ensures EndInCommits(Txns(rd), shape)
  {
    forall log: Stream<nat>, sequence: nat
      ensures EndsInCommit(Txns(rd), shape, log, sequence)
    {
      if ReadTxn(rd, log, sequence).Complete? {
        TxnEndsInCommit(rd, shape, log, sequence);
      }
    }
  }

  /** Transaction `i` of a replayed log ends in a valid commit block numbered
      `sequence + i`. */
  lemma EndsAreCommits(env: Env, log: Stream<nat>, sequence: nat, i: nat)
    requires i < |JournalLog(env, log, sequence).txns|
    ensures CommitEndsAt(RecordShape(env), log.items, JournalLog(env, log, sequence).ends[i], sequence + i)
  {
    RecordsHaveShape(env);
    TxnsEndInCommits(Records(env), RecordShape(env));
    LogEnds(Txns(Records(env)), RecordShape(env), log, sequence, i);
  }

  function Concat(parts: seq<seq<nat>>): seq<nat> {
    if parts == [] then [] else parts[0] + Concat(parts[1..])
  }

  function TxnsOf(bodies: seq<seq<Record>>): seq<Txn> {
    if bodies == [] then [] else [TxnOf(bodies[0])] + TxnsOf(bodies[1..])
  }

  /** Part `i` is a transaction with records `bodies[i]`, numbered from
      `sequence` on. */
  ghost predicate IsLog(shape: Shape, parts: seq<seq<nat>>, bodies: seq<seq<Record>>, sequence: nat)
    decreases |parts|
  {
    if parts == [] || bodies == [] then |parts| == |bodies|
    else
      && IsTxn(shape, parts[0], bodies[0], sequence)
      && IsLog(shape, parts[1..], bodies[1..], sequence + 1)
  }

  /** `all` has the transactions `txns` and then those of `rest`. */
  ghost predicate Extends(all: Log, txns: seq<Txn>, rest: Log) {
    all.txns == txns + rest.txns && all.stop == rest.stop
  }

  lemma ExtendsTwice(all: Log, first: seq<Txn>, mid: Log, second: seq<Txn>, rest: Log)
    requires Extends(all, first, mid) && Extends(mid, second, rest)
    ensures Extends(all, first + second, rest)
  {
    assert first + second + rest.txns == first + (second + rest.txns);
  }

  /** A complete transaction in front adds itself to the log. */
  ghost predicate ReadsTxn(rt: TxnReader, shape: Shape, blocks: seq<nat>, body: seq<Record>,
                           sequence: nat, more: Stream<nat>)
  {
    IsTxn(shape, blocks, body, sequence) ==>
      rt(Stream(blocks + more.items, more.err), sequence) == Complete(TxnOf(body), |blocks|)
  }

  ghost predicate ReadsTxns(rt: TxnReader, shape: Shape) {
    forall blocks, body, sequence, more :: ReadsTxn(rt, shape, blocks, body, sequence, more)
  }

  lemma TxnsAreRead(rd: Reader, shape: Shape)
    requires Bounded(rd) && ReadsShape(rd, shape)
    ensures ReadsTxns(Txns(rd), shape)
  {
    forall blocks, body, sequence, more
      ensures ReadsTxn(Txns(rd), shape, blocks, body, sequence, more)
    {
      if IsTxn(shape, blocks, body, sequence) {
        TxnIsRead(rd, shape, blocks, body, sequence, more);
      }
    }
  }

  /** The rest of a log after the transaction before `sequence`. Sequence numbers have
      32 bits, and reading stops when they run out. */
  ghost function RestLog(rt: TxnReader, log: Stream<nat>, sequence: nat): Log
    requires Progresses(rt)
  {
    if sequence < U32_LIMIT then ReadLog(rt, log, sequence) else Log([], [], Damaged)
  }

  lemma LogStartsWith(rt: TxnReader, shape: Shape, blocks: seq<nat>, body: seq<Record>,
                      sequence: nat, tail: Stream<nat>)
    requires Progresses(rt) && ReadsTxns(rt, shape)
    requires IsTxn(shape, blocks, body, sequence) && sequence < U32_LIMIT
    ensures Extends(ReadLog(rt, Stream(blocks + tail.items, tail.err), sequence), [TxnOf(body)],
                    RestLog(rt, tail, sequence + 1))
  {
    var log := Stream(blocks + tail.items, tail.err);
    assert ReadsTxn(rt, shape, blocks, body, sequence, tail);
    ReadLogStep(rt, log, sequence, Complete(TxnOf(body), |blocks|));
    assert log.Skip(|blocks|) == tail;
  }

  lemma ConcatWith(parts: seq<seq<nat>>, more: seq<nat>)
    ensures Concat(parts) + more ==
            if parts == [] then more else parts[0] + (Concat(parts[1..]) + more)
  {
  }

  lemma {:induction false} LogIsRead(rt: TxnReader, shape: Shape, parts: seq<seq<nat>>, bodies: seq<seq<Record>>,
                                     sequence: nat, more: Stream<nat>)
    requires Progresses(rt) && ReadsTxns(rt, shape) && IsLog(shape, parts, bodies, sequence)
    requires sequence + |parts| <= U32_LIMIT
    ensures Extends(RestLog(rt, Stream(Concat(parts) + more.items, more.err), sequence), TxnsOf(bodies),
                    RestLog(rt, more, sequence + |parts|))
    decreases |parts|
  {
    ConcatWith(parts, more.items);
    if parts != [] {
      var tail := Stream(Concat(parts[1..]) + more.items, more.err);
      LogStartsWith(rt, shape, parts[0], bodies[0], sequence, tail);
      LogIsRead(rt, shape, parts[1..], bodies[1..], sequence + 1, more);
      ExtendsTwice(RestLog(rt, Stream(Concat(parts) + more.items, more.err), sequence), [TxnOf(bodies[0])],
                   RestLog(rt, tail, sequence + 1), TxnsOf(bodies[1..]), RestLog(rt, more, sequence + |parts|));
    }
  }

  /** A journal that consists of complete transactions, numbered in order, is
      replayed in full, whatever incomplete rest follows them. */
  lemma CompleteLogIsReplayed(env: Env, parts: seq<seq<nat>>, bodies: seq<seq<Record>>, sequence: nat,
                              more: Stream<nat>)
    requires IsLog(RecordShape(env), parts, bodies, sequence)
    requires sequence < U32_LIMIT && sequence + |parts| <= U32_LIMIT
    requires var rest := RestLog(Txns(Records(env)), more, sequence + |parts|); rest.txns == [] && !rest.stop.Fatal?
    ensures Replay(env, Stream(Concat(parts) + more.items, more.err), sequence) ==
            Ok(Overlay(map[], TxnsOf(bodies)))
  {
    RecordsHaveShape(env);
    TxnsAreRead(Records(env), RecordShape(env));
    LogIsRead(Txns(Records(env)), RecordShape(env), parts, bodies, sequence, more);
    assert TxnsOf(bodies) + [] == TxnsOf(bodies);
  }

  // ----- every log starts with complete transactions

  /** What is read as a transaction is laid out as one. */
  ghost predicate FindsTxn(rt: TxnReader, shape: Shape, log: Stream<nat>, sequence: nat) {
    var r := rt(log, sequence);
    r.Complete? ==>
      && r.used <= |log.items|
      && exists body :: IsTxn(shape, log.items[..r.used], body, sequence) && r.txn == TxnOf(body)
  }

  ghost predicate FindsTxns(rt: TxnReader, shape: Shape) {
    forall log: Stream<nat>, sequence: nat :: FindsTxn(rt, shape, log, sequence)
  }

  lemma TxnsAreFound(rd: Reader, shape: Shape)
    requires Bounded(rd) && ReadsShape(rd, shape)
    ensures FindsTxns(Txns(rd), shape)
  {
    forall log: Stream<nat>, sequence: nat
      ensures FindsTxn(Txns(rd), shape, log, sequence)
    {
      if ReadTxn(rd, log, sequence).Complete? {
        ReadTxnIsTxn(rd, shape, log, sequence);
      }
    }
  }

  /** `parts` and `bodies` are the complete transactions that `log` starts with, and
      what follows them starts with no complete transaction. */
  ghost predicate StartsWithTxns(rt: TxnReader, shape: Shape, log: Stream<nat>, sequence: nat,
                                 parts: seq<seq<nat>>, bodies: seq<seq<Record>>)
    requires Progresses(rt)
  {
    var n := |Concat(parts)|;
    && IsLog(shape, parts, bodies, sequence)
    && n <= |log.items| && Concat(parts) == log.items[..n]
    && var rest := RestLog(rt, log.Skip(n), sequence + |parts|);
       rest.txns == [] && Extends(RestLog(rt, log, sequence), TxnsOf(bodies), rest)
  }

  lemma LogCons(shape: Shape, first: seq<nat>, parts: seq<seq<nat>>, body: seq<Record>, bodies: seq<seq<Record>>,
                sequence: nat)
    requires IsTxn(shape, first, body, sequence) && IsLog(shape, parts, bodies, sequence + 1)
    ensures IsLog(shape, [first] + parts, [body] + bodies, sequence)
    ensures Concat([first] + parts) == first + Concat(parts)
    ensures TxnsOf([body] + bodies) == [TxnOf(body)] + TxnsOf(bodies)
  {
    assert ([first] + parts)[1..] == parts && ([body] + bodies)[1..] == bodies;
  }

  lemma SkipInParts(log: Stream<nat>, k: nat, n: nat)
    requires k <= |log.items| && n <= |log.Skip(k).items|
    ensures log.Skip(k).Skip(n) == log.Skip(k + n)
    ensures log.items[..k] + log.Skip(k).items[..n] == log.items[..k + n]
  {
  }

  lemma OneMoreTxn(rt: TxnReader, shape: Shape, log: Stream<nat>, sequence: nat, body: seq<Record>,
                   parts: seq<seq<nat>>, bodies: seq<seq<Record>>)
    requires Progresses(rt) && sequence < U32_LIMIT
    requires var r := rt(log, sequence);
             && r.Complete? && r.txn == TxnOf(body) && IsTxn(shape, log.items[..r.used], body, sequence)
             && StartsWithTxns(rt, shape, log.Skip(r.used), sequence + 1, parts, bodies)
    ensures StartsWithTxns(rt, shape, log, sequence, [log.items[..rt(log, sequence).used]] + parts, [body] + bodies)
  {
    var used, n := rt(log, sequence).used, |Concat(parts)|;
    LogCons(shape, log.items[..used], parts, body, bodies, sequence);
    SkipInParts(log, used, n);
    LogAfterTxn(rt, log, sequence, body);
    ExtendsTwice(RestLog(rt, log, sequence), [TxnOf(body)], RestLog(rt, log.Skip(used), sequence + 1),
                 TxnsOf(bodies), RestLog(rt, log.Skip(used + n), sequence + 1 + |parts|));
  }

  lemma LogAfterTxn(rt: TxnReader, log: Stream<nat>, sequence: nat, body: seq<Record>)
    requires Progresses(rt) && sequence < U32_LIMIT
    requires rt(log, sequence).Complete? && rt(log, sequence).txn == TxnOf(body)
    ensures Extends(RestLog(rt, log, sequence), [TxnOf(body)],
                    RestLog(rt, log.Skip(rt(log, sequence).used), sequence + 1))
  {
    ReadLogStep(rt, log, sequence, rt(log, sequence));
  }

  lemma {:induction false} LogIsFound(rt: TxnReader, shape: Shape, log: Stream<nat>, sequence: nat)
      returns (parts: seq<seq<nat>>, bodies: seq<seq<Record>>)
    requires Progresses(rt) && FindsTxns(rt, shape)
    ensures StartsWithTxns(rt, shape, log, sequence, parts, bodies)
    ensures sequence <= U32_LIMIT ==> sequence + |parts| <= U32_LIMIT
    decreases |log.items|
  {
    var r := rt(log, sequence);
    if sequence >= U32_LIMIT || r.Unfinished? {
      parts, bodies := [], [];
      assert log.Skip(0) == log;
    } else {
      assert FindsTxn(rt, shape, log, sequence);
      var body :| IsTxn(shape, log.items[..r.used], body, sequence) && r.txn == TxnOf(body);
      parts, bodies := LogIsFound(rt, shape, log.Skip(r.used), sequence + 1);
      OneMoreTxn(rt, shape, log, sequence, body, parts, bodies);
      parts, bodies := [log.items[..r.used]] + parts, [body] + bodies;
    }
  }

  /** For every journal content, a result of replay is the overlay of the complete
      transactions that the journal starts with, numbered in order, and of no more. */
  lemma ReplayIsOverlay(env: Env, log: Stream<nat>, sequence: nat)
      returns (parts: seq<seq<nat>>, bodies: seq<seq<Record>>)
    requires sequence < U32_LIMIT
    ensures StartsWithTxns(Txns(Records(env)), RecordShape(env), log, sequence, parts, bodies)
    ensures JournalLog(env, log, sequence).txns == TxnsOf(bodies)
    ensures Replay(env, log, sequence).Ok? ==> Replay(env, log, sequence) == Ok(Overlay(map[], TxnsOf(bodies)))
  {
    RecordsHaveShape(env);
    TxnsAreFound(Records(env), RecordShape(env));
    parts, bodies := LogIsFound(Txns(Records(env)), RecordShape(env), log, sequence);
    assert TxnsOf(bodies) + [] == TxnsOf(bodies);
  }

  // ----- cutting the log

  /** The log as a crash after its first `k` blocks leaves it. */
  function Cut(log: Stream<nat>, k: nat): Stream<nat>
    requires k <= |log.items|
  {
    Stream(log.items[..k], None)
  }

  lemma CutThenSkip(log: Stream<nat>, k: nat, n: nat)
    requires n <= k <= |log.items|
    ensures Cut(log, k).Skip(n) == Cut(log.Skip(n), k - n)
  {
    assert log.items[..k][n..] == log.items[n..][..k - n];
  }

  lemma {:induction false} PairTagsCut(env: Env, tags: Stream<Tag>, log: Stream<nat>, k: nat, sequence: nat)
    requires k <= |log.items|
    ensures var full, cut := PairTags(env, tags, log, sequence), PairTags(env, tags, Cut(log, k), sequence);
            && (cut == full || cut == Err(Corrupt))
            && (full.Ok? ==> cut == if |full.value| <= k then full else Err(Corrupt))
    decreases |tags.items|
  {
    if tags.items != [] && k > 0 {
      CutThenSkip(log, k, 1);
      PairTagsCut(env, tags.Skip(1), log.Skip(1), k - 1, sequence);
    }
  }

  /** On a cut log a record is read as before if all of it is left, and
      otherwise taken for corrupt. */
  ghost predicate CutsAt(rd: Reader, log: Stream<nat>, k: nat, sequence: nat)
    requires 0 < k <= |log.items|
  {
    var full, cut := rd(log, sequence), rd(Cut(log, k), sequence);
    && (cut == full || cut == Fault(Corrupt))
    && (full.Rec? ==> cut == if full.record.Len() <= k then full else Fault(Corrupt))
  }

  ghost predicate CutsCleanly(rd: Reader) {
    forall log: Stream<nat>, k: nat, sequence: nat :: 0 < k <= |log.items| ==> CutsAt(rd, log, k, sequence)
  }

  lemma RecordsCutCleanly(env: Env)
    ensures CutsCleanly(Records(env))
  {
    forall log: Stream<nat>, k: nat, sequence: nat | 0 < k <= |log.items|
      ensures CutsAt(Records(env), log, k, sequence)
    {
      RecordCutsAt(env, log, k, sequence);
    }
  }

  lemma RecordCutsAt(env: Env, log: Stream<nat>, k: nat, sequence: nat)
    requires 0 < k <= |log.items|
    ensures CutsAt(Records(env), log, k, sequence)
  {
    var read := env.read(log.items[0]);
    if read.Ok? {
      CutThenSkip(log, k, 1);
      PairTagsCut(env, TagStream(read.value[HEADER_SIZE..]), log.Skip(1), k - 1, sequence);
    }
  }

  /** What a transaction is read as when the log is cut after `k` blocks. */
  ghost predicate CutTxn(full: TxnReading, cut: TxnReading, k: nat) {
    if full.Complete? && full.used <= k then cut == full
    else full.Complete? || !full.stop.Fatal? ==> cut.Unfinished? && !cut.stop.Fatal?
  }

  lemma {:induction false} ReadTxnCut(rd: Reader, log: Stream<nat>, k: nat, sequence: nat)
    requires Bounded(rd) && CutsCleanly(rd) && k <= |log.items|
    ensures CutTxn(ReadTxn(rd, log, sequence), ReadTxn(rd, Cut(log, k), sequence), k)
    decreases |log.items|
  {
    if k > 0 {
      var full := rd(log, sequence);
      assert CutsAt(rd, log, k, sequence);
      if full.Rec? && full.record.Len() <= k {
        CutThenSkip(log, k, full.record.Len());
        ReadTxnCut(rd, log.Skip(full.record.Len()), k - full.record.Len(), sequence);
      }
    }
  }

  /** How many transactions end within the first `k` blocks. */
  function CommittedBefore(ends: seq<nat>, k: nat): (n: nat)
    ensures n <= |ends|
    ensures forall i :: 0 <= i < n ==> ends[i] <= k
    ensures n < |ends| ==> ends[n] > k
  {
    if ends == [] || ends[0] > k then 0 else 1 + CommittedBefore(ends[1..], k)
  }

  lemma {:induction false} CommittedBeforeShift(ends: seq<nat>, used: nat, k: nat)
    requires used <= k
    ensures CommittedBefore(Shifted(ends, used), k) == CommittedBefore(ends, k - used)
    decreases |ends|
  {
    if ends != [] {
      CommittedBeforeShift(ends[1..], used, k);
      assert Shifted(ends, used)[1..] == Shifted(ends[1..], used);
    }
  }

  /** Counting the ends of a log that starts with a transaction. */
  lemma CommittedAfter(rest: Log, txn: Txn, used: nat, k: nat)
    requires used <= k && |rest.ends| == |rest.txns|
    ensures var full, n := rest.After(txn, used), CommittedBefore(rest.ends, k - used);
            && CommittedBefore(full.ends, k) == 1 + n
            && full.txns[..1 + n] == [txn] + rest.txns[..n]
  {
    CommittedBeforeShift(rest.ends, used, k);
    assert rest.After(txn, used).ends[1..] == Shifted(rest.ends, used);
    TakeFirstAnd(txn, rest.txns, CommittedBefore(rest.ends, k - used));
  }

  /** `cut` has exactly the transactions of `full` that end by block `k`. */
  ghost predicate CutLog(full: Log, cut: Log, k: nat)
    requires |full.ends| == |full.txns|
  {
    !cut.stop.Fatal? && cut.txns == full.txns[..CommittedBefore(full.ends, k)]
  }

  lemma CutLogAfter(first: TxnReading, full: Log, cut: Log, k: nat, sequence: nat)
    requires first.Complete? && first.used <= k && |full.ends| == |full.txns|
    requires sequence + 1 < U32_LIMIT ==> CutLog(full, cut, k - first.used)
    ensures CutLog(LogAfter(first, full, sequence), LogAfter(first, cut, sequence), k)
  {
    if sequence + 1 < U32_LIMIT {
      CommittedAfter(full, first.txn, first.used, k);
    }
  }

  ghost predicate CutsTxnAt(rt: TxnReader, log: Stream<nat>, k: nat, sequence: nat)
    requires k <= |log.items|
  {
    CutTxn(rt(log, sequence), rt(Cut(log, k), sequence), k)
  }

  ghost predicate CutsTxns(rt: TxnReader) {
    forall log: Stream<nat>, k: nat, sequence: nat :: k <= |log.items| ==> CutsTxnAt(rt, log, k, sequence)
  }

  lemma TxnsCutCleanly(rd: Reader)
    requires Bounded(rd) && CutsCleanly(rd)
    ensures CutsTxns(Txns(rd))
  {
    forall log: Stream<nat>, k: nat, sequence: nat | k <= |log.items|
      ensures CutsTxnAt(Txns(rd), log, k, sequence)
    {
      ReadTxnCut(rd, log, k, sequence);
    }
  }

  /** A cut before the end of the first transaction leaves none. */
  lemma CutInFirst(rt: TxnReader, log: Stream<nat>, k: nat, sequence: nat)
    requires Progresses(rt) && CutsTxns(rt) && k <= |log.items|
    requires !ReadLog(rt, log, sequence).stop.Fatal?
    requires !(rt(log, sequence).Complete? && rt(log, sequence).used <= k)
    ensures CutLog(ReadLog(rt, log, sequence), ReadLog(rt, Cut(log, k), sequence), k)
  {
    assert CutsTxnAt(rt, log, k, sequence);
    ReadLogStep(rt, log, sequence, rt(log, sequence));
    ReadLogStep(rt, Cut(log, k), sequence, rt(Cut(log, k), sequence));
  }

  /** A cut after the first transaction cuts what follows it. */
  lemma CutAfterFirst(rt: TxnReader, log: Stream<nat>, k: nat, sequence: nat, first: TxnReading)
    requires Progresses(rt) && CutsTxns(rt) && k <= |log.items|
    requires first == rt(log, sequence) && first.Complete? && first.used <= k
    requires sequence + 1 < U32_LIMIT ==>
               CutLog(ReadLog(rt, log.Skip(first.used), sequence + 1),
                      ReadLog(rt, Cut(log.Skip(first.used), k - first.used), sequence + 1), k - first.used)
    ensures CutLog(ReadLog(rt, log, sequence), ReadLog(rt, Cut(log, k), sequence), k)
  {
    var n := first.used;
    assert CutsTxnAt(rt, log, k, sequence);
    ReadLogStep(rt, log, sequence, first);
    ReadLogStep(rt, Cut(log, k), sequence, first);
    CutThenSkip(log, k, n);
    CutLogAfter(first, ReadLog(rt, log.Skip(n), sequence + 1), ReadLog(rt, Cut(log.Skip(n), k - n), sequence + 1),
                k, sequence);
  }

  lemma CutInLast(rt: TxnReader, log: Stream<nat>, k: nat, sequence: nat)
    requires Progresses(rt) && CutsTxns(rt) && k <= |log.items|
    requires !ReadLog(rt, log, sequence).stop.Fatal?
    requires !(sequence + 1 < U32_LIMIT && rt(log, sequence).Complete? && rt(log, sequence).used <= k)
    ensures CutLog(ReadLog(rt, log, sequence), ReadLog(rt, Cut(log, k), sequence), k)
  {
    var first := rt(log, sequence);
    if first.Complete? && first.used <= k {
      CutAfterFirst(rt, log, k, sequence, first);
    } else {
      CutInFirst(rt, log, k, sequence);
    }
  }

  lemma NotFatalAfter(rt: TxnReader, log: Stream<nat>, sequence: nat, first: TxnReading)
    requires Progresses(rt) && first == rt(log, sequence) && first.Complete?
    requires !ReadLog(rt, log, sequence).stop.Fatal?
    ensures 0 < first.used <= |log.items|
    ensures sequence + 1 < U32_LIMIT ==> !ReadLog(rt, log.Skip(first.used), sequence + 1).stop.Fatal?
  {
    ReadLogStep(rt, log, sequence, first);
  }

  lemma {:induction false} ReadLogCut(rt: TxnReader, log: Stream<nat>, k: nat, sequence: nat)
    requires Progresses(rt) && CutsTxns(rt) && k <= |log.items|
    requires !ReadLog(rt, log, sequence).stop.Fatal?
    ensures CutLog(ReadLog(rt, log, sequence), ReadLog(rt, Cut(log, k), sequence), k)
    decreases |log.items|
  {
    var first := rt(log, sequence);
    if sequence + 1 < U32_LIMIT && first.Complete? && first.used <= k {
      NotFatalAfter(rt, log, sequence, first);
      ReadLogCut(rt, log.Skip(first.used), k - first.used, sequence + 1);
      CutAfterFirst(rt, log, k, sequence, first);
    } else {
      CutInLast(rt, log, k, sequence);
    }
  }

  /** Crash-cut safety. If a journal can be replayed, so can every prefix of
      it, and the prefix gives exactly the transactions whose commit block it
      still contains. */
  lemma CrashCut(env: Env, log: Stream<nat>, k: nat, sequence: nat)
    requires k <= |log.items|
    requires Replay(env, log, sequence).Ok?
    ensures var full := JournalLog(env, log, sequence);
            Replay(env, Cut(log, k), sequence) ==
            Ok(Overlay(map[], full.txns[..CommittedBefore(full.ends, k)]))
  {
    RecordsCutCleanly(env);
    TxnsCutCleanly(Records(env));
    ReadLogCut(Txns(Records(env)), log, k, sequence);
  }
}
