// What replaying a journal means. A log is a list of journal blocks that is
// read as records, the records as transactions numbered consecutively, and the
// result is the overlay of the complete transactions in order. The loader of
// src/journal/block_map.rs is proved against these definitions in module
// JournalLoader.

module JournalSpec {
  import opened Basics
  import opened JournalFormat

  const MIN_BLOCK_SIZE: nat := 1024

  type Block = b: Bytes | |b| >= MIN_BLOCK_SIZE witness seq(MIN_BLOCK_SIZE, _ => 0)

  /** What the loader can ask about a block: its bytes, and whether the
      checksums kept in or about it match. */
  datatype Env = Env(
    read: nat -> Result<Block>,
    descriptorOk: Bytes -> bool,
    revocationOk: Bytes -> bool,
    commitOk: Bytes -> bool,
    dataChecksum: (nat, Bytes) -> nat)

  // ----- records

  /** The filesystem block `block` is replaced by the journal block `copy`. */
  datatype Write = Write(block: nat, copy: nat)

  datatype Record =
    | Descriptor(writes: seq<Write>)
    | Revocation(blocks: seq<nat>)
    | Commit
  {
    /** Number of journal blocks that the record occupies. */
    function Len(): nat {
      if Descriptor? then 1 + |writes| else 1
    }
  }

  datatype Reading = Rec(record: Record) | End | Fault(error: Error)

  /** The next block of the log, if it holds the data that `tag` describes. */
  function DataBlock(env: Env, tag: Tag, log: Stream<nat>, sequence: nat): (r: Result<nat>)
    ensures r.Ok? ==> log.items != [] && r.value == log.items[0]
  {
    if log.items == [] then
      Err(if log.err.Some? then log.err.value else Corrupt)
    else
      var data :- env.read(log.items[0]);
      if env.dataChecksum(sequence, data) != tag.checksum then Err(Corrupt)
      else Ok(log.items[0])
  }

  /** Give each tag the next block of the log and check its data. */
  function PairTags(env: Env, tags: Stream<Tag>, log: Stream<nat>, sequence: nat): (r: Result<seq<Write>>)
    ensures r.Ok? ==> |r.value| == |tags.items| <= |log.items|
    decreases |tags.items|
  {
    if tags.items == [] then
      if tags.err.Some? then Err(tags.err.value) else Ok([])
    else
      var block :- DataBlock(env, tags.items[0], log, sequence);
      var rest :- PairTags(env, tags.Skip(1), log.Skip(1), sequence);
      Ok([Write(tags.items[0].block, block)] + rest)
  }

  /** Read one record from the front of a log. */
  function ReadRecord(env: Env, log: Stream<nat>, sequence: nat): (r: Reading)
    requires log.items != []
    ensures r.Rec? ==> r.record.Len() <= |log.items|
  {
    match env.read(log.items[0])
    case Err(e) => Fault(e)
    case Ok(block) =>
      match ReadHeader(block)
      case None => End
      case Some(header) =>
        if header.sequence != sequence then Fault(Corrupt)
        else if header.blockType == DESCRIPTOR then
          if !env.descriptorOk(block) then Fault(Corrupt)
          else match PairTags(env, TagStream(block[HEADER_SIZE..]), log.Skip(1), sequence)
            case Err(e) => Fault(e)
            case Ok(writes) => Rec(Descriptor(writes))
        else if header.blockType == REVOCATION then
          if !env.revocationOk(block) then Fault(Corrupt)
          else match RevocationTable(block)
            case Err(e) => Fault(e)
            case Ok(blocks) => Rec(Revocation(blocks))
        else if header.blockType == COMMIT then
          if !env.commitOk(block) then Fault(Corrupt) else Rec(Record.Commit)
        else Fault(Incompatible)
  }

  /** A way to read the record at the front of a log, given the number of its
      transaction. */
  type Reader = (Stream<nat>, nat) -> Reading

  /** A record does not reach beyond the end of the log. */
  ghost predicate Bounded(rd: Reader) {
    forall log: Stream<nat>, sequence: nat :: log.items != [] && rd(log, sequence).Rec? ==>
                              rd(log, sequence).record.Len() <= |log.items|
  }

  function Records(env: Env): (rd: Reader)
    ensures Bounded(rd)
  {
    (log: Stream<nat>, sequence: nat) => if log.items == [] then End else ReadRecord(env, log, sequence)
  }

  // ----- transactions

  datatype Txn = Txn(writes: seq<Write>, revoked: seq<nat>)
  {
    /** Put a record in front. */
    function Prepend(record: Record): Txn {
      match record
      case Descriptor(ws) => Txn(ws + writes, revoked)
      case Revocation(bs) => Txn(writes, bs + revoked)
      case Commit => this
    }
  }

  /** Why reading stops: nothing more to read, a corrupt block that is taken
      for the end, or an error to report. */
  datatype Stop = EndOfLog | Damaged | Fatal(error: Error)

  datatype TxnReading = Complete(txn: Txn, used: nat) | Unfinished(stop: Stop)
  {
    /** What was read, with a record in front. */
    function After(record: Record): TxnReading {
      if Unfinished? then this else Complete(txn.Prepend(record), record.Len() + used)
    }
  }

  function StopOf(error: Error): Stop {
    if error.Corrupt? then Damaged else Fatal(error)
  }

  /** Read records up to and including a commit. */
  function ReadTxn(rd: Reader, log: Stream<nat>, sequence: nat): (r: TxnReading)
    requires Bounded(rd)
    ensures r.Complete? ==> 0 < r.used <= |log.items|
    decreases |log.items|
  {
    if log.items == [] then
      Unfinished(if log.err.Some? then Fatal(log.err.value) else EndOfLog)
    else match rd(log, sequence)
      case End => Unfinished(EndOfLog)
      case Fault(e) => Unfinished(StopOf(e))
      case Rec(Commit) => Complete(Txn([], []), 1)
      case Rec(record) =>
        ReadTxn(rd, log.Skip(record.Len()), sequence).After(record)
  }

  /** A way to read the transaction with a given number from the front of a
      log. */
  type TxnReader = (Stream<nat>, nat) -> TxnReading

  ghost predicate Progresses(rt: TxnReader) {
    forall log: Stream<nat>, sequence: nat :: rt(log, sequence).Complete? ==>
                                                0 < rt(log, sequence).used <= |log.items|
  }

  function Txns(rd: Reader): (rt: TxnReader)
    requires Bounded(rd)
    ensures Progresses(rt)
  {
    (log: Stream<nat>, sequence: nat) => ReadTxn(rd, log, sequence)
  }

  // ----- logs

  function Shifted(ends: seq<nat>, used: nat): (r: seq<nat>)
    ensures |r| == |ends|
    ensures forall i :: 0 <= i < |ends| ==> r[i] == used + ends[i]
  {
    if ends == [] then [] else [used + ends[0]] + Shifted(ends[1..], used)
  }

  /** The complete transactions of a log, where each one ends, and why there
      are no more. */
  datatype Log = Log(txns: seq<Txn>, ends: seq<nat>, stop: Stop)
  {
    function After(txn: Txn, used: nat): Log {
      Log([txn] + txns, [used] + Shifted(ends, used), stop)
    }
  }

  /** Read the transactions numbered `sequence`, `sequence + 1`, and so on. */
  function ReadLog(rt: TxnReader, log: Stream<nat>, sequence: nat): (r: Log)
    requires Progresses(rt)
    ensures |r.ends| == |r.txns|
    decreases |log.items|
  {
    match rt(log, sequence)
    case Unfinished(stop) => Log([], [], stop)
    case Complete(txn, used) =>
      if sequence + 1 >= U32_LIMIT then Log([txn], [used], Damaged)
      else ReadLog(rt, log.Skip(used), sequence + 1).After(txn, used)
  }

  /** The transactions of the journal described by `env`. */
  function JournalLog(env: Env, log: Stream<nat>, sequence: nat): (r: Log)
    ensures |r.ends| == |r.txns|
  {
    ReadLog(Txns(Records(env)), log, sequence)
  }

  // ----- effects

  /** Where the journal keeps the newest copy of each block it has. */
  type JournalMap = map<nat, nat>

  function ApplyWrites(m: JournalMap, writes: seq<Write>): JournalMap
    decreases |writes|
  {
    if writes == [] then m
    else ApplyWrites(m[writes[0].block := writes[0].copy], writes[1..])
  }

  function ToSet(s: seq<nat>): set<nat> {
    set b | b in s
  }

  /** What a transaction contributes: its writes, the later ones winning, but
      not to the blocks it revokes itself. */
  function Effect(txn: Txn): JournalMap {
    ApplyWrites(map[], txn.writes) - ToSet(txn.revoked)
  }

  function Overlay(m: JournalMap, txns: seq<Txn>): JournalMap
    decreases |txns|
  {
    if txns == [] then m else Overlay(m + Effect(txns[0]), txns[1..])
  }

  /** The block map that a journal stands for, or the error to report. */
  function Replay(env: Env, log: Stream<nat>, sequence: nat): Result<JournalMap> {
    var l := JournalLog(env, log, sequence);
    if l.stop.Fatal? then Err(l.stop.error) else Ok(Overlay(map[], l.txns))
  }

  // ----- what an overlay contains

  lemma {:induction false} ApplyWritesAt(m: JournalMap, writes: seq<Write>, b: nat)
    ensures b in ApplyWrites(m, writes) <==>
            b in m || exists i :: 0 <= i < |writes| && writes[i].block == b
    ensures (forall i :: 0 <= i < |writes| ==> writes[i].block != b) && b in m ==>
              ApplyWrites(m, writes)[b] == m[b]
    decreases |writes|
  {
    if writes != [] {
      var m' := m[writes[0].block := writes[0].copy];
      ApplyWritesAt(m', writes[1..], b);
      assert forall i :: 0 <= i < |writes[1..]| ==> writes[1..][i] == writes[i + 1];
      if i :| 0 <= i < |writes| && writes[i].block == b {
        if i > 0 {
          assert writes[1..][i - 1].block == b;
        }
      }
    }
  }

  lemma {:induction false} LastWriteWins(m: JournalMap, writes: seq<Write>, k: nat)
    requires k < |writes|
    requires forall i :: k < i < |writes| ==> writes[i].block != writes[k].block
    ensures var r := ApplyWrites(m, writes);
            writes[k].block in r && r[writes[k].block] == writes[k].copy
    decreases |writes|
  {
    var m' := m[writes[0].block := writes[0].copy];
    if k == 0 {
      ApplyWritesAt(m', writes[1..], writes[0].block);
    } else {
      LastWriteWins(m', writes[1..], k - 1);
    }
  }

  /** A transaction maps exactly the blocks it writes and does not revoke, each
      to the copy of its last write. */
  lemma EffectAt(txn: Txn, b: nat)
    ensures b in Effect(txn) <==>
            b !in txn.revoked && exists i :: 0 <= i < |txn.writes| && txn.writes[i].block == b
    ensures forall k ::
              && 0 <= k < |txn.writes| && txn.writes[k].block == b && b !in txn.revoked
              && (forall i :: k < i < |txn.writes| ==> txn.writes[i].block != b)
              ==> b in Effect(txn) && Effect(txn)[b] == txn.writes[k].copy
  {
    ApplyWritesAt(map[], txn.writes, b);
    forall k |
      && 0 <= k < |txn.writes| && txn.writes[k].block == b && b !in txn.revoked
      && (forall i :: k < i < |txn.writes| ==> txn.writes[i].block != b)
      ensures b in Effect(txn) && Effect(txn)[b] == txn.writes[k].copy
    {
      LastWriteWins(map[], txn.writes, k);
    }
  }

  lemma {:induction false} OverlayUnchangedAt(m: JournalMap, txns: seq<Txn>, b: nat)
    requires forall i :: 0 <= i < |txns| ==> b !in Effect(txns[i])
    ensures b in Overlay(m, txns) <==> b in m
    ensures b in m ==> Overlay(m, txns)[b] == m[b]
    decreases |txns|
  {
    if txns != [] {
      assert b !in Effect(txns[0]);
      OverlayUnchangedAt(m + Effect(txns[0]), txns[1..], b);
    }
  }

  /** The last transaction that maps a block decides, and only transactions
      map blocks. A revocation has no effect on earlier transactions. */
  lemma {:induction false} OverlayAt(m: JournalMap, txns: seq<Txn>, k: nat, b: nat)
    requires k < |txns| && b in Effect(txns[k])
    requires forall i :: k < i < |txns| ==> b !in Effect(txns[i])
    ensures b in Overlay(m, txns) && Overlay(m, txns)[b] == Effect(txns[k])[b]
    decreases |txns|
  {
    if k == 0 {
      OverlayUnchangedAt(m + Effect(txns[0]), txns[1..], b);
    } else {
      OverlayAt(m + Effect(txns[0]), txns[1..], k - 1, b);
    }
  }
}
