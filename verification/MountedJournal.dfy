// What the journal means for the reads after it is loaded: a block reads as the
// copy that the last complete transaction writing it left in the journal, and
// other blocks read as before.

module MountedJournal {
  import opened Basics
  import BlockRead
  import opened JournalEnds
  import opened JournalProps
  import opened JournalSpec
  import opened MountedFile

  /** The journal is loaded from the same device, before there is a block map. */
  ghost predicate LoadsFrom(env: Env, v: Volume) {
    forall b :: env.read(b) == Mount(v, map[]).read(b, 0, v.blockSize)
  }

  /** Write `j` of transaction `k` is the last one that the journal has of its block. */
  ghost predicate IsNewest(txns: seq<Txn>, k: nat, j: nat) {
    && k < |txns| && j < |txns[k].writes|
    && var b := txns[k].writes[j].block;
       && b !in txns[k].revoked
       && (forall i :: j < i < |txns[k].writes| ==> txns[k].writes[i].block != b)
       && (forall i :: k < i < |txns| ==> Untouched(txns[i], b))
  }

  /** The transaction does not write the block, or revokes it as well. */
  ghost predicate Untouched(txn: Txn, b: nat) {
    b in txn.revoked || forall i :: 0 <= i < |txn.writes| ==> txn.writes[i].block != b
  }

  lemma NewestIsMapped(txns: seq<Txn>, k: nat, j: nat)
    requires IsNewest(txns, k, j)
    ensures var w := txns[k].writes[j]; w.block in Overlay(map[], txns) && Overlay(map[], txns)[w.block] == w.copy
  {
    var b := txns[k].writes[j].block;
    EffectAt(txns[k], b);
    forall i | k < i < |txns|
      ensures b !in Effect(txns[i])
    {
      assert Untouched(txns[i], b);
      EffectAt(txns[i], b);
    }
    OverlayAt(map[], txns, k, b);
  }

  /** A block reads as the block that the map leads to reads without it. */
  lemma MappedReads(v: Volume, journal: JournalMap, block: nat, b: nat)
    requires BlockRead.StandsFor(journal, block, b)
    ensures Mount(v, journal).read(block, 0, v.blockSize) == Mount(v, map[]).read(b, 0, v.blockSize)
  {
    BlockRead.DirectReadIs(v.device, v.blockSize, v.blocksCount, journal, block, b, 0, v.blockSize);
    BlockRead.DirectReadIs(v.device, v.blockSize, v.blocksCount, map[], b, b, 0, v.blockSize);
  }

  /** After the journal is loaded, a block that a complete transaction wrote last reads
      as the copy which that transaction has in the journal. */
  lemma CommittedBlockReads(env: Env, v: Volume, layout: Layout, sequence: nat, k: nat, j: nat)
    requires layout.Valid(RecordShape(env), sequence) && layout.Number(sequence) < U32_LIMIT
    requires EndsQuietly(env, layout.rest, layout.Number(sequence)) && LoadsFrom(env, v)
    requires IsNewest(TxnsOf(layout.bodies), k, j)
    ensures var w, r := TxnsOf(layout.bodies)[k].writes[j], Replay(env, layout.Blocks(), sequence);
            r.Ok? && Mount(v, r.value).read(w.block, 0, v.blockSize) == env.read(w.copy)
  {
    QuietJournalIsReplayed(env, layout, sequence);
    NewestIsMapped(TxnsOf(layout.bodies), k, j);
    var w := TxnsOf(layout.bodies)[k].writes[j];
    MappedReads(v, Overlay(map[], TxnsOf(layout.bodies)), w.block, w.copy);
  }

  /** A block that no complete transaction writes reads as before. */
  lemma OtherBlockReads(env: Env, v: Volume, layout: Layout, sequence: nat, block: nat)
    requires layout.Valid(RecordShape(env), sequence) && layout.Number(sequence) < U32_LIMIT
    requires EndsQuietly(env, layout.rest, layout.Number(sequence)) && LoadsFrom(env, v)
    requires forall i :: 0 <= i < |TxnsOf(layout.bodies)| ==> Untouched(TxnsOf(layout.bodies)[i], block)
    ensures var r := Replay(env, layout.Blocks(), sequence);
            r.Ok? && Mount(v, r.value).read(block, 0, v.blockSize) == env.read(block)
  {
    QuietJournalIsReplayed(env, layout, sequence);
    var txns := TxnsOf(layout.bodies);
    forall i | 0 <= i < |txns|
      ensures block !in Effect(txns[i])
    {
      EffectAt(txns[i], block);
    }
    OverlayUnchangedAt(map[], txns, block);
    MappedReads(v, Overlay(map[], txns), block, block);
  }
}
