// Nodes of an htree as they are written to disk, and what a lookup in one finds.

module HtreeFormat {
  import opened Basics
  import opened ByteReaders
  import opened Htree

  /** An entry of a node after the first one. */
  datatype TreeEntry = TreeEntry(hash: nat, block: nat)
  {
    predicate Valid() {
      hash < U32_LIMIT && block < U32_LIMIT
    }
  }

  predicate AllValid(es: seq<TreeEntry>) {
    forall i :: 0 <= i < |es| ==> es[i].Valid()
  }

  function EncodeEntry(e: TreeEntry): (r: Bytes)
    requires e.Valid()
    ensures |r| == ENTRY_SIZE
  {
    PutU32le(e.hash) + PutU32le(e.block)
  }

  function EncodeEntries(es: seq<TreeEntry>): (r: Bytes)
    requires AllValid(es)
    ensures |r| == ENTRY_SIZE * |es|
  {
    if es == [] then [] else EncodeEntry(es[0]) + EncodeEntries(es[1..])
  }

  /** A node: the limit, the count, the block for the lowest hashes, and the others. */
  function EncodeNode(limit: nat, first: nat, es: seq<TreeEntry>): (r: Bytes)
    requires limit < U16_LIMIT && first < U32_LIMIT && AllValid(es) && |es| + 1 < U16_LIMIT
    ensures |r| == ENTRY_SIZE * (|es| + 1)
  {
    PutU16le(limit) + PutU16le(|es| + 1) + PutU32le(first) + EncodeEntries(es)
  }

  lemma FirstReads(done: Bytes, e: TreeEntry, rest: Bytes)
    requires e.Valid()
    ensures var s := done + (EncodeEntry(e) + rest);
            U32le(s, |done|) == e.hash && U32le(s, |done| + 4) == e.block
  {
    var s := done + (EncodeEntry(e) + rest);
    assert s[|done|..|done| + 4] == PutU32le(e.hash);
    U32leAt(s, |done|, PutU32le(e.hash));
    assert s[|done| + 4..|done| + 4 + 4] == PutU32le(e.block);
    U32leAt(s, |done| + 4, PutU32le(e.block));
  }

  lemma {:induction false} EntryReads(done: Bytes, es: seq<TreeEntry>, i: nat)
    requires AllValid(es) && i < |es|
    ensures var s, k := done + EncodeEntries(es), |done| + ENTRY_SIZE * i;
            U32le(s, k) == es[i].hash && U32le(s, k + 4) == es[i].block
    decreases |es|
  {
    var first, rest := EncodeEntry(es[0]), EncodeEntries(es[1..]);
    if i == 0 {
      FirstReads(done, es[0], rest);
    } else {
      EntryReads(done + first, es[1..], i - 1);
      assert done + first + rest == done + (first + rest);
    }
  }

  function HashesOf(es: seq<TreeEntry>): (hs: seq<nat>)
    ensures |hs| == |es| + 1 && hs[0] == 0
  {
    [0] + seq(|es|, i requires 0 <= i < |es| => es[i].hash)
  }

  /** Where entry `i` leads. */
  function BlockOf(first: nat, es: seq<TreeEntry>, i: nat): nat
    requires i <= |es|
  {
    if i == 0 then first else es[i - 1].block
  }

  lemma HeaderReads(limit: nat, first: nat, es: seq<TreeEntry>, rest: Bytes)
    requires limit < U16_LIMIT && first < U32_LIMIT && AllValid(es) && |es| + 1 < U16_LIMIT
    ensures var s := EncodeNode(limit, first, es) + rest;
            U16le(s, 2) == |es| + 1 && U32le(s, 4) == first
  {
    var s := EncodeNode(limit, first, es) + rest;
    var count := PutU16le(|es| + 1);
    assert s[2] == count[0] && s[3] == count[1];
    assert s[4..4 + 4] == PutU32le(first);
    U32leAt(s, 4, PutU32le(first));
  }

  lemma EntryRoundTrip(limit: nat, first: nat, es: seq<TreeEntry>, i: nat)
    requires limit < U16_LIMIT && first < U32_LIMIT && AllValid(es) && |es| + 1 < U16_LIMIT && i <= |es|
    ensures var node := EncodeNode(limit, first, es);
            HashAt(node, i) == HashesOf(es)[i] && BlockAt(node, i) == BlockOf(first, es, i)
  {
    if i == 0 {
      var node := EncodeNode(limit, first, es);
      HeaderReads(limit, first, es, []);
      assert node + [] == node;
    } else {
      EntryReads(PutU16le(limit) + PutU16le(|es| + 1) + PutU32le(first), es, i - 1);
    }
  }

  /** A written node is read back, whatever follows it: as many entries as it counts,
      with their hashes and blocks. */
  lemma NodeRoundTrip(limit: nat, first: nat, es: seq<TreeEntry>, rest: Bytes)
    requires limit < U16_LIMIT && first < U32_LIMIT && AllValid(es) && |es| + 1 < U16_LIMIT
    ensures var r := NewNode(EncodeNode(limit, first, es) + rest);
            && r.Ok? && r.value == EncodeNode(limit, first, es) && Hashes(r.value) == HashesOf(es)
            && forall i :: 0 <= i <= |es| ==> BlockAt(r.value, i) == BlockOf(first, es, i)
  {
    CountedBytes(limit, first, es, rest);
    EntriesRoundTrip(limit, first, es);
  }

  lemma CountedBytes(limit: nat, first: nat, es: seq<TreeEntry>, rest: Bytes)
    requires limit < U16_LIMIT && first < U32_LIMIT && AllValid(es) && |es| + 1 < U16_LIMIT
    ensures NewNode(EncodeNode(limit, first, es) + rest) == Ok(EncodeNode(limit, first, es))
  {
    var node := EncodeNode(limit, first, es);
    HeaderReads(limit, first, es, rest);
    assert (node + rest)[..|node|] == node;
  }

  lemma EntriesRoundTrip(limit: nat, first: nat, es: seq<TreeEntry>)
    requires limit < U16_LIMIT && first < U32_LIMIT && AllValid(es) && |es| + 1 < U16_LIMIT
    ensures var node := EncodeNode(limit, first, es);
            && Hashes(node) == HashesOf(es)
            && forall i :: 0 <= i <= |es| ==> BlockAt(node, i) == BlockOf(first, es, i)
  {
    var node := EncodeNode(limit, first, es);
    forall i | 0 <= i <= |es|
      ensures HashAt(node, i) == HashesOf(es)[i] && BlockAt(node, i) == BlockOf(first, es, i)
    {
      EntryRoundTrip(limit, first, es, i);
    }
  }

  /** A lookup in a written node whose hashes are sorted leads to the block of the
      last entry that is at most the hash. */
  lemma LookupInWritten(limit: nat, first: nat, es: seq<TreeEntry>, hash: nat)
    requires limit < U16_LIMIT && first < U32_LIMIT && AllValid(es) && |es| + 1 < U16_LIMIT
    requires Sorted(HashesOf(es))
    ensures Child(EncodeNode(limit, first, es), hash) ==
            Ok(BlockOf(first, es, LastAtMost(HashesOf(es), hash)))
  {
    var node := EncodeNode(limit, first, es);
    NodeRoundTrip(limit, first, es, []);
    assert node + [] == node;
    SearchIsLast(HashesOf(es), hash);
  }
}
