// Finding one block of a file (src/dir_htree.rs): a search through the extents,
// or a walk through the block map, which must agree with the block iterators.

module BlockLookup {
  import opened Basics
  import opened ExtentTree
  import opened ExtentWalk
  import opened ExtentBlocks
  import BlockMapIter
  import BlockMapProps

  // ----- files with extents

  /** The first extent that covers the block. An extent whose end does not fit in
      32 bits stops the search. */
  ghost function FindExtent(exts: Stream<Extent>, block: nat): Result<Extent>
    decreases |exts.items|
  {
    if exts.items == [] then Err(if exts.err.Some? then exts.err.value else Corrupt)
    else
      var e := exts.items[0];
      if e.blockWithinFile + e.numBlocks >= U32_LIMIT then Err(Corrupt)
      else if Covers(e, block) then Ok(e)
      else FindExtent(exts.Skip(1), block)
  }

  /** The search stops at one of the extents: it covers the block, or its end does not
      fit in 32 bits. */
  predicate StopsAt(exts: seq<Extent>, block: nat) {
    exts != [] &&
    (|| Covers(exts[0], block) || exts[0].blockWithinFile + exts[0].numBlocks >= U32_LIMIT
     || StopsAt(exts[1..], block))
  }

  /** Part of a walk that decides the search. */
  ghost predicate Settles(p: Partial, block: nat) {
    p.over || StopsAt(p.extents.items, block)
  }

  /** The walk of the tree gets to an extent that stops the search, or to its end. */
  ghost predicate SearchEnds(fs: Fs, root: Item, block: nat)
    requires fs.Valid()
  {
    exists n: nat :: Settles(WalkFor(fs, root, n), block)
  }

  /** What the search for a block finds. */
  ghost function SearchFor(fs: Fs, root: Item, block: nat): Result<Extent>
    requires fs.Valid() && SearchEnds(fs, root, block)
  {
    var n: nat :| Settles(WalkFor(fs, root, n), block);
    FindExtent(WalkFor(fs, root, n).extents, block)
  }

  lemma {:induction false} FindInMore(a: Stream<Extent>, b: Stream<Extent>, block: nat)
    requires StopsAt(a.items, block) && a.items <= b.items
    ensures FindExtent(a, block) == FindExtent(b, block)
    decreases |a.items|
  {
    assert b.items[0] == a.items[0] && a.items[1..] <= b.items[1..];
    if StopsAt(a.items[1..], block) {
      FindInMore(a.Skip(1), b.Skip(1), block);
    }
  }

  lemma FindInLonger(fs: Fs, root: Item, n: nat, m: nat, block: nat)
    requires fs.Valid() && n <= m && Settles(WalkFor(fs, root, n), block)
    ensures FindExtent(WalkFor(fs, root, n).extents, block) == FindExtent(WalkFor(fs, root, m).extents, block)
  {
    RunExtends(Visits(fs), [root], n, m);
    if !WalkFor(fs, root, n).over {
      FindInMore(WalkFor(fs, root, n).extents, WalkFor(fs, root, m).extents, block);
    }
  }

  /** However far the tree is walked, if that decides the search, the result is the same. */
  lemma SearchForWalk(fs: Fs, root: Item, block: nat, n: nat)
    requires fs.Valid() && Settles(WalkFor(fs, root, n), block)
    ensures SearchEnds(fs, root, block)
    ensures SearchFor(fs, root, block) == FindExtent(WalkFor(fs, root, n).extents, block)
  {
    var m: nat :| Settles(WalkFor(fs, root, m), block)
                  && SearchFor(fs, root, block) == FindExtent(WalkFor(fs, root, m).extents, block);
    if n <= m {
      FindInLonger(fs, root, n, m, block);
    } else {
      FindInLonger(fs, root, m, n, block);
    }
  }

  /** The search in a file whose tree is finite. */
  lemma SearchForFinite(fs: Fs, root: Item, block: nat)
    requires fs.Valid() && Finite(fs, root)
    ensures SearchEnds(fs, root, block)
    ensures SearchFor(fs, root, block) == FindExtent(Flatten(fs, root), block)
  {
    var n := WalkOfFinite(fs, root);
    SearchForWalk(fs, root, block, n);
  }

  /** Whatever the extents are, the first one that stops the search decides it, and if
      there is none, the error of the walk or the missing block does. */
  lemma {:induction false} SearchFinds(exts: Stream<Extent>, block: nat, k: nat)
    requires k <= |exts.items| && !StopsAt(exts.items[..k], block)
    ensures k == |exts.items| ==> FindExtent(exts, block) == Err(if exts.err.Some? then exts.err.value else Corrupt)
    ensures k < |exts.items| && exts.items[k].blockWithinFile + exts.items[k].numBlocks >= 0x1_0000_0000 ==>
              FindExtent(exts, block) == Err(Corrupt)
    ensures k < |exts.items| && exts.items[k].blockWithinFile + exts.items[k].numBlocks < 0x1_0000_0000 &&
            exts.items[k].blockWithinFile <= block < exts.items[k].blockWithinFile + exts.items[k].numBlocks ==>
              FindExtent(exts, block) == Ok(exts.items[k])
    decreases k
  {
    if k > 0 {
      assert exts.items[..k][1..] == exts.items[1..][..k - 1];
      SearchFinds(exts.Skip(1), block, k - 1);
    }
  }

  /** What one call of the extent iterator means for the search. */
  lemma SearchStep(before: Stream<Extent>, over: bool, e: Extent, after: Stream<Extent>, block: nat)
    requires Yielded(before, Some(Ok(e)), after) && Settles(Partial(before, over), block)
    requires !Covers(e, block) && e.blockWithinFile + e.numBlocks < U32_LIMIT
    ensures Settles(Partial(after, over), block) && FindExtent(before, block) == FindExtent(after, block)
  {
    assert before.Skip(1) == after && before.items[1..] == after.items;
  }

  /** `find_extent_for_block`, on the root node stored in the inode. */
  method FindExtentForBlock(fs: Fs, inlineData: Bytes, block: nat) returns (r: Result<Extent>)
    requires fs.Valid() && (NewItem(inlineData).Ok? ==> SearchEnds(fs, NewItem(inlineData).value, block))
    ensures NewItem(inlineData).Err? ==> r == Err(NewItem(inlineData).error)
    ensures NewItem(inlineData).Ok? ==> r == SearchFor(fs, NewItem(inlineData).value, block)
  {
    var root := NewItem(inlineData);
    if root.Err? {
      return Err(root.error);
    }
    ghost var n: nat :| Settles(WalkFor(fs, root.value, n), block);
    SearchForWalk(fs, root.value, block, n);
    var extents := new Extents(fs, root.value, n);
    r := SearchExtents(extents, block);
  }

  /** The loop of `find_extent_for_block`. */
  method SearchExtents(extents: Extents, block: nat) returns (r: Result<Extent>)
    requires extents.Valid() && Settles(Partial(extents.rest, extents.over), block)
    modifies extents
    ensures r == FindExtent(old(extents.rest), block)
  {
    while true
      invariant extents.Valid() && Settles(Partial(extents.rest, extents.over), block)
      invariant FindExtent(extents.rest, block) == FindExtent(old(extents.rest), block)
      decreases |extents.rest.items|
    {
      ghost var before, over := extents.rest, extents.over;
      var next := extents.Next();
      if next.None? {
        return Err(Corrupt);
      }
      if next.value.Err? {
        return Err(next.value.error);
      }
      var extent := next.value.value;
      var start, end := extent.blockWithinFile, extent.blockWithinFile + extent.numBlocks;
      if end >= U32_LIMIT {
        return Err(Corrupt);
      }
      if block >= start && block < end {
        return Ok(extent);
      }
      SearchStep(before, over, extent, extents.rest, block);
    }
  }

  /** Where a block of an extent is on disk. */
  function BlockInExtent(e: Extent, block: nat): Result<nat> {
    if block < e.blockWithinFile then Err(Corrupt)
    else if e.startBlock + (block - e.blockWithinFile) >= U64_LIMIT then Err(Corrupt)
    else Ok(e.startBlock + (block - e.blockWithinFile))
  }

  /** Where a block is that lies in the extent found. */
  function BlockFound(found: Result<Extent>, block: nat): Result<nat> {
    var e :- found;
    BlockInExtent(e, block)
  }

  /** Where a block of a file with extents is on disk. */
  ghost function ExtentBlock(exts: Stream<Extent>, block: nat): Result<nat> {
    BlockFound(FindExtent(exts, block), block)
  }

  /** `block_from_file_block` for a file with extents. */
  method BlockFromExtents(fs: Fs, inlineData: Bytes, block: nat) returns (r: Result<nat>)
    requires fs.Valid() && (NewItem(inlineData).Ok? ==> SearchEnds(fs, NewItem(inlineData).value, block))
    ensures NewItem(inlineData).Err? ==> r == Err(NewItem(inlineData).error)
    ensures NewItem(inlineData).Ok? ==> r == BlockFound(SearchFor(fs, NewItem(inlineData).value, block), block)
  {
    var extent := FindExtentForBlock(fs, inlineData, block);
    return BlockFound(extent, block);
  }

  /** Some extent whose end fits in 32 bits covers the block. */
  ghost predicate Reachable(exts: seq<Extent>, block: nat) {
    exists k :: 0 <= k < |exts| && Covers(exts[k], block)
                && exts[k].blockWithinFile + exts[k].numBlocks < U32_LIMIT
  }

  lemma ReachableRest(exts: seq<Extent>, block: nat)
    requires exts != [] && !(Covers(exts[0], block) && exts[0].blockWithinFile + exts[0].numBlocks < U32_LIMIT)
    ensures Reachable(exts, block) <==> Reachable(exts[1..], block)
  {
    if Reachable(exts, block) {
      var k :| 0 <= k < |exts| && Covers(exts[k], block)
               && exts[k].blockWithinFile + exts[k].numBlocks < U32_LIMIT;
      assert exts[1..][k - 1] == exts[k];
    }
    if Reachable(exts[1..], block) {
      var k :| 0 <= k < |exts[1..]| && Covers(exts[1..][k], block)
               && exts[1..][k].blockWithinFile + exts[1..][k].numBlocks < U32_LIMIT;
      assert exts[k + 1] == exts[1..][k];
    }
  }

  lemma SecondIsAfter(exts: seq<Extent>, pos: nat)
    requires SortedFrom(exts, pos) && |exts| > 1
    ensures exts[0].blockWithinFile + exts[0].numBlocks <= exts[1].blockWithinFile
  {
    assert exts[1..][0] == exts[1];
  }

  /** An extent that does not fit in 32 bits is the last one. */
  lemma OverflowIsLast(exts: seq<Extent>, pos: nat)
    requires SortedFrom(exts, pos) && AllInRange(exts) && exts != []
    requires exts[0].blockWithinFile + exts[0].numBlocks >= U32_LIMIT
    ensures |exts| == 1
  {
    if |exts| > 1 {
      SecondIsAfter(exts, pos);
    }
  }

  lemma {:induction false} SearchIsBlockAt(exts: Stream<Extent>, pos: nat, block: nat)
    requires exts.err.None? && SortedFrom(exts.items, pos) && AllInRange(exts.items)
    ensures ExtentBlock(exts, block) ==
            if Reachable(exts.items, block) then Ok(BlockAt(exts.items, block)) else Err(Corrupt)
    decreases |exts.items|
  {
    if exts.items != [] {
      var e := exts.items[0];
      var end := e.blockWithinFile + e.numBlocks;
      assert InRange(e);
      if end >= U32_LIMIT {
        OverflowIsLast(exts.items, pos);
      } else if !Covers(e, block) {
        ReachableRest(exts.items, block);
        SearchIsBlockAt(exts.Skip(1), end, block);
      }
    }
  }

  /** For extents in file order the search finds the block that the iterator
      yields at the same position, exactly where an extent covers it whose end fits
      in 32 bits; everywhere else, and at every hole, it is an error. */
  lemma SearchAgrees(exts: Stream<Extent>, total: nat, i: nat)
    requires exts.err.None? && Sorted(exts.items) && AllInRange(exts.items) && i < total
    ensures |Emit(exts, 0, total).items| == total
    ensures ExtentBlock(exts, i) ==
            if Reachable(exts.items, i) then Ok(Emit(exts, 0, total).items[i]) else Err(Corrupt)
  {
    SortedIsSortedFrom(exts.items, 0);
    SearchIsBlockAt(exts, 0, i);
    BlocksAreMapped(exts, total, i);
  }

  // ----- files with a block map

  /** `Iterator::nth` after which the end of the iterator is an error: skipped
      errors are dropped, and an iterator that failed has ended. */
  function Nth(s: Stream<nat>, n: nat): Result<nat> {
    if n < |s.items| then Ok(s.items[n])
    else if n == |s.items| && s.err.Some? then Err(s.err.value)
    else Err(Corrupt)
  }

  lemma NthAfterNext(before: Stream<nat>, r: Option<Result<nat>>, after: Stream<nat>, n: nat)
    requires Yielded(before, r, after)
    ensures Nth(before, n + 1) == Nth(after, n)
  {
  }

  /** `block_from_file_block` for a file with a block map. */
  method BlockFromMap(env: BlockMapIter.Env, root: BlockMapIter.Root, total: nat, block: nat) returns (r: Result<nat>)
    requires env.Valid() && total < U32_LIMIT
    ensures r == Nth(BlockMapIter.FileBlocks(env, root, total), block)
  {
    var blocks := new BlockMapIter.BlockMap(env, root, total);
    ghost var goal := Nth(blocks.Rest(), block);
    var n: nat := block;
    while n > 0
      invariant n <= block && blocks.Valid() && fresh(blocks.repr)
      invariant Nth(blocks.Rest(), n) == goal
    {
      ghost var before := blocks.Rest();
      var skipped := blocks.Next();
      n := n - 1;
      NthAfterNext(before, skipped, blocks.Rest(), n);
    }
    var next := blocks.Next();
    return if next.None? then Err(Corrupt) else next.value;
  }

  lemma {:induction false} NthCollected(rs: seq<Result<nat>>, n: nat)
    ensures n < |rs| && (forall i :: 0 <= i < n ==> rs[i].Ok?) ==> Nth(BlockMapProps.Collect(rs), n) == rs[n]
    ensures n >= |rs| || (exists i :: 0 <= i < n && rs[i].Err?) ==>
              Nth(BlockMapProps.Collect(rs), n) == Err(Corrupt)
    decreases |rs|
  {
    if rs != [] && rs[0].Ok? && n > 0 {
      NthCollected(rs[1..], n - 1);
      if i :| 0 <= i < n && i < |rs| && rs[i].Err? {
        assert rs[1..][i - 1].Err?;
      }
    }
  }

  /** The first `n` entries of the map can be looked up. */
  ghost predicate EntriesBefore(env: BlockMapIter.Env, root: BlockMapIter.Root, n: nat)
    requires env.Valid() && n <= BlockMapProps.Capacity(env)
  {
    forall i :: 0 <= i < n ==> BlockMapProps.Entry(env, root, i).Ok?
  }

  /** The block found is the textbook entry, if the file has it and the entries before
      it can be looked up; everything else is an error. */
  lemma NthIsEntry(env: BlockMapIter.Env, root: BlockMapIter.Root, total: nat, n: nat)
    requires env.Valid()
    ensures Nth(BlockMapIter.FileBlocks(env, root, total), n) ==
            if n < Min(total, BlockMapProps.Capacity(env)) && EntriesBefore(env, root, n)
            then BlockMapProps.Entry(env, root, n) else Err(Corrupt)
  {
    var count := Min(total, BlockMapProps.Capacity(env));
    BlockMapProps.FileBlocksAreEntries(env, root, total);
    NthCollected(BlockMapProps.Entries(env, root, count), n);
  }
}
