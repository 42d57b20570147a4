// The blocks of a file that uses extents
// (src/iters/file_blocks/extents_blocks.rs): an iterator that fills the holes
// between extents with zeros.

module ExtentBlocks {
  import opened Basics
  import opened ExtentTree
  import opened ExtentWalk

  predicate InRange(e: Extent) {
    e.blockWithinFile < U32_LIMIT && e.startBlock < U48_LIMIT && e.numBlocks < U16_LIMIT
  }

  predicate AllInRange(exts: seq<Extent>) {
    forall i :: 0 <= i < |exts| ==> InRange(exts[i])
  }

  ghost predicate VisitsInRange(v: Visitor) {
    forall item :: v(item).Leaf? ==> InRange(v(item).extent)
  }

  /** All extents that a walk yields are in range. */
  lemma {:induction false} RunInRange(v: Visitor, stack: seq<Item>, n: nat)
    requires VisitsInRange(v)
    ensures AllInRange(RunFor(v, stack, n).extents.items)
    decreases n
  {
    if n > 0 {
      var s := StepStack(v, stack);
      if s.Moved? || s.Yielding? {
        RunInRange(v, s.stack, n - 1);
      }
    }
  }

  lemma WalkInRange(fs: Fs, root: Item, n: nat)
    requires fs.Valid()
    ensures AllInRange(WalkFor(fs, root, n).extents.items)
  {
    RunInRange(Visits(fs), [root], n);
  }

  // ----- the reference

  function Zeros(n: nat): (r: seq<nat>)
    ensures |r| == n && forall i :: 0 <= i < n ==> r[i] == 0
  {
    if n == 0 then [] else [0] + Zeros(n - 1)
  }

  /** `n` consecutive blocks. */
  function Consecutive(start: nat, n: nat): (r: seq<nat>)
    ensures |r| == n && forall i :: 0 <= i < n ==> r[i] == start + i
    decreases n
  {
    if n == 0 then [] else [start] + Consecutive(start + 1, n - 1)
  }

  /** A hole of `hole` blocks, then `len` blocks from `start` on, then the blocks
      of the extents `exts`, from position `pos` of a file of `total` blocks. */
  ghost function Remaining(hole: nat, start: nat, len: nat, exts: Stream<Extent>, pos: nat, total: nat): Stream<nat>
    requires pos <= total
    decreases |exts.items|, 1
  {
    var a := Min(hole, total - pos);
    var b := Min(len, total - pos - a);
    Stream(Zeros(a) + Consecutive(start, b), None).Then(Emit(exts, pos + a + b, total))
  }

  function HoleBefore(e: Extent, pos: nat): nat {
    if e.blockWithinFile > pos then e.blockWithinFile - pos else 0
  }

  /** The blocks of a file from position `pos` on, given the extents that have
      not been used: each one after the hole before it, then a final hole. */
  ghost function Emit(exts: Stream<Extent>, pos: nat, total: nat): Stream<nat>
    requires pos <= total
    decreases |exts.items|, 0
  {
    if pos == total then Stream([], None)
    else if exts.items == [] then
      if exts.err.Some? then Stream([], exts.err) else Stream(Zeros(total - pos), None)
    else
      var e, rest := exts.items[0], exts.Skip(1);
      var a := Min(HoleBefore(e, pos), total - pos);
      var b := Min(e.numBlocks, total - pos - a);
      Stream(Zeros(a) + Consecutive(e.startBlock, b), None).Then(Emit(rest, pos + a + b, total))
  }

  // ----- how far the tree has to be walked

  /** Where the extents end in a file that is filled up to `pos` before them. */
  function EndOf(exts: seq<Extent>, pos: nat): (end: nat)
    ensures end >= pos
    decreases |exts|
  {
    if exts == [] then pos else EndOf(exts[1..], pos + HoleBefore(exts[0], pos) + exts[0].numBlocks)
  }

  /** Part of a walk that has all extents of a file of `total` blocks. */
  ghost predicate Suffices(p: Partial, total: nat) {
    p.over || EndOf(p.extents.items, 0) >= total
  }

  /** The walk of the tree gets to the end of the file, or to its own end. */
  ghost predicate Enough(fs: Fs, root: Item, total: nat)
    requires fs.Valid()
  {
    exists n: nat :: Suffices(WalkFor(fs, root, n), total)
  }

  /** The blocks of a file of `total` blocks. */
  ghost function BlocksFor(fs: Fs, root: Item, total: nat): Stream<nat>
    requires fs.Valid() && Enough(fs, root, total)
  {
    var n: nat :| Suffices(WalkFor(fs, root, n), total);
    Emit(WalkFor(fs, root, n).extents, 0, total)
  }

  /** Extents after the end of the file do not matter. */
  lemma {:induction false} EmitOfMore(a: Stream<Extent>, b: Stream<Extent>, pos: nat, total: nat)
    requires pos <= total <= EndOf(a.items, pos) && a.items <= b.items
    ensures Emit(a, pos, total) == Emit(b, pos, total)
    decreases |a.items|
  {
    if pos < total {
      var e := a.items[0];
      var next := pos + HoleBefore(e, pos) + e.numBlocks;
      assert b.items[0] == e && a.items[1..] <= b.items[1..];
      if next < total {
        EmitOfMore(a.Skip(1), b.Skip(1), next, total);
      }
    }
  }

  lemma EmitOfLonger(fs: Fs, root: Item, n: nat, m: nat, total: nat)
    requires fs.Valid() && n <= m && Suffices(WalkFor(fs, root, n), total)
    ensures Emit(WalkFor(fs, root, n).extents, 0, total) == Emit(WalkFor(fs, root, m).extents, 0, total)
  {
    RunExtends(Visits(fs), [root], n, m);
    if !WalkFor(fs, root, n).over {
      EmitOfMore(WalkFor(fs, root, n).extents, WalkFor(fs, root, m).extents, 0, total);
    }
  }

  /** However far the tree is walked, if that is enough, the blocks are the same. */
  lemma BlocksForWalk(fs: Fs, root: Item, total: nat, n: nat)
    requires fs.Valid() && Suffices(WalkFor(fs, root, n), total)
    ensures Enough(fs, root, total)
    ensures BlocksFor(fs, root, total) == Emit(WalkFor(fs, root, n).extents, 0, total)
  {
    var m: nat :| Suffices(WalkFor(fs, root, m), total)
                  && BlocksFor(fs, root, total) == Emit(WalkFor(fs, root, m).extents, 0, total);
    if n <= m {
      EmitOfLonger(fs, root, n, m, total);
    } else {
      EmitOfLonger(fs, root, m, n, total);
    }
  }

  /** The blocks of a file whose tree is finite. */
  lemma BlocksForFinite(fs: Fs, root: Item, total: nat)
    requires fs.Valid() && Finite(fs, root)
    ensures Enough(fs, root, total)
    ensures BlocksFor(fs, root, total) == Emit(Flatten(fs, root), 0, total)
  {
    var n := WalkOfFinite(fs, root);
    BlocksForWalk(fs, root, total, n);
  }

  // ----- what the reference means

  /** The iterator yields exactly as many blocks as the file has, unless it meets an
      error before. */
  lemma {:induction false} EmitEnds(exts: Stream<Extent>, pos: nat, total: nat)
    requires pos <= total
    ensures |Emit(exts, pos, total).items| <= total - pos
    ensures Emit(exts, pos, total).err.None? <==> |Emit(exts, pos, total).items| == total - pos
    decreases |exts.items|
  {
    if pos < total && exts.items != [] {
      var e := exts.items[0];
      var a := Min(HoleBefore(e, pos), total - pos);
      var b := Min(e.numBlocks, total - pos - a);
      EmitEnds(exts.Skip(1), pos + a + b, total);
    }
  }

  lemma {:induction false} EmitCounts(exts: Stream<Extent>, pos: nat, total: nat)
    requires pos <= total && exts.err.None?
    ensures Emit(exts, pos, total).err.None? && |Emit(exts, pos, total).items| == total - pos
    decreases |exts.items|
  {
    if pos < total && exts.items != [] {
      var e := exts.items[0];
      var a := Min(HoleBefore(e, pos), total - pos);
      var b := Min(e.numBlocks, total - pos - a);
      EmitCounts(exts.Skip(1), pos + a + b, total);
    }
  }

  /** For every finite list of extents, in any order and overlapping or not, the
      iterator yields exactly as many blocks as the file has. */
  lemma BlockCount(exts: Stream<Extent>, total: nat)
    requires exts.err.None?
    ensures Emit(exts, 0, total).err.None? && |Emit(exts, 0, total).items| == total
  {
    EmitCounts(exts, 0, total);
  }

  /** Extents in file order that do not overlap. */
  ghost predicate Sorted(exts: seq<Extent>) {
    forall i, j :: 0 <= i < j < |exts| ==>
                     exts[i].blockWithinFile + exts[i].numBlocks <= exts[j].blockWithinFile
  }

  predicate Covers(e: Extent, i: nat) {
    e.blockWithinFile <= i < e.blockWithinFile + e.numBlocks
  }

  /** Block `i` of the file: the extent that covers it says where it is; zero
      stands for a hole. */
  function BlockAt(exts: seq<Extent>, i: nat): nat {
    if exts == [] then 0
    else if Covers(exts[0], i) then exts[0].startBlock + (i - exts[0].blockWithinFile)
    else BlockAt(exts[1..], i)
  }

  /** Sorted, and none of the extents starts before `pos`. */
  ghost predicate SortedFrom(exts: seq<Extent>, pos: nat) {
    exts == [] || (pos <= exts[0].blockWithinFile
                   && SortedFrom(exts[1..], exts[0].blockWithinFile + exts[0].numBlocks))
  }

  lemma {:induction false} SortedIsSortedFrom(exts: seq<Extent>, pos: nat)
    requires Sorted(exts) && (exts != [] ==> pos <= exts[0].blockWithinFile)
    ensures SortedFrom(exts, pos)
    decreases |exts|
  {
    if exts != [] {
      assert forall i :: 0 <= i < |exts[1..]| ==> exts[1..][i] == exts[i + 1];
      SortedIsSortedFrom(exts[1..], exts[0].blockWithinFile + exts[0].numBlocks);
    }
  }

  lemma {:induction false} NothingBefore(exts: seq<Extent>, pos: nat, i: nat)
    requires SortedFrom(exts, pos) && i < pos
    ensures BlockAt(exts, i) == 0
    decreases |exts|
  {
    if exts != [] {
      NothingBefore(exts[1..], exts[0].blockWithinFile + exts[0].numBlocks, i);
    }
  }

  lemma IndexParts(a: nat, start: nat, b: nat, tail: seq<nat>, j: nat)
    requires j < a + b + |tail|
    ensures (Zeros(a) + Consecutive(start, b) + tail)[j] ==
            if j < a then 0 else if j < a + b then start + (j - a) else tail[j - a - b]
  {
  }

  /** The part of the file that the first extent and the hole before it fill. */
  lemma FirstExtentAt(e: Extent, pos: nat, total: nat, tail: seq<nat>, i: nat)
    requires pos <= e.blockWithinFile && pos <= i < total
    requires |tail| == total - Min(e.blockWithinFile + e.numBlocks, total)
    ensures var a := Min(e.blockWithinFile - pos, total - pos);
            var b := Min(e.numBlocks, total - pos - a);
            var items := Zeros(a) + Consecutive(e.startBlock, b) + tail;
            && |items| == total - pos && pos + a + b == Min(e.blockWithinFile + e.numBlocks, total)
            && items[i - pos] ==
               if i < e.blockWithinFile then 0
               else if Covers(e, i) then e.startBlock + (i - e.blockWithinFile)
               else tail[i - (e.blockWithinFile + e.numBlocks)]
  {
    var a := Min(e.blockWithinFile - pos, total - pos);
    var b := Min(e.numBlocks, total - pos - a);
    IndexParts(a, e.startBlock, b, tail, i - pos);
  }

  lemma EmitFirst(exts: Stream<Extent>, pos: nat, total: nat)
    requires exts.err.None? && exts.items != [] && pos <= exts.items[0].blockWithinFile && pos < total
    ensures var e := exts.items[0];
            var a := Min(e.blockWithinFile - pos, total - pos);
            var b := Min(e.numBlocks, total - pos - a);
            Emit(exts, pos, total).items ==
            Zeros(a) + Consecutive(e.startBlock, b)
            + Emit(exts.Skip(1), Min(e.blockWithinFile + e.numBlocks, total), total).items
  {
  }

  lemma {:induction false} EmitIsBlockAt(exts: Stream<Extent>, pos: nat, total: nat, i: nat)
    requires exts.err.None? && SortedFrom(exts.items, pos) && pos <= i < total
    ensures |Emit(exts, pos, total).items| == total - pos
    ensures Emit(exts, pos, total).items[i - pos] == BlockAt(exts.items, i)
    decreases |exts.items|
  {
    if exts.items != [] {
      var e, rest := exts.items[0], exts.Skip(1);
      var end := e.blockWithinFile + e.numBlocks;
      var p := Min(end, total);
      EmitCounts(rest, p, total);
      EmitFirst(exts, pos, total);
      FirstExtentAt(e, pos, total, Emit(rest, p, total).items, i);
      if i < end {
        NothingBefore(rest.items, end, i);
      } else {
        EmitIsBlockAt(rest, p, total, i);
      }
    }
  }

  /** For sorted extents, item `i` of the iterator is the block that the
      covering extent assigns to `i`, and zero if no extent covers `i`. */
  lemma BlocksAreMapped(exts: Stream<Extent>, total: nat, i: nat)
    requires exts.err.None? && Sorted(exts.items) && i < total
    ensures |Emit(exts, 0, total).items| == total
    ensures Emit(exts, 0, total).items[i] == BlockAt(exts.items, i)
  {
    SortedIsSortedFrom(exts.items, 0);
    EmitIsBlockAt(exts, 0, total, i);
  }

  // ----- extents in any order

  function Max(a: nat, b: nat): nat {
    if a >= b then a else b
  }

  /** An extent is put where it says, or right after those before it. */
  lemma {:induction false} EndOfNext(exts: seq<Extent>, k: nat, pos: nat)
    requires k < |exts|
    ensures EndOf(exts[..k], pos) <= EndOf(exts[..k + 1], pos) <= EndOf(exts, pos)
    ensures EndOf(exts[..k + 1], pos) == Max(exts[k].blockWithinFile, EndOf(exts[..k], pos)) + exts[k].numBlocks
    decreases k
  {
    var next := pos + HoleBefore(exts[0], pos) + exts[0].numBlocks;
    assert exts[..k + 1][1..] == exts[1..][..k];
    if k > 0 {
      assert exts[..k][1..] == exts[1..][..k - 1];
      EndOfNext(exts[1..], k - 1, next);
    } else {
      assert exts[..1][1..] == [];
    }
  }

  /** How many blocks there are, and which error ends them. */
  lemma {:induction false} EmitEndsAt(exts: Stream<Extent>, pos: nat, total: nat)
    requires pos <= total
    ensures var end := EndOf(exts.items, pos);
            && (end >= total || exts.err.None? ==>
                  Emit(exts, pos, total).err.None? && |Emit(exts, pos, total).items| == total - pos)
            && (end < total && exts.err.Some? ==>
                  Emit(exts, pos, total).err == exts.err && |Emit(exts, pos, total).items| == end - pos)
    decreases |exts.items|
  {
    if pos < total && exts.items != [] {
      var e := exts.items[0];
      var next := pos + HoleBefore(e, pos) + e.numBlocks;
      if next <= total {
        EmitEndsAt(exts.Skip(1), next, total);
      }
    }
  }

  /** A hole and an extent, and what follows them. */
  lemma PartsAt(e: Extent, pos: nat, total: nat, tail: seq<nat>, i: nat)
    requires pos <= i < total
    ensures var a := Min(HoleBefore(e, pos), total - pos);
            var b := Min(e.numBlocks, total - pos - a);
            var items := Zeros(a) + Consecutive(e.startBlock, b) + tail;
            var start, next := Max(e.blockWithinFile, pos), Max(e.blockWithinFile, pos) + e.numBlocks;
            && (i < next ==>
                  i - pos < |items| && items[i - pos] == if i < start then 0 else e.startBlock + (i - start))
            && (i >= next ==>
                  pos + a + b == next &&
                  (i - next < |tail| ==> i - pos < |items| && items[i - pos] == tail[i - next]))
  {
    var a := Min(HoleBefore(e, pos), total - pos);
    var b := Min(e.numBlocks, total - pos - a);
    if i - pos < a + b + |tail| {
      IndexParts(a, e.startBlock, b, tail, i - pos);
    }
  }

  lemma EmitParts(exts: Stream<Extent>, pos: nat, total: nat)
    requires pos < total && exts.items != []
    ensures var e := exts.items[0];
            var a := Min(HoleBefore(e, pos), total - pos);
            var b := Min(e.numBlocks, total - pos - a);
            Emit(exts, pos, total).items ==
            Zeros(a) + Consecutive(e.startBlock, b) + Emit(exts.Skip(1), pos + a + b, total).items
  {
  }

  /** A block of the first extent, or of the hole before it. */
  lemma EmitsFirst(exts: Stream<Extent>, pos: nat, total: nat, i: nat)
    requires pos <= i < total && exts.items != []
    requires i < Max(exts.items[0].blockWithinFile, pos) + exts.items[0].numBlocks
    ensures i - pos < |Emit(exts, pos, total).items|
    ensures var e, start := exts.items[0], Max(exts.items[0].blockWithinFile, pos);
            Emit(exts, pos, total).items[i - pos] == if i < start then 0 else e.startBlock + (i - start)
  {
    var e := exts.items[0];
    var a := Min(HoleBefore(e, pos), total - pos);
    var b := Min(e.numBlocks, total - pos - a);
    EmitParts(exts, pos, total);
    PartsAt(e, pos, total, Emit(exts.Skip(1), pos + a + b, total).items, i);
  }

  /** The first extent lies within the file. */
  lemma EmitThen(exts: Stream<Extent>, pos: nat, next: nat, total: nat)
    requires pos < total && exts.items != []
    requires next == Max(exts.items[0].blockWithinFile, pos) + exts.items[0].numBlocks <= total
    ensures var e := exts.items[0];
            Emit(exts, pos, total).items ==
            Zeros(next - e.numBlocks - pos) + Consecutive(e.startBlock, e.numBlocks)
            + Emit(exts.Skip(1), next, total).items
  {
    EmitParts(exts, pos, total);
  }

  /** A block after the first extent. */
  lemma EmitsRest(exts: Stream<Extent>, pos: nat, next: nat, total: nat, i: nat)
    requires pos < total && exts.items != []
    requires next == Max(exts.items[0].blockWithinFile, pos) + exts.items[0].numBlocks <= i < total
    requires i - next < |Emit(exts.Skip(1), next, total).items|
    ensures i - pos < |Emit(exts, pos, total).items|
    ensures Emit(exts, pos, total).items[i - pos] == Emit(exts.Skip(1), next, total).items[i - next]
  {
    var n := exts.items[0].numBlocks;
    EmitThen(exts, pos, next, total);
    IndexParts(next - n - pos, exts.items[0].startBlock, n, Emit(exts.Skip(1), next, total).items, i - pos);
  }

  lemma EndOfRest(exts: seq<Extent>, k: nat, pos: nat)
    requires 0 < k <= |exts|
    ensures EndOf(exts[..k], pos) ==
            EndOf(exts[1..][..k - 1], Max(exts[0].blockWithinFile, pos) + exts[0].numBlocks)
  {
    assert exts[..k][1..] == exts[1..][..k - 1];
  }

  lemma {:induction false} EmitAt(exts: Stream<Extent>, pos: nat, total: nat, k: nat, before: nat, i: nat)
    requires pos <= i < total && k < |exts.items| && before == EndOf(exts.items[..k], pos)
    requires before <= i < Max(exts.items[k].blockWithinFile, before) + exts.items[k].numBlocks
    ensures i - pos < |Emit(exts, pos, total).items|
    ensures var e, start := exts.items[k], Max(exts.items[k].blockWithinFile, before);
            Emit(exts, pos, total).items[i - pos] == if i < start then 0 else e.startBlock + (i - start)
    decreases k
  {
    if k == 0 {
      EmitsFirst(exts, pos, total, i);
    } else {
      var next := Max(exts.items[0].blockWithinFile, pos) + exts.items[0].numBlocks;
      EndOfRest(exts.items, k, pos);
      EmitAt(exts.Skip(1), next, total, k - 1, before, i);
      EmitsRest(exts, pos, next, total, i);
    }
  }

  /** Whatever the extents are, sorted or not, block `i` of the file comes from the
      extent that ends after it while those before do not: a hole up to where the extent
      is put, and then its blocks. */
  lemma BlocksComeInOrder(exts: Stream<Extent>, total: nat, k: nat, i: nat)
    requires i < total && k < |exts.items| && EndOf(exts.items[..k], 0) <= i < EndOf(exts.items[..k + 1], 0)
    ensures i < |Emit(exts, 0, total).items|
    ensures var e, start := exts.items[k], Max(exts.items[k].blockWithinFile, EndOf(exts.items[..k], 0));
            Emit(exts, 0, total).items[i] == if i < start then 0 else e.startBlock + (i - start)
  {
    EndOfNext(exts.items, k, 0);
    EmitAt(exts, 0, total, k, EndOf(exts.items[..k], 0), i);
  }

  /** After the last extent there is a hole up to the end of the file, or the error of
      the walk. */
  lemma {:induction false} HoleAtEnd(exts: Stream<Extent>, pos: nat, total: nat, i: nat)
    requires EndOf(exts.items, pos) <= i < total && exts.err.None?
    ensures |Emit(exts, pos, total).items| == total - pos && Emit(exts, pos, total).items[i - pos] == 0
    decreases |exts.items|
  {
    if exts.items != [] {
      HoleAtEnd(exts.Skip(1), pos + HoleBefore(exts.items[0], pos) + exts.items[0].numBlocks, total, i);
    }
  }

  // ----- how the remaining blocks change

  lemma RemainingOfExtent(exts: Stream<Extent>, pos: nat, total: nat)
    requires pos < total && exts.items != []
    ensures var e := exts.items[0];
            Emit(exts, pos, total) ==
            Remaining(HoleBefore(e, pos), e.startBlock, e.numBlocks, exts.Skip(1), pos, total)
  {
  }

  lemma RemainingOfNothing(start: nat, exts: Stream<Extent>, pos: nat, total: nat)
    requires pos <= total
    ensures Remaining(0, start, 0, exts, pos, total) == Emit(exts, pos, total)
  {
    var rest := Emit(exts, pos, total);
    assert Zeros(0) + Consecutive(start, 0) + rest.items == rest.items;
  }

  lemma FirstOut(first: seq<nat>, a: seq<nat>, b: seq<nat>, c: seq<nat>)
    ensures first + a + b + c == first + (a + b + c)
  {
  }

  lemma RemainingHole(hole: nat, start: nat, len: nat, exts: Stream<Extent>, pos: nat, total: nat)
    requires pos < total && hole > 0
    ensures var all, rest := Remaining(hole, start, len, exts, pos, total),
                Remaining(hole - 1, start, len, exts, pos + 1, total);
            all == Stream([0] + rest.items, rest.err)
  {
    var a := Min(hole, total - pos);
    var b := Min(len, total - pos - a);
    assert Min(hole - 1, total - (pos + 1)) == a - 1;
    FirstOut([0], Zeros(a - 1), Consecutive(start, b), Emit(exts, pos + a + b, total).items);
  }

  lemma RemainingBlock(start: nat, len: nat, exts: Stream<Extent>, pos: nat, total: nat)
    requires pos < total && len > 0
    ensures var all, rest := Remaining(0, start, len, exts, pos, total),
                Remaining(0, start + 1, len - 1, exts, pos + 1, total);
            all == Stream([start] + rest.items, rest.err)
  {
    var b := Min(len, total - pos);
    ConsecutiveFirst(start, b, Emit(exts, pos + b, total).items);
  }

  lemma ConsecutiveFirst(start: nat, len: nat, more: seq<nat>)
    requires len > 0
    ensures Zeros(0) + Consecutive(start, len) + more ==
            [start] + (Zeros(0) + Consecutive(start + 1, len - 1) + more)
  {
    assert Zeros(0) + Consecutive(start, len) == [start] + Zeros(0) + Consecutive(start + 1, len - 1);
    FirstOut([start], Zeros(0), Consecutive(start + 1, len - 1), more);
  }

  lemma RemainingFinalHole(start: nat, pos: nat, total: nat)
    requires pos < total
    ensures Emit(Stream([], None), pos, total) == Remaining(total - pos, start, 0, Stream([], None), pos, total)
  {
    assert Zeros(total - pos) + Consecutive(start, 0) + [] == Zeros(total - pos);
  }

  // ----- the iterator

  /** The fields of the iterator; `extents` is what the extent iterator that it
      owns has left to yield. */
  datatype State = State(
    extents: Stream<Extent>,
    extent: Option<Extent>,
    blockWithinExtent: nat,
    blocksRemainingInHole: nat,
    blockWithinFile: nat,
    numBlocksTotal: nat)
  {
    ghost predicate Valid() {
      && AllInRange(extents.items)
      && blockWithinFile <= numBlocksTotal < U32_LIMIT
      && (extent.Some? ==> InRange(extent.value) && blockWithinExtent <= extent.value.numBlocks)
    }

    /** Where the current extent continues on disk, and for how long. */
    ghost function Start(): nat {
      if extent.None? then 0 else extent.value.startBlock + blockWithinExtent
    }

    ghost function Len(): nat
      requires Valid()
    {
      if extent.None? then 0 else extent.value.numBlocks - blockWithinExtent
    }

    ghost function Rest(): Stream<nat>
      requires Valid()
    {
      Remaining(blocksRemainingInHole, Start(), Len(), extents, blockWithinFile, numBlocksTotal)
    }

    /** Bound on the calls of `next_impl` before something is yielded. */
    ghost function Measure(): nat {
      3 * |extents.items| + (if extent.Some? then 2 else 0) + if blocksRemainingInHole == 0 then 1 else 0
    }
  }

  /** What a call of `next_impl` may do to the blocks that are left. */
  ghost predicate StepOf(s: State, r: Result<Option<nat>>, t: State)
    requires s.Valid()
  {
    match r
    case Err(e) => s.Rest() == Stream([], Some(e))
    case Ok(None) => t.Valid() && t.Rest() == s.Rest() && t.Measure() < s.Measure()
    case Ok(Some(b)) => t.Valid() && s.Rest() == Stream([b] + t.Rest().items, t.Rest().err)
  }

  lemma HoleStep(s: State)
    requires s.Valid() && s.blockWithinFile < s.numBlocksTotal && s.blocksRemainingInHole > 0
    ensures StepOf(s, Ok(Some(0)), s.(blocksRemainingInHole := s.blocksRemainingInHole - 1,
                                      blockWithinFile := s.blockWithinFile + 1))
  {
    var t := s.(blocksRemainingInHole := s.blocksRemainingInHole - 1, blockWithinFile := s.blockWithinFile + 1);
    assert t.Valid() && t.Start() == s.Start() && t.Len() == s.Len();
    RemainingHole(s.blocksRemainingInHole, s.Start(), s.Len(), s.extents, s.blockWithinFile, s.numBlocksTotal);
  }

  lemma BlockStep(s: State)
    requires s.Valid() && s.blockWithinFile < s.numBlocksTotal && s.blocksRemainingInHole == 0
    requires s.extent.Some? && s.blockWithinExtent < s.extent.value.numBlocks
    ensures StepOf(s, Ok(Some(s.Start())), s.(blockWithinExtent := s.blockWithinExtent + 1,
                                              blockWithinFile := s.blockWithinFile + 1))
  {
    RemainingBlock(s.Start(), s.Len(), s.extents, s.blockWithinFile, s.numBlocksTotal);
  }

  lemma LeaveExtentStep(s: State)
    requires s.Valid() && s.blocksRemainingInHole == 0
    requires s.extent.Some? && s.blockWithinExtent == s.extent.value.numBlocks
    ensures StepOf(s, Ok(None), s.(extent := None))
  {
    RemainingOfNothing(s.Start(), s.extents, s.blockWithinFile, s.numBlocksTotal);
    RemainingOfNothing(0, s.extents, s.blockWithinFile, s.numBlocksTotal);
  }

  lemma FinalHoleStep(s: State)
    requires s.Valid() && s.blockWithinFile < s.numBlocksTotal && s.blocksRemainingInHole == 0
    requires s.extent.None? && s.extents == Stream([], None)
    ensures StepOf(s, Ok(None), s.(blocksRemainingInHole := s.numBlocksTotal - s.blockWithinFile))
  {
    RemainingOfNothing(0, s.extents, s.blockWithinFile, s.numBlocksTotal);
    RemainingFinalHole(0, s.blockWithinFile, s.numBlocksTotal);
  }

  /** Fetching an extent changes nothing yet. */
  lemma FetchStep(s: State)
    requires s.Valid() && s.blockWithinFile < s.numBlocksTotal && s.blocksRemainingInHole == 0
    requires s.extent.None? && s.extents.items != []
    ensures var e := s.extents.items[0];
            StepOf(s, Ok(None), s.(extents := s.extents.Skip(1), extent := Some(e), blockWithinExtent := 0,
                                   blocksRemainingInHole := HoleBefore(e, s.blockWithinFile)))
  {
    RemainingOfNothing(0, s.extents, s.blockWithinFile, s.numBlocksTotal);
    RemainingOfExtent(s.extents, s.blockWithinFile, s.numBlocksTotal);
  }

  lemma ErrorStep(s: State)
    requires s.Valid() && s.blockWithinFile < s.numBlocksTotal && s.blocksRemainingInHole == 0
    requires s.extent.None? && s.extents.items == [] && s.extents.err.Some?
    ensures s.Rest() == Stream([], s.extents.err)
  {
    RemainingOfNothing(0, s.extents, s.blockWithinFile, s.numBlocksTotal);
  }

  /** Get the next extent, and the hole before it; or, after the last one, the
      hole at the end of the file. */
  ghost function Fetch(s: State): (Result<Option<nat>>, State)
    requires s.blockWithinFile <= s.numBlocksTotal
  {
    if s.extents.items == [] then
      if s.extents.err.Some? then (Err(s.extents.err.value), s.(extents := Stream([], None)))
      else (Ok(None), s.(blocksRemainingInHole := s.numBlocksTotal - s.blockWithinFile))
    else
      var e := s.extents.items[0];
      (Ok(None), s.(extents := s.extents.Skip(1), extent := Some(e), blockWithinExtent := 0,
                    blocksRemainingInHole := HoleBefore(e, s.blockWithinFile)))
  }

  /** What fetching does, by what the iterator over the extents returns. */
  lemma FetchIs(s: State, next: Option<Result<Extent>>, rest: Stream<Extent>)
    requires s.blockWithinFile <= s.numBlocksTotal && Yielded(s.extents, next, rest)
    ensures next.None? ==>
      Fetch(s) == (Ok(None), s.(extents := rest, blocksRemainingInHole := s.numBlocksTotal - s.blockWithinFile))
    ensures next.Some? && next.value.Err? ==> Fetch(s) == (Err(next.value.error), s.(extents := rest))
    ensures next.Some? && next.value.Ok? ==>
      Fetch(s) == (Ok(None), s.(extents := rest, extent := Some(next.value.value), blockWithinExtent := 0,
                                blocksRemainingInHole := HoleBefore(next.value.value, s.blockWithinFile)))
      && (AllInRange(s.extents.items) ==> InRange(next.value.value))
  {
    if next.Some? && next.value.Ok? {
      assert s.extents.items[0] == next.value.value && s.extents.Skip(1) == rest;
    }
  }

  /** The next block of the current extent. */
  ghost function TakeBlock(s: State): (Result<Option<nat>>, State)
    requires s.extent.Some?
  {
    if s.blockWithinExtent == s.extent.value.numBlocks then (Ok(None), s.(extent := None))
    else (Ok(Some(s.Start())), s.(blockWithinExtent := s.blockWithinExtent + 1,
                                  blockWithinFile := s.blockWithinFile + 1))
  }

  /** One call of `next_impl` before the end of the file. */
  ghost function StepState(s: State): (Result<Option<nat>>, State)
    requires s.blockWithinFile < s.numBlocksTotal
  {
    if s.blocksRemainingInHole > 0 then
      (Ok(Some(0)), s.(blocksRemainingInHole := s.blocksRemainingInHole - 1, blockWithinFile := s.blockWithinFile + 1))
    else if s.extent.Some? then TakeBlock(s)
    else
      var (r, t) := Fetch(s);
      if r.Err? || t.extent.None? || t.blocksRemainingInHole > 0 then (r, t) else TakeBlock(t)
  }

  lemma FetchSteps(s: State)
    requires s.Valid() && s.blockWithinFile < s.numBlocksTotal && s.blocksRemainingInHole == 0 && s.extent.None?
    ensures Fetch(s).1.Valid() && StepOf(s, Fetch(s).0, Fetch(s).1)
  {
    if s.extents.items != [] {
      FetchStep(s);
    } else if s.extents.err.Some? {
      ErrorStep(s);
    } else {
      FinalHoleStep(s);
    }
  }

  lemma TakeBlockSteps(s: State)
    requires s.Valid() && s.blockWithinFile < s.numBlocksTotal && s.blocksRemainingInHole == 0 && s.extent.Some?
    ensures TakeBlock(s).1.Valid() && StepOf(s, TakeBlock(s).0, TakeBlock(s).1)
  {
    if s.blockWithinExtent == s.extent.value.numBlocks {
      LeaveExtentStep(s);
    } else {
      BlockStep(s);
    }
  }

  lemma StepTwice(s: State, t: State, r: Result<Option<nat>>, u: State)
    requires s.Valid() && StepOf(s, Ok(None), t) && StepOf(t, r, u)
    ensures StepOf(s, r, u)
  {
  }

  lemma NothingRemains(s: State)
    requires s.Valid() && s.blockWithinFile == s.numBlocksTotal
    ensures s.Rest() == Stream([], None)
  {
  }

  lemma StateSteps(s: State)
    requires s.Valid() && s.blockWithinFile < s.numBlocksTotal
    ensures StepState(s).1.Valid() && StepOf(s, StepState(s).0, StepState(s).1)
  {
    if s.blocksRemainingInHole > 0 {
      HoleStep(s);
    } else if s.extent.Some? {
      TakeBlockSteps(s);
    } else {
      FetchSteps(s);
      var (r, t) := Fetch(s);
      if r.Ok? && t.extent.Some? && t.blocksRemainingInHole == 0 {
        FetchAndTake(s, t);
      }
    }
  }

  lemma FetchAndTake(s: State, t: State)
    requires s.Valid() && t.Valid() && StepOf(s, Ok(None), t)
    requires t.blockWithinFile < t.numBlocksTotal && t.extent.Some? && t.blocksRemainingInHole == 0
    ensures TakeBlock(t).1.Valid() && StepOf(s, TakeBlock(t).0, TakeBlock(t).1)
  {
    TakeBlockSteps(t);
    StepTwice(s, t, TakeBlock(t).0, TakeBlock(t).1);
  }

  // ----- what is left of the walk is enough

  /** The extents that are left reach the end of the file, or the walk is over. */
  ghost predicate Supplied(s: State, over: bool)
    requires s.Valid()
  {
    over || EndOf(s.extents.items, s.blockWithinFile + s.blocksRemainingInHole + s.Len()) >= s.numBlocksTotal
  }

  lemma SuppliedFetch(s: State, over: bool)
    requires s.Valid() && s.blockWithinFile < s.numBlocksTotal && s.blocksRemainingInHole == 0 && s.extent.None?
    requires Supplied(s, over)
    ensures over || s.extents.items != []
    ensures Fetch(s).1.Valid() ==> Supplied(Fetch(s).1, over)
  {
  }

  lemma SuppliedTakeBlock(s: State, over: bool)
    requires s.Valid() && s.blocksRemainingInHole == 0 && s.extent.Some? && Supplied(s, over)
    ensures TakeBlock(s).1.Valid() ==> Supplied(TakeBlock(s).1, over)
  {
  }

  lemma SuppliedStep(s: State, over: bool)
    requires s.Valid() && s.blockWithinFile < s.numBlocksTotal && Supplied(s, over)
    requires StepState(s).1.Valid()
    ensures Supplied(StepState(s).1, over)
  {
    if s.blocksRemainingInHole == 0 {
      if s.extent.Some? {
        SuppliedTakeBlock(s, over);
      } else {
        FetchSteps(s);
        SuppliedFetch(s, over);
        var (r, t) := Fetch(s);
        if r.Ok? && t.extent.Some? && t.blocksRemainingInHole == 0 {
          SuppliedTakeBlock(t, over);
        }
      }
    }
  }

  lemma StartState(fs: Fs, root: Item, total: nat, n: nat, p: Partial)
    requires fs.Valid() && p == WalkFor(fs, root, n) && Suffices(p, total) && total < U32_LIMIT
    ensures var s := State(p.extents, None, 0, 0, 0, total);
            && s.Valid() && Supplied(s, p.over)
            && Enough(fs, root, total) && s.Rest() == BlocksFor(fs, root, total)
  {
    WalkInRange(fs, root, n);
    RemainingOfNothing(0, p.extents, 0, total);
    BlocksForWalk(fs, root, total, n);
  }

  class ExtentsBlocks {
    const extents: Extents
    var extent: Option<Extent>
    var blockWithinExtent: nat
    var blocksRemainingInHole: nat
    var blockWithinFile: nat
    const numBlocksTotal: nat
    var isDone: bool

    ghost function Now(): State
      reads this, extents
    {
      State(extents.rest, extent, blockWithinExtent, blocksRemainingInHole, blockWithinFile, numBlocksTotal)
    }

    ghost predicate Valid()
      reads this, extents
    {
      extents.Valid() && Now().Valid() && Supplied(Now(), extents.over)
    }

    /** What is left to yield. */
    ghost function Rest(): Stream<nat>
      reads this, extents
      requires Valid()
    {
      if isDone then Stream([], None) else Now().Rest()
    }

    constructor (fs: Fs, root: Item, numBlocksTotal: nat)
      requires fs.Valid() && Enough(fs, root, numBlocksTotal) && numBlocksTotal < U32_LIMIT
      ensures Valid() && fresh(extents)
      ensures Rest() == BlocksFor(fs, root, numBlocksTotal)
    {
      ghost var n: nat :| Suffices(WalkFor(fs, root, n), numBlocksTotal);
      extents := new Extents(fs, root, n);
      extent, blockWithinExtent, blocksRemainingInHole, blockWithinFile := None, 0, 0, 0;
      this.numBlocksTotal := numBlocksTotal;
      isDone := false;
      new;
      StartState(fs, root, numBlocksTotal, n, Partial(extents.rest, extents.over));
    }

    /** `next_impl`. */
    method NextImpl() returns (r: Result<Option<nat>>)
      requires Valid() && !isDone
      modifies this, extents
      ensures extents.Valid() && extents.over == old(extents.over)
      ensures isDone == (old(blockWithinFile) >= numBlocksTotal)
      ensures isDone ==> r == Ok(None) && Now() == old(Now())
      ensures !isDone ==> (r, Now()) == StepState(old(Now()))
    {
      if blockWithinFile >= numBlocksTotal {
        isDone := true;
        return Ok(None);
      }
      if blocksRemainingInHole > 0 {
        blocksRemainingInHole := blocksRemainingInHole - 1;
        blockWithinFile := blockWithinFile + 1;
        return Ok(Some(0));
      }
      if extent.None? {
        r := FetchExtent();
        if r.Err? || extent.None? || blocksRemainingInHole > 0 {
          return;
        }
      }
      r := FromExtent();
    }

    method FetchExtent() returns (r: Result<Option<nat>>)
      requires Valid() && !isDone && extent.None? && blocksRemainingInHole == 0
      requires blockWithinFile < numBlocksTotal
      modifies this, extents
      ensures extents.Valid() && extents.over == old(extents.over) && !isDone
      ensures (r, Now()) == Fetch(old(Now()))
      ensures extent.Some? ==> InRange(extent.value)
    {
      ghost var s := Now();
      SuppliedFetch(s, extents.over);
      var next := extents.Next();
      FetchIs(s, next, extents.rest);
      if next.None? {
        blocksRemainingInHole := numBlocksTotal - blockWithinFile;
        return Ok(None);
      }
      if next.value.Err? {
        return Err(next.value.error);
      }
      var e := next.value.value;
      if e.blockWithinFile > blockWithinFile {
        blocksRemainingInHole := e.blockWithinFile - blockWithinFile;
      }
      extent := Some(e);
      blockWithinExtent := 0;
      return Ok(None);
    }

    /** The end of `next_impl`: the next block of the current extent. */
    method FromExtent() returns (r: Result<Option<nat>>)
      requires extents.Valid() && extent.Some? && InRange(extent.value)
      requires blockWithinExtent <= extent.value.numBlocks
      modifies this
      ensures isDone == old(isDone)
      ensures (r, Now()) == TakeBlock(old(Now()))
    {
      var e := extent.value;
      if blockWithinExtent == e.numBlocks {
        extent := None;
        return Ok(None);
      }
      var block := e.startBlock + blockWithinExtent;
      assert block < U64_LIMIT;  // the checked addition cannot fail
      blockWithinExtent := blockWithinExtent + 1;
      blockWithinFile := blockWithinFile + 1;
      return Ok(Some(block));
    }

    /** One round of `Iterator::next`. */
    method TryNext() returns (r: Result<Option<nat>>)
      requires Valid() && !isDone
      modifies this, extents
      ensures Valid()
      ensures isDone ==> r == Ok(None) && old(Rest()) == Stream([], None)
      ensures !isDone ==> StepOf(old(Now()), r, Now())
    {
      ghost var s := Now();
      if s.blockWithinFile < s.numBlocksTotal {
        StateSteps(s);
        SuppliedStep(s, extents.over);
      } else {
        NothingRemains(s);
      }
      r := NextImpl();
    }

    /** `Iterator::next`. */
    method Next() returns (r: Option<Result<nat>>)
      requires Valid()
      modifies this, extents
      ensures Valid()
      ensures Yielded(old(Rest()), r, Rest())
    {
      while true
        invariant Valid() && Rest() == old(Rest())
        decreases if isDone then 0 else 1 + Now().Measure()
      {
        if isDone {
          return None;
        }
        var step := TryNext();
        if step.Err? {
          isDone := true;
          return Some(Err(step.error));
        }
        if step.value.Some? {
          return Some(Ok(step.value.value));
        }
      }
    }
  }
}
