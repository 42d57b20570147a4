// Which pointer blocks the block map iterator depends on: exactly those on the
// way to the blocks it yields.

module BlockMapNeeded {
  import opened Basics
  import opened Arithmetic
  import opened BlockMapIter
  import opened BlockMapProps

  /** The pointer blocks on the way to block `i` below a pointer. */
  ghost function Needed(env: Env, pointer: nat, level: nat, i: nat): set<nat>
    requires env.Valid() && i < Span(env, level)
    decreases level, 0, pointer
  {
    if level == 0 then {}
    else
      {pointer} + if env.read(pointer).Err? then {}
                  else NeededIn(env, PointersFrom(env.read(pointer).value, 0), level - 1, i)
  }

  ghost function NeededIn(env: Env, pointers: seq<nat>, level: nat, i: nat): set<nat>
    requires env.Valid() && i < Times(|pointers|, Span(env, level))
    decreases level, 1, |pointers|
  {
    var d := Span(env, level);
    if i < d then Needed(env, pointers[0], level, i) else NeededIn(env, pointers[1..], level, i - d)
  }

  /** The pointer blocks on the way to block `i` of a file. */
  ghost function NeededFor(env: Env, root: Root, i: nat): set<nat>
    requires env.Valid() && i < Capacity(env)
  {
    var j := i - 12;
    if j < 0 then {}
    else if j < Span(env, 1) then Needed(env, root[12], 1, j)
    else if j - Span(env, 1) < Span(env, 2) then Needed(env, root[13], 2, j - Span(env, 1))
    else Needed(env, root[14], 3, j - Span(env, 1) - Span(env, 2))
  }

  lemma {:induction false} SpanOfBlockSize(env: Env, other: Env, level: nat)
    requires env.blockSize == other.blockSize
    ensures Span(env, level) == Span(other, level)
  {
    if level > 0 {
      SpanOfBlockSize(env, other, level - 1);
    }
  }

  ghost predicate Agree(env: Env, other: Env, blocks: set<nat>) {
    forall b :: b in blocks ==> env.read(b) == other.read(b)
  }

  // ----- agreement on them is enough

  lemma {:induction false} LookupAgrees(env: Env, other: Env, pointer: nat, level: nat, i: nat)
    requires env.Valid() && other.Valid() && env.blockSize == other.blockSize && i < Span(env, level)
    requires Agree(env, other, Needed(env, pointer, level, i))
    ensures i < Span(other, level) && Lookup(env, pointer, level, i) == Lookup(other, pointer, level, i)
    decreases level, 0, pointer
  {
    SpanOfBlockSize(env, other, level);
    if level > 0 {
      assert pointer in Needed(env, pointer, level, i);
      assert env.read(pointer) == other.read(pointer);
      if env.read(pointer).Ok? {
        LookupInAgrees(env, other, PointersFrom(env.read(pointer).value, 0), level - 1, i);
      }
    }
  }

  lemma {:induction false} LookupInAgrees(env: Env, other: Env, pointers: seq<nat>, level: nat, i: nat)
    requires env.Valid() && other.Valid() && env.blockSize == other.blockSize
    requires i < Times(|pointers|, Span(env, level)) && Agree(env, other, NeededIn(env, pointers, level, i))
    ensures i < Times(|pointers|, Span(other, level))
    ensures LookupIn(env, pointers, level, i) == LookupIn(other, pointers, level, i)
    decreases level, 1, |pointers|
  {
    SpanOfBlockSize(env, other, level);
    if i < Span(env, level) {
      LookupAgrees(env, other, pointers[0], level, i);
    } else {
      LookupInAgrees(env, other, pointers[1..], level, i - Span(env, level));
    }
  }

  lemma EntryAgrees(env: Env, other: Env, root: Root, i: nat)
    requires env.Valid() && other.Valid() && env.blockSize == other.blockSize && i < Capacity(env)
    requires Agree(env, other, NeededFor(env, root, i))
    ensures i < Capacity(other) && Entry(env, root, i) == Entry(other, root, i)
  {
    SpanOfBlockSize(env, other, 1);
    SpanOfBlockSize(env, other, 2);
    SpanOfBlockSize(env, other, 3);
    var j := i - 12;
    if j < 0 {
    } else if j < Span(env, 1) {
      LookupAgrees(env, other, root[12], 1, j);
    } else if j - Span(env, 1) < Span(env, 2) {
      LookupAgrees(env, other, root[13], 2, j - Span(env, 1));
    } else {
      LookupAgrees(env, other, root[14], 3, j - Span(env, 1) - Span(env, 2));
    }
  }

  lemma {:induction false} CollectAgrees(rs: seq<Result<nat>>, qs: seq<Result<nat>>)
    requires |rs| == |qs|
    requires forall i :: 0 <= i < |rs| && i <= |Collect(rs).items| ==> rs[i] == qs[i]
    ensures Collect(rs) == Collect(qs)
    decreases |rs|
  {
    if rs != [] && rs[0].Ok? {
      assert |Collect(rs).items| == 1 + |Collect(rs[1..]).items|;
      CollectAgrees(rs[1..], qs[1..]);
    }
  }

  /** The iterator gets as far as block `i`: the blocks before it are yielded. */
  ghost predicate Reached(env: Env, root: Root, total: nat, i: nat)
    requires env.Valid()
  {
    i < Min(total, Capacity(env)) && i <= |FileBlocks(env, root, total).items|
  }

  /** `b` is on the way to a block that the iterator reaches. */
  ghost predicate IsNeeded(env: Env, root: Root, total: nat, b: nat)
    requires env.Valid()
  {
    exists i: nat :: Reached(env, root, total, i) && b in NeededFor(env, root, i)
  }

  /** Only the pointer blocks on the way to the blocks that it reaches matter: two
      disks that agree on those give the same blocks and the same error. */
  lemma OnlyNeededBlocksMatter(env: Env, other: Env, root: Root, total: nat)
    requires env.Valid() && other.Valid() && env.blockSize == other.blockSize
    requires forall b :: IsNeeded(env, root, total, b) ==> env.read(b) == other.read(b)
    ensures FileBlocks(env, root, total) == FileBlocks(other, root, total)
  {
    SpanOfBlockSize(env, other, 1);
    SpanOfBlockSize(env, other, 2);
    SpanOfBlockSize(env, other, 3);
    FileBlocksAreEntries(env, root, total);
    FileBlocksAreEntries(other, root, total);
    var n := Min(total, Capacity(env));
    var rs, qs := Entries(env, root, n), Entries(other, root, n);
    forall i | 0 <= i < n && i <= |Collect(rs).items| ensures rs[i] == qs[i] {
      assert Reached(env, root, total, i);
      assert forall b :: b in NeededFor(env, root, i) ==> IsNeeded(env, root, total, b);
      EntryAgrees(env, other, root, i);
    }
    CollectAgrees(rs, qs);
  }

  /** The disk on which every pointer block that is not needed fails. */
  ghost function OnlyNeeded(env: Env, root: Root, total: nat, e: Error): Env
    requires env.Valid()
  {
    Env(b => if IsNeeded(env, root, total, b) then env.read(b) else Err(e), env.blockSize)
  }

  /** The iterator reads no other pointer block: if all others fail, whatever the
      error, nothing changes, while every iterator passes on a failed read at once. */
  lemma OthersAreNotRead(env: Env, root: Root, total: nat, e: Error)
    requires env.Valid()
    ensures OnlyNeeded(env, root, total, e).Valid()
    ensures FileBlocks(OnlyNeeded(env, root, total, e), root, total) == FileBlocks(env, root, total)
  {
    OnlyNeededBlocksMatter(env, OnlyNeeded(env, root, total, e), root, total);
  }

  // ----- each of them is needed

  lemma {:induction false} LookupNeeds(env: Env, other: Env, pointer: nat, level: nat, i: nat, b: nat)
    requires env.Valid() && other.Valid() && env.blockSize == other.blockSize && i < Span(env, level)
    requires b in Needed(env, pointer, level, i) && other.read(b).Err?
    requires Agree(env, other, Needed(env, pointer, level, i) - {b})
    ensures i < Span(other, level) && Lookup(other, pointer, level, i).Err?
    decreases level, 0, pointer
  {
    SpanOfBlockSize(env, other, level);
    if pointer != b {
      assert pointer in Needed(env, pointer, level, i) - {b};
      assert env.read(pointer) == other.read(pointer);
      LookupInNeeds(env, other, PointersFrom(env.read(pointer).value, 0), level - 1, i, b);
    }
  }

  lemma {:induction false} LookupInNeeds(env: Env, other: Env, pointers: seq<nat>, level: nat, i: nat, b: nat)
    requires env.Valid() && other.Valid() && env.blockSize == other.blockSize
    requires i < Times(|pointers|, Span(env, level))
    requires b in NeededIn(env, pointers, level, i) && other.read(b).Err?
    requires Agree(env, other, NeededIn(env, pointers, level, i) - {b})
    ensures i < Times(|pointers|, Span(other, level)) && LookupIn(other, pointers, level, i).Err?
    decreases level, 1, |pointers|
  {
    SpanOfBlockSize(env, other, level);
    if i < Span(env, level) {
      LookupNeeds(env, other, pointers[0], level, i, b);
    } else {
      LookupInNeeds(env, other, pointers[1..], level, i - Span(env, level), b);
    }
  }

  lemma EntryNeeds(env: Env, other: Env, root: Root, i: nat, b: nat)
    requires env.Valid() && other.Valid() && env.blockSize == other.blockSize && i < Capacity(env)
    requires b in NeededFor(env, root, i) && other.read(b).Err?
    requires Agree(env, other, NeededFor(env, root, i) - {b})
    ensures i < Capacity(other) && Entry(other, root, i).Err?
  {
    SpanOfBlockSize(env, other, 1);
    SpanOfBlockSize(env, other, 2);
    SpanOfBlockSize(env, other, 3);
    var j := i - 12;
    if j < Span(env, 1) {
      LookupNeeds(env, other, root[12], 1, j, b);
    } else if j - Span(env, 1) < Span(env, 2) {
      LookupNeeds(env, other, root[13], 2, j - Span(env, 1), b);
    } else {
      LookupNeeds(env, other, root[14], 3, j - Span(env, 1) - Span(env, 2), b);
    }
  }

  lemma {:induction false} CollectStops(rs: seq<Result<nat>>, i: nat)
    requires i < |rs| && rs[i].Err?
    ensures Collect(rs).err.Some? && |Collect(rs).items| <= i
    decreases i
  {
    if rs[0].Ok? {
      CollectStops(rs[1..], i - 1);
    }
  }

  /** Every one of those blocks matters: if it fails while the others stay readable,
      the iterator fails, at the latest at the block that needs it. */
  lemma NeededBlocksMatter(env: Env, other: Env, root: Root, total: nat, i: nat, b: nat)
    requires env.Valid() && other.Valid() && env.blockSize == other.blockSize
    requires i < Min(total, Capacity(env)) && b in NeededFor(env, root, i) && other.read(b).Err?
    requires forall a: nat :: a != b ==> env.read(a) == other.read(a)
    ensures FileBlocks(other, root, total).err.Some? && |FileBlocks(other, root, total).items| <= i
  {
    EntryNeeds(env, other, root, i, b);
    SpanOfBlockSize(env, other, 1);
    SpanOfBlockSize(env, other, 2);
    SpanOfBlockSize(env, other, 3);
    FileBlocksAreEntries(other, root, total);
    CollectStops(Entries(other, root, Min(total, Capacity(other))), i);
  }
}
