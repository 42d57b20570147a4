// The blocks of a file that uses a block map
// (src/iters/file_blocks/block_map.rs): twelve direct pointers, then single,
// double and triple indirect blocks, walked by nested iterators.

module BlockMapIter {
  import opened Basics
  import opened ByteReaders

  const NUM_DIRECT: nat := 12
  const NUM_ENTRIES: nat := 15

  /** How pointer blocks are read. The block size is a multiple of four. */
  datatype Env = Env(read: nat -> Result<Bytes>, blockSize: nat)
  {
    ghost predicate Valid() {
      && 0 < blockSize && blockSize % 4 == 0
      && forall b :: read(b).Ok? ==> |read(b).value| == blockSize
    }
  }

  /** The pointers of a block from byte `index` on. */
  function PointersFrom(block: Bytes, index: nat): (r: seq<nat>)
    requires |block| % 4 == 0 && index % 4 == 0 && index <= |block|
    ensures |r| == (|block| - index) / 4
    ensures forall i :: 0 <= i < |r| ==> r[i] == U32le(block, index + 4 * i)
    decreases |block| - index
  {
    if index == |block| then [] else [U32le(block, index)] + PointersFrom(block, index + 4)
  }

  // ----- the reference

  /** The file blocks below a pointer, from left to right, up to the first
      pointer block that cannot be read. At level 0 the pointer is the block. */
  ghost function Tree(env: Env, pointer: nat, level: nat): Stream<nat>
    requires env.Valid()
    decreases level, 0, pointer
  {
    if level == 0 then Stream([pointer], None)
    else match env.read(pointer)
      case Err(e) => Stream([], Some(e))
      case Ok(block) => Forest(env, PointersFrom(block, 0), level - 1)
  }

  ghost function Forest(env: Env, pointers: seq<nat>, level: nat): Stream<nat>
    requires env.Valid()
    decreases level, 1, |pointers|
  {
    if pointers == [] then Stream([], None)
    else Tree(env, pointers[0], level).Then(Forest(env, pointers[1..], level))
  }

  lemma {:induction false} ForestOfBlocks(env: Env, pointers: seq<nat>)
    requires env.Valid()
    ensures Forest(env, pointers, 0) == Stream(pointers, None)
    decreases |pointers|
  {
    if pointers != [] {
      ForestOfBlocks(env, pointers[1..]);
      assert pointers == [pointers[0]] + pointers[1..];
    }
  }

  type Root = s: seq<nat> | |s| == NUM_ENTRIES witness seq(NUM_ENTRIES, _ => 0)

  ghost function Single(env: Env, root: Root): Stream<nat>
    requires env.Valid()
  {
    Tree(env, root[12], 1)
  }

  ghost function Double(env: Env, root: Root): Stream<nat>
    requires env.Valid()
  {
    Tree(env, root[13], 2)
  }

  ghost function Triple(env: Env, root: Root): Stream<nat>
    requires env.Valid()
  {
    Tree(env, root[14], 3)
  }

  /** All blocks that the map can describe, from direct pointer `k` on. */
  ghost function AllFrom(env: Env, root: Root, k: nat): Stream<nat>
    requires env.Valid() && k <= NUM_DIRECT
  {
    Stream(root[k..NUM_DIRECT], None)
    .Then(Single(env, root).Then(Double(env, root).Then(Triple(env, root))))
  }

  /** At most `n` items; an error after them does not matter. */
  ghost function Take(s: Stream<nat>, n: nat): Stream<nat> {
    if n <= |s.items| then Stream(s.items[..n], None) else s
  }

  /** The blocks of a file of `total` blocks. */
  ghost function FileBlocks(env: Env, root: Root, total: nat): Stream<nat>
    requires env.Valid()
  {
    Take(AllFrom(env, root, 0), total)
  }

  lemma TakeFirst(s: Stream<nat>, x: nat, rest: Stream<nat>, n: nat)
    requires s == Stream([x] + rest.items, rest.err) && n > 0
    ensures Take(s, n) == Stream([x] + Take(rest, n - 1).items, Take(rest, n - 1).err)
  {
    if n <= |s.items| {
      assert s.items[..n] == [x] + rest.items[..n - 1];
    }
  }

  lemma ThenFirst(s: Stream<nat>, x: nat, rest: Stream<nat>, more: Stream<nat>)
    requires s == Stream([x] + rest.items, rest.err)
    ensures s.Then(more) == Stream([x] + rest.Then(more).items, rest.Then(more).err)
  {
    if rest.err.None? {
      assert [x] + rest.items + more.items == [x] + (rest.items + more.items);
    }
  }

  lemma ThenEmpty(more: Stream<nat>)
    ensures Stream([], None).Then(more) == more
  {
    assert [] + more.items == more.items;
  }

  // ----- single indirect

  class IndirectBlockIter {
    const block: Bytes
    var indexWithinBlock: nat

    ghost predicate Valid()
      reads this
    {
      |block| % 4 == 0 && indexWithinBlock % 4 == 0 && indexWithinBlock <= |block|
    }

    /** What is left to yield. */
    ghost function Items(): seq<nat>
      reads this
      requires Valid()
    {
      PointersFrom(block, indexWithinBlock)
    }

    constructor (block: Bytes)
      requires |block| % 4 == 0
      ensures Valid() && Items() == PointersFrom(block, 0)
    {
      this.block := block;
      indexWithinBlock := 0;
    }

    method Next() returns (r: Option<nat>)
      requires Valid()
      modifies this
      ensures Valid()
      ensures r.None? ==> old(Items()) == [] && Items() == []
      ensures r.Some? ==> old(Items()) == [r.value] + Items()
    {
      if indexWithinBlock >= |block| {
        return None;
      }
      var blockIndex := U32le(block, indexWithinBlock);
      indexWithinBlock := indexWithinBlock + 4;
      return Some(blockIndex);
    }
  }

  /** The rest of a nested iterator: what its current child has left, then the
      trees of the pointers it has not followed. */
  ghost function Nested(env: Env, child: Stream<nat>, pointers: seq<nat>, level: nat): Stream<nat>
    requires env.Valid()
  {
    child.Then(Forest(env, pointers, level))
  }

  lemma NestedDescends(env: Env, pointer: nat, pointers: seq<nat>, level: nat)
    requires env.Valid()
    ensures Nested(env, Stream([], None), [pointer] + pointers, level) ==
            Nested(env, Tree(env, pointer, level), pointers, level)
  {
    assert ([pointer] + pointers)[1..] == pointers;
    ThenEmpty(Forest(env, [pointer] + pointers, level));
  }

  /** What a call of a `next_impl` does to the blocks that are left to yield, and
      to the bound on the calls before the next one is. */
  ghost predicate Stepped(before: Stream<nat>, m: nat, r: Result<Option<nat>>, after: Stream<nat>, n: nat) {
    match r
    case Err(e) => before == Stream([], Some(e))
    case Ok(None) => after == before && n < m
    case Ok(Some(b)) => before == Stream([b] + after.items, after.err)
  }

  // ----- double indirect

  class DoubleIndirectBlockIter {
    const env: Env
    const indirect0: IndirectBlockIter
    var indirect1: IndirectBlockIter?
    var isDone: bool
    ghost var repr: set<object>

    ghost predicate Valid()
      reads this, repr
    {
      && this in repr && indirect0 in repr && indirect0.Valid() && env.Valid()
      && (indirect1 != null ==> indirect1 in repr && indirect1.Valid() && indirect1 != indirect0)
    }

    ghost function Child(): Stream<nat>
      reads this, repr
      requires Valid()
    {
      Stream(if indirect1 == null then [] else indirect1.Items(), None)
    }

    ghost function Rest(): Stream<nat>
      reads this, repr
      requires Valid()
    {
      if isDone then Stream([], None) else Nested(env, Child(), indirect0.Items(), 1)
    }

    ghost function Measure(): nat
      reads this, repr
      requires Valid()
    {
      if isDone then 0 else 1 + 2 * |indirect0.Items()| + if indirect1 == null then 0 else 1
    }

    /** The top block has already been read. */
    constructor (env: Env, block: Bytes)
      requires env.Valid() && |block| == env.blockSize
      ensures Valid() && fresh(repr) && this.env == env
      ensures Rest() == Forest(env, PointersFrom(block, 0), 1)
    {
      this.env := env;
      var top := new IndirectBlockIter(block);
      indirect0, indirect1 := top, null;
      isDone := false;
      repr := {this, top};
      new;
      ThenEmpty(Forest(env, PointersFrom(block, 0), 1));
    }

    method NextImpl() returns (r: Result<Option<nat>>)
      requires Valid() && !isDone
      modifies repr
      ensures Valid() && fresh(repr - old(repr))
      ensures Stepped(old(Rest()), old(Measure()), r, Rest(), Measure())
    {
      ghost var pointers, left := indirect0.Items(), Child();
      if indirect1 != null {
        var blockIndex := indirect1.Next();
        if blockIndex.Some? {
          ThenFirst(left, blockIndex.value, Child(), Forest(env, pointers, 1));
          return Ok(blockIndex);
        }
        indirect1 := null;
        return Ok(None);
      }
      var pointer := indirect0.Next();
      if pointer.None? {
        ThenEmpty(Forest(env, [], 1));
        isDone := true;
        return Ok(None);
      }
      NestedDescends(env, pointer.value, indirect0.Items(), 1);
      var block := env.read(pointer.value);
      if block.Err? {
        return Err(block.error);
      }
      ForestOfBlocks(env, PointersFrom(block.value, 0));
      var child := new IndirectBlockIter(block.value);
      indirect1, repr := child, repr + {child};
      return Ok(None);
    }

    method Next() returns (r: Option<Result<nat>>)
      requires Valid()
      modifies repr
      ensures Valid() && fresh(repr - old(repr))
      ensures Yielded(old(Rest()), r, Rest())
    {
      while true
        invariant Valid() && fresh(repr - old(repr)) && Rest() == old(Rest())
        decreases Measure()
      {
        if isDone {
          return None;
        }
        var step := NextImpl();
        if step.Err? {
          isDone := true;
          return Some(Err(step.error));
        }
        if step.value.Some? {
          return Some(Ok(step.value.value));
        }
      }
    }
  }

  // ----- triple indirect

  class TripleIndirectBlockIter {
    const env: Env
    const indirect0: IndirectBlockIter
    var indirect1: DoubleIndirectBlockIter?
    var isDone: bool
    ghost var repr: set<object>

    ghost predicate Valid()
      reads this, repr
    {
      && this in repr && indirect0 in repr && indirect0.Valid() && env.Valid()
      && (indirect1 != null ==>
            && indirect1 in repr && indirect1.repr <= repr
            && this !in indirect1.repr && indirect0 !in indirect1.repr
            && indirect1.Valid() && indirect1.env == env)
    }

    ghost function Child(): Stream<nat>
      reads this, repr
      requires Valid()
    {
      if indirect1 == null then Stream([], None) else indirect1.Rest()
    }

    ghost function Rest(): Stream<nat>
      reads this, repr
      requires Valid()
    {
      if isDone then Stream([], None) else Nested(env, Child(), indirect0.Items(), 2)
    }

    ghost function Measure(): nat
      reads this, repr
      requires Valid()
    {
      if isDone then 0 else 1 + 2 * |indirect0.Items()| + if indirect1 == null then 0 else 1
    }

    /** The top block has already been read. */
    constructor (env: Env, block: Bytes)
      requires env.Valid() && |block| == env.blockSize
      ensures Valid() && fresh(repr) && this.env == env
      ensures Rest() == Forest(env, PointersFrom(block, 0), 2)
    {
      this.env := env;
      var top := new IndirectBlockIter(block);
      indirect0, indirect1 := top, null;
      isDone := false;
      repr := {this, top};
      new;
      ThenEmpty(Forest(env, PointersFrom(block, 0), 2));
    }

    /** The next block of the current double indirect block. */
    method FromChild() returns (r: Result<Option<nat>>)
      requires Valid() && !isDone && indirect1 != null
      modifies repr
      ensures Valid() && fresh(repr - old(repr)) && !isDone
      ensures Stepped(old(Rest()), old(Measure()), r, Rest(), Measure())
    {
      ghost var pointers, left := indirect0.Items(), Child();
      var blockIndex := indirect1.Next();
      repr := repr + indirect1.repr;
      assert indirect0.Items() == pointers;
      if blockIndex.None? {
        indirect1 := null;
        return Ok(None);
      }
      if blockIndex.value.Err? {
        return Err(blockIndex.value.error);
      }
      ThenFirst(left, blockIndex.value.value, Child(), Forest(env, pointers, 2));
      return Ok(Some(blockIndex.value.value));
    }

    /** Go to the next double indirect block. */
    method Descend() returns (r: Result<Option<nat>>)
      requires Valid() && !isDone && indirect1 == null
      modifies repr
      ensures Valid() && fresh(repr - old(repr))
      ensures r.Err? || r == Ok(None)
      ensures Stepped(old(Rest()), old(Measure()), r, Rest(), Measure())
    {
      var pointer := indirect0.Next();
      if pointer.None? {
        ThenEmpty(Forest(env, [], 2));
        isDone := true;
        return Ok(None);
      }
      NestedDescends(env, pointer.value, indirect0.Items(), 2);
      var block := env.read(pointer.value);
      if block.Err? {
        return Err(block.error);
      }
      var child := new DoubleIndirectBlockIter(env, block.value);
      indirect1, repr := child, repr + child.repr;
      return Ok(None);
    }

    method NextImpl() returns (r: Result<Option<nat>>)
      requires Valid() && !isDone
      modifies repr
      ensures Valid() && fresh(repr - old(repr))
      ensures Stepped(old(Rest()), old(Measure()), r, Rest(), Measure())
    {
      if indirect1 != null {
        r := FromChild();
      } else {
        r := Descend();
      }
    }

    method Next() returns (r: Option<Result<nat>>)
      requires Valid()
      modifies repr
      ensures Valid() && fresh(repr - old(repr))
      ensures Yielded(old(Rest()), r, Rest())
    {
      while true
        invariant Valid() && fresh(repr - old(repr)) && Rest() == old(Rest())
        decreases Measure()
      {
        if isDone {
          return None;
        }
        var step := NextImpl();
        if step.Err? {
          isDone := true;
          return Some(Err(step.error));
        }
        if step.value.Some? {
          return Some(Ok(step.value.value));
        }
      }
    }
  }

  // ----- the block map

  /** The blocks from entry `index` of the root on, where `current` are the ones
      left below that entry when it is an indirect one. */
  ghost function RootRest(env: Env, root: Root, index: nat, current: Stream<nat>): Stream<nat>
    requires env.Valid()
  {
    if index < NUM_DIRECT then AllFrom(env, root, index)
    else if index == 12 then current.Then(Double(env, root).Then(Triple(env, root)))
    else if index == 13 then current.Then(Triple(env, root))
    else if index == 14 then current
    else Stream([], None)
  }

  /** The blocks below the root's entry `index`. */
  ghost function Below(env: Env, root: Root, index: nat): Stream<nat>
    requires env.Valid()
  {
    if index == 12 then Single(env, root)
    else if index == 13 then Double(env, root)
    else if index == 14 then Triple(env, root)
    else Stream([], None)
  }

  lemma RootEntryDone(env: Env, root: Root, index: nat)
    requires env.Valid() && 12 <= index < NUM_ENTRIES
    ensures RootRest(env, root, index, Stream([], None)) ==
            RootRest(env, root, index + 1, Below(env, root, index + 1))
  {
    if index == 12 {
      ThenEmpty(Double(env, root).Then(Triple(env, root)));
    } else if index == 13 {
      ThenEmpty(Triple(env, root));
    }
  }

  lemma RootDirect(env: Env, root: Root, index: nat)
    requires env.Valid() && index < NUM_DIRECT
    ensures var rest := RootRest(env, root, index + 1, Below(env, root, index + 1));
            RootRest(env, root, index, Below(env, root, index)) == Stream([root[index]] + rest.items, rest.err)
  {
    assert root[index..NUM_DIRECT] == [root[index]] + root[index + 1..NUM_DIRECT];
    var more := Single(env, root).Then(Double(env, root).Then(Triple(env, root)));
    ThenFirst(Stream(root[index..NUM_DIRECT], None), root[index], Stream(root[index + 1..NUM_DIRECT], None), more);
    ThenEmpty(more);
  }

  lemma RootFirst(env: Env, root: Root, index: nat, current: Stream<nat>, x: nat, rest: Stream<nat>)
    requires env.Valid() && 12 <= index < NUM_ENTRIES
    requires current == Stream([x] + rest.items, rest.err)
    ensures var after := RootRest(env, root, index, rest);
            RootRest(env, root, index, current) == Stream([x] + after.items, after.err)
  {
    if index == 12 {
      ThenFirst(current, x, rest, Double(env, root).Then(Triple(env, root)));
    } else if index == 13 {
      ThenFirst(current, x, rest, Triple(env, root));
    }
  }

  /** What the root's iterator makes of a call of the `next` of the iterator below
      entry `index`, when `left` blocks are still wanted. */
  lemma RootYields(env: Env, root: Root, index: nat, current: Stream<nat>, r: Option<Result<nat>>,
                   rest: Stream<nat>, left: nat)
    requires env.Valid() && 12 <= index < NUM_ENTRIES && left > 0 && Yielded(current, r, rest)
    ensures var before := Take(RootRest(env, root, index, current), left);
            match r
            case None => before == Take(RootRest(env, root, index + 1, Below(env, root, index + 1)), left)
            case Some(Err(e)) => before == Stream([], Some(e))
            case Some(Ok(x)) =>
              var after := Take(RootRest(env, root, index, rest), left - 1);
              before == Stream([x] + after.items, after.err)
  {
    match r
    case None => RootEntryDone(env, root, index);
    case Some(Err(e)) =>
    case Some(Ok(x)) =>
      RootFirst(env, root, index, current, x, rest);
      TakeFirst(RootRest(env, root, index, current), x, RootRest(env, root, index, rest), left);
  }

  class BlockMap {
    const env: Env
    const level0: Root
    const numBlocksTotal: nat
    var level0Index: nat
    var numBlocksYielded: nat
    var level1: IndirectBlockIter?
    var level2: DoubleIndirectBlockIter?
    var level3: TripleIndirectBlockIter?
    var isDone: bool
    ghost var repr: set<object>

    ghost predicate Valid()
      reads this, repr
    {
      && this in repr && env.Valid() && numBlocksYielded <= numBlocksTotal < U32_LIMIT
      && level0Index <= NUM_ENTRIES
      && (level1 != null ==> level0Index == 12 && level1 in repr && level1.Valid())
      && (level2 != null ==>
            && level0Index == 13 && level2 in repr && level2.repr <= repr && this !in level2.repr
            && level2.Valid())
      && (level3 != null ==>
            && level0Index == 14 && level3 in repr && level3.repr <= repr && this !in level3.repr
            && level3.Valid())
    }

    /** What is left below the root entry the iterator is at. */
    ghost function Current(): Stream<nat>
      reads this, repr
      requires Valid()
    {
      if level1 != null then Stream(level1.Items(), None)
      else if level2 != null then level2.Rest()
      else if level3 != null then level3.Rest()
      else Below(env, level0, level0Index)
    }

    /** What is left of everything that the map describes. */
    ghost function Mapped(): Stream<nat>
      reads this, repr
      requires Valid()
    {
      RootRest(env, level0, level0Index, Current())
    }

    /** What is left to yield. */
    ghost function Rest(): Stream<nat>
      reads this, repr
      requires Valid()
    {
      if isDone then Stream([], None) else Take(Mapped(), numBlocksTotal - numBlocksYielded)
    }

    ghost function Measure(): nat
      reads this, repr
      requires Valid()
    {
      if isDone then 0
      else 1 + 2 * (NUM_ENTRIES - level0Index)
           + if level1 == null && level2 == null && level3 == null then 1 else 0
    }

    constructor (env: Env, level0: Root, numBlocksTotal: nat)
      requires env.Valid() && numBlocksTotal < U32_LIMIT
      ensures Valid() && fresh(repr) && this.env == env
      ensures Rest() == FileBlocks(env, level0, numBlocksTotal)
    {
      this.env, this.level0, this.numBlocksTotal := env, level0, numBlocksTotal;
      level0Index, numBlocksYielded := 0, 0;
      level1, level2, level3 := null, null, null;
      isDone := false;
      repr := {this};
    }

    method Direct() returns (block: nat)
      requires Valid() && !isDone && level0Index <= 11 && numBlocksYielded < numBlocksTotal
      modifies repr
      ensures Valid() && repr == old(repr)
      ensures Stepped(old(Rest()), old(Measure()), Ok(Some(block)), Rest(), Measure())
    {
      RootDirect(env, level0, level0Index);
      ghost var before := Mapped();
      block := level0[level0Index];
      level0Index := level0Index + 1;
      TakeFirst(before, block, Mapped(), numBlocksTotal - numBlocksYielded);
      numBlocksYielded := numBlocksYielded + 1;
    }

    method CountBlock()
      requires Valid() && numBlocksYielded < numBlocksTotal
      modifies this
      ensures Valid() && repr == old(repr) && isDone == old(isDone) && level0Index == old(level0Index)
      ensures numBlocksYielded == old(numBlocksYielded) + 1 && Current() == old(Current())
    {
      numBlocksYielded := numBlocksYielded + 1;
    }

    /** Read the single indirect block. */
    method OpenLevel1() returns (r: Result<Option<nat>>)
      requires Valid() && !isDone && level0Index == 12 && level1 == null && numBlocksYielded < numBlocksTotal
      modifies repr
      ensures Valid() && fresh(repr - old(repr))
      ensures r.Err? || r == Ok(None)
      ensures Stepped(old(Rest()), old(Measure()), r, Rest(), Measure())
    {
      var block := env.read(level0[12]);
      if block.Err? {
        return Err(block.error);
      }
      ForestOfBlocks(env, PointersFrom(block.value, 0));
      var child := new IndirectBlockIter(block.value);
      level1, repr := child, repr + {child};
      return Ok(None);
    }

    method FromLevel1() returns (r: Result<Option<nat>>)
      requires Valid() && !isDone && level1 != null && numBlocksYielded < numBlocksTotal
      modifies repr
      ensures Valid() && fresh(repr - old(repr))
      ensures Stepped(old(Rest()), old(Measure()), r, Rest(), Measure())
    {
      ghost var current := Current();
      var next := level1.Next();
      RootYields(env, level0, 12, current, if next.None? then None else Some(Ok(next.value)), Current(),
                 numBlocksTotal - numBlocksYielded);
      if next.None? {
        level1 := null;
        level0Index := 13;
        return Ok(None);
      }
      numBlocksYielded := numBlocksYielded + 1;
      return Ok(Some(next.value));
    }

    /** Read the double indirect block. */
    method OpenLevel2() returns (r: Result<Option<nat>>)
      requires Valid() && !isDone && level0Index == 13 && level2 == null && numBlocksYielded < numBlocksTotal
      modifies repr
      ensures Valid() && fresh(repr - old(repr))
      ensures r.Err? || r == Ok(None)
      ensures Stepped(old(Rest()), old(Measure()), r, Rest(), Measure())
    {
      var block := env.read(level0[13]);
      if block.Err? {
        return Err(block.error);
      }
      var child := new DoubleIndirectBlockIter(env, block.value);
      level2, repr := child, repr + child.repr;
      assert Current() == Double(env, level0);
      return Ok(None);
    }

    method PullLevel2() returns (next: Option<Result<nat>>)
      requires Valid() && level2 != null
      modifies repr
      ensures Valid() && fresh(repr - old(repr)) && level2 == old(level2)
      ensures isDone == old(isDone) && numBlocksYielded == old(numBlocksYielded)
      ensures Yielded(old(Current()), next, Current())
    {
      next := level2.Next();
      repr := repr + level2.repr;
    }

    method LeaveLevel2()
      requires Valid() && !isDone && level2 != null
      modifies this
      ensures Valid() && repr == old(repr) && isDone == old(isDone) && level0Index == 14
      ensures numBlocksYielded == old(numBlocksYielded) && Current() == Below(env, level0, 14)
      ensures Measure() < old(Measure())
    {
      level2 := null;
      level0Index := 14;
    }

    method FromLevel2() returns (r: Result<Option<nat>>)
      requires Valid() && !isDone && level2 != null && numBlocksYielded < numBlocksTotal
      modifies repr
      ensures Valid() && fresh(repr - old(repr))
      ensures Stepped(old(Rest()), old(Measure()), r, Rest(), Measure())
    {
      ghost var current := Current();
      var next := PullLevel2();
      ghost var after := Current();
      RootYields(env, level0, 13, current, next, after, numBlocksTotal - numBlocksYielded);
      if next.None? {
        LeaveLevel2();
        return Ok(None);
      }
      if next.value.Err? {
        return Err(next.value.error);
      }
      CountBlock();
      return Ok(Some(next.value.value));
    }

    /** Read the triple indirect block. */
    method OpenLevel3() returns (r: Result<Option<nat>>)
      requires Valid() && !isDone && level0Index == 14 && level3 == null && numBlocksYielded < numBlocksTotal
      modifies repr
      ensures Valid() && fresh(repr - old(repr))
      ensures r.Err? || r == Ok(None)
      ensures Stepped(old(Rest()), old(Measure()), r, Rest(), Measure())
    {
      var block := env.read(level0[14]);
      if block.Err? {
        return Err(block.error);
      }
      var child := new TripleIndirectBlockIter(env, block.value);
      level3, repr := child, repr + child.repr;
      assert Current() == Triple(env, level0);
      return Ok(None);
    }

    method PullLevel3() returns (next: Option<Result<nat>>)
      requires Valid() && level3 != null
      modifies repr
      ensures Valid() && fresh(repr - old(repr)) && level3 == old(level3)
      ensures isDone == old(isDone) && numBlocksYielded == old(numBlocksYielded)
      ensures Yielded(old(Current()), next, Current())
    {
      next := level3.Next();
      repr := repr + level3.repr;
    }

    method LeaveLevel3()
      requires Valid() && !isDone && level3 != null
      modifies this
      ensures Valid() && repr == old(repr) && isDone == old(isDone) && level0Index == 15
      ensures numBlocksYielded == old(numBlocksYielded) && Current() == Below(env, level0, 15)
      ensures Measure() < old(Measure())
    {
      level3 := null;
      level0Index := 15;
    }

    method FromLevel3() returns (r: Result<Option<nat>>)
      requires Valid() && !isDone && level3 != null && numBlocksYielded < numBlocksTotal
      modifies repr
      ensures Valid() && fresh(repr - old(repr))
      ensures Stepped(old(Rest()), old(Measure()), r, Rest(), Measure())
    {
      ghost var current := Current();
      var next := PullLevel3();
      ghost var after := Current();
      RootYields(env, level0, 14, current, next, after, numBlocksTotal - numBlocksYielded);
      if next.None? {
        LeaveLevel3();
        return Ok(None);
      }
      if next.value.Err? {
        return Err(next.value.error);
      }
      CountBlock();
      return Ok(Some(next.value.value));
    }

    /** `next_impl`. */
    method NextImpl() returns (r: Result<Option<nat>>)
      requires Valid() && !isDone
      modifies repr
      ensures Valid() && fresh(repr - old(repr))
      ensures Stepped(old(Rest()), old(Measure()), r, Rest(), Measure())
    {
      if numBlocksYielded >= numBlocksTotal {
        isDone := true;
        return Ok(None);
      }
      if level0Index >= |level0| {
        isDone := true;
        return Ok(None);
      }
      if level0Index <= 11 {
        var block := Direct();
        return Ok(Some(block));
      } else if level0Index == 12 {
        if level1 != null { r := FromLevel1(); } else { r := OpenLevel1(); }
      } else if level0Index == 13 {
        if level2 != null { r := FromLevel2(); } else { r := OpenLevel2(); }
      } else if level0Index == 14 {
        if level3 != null { r := FromLevel3(); } else { r := OpenLevel3(); }
      } else {
        assert false;  // the `todo!()` of the source
      }
    }

    /** `Iterator::next`. */
    method Next() returns (r: Option<Result<nat>>)
      requires Valid()
      modifies repr
      ensures Valid() && fresh(repr - old(repr))
      ensures Yielded(old(Rest()), r, Rest())
    {
      while true
        invariant Valid() && fresh(repr - old(repr)) && Rest() == old(Rest())
        decreases Measure()
      {
        if isDone {
          return None;
        }
        var step := NextImpl();
        if step.Err? {
          isDone := true;
          return Some(Err(step.error));
        }
        if step.value.Some? {
          return Some(Ok(step.value.value));
        }
      }
    }
  }
}
