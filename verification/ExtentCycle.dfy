// When the walk of an extent tree never ends (src/iters/extents.rs): exactly if it
// gets to a node that leads back to itself.

module ExtentCycle {
  import opened Basics
  import opened ExtentTree
  import opened ExtentWalk

  // ----- what the walk gets to

  /** The walk of `item` gets to `child`, one level below: what comes before it in the
      node is walked without an error. */
  ghost predicate Enters(v: Visitor, item: Item, child: Item)
    decreases item.Left()
  {
    match v(item)
    case Done => false
    case Broken(_) => false
    case Leaf(_) => Enters(v, item.Next(), child)
    case Down(c) =>
      || c == child
      || (IsFinite(v, c) && Tree(v, c).extents.err.None? && Enters(v, item.Next(), child))
  }

  /** Each node of the path is one that the walk of the node before it gets to. */
  ghost predicate IsPath(v: Visitor, path: seq<Item>) {
    forall i :: 0 <= i < |path| - 1 ==> Enters(v, path[i], path[i + 1])
  }

  /** The walk of `from` gets to `to`, some levels below. */
  ghost predicate GetsTo(v: Visitor, from: Item, to: Item) {
    exists path :: IsPathTo(v, path, from, to)
  }

  ghost predicate IsPathTo(v: Visitor, path: seq<Item>, from: Item, to: Item) {
    |path| > 1 && path[0] == from && path[|path| - 1] == to && IsPath(v, path)
  }

  /** The walk of `root` gets to a node whose walk gets back to it. */
  ghost predicate MeetsCycle(v: Visitor, root: Item) {
    exists node :: GetsTo(v, root, node) && GetsTo(v, node, node)
  }

  // ----- a cycle has no end

  lemma {:induction false} EnteredWithin(v: Visitor, item: Item, child: Item, h: nat)
    requires Enters(v, item, child) && WalkWithin(v, item, h).Some?
    ensures h > 0 && WalkWithin(v, child, h - 1).Some?
    decreases item.Left()
  {
    match v(item)
    case Done =>
    case Broken(_) =>
    case Leaf(_) => EnteredWithin(v, item.Next(), child, h);
    case Down(c) =>
      if c != child {
        TreeIs(v, c, h - 1);
        EnteredWithin(v, item.Next(), child, h);
      }
  }

  /** Each node of a path is walked within one level less. */
  lemma {:induction false} PathWithin(v: Visitor, path: seq<Item>, h: nat, k: nat)
    requires IsPath(v, path) && k < |path| && WalkWithin(v, path[0], h).Some?
    ensures k <= h && WalkWithin(v, path[k], h - k).Some?
    decreases k
  {
    if k > 0 {
      PathWithin(v, path, h, k - 1);
      EnteredWithin(v, path[k - 1], path[k], h - (k - 1));
    }
  }

  lemma {:induction false} NotOnCycle(v: Visitor, path: seq<Item>, node: Item, h: nat)
    requires IsPathTo(v, path, node, node)
    ensures WalkWithin(v, node, h).None?
    decreases h
  {
    if WalkWithin(v, node, h).Some? {
      var k := |path| - 1;
      PathWithin(v, path, h, k);
      NotOnCycle(v, path, node, h - k);
    }
  }

  lemma CycleIsInfinite(v: Visitor, root: Item)
    requires MeetsCycle(v, root)
    ensures !IsFinite(v, root)
  {
    var node :| GetsTo(v, root, node) && GetsTo(v, node, node);
    var to :| IsPathTo(v, to, root, node);
    var back :| IsPathTo(v, back, node, node);
    if h: nat :| WalkWithin(v, root, h).Some? {
      var k := |to| - 1;
      PathWithin(v, to, h, k);
      NotOnCycle(v, back, node, h - k);
    }
  }

  /** The walk of a node whose first child is the node itself never yields anything. */
  lemma {:induction false} CycleNeverEnds(v: Visitor, below: seq<Item>, node: Item, n: nat)
    requires v(node) == Down(node)
    ensures RunFor(v, below + [node], n) == Partial(Stream([], None), false)
    decreases n
  {
    if n > 0 {
      var stack := below + [node];
      assert stack[..|stack| - 1] == below;
      CycleNeverEnds(v, below + [node.Next()], node, n - 1);
    }
  }

  // ----- what has no end has a cycle

  /** The walk of the rest of a node, after the next entry, does not matter or ends. */
  ghost predicate RestEnds(v: Visitor, item: Item) {
    match v(item)
    case Done => true
    case Broken(_) => true
    case Leaf(_) => IsFinite(v, item.Next())
    case Down(c) => IsFinite(v, c) && (Tree(v, c).extents.err.Some? || IsFinite(v, item.Next()))
  }

  lemma FiniteChildren(v: Visitor, item: Item)
    requires RestEnds(v, item)
    ensures IsFinite(v, item)
  {
    match v(item)
    case Done => assert WalkWithin(v, item, 0).Some?;
    case Broken(_) => assert WalkWithin(v, item, 0).Some?;
    case Leaf(_) =>
      var h: nat :| WalkWithin(v, item.Next(), h).Some?;
      assert WalkWithin(v, item, h).Some?;
    case Down(c) => FiniteAfterChild(v, item, c);
  }

  lemma FiniteAfterChild(v: Visitor, item: Item, c: Item)
    requires v(item) == Down(c) && IsFinite(v, c) && (Tree(v, c).extents.err.Some? || IsFinite(v, item.Next()))
    ensures IsFinite(v, item)
  {
    var h: nat :| WalkWithin(v, c, h).Some?;
    TreeIs(v, c, h);
    if Tree(v, c).extents.err.Some? {
      assert WalkWithin(v, item, h + 1).Some?;
    } else {
      var k: nat :| WalkWithin(v, item.Next(), k).Some?;
      var n := if h + 1 <= k then k else h + 1;
      DeeperIsSame(v, c, h, n - 1);
      DeeperIsSame(v, item.Next(), k, n);
      assert WalkWithin(v, item, n).Some?;
    }
  }

  /** A node whose walk does not end leads to another one. */
  lemma {:induction false} InfiniteChild(v: Visitor, item: Item) returns (child: Item)
    requires !IsFinite(v, item)
    ensures Enters(v, item, child) && !IsFinite(v, child)
    decreases item.Left()
  {
    if RestEnds(v, item) {
      FiniteChildren(v, item);
    }
    if v(item).Down? && !IsFinite(v, v(item).child) {
      child := v(item).child;
    } else {
      child := InfiniteChild(v, item.Next());
    }
  }

  /** Each node below another one is in one of `limit` blocks. */
  ghost predicate InBlocks(v: Visitor, load: nat -> Result<Item>, limit: nat) {
    forall item :: v(item).Down? ==> exists b :: 0 <= b < limit && load(b) == Ok(v(item).child)
  }

  lemma {:induction false} EnteredInBlock(v: Visitor, load: nat -> Result<Item>, limit: nat, item: Item, child: Item)
      returns (b: nat)
    requires InBlocks(v, load, limit) && Enters(v, item, child)
    ensures b < limit && load(b) == Ok(child)
    decreases item.Left()
  {
    if v(item) == Down(child) {
      b :| 0 <= b < limit && load(b) == Ok(child);
    } else {
      b := EnteredInBlock(v, load, limit, item.Next(), child);
    }
  }

  ghost predicate Distinct(bs: seq<nat>) {
    forall i, j :: 0 <= i < j < |bs| ==> bs[i] != bs[j]
  }

  /** There are at most `limit` different numbers below `limit`. */
  lemma {:induction false} DistinctIsShort(bs: seq<nat>, limit: nat)
    requires Distinct(bs) && forall i :: 0 <= i < |bs| ==> bs[i] < limit
    ensures |bs| <= limit
    decreases limit
  {
    if bs != [] {
      assert bs[0] < limit;
      var top := limit - 1;
      if i :| 0 <= i < |bs| && bs[i] == top {
        DistinctIsShort(bs[..i] + bs[i + 1..], top);
      } else {
        DistinctIsShort(bs, top);
      }
    }
  }

  /** A path of nodes whose walks do not end, which are in the blocks `bs`. */
  ghost predicate InfinitePath(v: Visitor, load: nat -> Result<Item>, limit: nat, path: seq<Item>, bs: seq<nat>) {
    && |path| == |bs| + 1 && IsPath(v, path) && Distinct(bs) && !IsFinite(v, path[|bs|])
    && forall i :: 0 <= i < |bs| ==> bs[i] < limit && load(bs[i]) == Ok(path[i + 1])
  }

  /** The part of a path from one of its nodes on. */
  lemma PartOfPath(v: Visitor, path: seq<Item>, i: nat)
    requires IsPath(v, path) && i + 1 < |path|
    ensures IsPathTo(v, path[i..], path[i], path[|path| - 1])
  {
  }

  /** A path that comes back to one of its nodes has met a cycle. */
  lemma RepeatIsCycle(v: Visitor, path: seq<Item>, i: nat)
    requires IsPath(v, path) && 0 < i < |path| - 1 && path[i] == path[|path| - 1]
    ensures MeetsCycle(v, path[0])
  {
    PartOfPath(v, path, i);
    PartOfPath(v, path, 0);
    assert path[0..] == path;
    assert GetsTo(v, path[i], path[i]) && GetsTo(v, path[0], path[i]);
  }

  lemma LongerPath(v: Visitor, path: seq<Item>, child: Item)
    requires path != [] && IsPath(v, path) && Enters(v, path[|path| - 1], child)
    ensures IsPath(v, path + [child])
  {
  }

  lemma {:induction false} FindCycle(v: Visitor, load: nat -> Result<Item>, limit: nat, path: seq<Item>, bs: seq<nat>)
    requires InBlocks(v, load, limit) && InfinitePath(v, load, limit, path, bs)
    ensures MeetsCycle(v, path[0])
    decreases limit + 1 - |bs|
  {
    DistinctIsShort(bs, limit);
    var child := InfiniteChild(v, path[|bs|]);
    var b := EnteredInBlock(v, load, limit, path[|bs|], child);
    LongerPath(v, path, child);
    if i :| 0 <= i < |bs| && bs[i] == b {
      RepeatIsCycle(v, path + [child], i + 1);
    } else {
      FindCycle(v, load, limit, path + [child], bs + [b]);
    }
  }

  lemma InfiniteMeetsCycle(v: Visitor, load: nat -> Result<Item>, limit: nat, root: Item)
    requires InBlocks(v, load, limit) && !IsFinite(v, root)
    ensures MeetsCycle(v, root)
  {
    FindCycle(v, load, limit, [root], []);
  }

  // ----- trees on disk

  lemma NodesAreInBlocks(fs: Fs)
    requires fs.Valid()
    ensures InBlocks(Visits(fs), (b: nat) => LoadNode(fs, b), U48_LIMIT)
  {
    var load := (b: nat) => LoadNode(fs, b);
    forall item | Visits(fs)(item).Down?
      ensures exists b :: 0 <= b < U48_LIMIT && load(b) == Ok(Visits(fs)(item).child)
    {
      var b := ChildBlock(item.Next().Entry().value);
      assert load(b) == Ok(Visits(fs)(item).child);
    }
  }

  /** A tree is finite if and only if its walk gets to no node that leads back to itself. */
  lemma FiniteExactly(fs: Fs, root: Item)
    requires fs.Valid()
    ensures Finite(fs, root) <==> !MeetsCycle(Visits(fs), root)
  {
    if MeetsCycle(Visits(fs), root) {
      CycleIsInfinite(Visits(fs), root);
    }
    if !Finite(fs, root) {
      NodesAreInBlocks(fs);
      InfiniteMeetsCycle(Visits(fs), (b: nat) => LoadNode(fs, b), U48_LIMIT, root);
    }
  }

  /** The walk of a tree ends, or meets an error, if and only if it gets to no node
      that leads back to itself. */
  lemma WalkEndsUnlessCyclic(fs: Fs, root: Item)
    requires fs.Valid()
    ensures Stops(Visits(fs), root) <==> !MeetsCycle(Visits(fs), root)
  {
    WalkEndsExactly(fs, root);
    FiniteExactly(fs, root);
  }
}
