// The walk of an extent tree with an explicit stack of nodes
// (src/iters/extents.rs), proved to yield the left-to-right flattening of the
// tree, as far as it gets, and to end exactly if the tree is finite.

module ExtentWalk {
  import opened Basics
  import opened ExtentTree

  // ----- the reference: a recursive walk

  /** What a walk yields, and how many steps it takes. */
  datatype Walked = Walked(extents: Stream<Extent>, steps: nat)

  /** Visit the entries of `item` that have not been visited, from left to right, up to
      the first error; nothing if that would go more than `h` levels down. */
  ghost function WalkWithin(v: Visitor, item: Item, h: nat): Option<Walked>
    decreases h, item.Left()
  {
    match v(item)
    case Done => Some(Walked(Stream([], None), 1))
    case Leaf(x) => Joined(Walked(Stream([x], None), 0), WalkWithin(v, item.Next(), h))
    case Broken(e) => Some(Walked(Stream([], Some(e)), 1))
    case Down(child) =>
      if h == 0 then None
      else match WalkWithin(v, child, h - 1)
        case None => None
        case Some(w) =>
          if w.extents.err.Some? then Some(w.(steps := w.steps + 1)) else Joined(w, WalkWithin(v, item.Next(), h))
  }

  /** A step and the walk `first`, and then the walk `rest`. */
  function Joined(first: Walked, rest: Option<Walked>): Option<Walked> {
    match rest
    case None => None
    case Some(w) => Some(Walked(first.extents.Then(w.extents), 1 + first.steps + w.steps))
  }

  lemma {:induction false} DeeperIsSame(v: Visitor, item: Item, h: nat, k: nat)
    requires WalkWithin(v, item, h).Some? && h <= k
    ensures WalkWithin(v, item, k) == WalkWithin(v, item, h)
    decreases h, item.Left()
  {
    match v(item)
    case Done =>
    case Leaf(x) => DeeperIsSame(v, item.Next(), h, k);
    case Broken(e) =>
    case Down(child) =>
      DeeperIsSame(v, child, h - 1, k - 1);
      if WalkWithin(v, child, h - 1).value.extents.err.None? {
        DeeperIsSame(v, item.Next(), h, k);
      }
  }

  /** The tree below `item` is finite, as far as a walk gets. */
  ghost predicate IsFinite(v: Visitor, item: Item) {
    exists h: nat :: WalkWithin(v, item, h).Some?
  }

  ghost function Tree(v: Visitor, item: Item): Walked
    requires IsFinite(v, item)
  {
    var h: nat :| WalkWithin(v, item, h).Some?;
    WalkWithin(v, item, h).value
  }

  lemma TreeIs(v: Visitor, item: Item, h: nat)
    requires WalkWithin(v, item, h).Some?
    ensures IsFinite(v, item) && Tree(v, item) == WalkWithin(v, item, h).value
  {
    var k: nat :| WalkWithin(v, item, k).Some? && Tree(v, item) == WalkWithin(v, item, k).value;
    if h <= k {
      DeeperIsSame(v, item, h, k);
    } else {
      DeeperIsSame(v, item, k, h);
    }
  }

  /** How the walk of a node starts. */
  ghost predicate Unfolds(v: Visitor, item: Item)
    requires IsFinite(v, item)
  {
    match v(item)
    case Done => Tree(v, item) == Walked(Stream([], None), 1)
    case Leaf(x) =>
      && IsFinite(v, item.Next())
      && Some(Tree(v, item)) == Joined(Walked(Stream([x], None), 0), Some(Tree(v, item.Next())))
    case Broken(e) => Tree(v, item) == Walked(Stream([], Some(e)), 1)
    case Down(child) =>
      && IsFinite(v, child)
      && var w := Tree(v, child);
         if w.extents.err.Some? then Tree(v, item) == w.(steps := w.steps + 1)
         else IsFinite(v, item.Next()) && Some(Tree(v, item)) == Joined(w, Some(Tree(v, item.Next())))
  }

  lemma TreeUnfolds(v: Visitor, item: Item)
    requires IsFinite(v, item)
    ensures Unfolds(v, item)
  {
    var h: nat :| WalkWithin(v, item, h).Some?;
    TreeIs(v, item, h);
    match v(item)
    case Done =>
    case Leaf(x) => TreeIs(v, item.Next(), h);
    case Broken(e) =>
    case Down(child) =>
      TreeIs(v, child, h - 1);
      if WalkWithin(v, child, h - 1).value.extents.err.None? {
        TreeIs(v, item.Next(), h);
      }
  }

  // ----- trees on disk

  /** The tree below a node is finite, as far as a walk gets. The source checks only
      that the depth in each node is at most five. */
  ghost predicate Finite(fs: Fs, item: Item)
    requires fs.Valid()
  {
    IsFinite(Visits(fs), item)
  }

  /** The extents below the entries of `item` that have not been visited, from
      left to right, up to the first error. */
  ghost function Flatten(fs: Fs, item: Item): Stream<Extent>
    requires fs.Valid() && Finite(fs, item)
  {
    Tree(Visits(fs), item).extents
  }

  /** Every child that can be loaded has a smaller depth than its parent. */
  ghost predicate Decreasing(v: Visitor, item: Item)
    decreases item.depth, item.Left()
  {
    !v(item).Done? ==>
      && Decreasing(v, item.Next())
      && (v(item).Down? ==> v(item).child.depth < item.depth && Decreasing(v, v(item).child))
  }

  lemma {:induction false} DecreasingWithin(v: Visitor, item: Item, h: nat)
    requires Decreasing(v, item) && item.depth <= h
    ensures WalkWithin(v, item, h).Some?
    decreases h, item.Left()
  {
    if !v(item).Done? {
      DecreasingWithin(v, item.Next(), h);
      if v(item).Down? {
        DecreasingWithin(v, v(item).child, h - 1);
      }
    }
  }

  /** A tree in which the depth decreases from parent to child is finite. */
  lemma DecreasingIsFinite(fs: Fs, item: Item)
    requires fs.Valid() && Decreasing(Visits(fs), item)
    ensures Finite(fs, item)
  {
    DecreasingWithin(Visits(fs), item, item.depth);
  }

  // ----- one step of the walk

  /** The result of `next_impl`, and the stack it leaves. The top of the stack
      is its last element. */
  datatype Step =
    | Finished
    | Moved(stack: seq<Item>)
    | Yielding(extent: Extent, stack: seq<Item>)
    | Failing(error: Error, stack: seq<Item>)

  function StepStack(v: Visitor, stack: seq<Item>): Step {
    if stack == [] then Finished
    else
      var below, top := stack[..|stack| - 1], stack[|stack| - 1];
      match v(top)
      case Done => Moved(below)
      case Leaf(x) => Yielding(x, below + [top.Next()])
      case Broken(e) => Failing(e, below + [top.Next()])
      case Down(child) => Moved(below + [top.Next()] + [child])
  }

  /** The walk of a stack ends: that of its top does, and then, unless that meets an
      error, that of the others. */
  ghost predicate StackEnds(v: Visitor, stack: seq<Item>)
    decreases |stack|
  {
    stack == [] ||
    (var top := stack[|stack| - 1];
     IsFinite(v, top) && (Tree(v, top).extents.err.None? ==> StackEnds(v, stack[..|stack| - 1])))
  }

  /** What a stack stands for: the rest of its top, then the rest of the others. */
  ghost function RestOf(v: Visitor, stack: seq<Item>): Walked
    requires StackEnds(v, stack)
    decreases |stack|
  {
    if stack == [] then Walked(Stream([], None), 0)
    else
      var top := Tree(v, stack[|stack| - 1]);
      if top.extents.err.Some? then top else After(top, RestOf(v, stack[..|stack| - 1]))
  }

  function After(first: Walked, rest: Walked): Walked {
    Walked(first.extents.Then(rest.extents), first.steps + rest.steps)
  }

  lemma Pushed(v: Visitor, below: seq<Item>, item: Item)
    requires IsFinite(v, item) && (Tree(v, item).extents.err.None? ==> StackEnds(v, below))
    ensures StackEnds(v, below + [item])
    ensures RestOf(v, below + [item]) ==
            if Tree(v, item).extents.err.Some? then Tree(v, item) else After(Tree(v, item), RestOf(v, below))
  {
    assert (below + [item])[..|below|] == below;
  }

  /** What a step leaves: less to do, and the same extents but for the one it yields. */
  ghost predicate StepsTo(v: Visitor, rest: Walked, first: seq<Extent>, t: seq<Item>) {
    && StackEnds(v, t) && RestOf(v, t).steps < rest.steps
    && rest.extents == Stream(first, None).Then(RestOf(v, t).extents)
  }

  lemma NothingFirst(s: Stream<Extent>)
    ensures Stream([], None).Then(s) == s
  {
    assert [] + s.items == s.items;
  }

  lemma StepDown(v: Visitor, below: seq<Item>, top: Item, child: Item)
    requires v(top) == Down(child) && StackEnds(v, below + [top]) && IsFinite(v, top)
    requires Tree(v, top).extents.err.None? ==> StackEnds(v, below)
    ensures StepsTo(v, RestOf(v, below + [top]), [], below + [top.Next()] + [child])
  {
    var next := top.Next();
    TreeUnfolds(v, top);
    Pushed(v, below, top);
    if Tree(v, child).extents.err.None? {
      Pushed(v, below, next);
    }
    Pushed(v, below + [next], child);
    NothingFirst(RestOf(v, below + [next] + [child]).extents);
    if Tree(v, child).extents.err.None? && Tree(v, next).extents.err.None? {
      ThenAssociative(Tree(v, child).extents, Tree(v, next).extents, RestOf(v, below).extents);
    }
  }

  lemma StepRight(v: Visitor, below: seq<Item>, top: Item, x: Extent)
    requires v(top) == Leaf(x) && StackEnds(v, below + [top]) && IsFinite(v, top)
    requires Tree(v, top).extents.err.None? ==> StackEnds(v, below)
    ensures StepsTo(v, RestOf(v, below + [top]), [x], below + [top.Next()])
  {
    var next := top.Next();
    TreeUnfolds(v, top);
    Pushed(v, below, top);
    Pushed(v, below, next);
    if Tree(v, next).extents.err.None? {
      ThenAssociative(Stream([x], None), Tree(v, next).extents, RestOf(v, below).extents);
    }
  }

  /** A step yields the first extent of what is left, or leaves all of it, and
      there is less to do; or it meets the error that is left. */
  lemma StepFollowsRest(v: Visitor, stack: seq<Item>)
    requires stack != [] && StackEnds(v, stack)
    ensures var s := StepStack(v, stack);
            && !s.Finished?
            && (s.Moved? ==> StepsTo(v, RestOf(v, stack), [], s.stack))
            && (s.Yielding? ==> StepsTo(v, RestOf(v, stack), [s.extent], s.stack))
            && (s.Failing? ==> RestOf(v, stack).extents == Stream([], Some(s.error)))
  {
    var below, top := stack[..|stack| - 1], stack[|stack| - 1];
    assert stack == below + [top];
    match v(top)
    case Leaf(x) => StepRight(v, below, top, x);
    case Down(child) => StepDown(v, below, top, child);
    case Broken(e) => TreeUnfolds(v, top);
    case Done =>
      TreeUnfolds(v, top);
      NothingFirst(RestOf(v, below).extents);
  }

  /** The node has a whole number of entries, at most as many as its header
      can count, and the current one is not past the end by more than one. */
  predicate EntryInBounds(item: Item) {
    && |item.node| % ENTRY_SIZE == 0 && |item.node| <= U16_LIMIT * ENTRY_SIZE
    && item.entry * ENTRY_SIZE <= |item.node|
  }

  /** The entry arithmetic never leaves the 32-bit range: every step keeps all
      entries on the stack in bounds. */
  lemma StepKeepsBounds(fs: Fs, stack: seq<Item>)
    requires fs.Valid() && forall i :: 0 <= i < |stack| ==> EntryInBounds(stack[i])
    ensures var s := StepStack(Visits(fs), stack);
            !s.Finished? ==> forall i :: 0 <= i < |s.stack| ==> EntryInBounds(s.stack[i])
    ensures forall i :: 0 <= i < |stack| ==> (stack[i].entry + 2) * ENTRY_SIZE < U32_LIMIT
  {
    if stack != [] {
      TopKeepsBounds(fs, stack[|stack| - 1]);
    }
  }

  lemma TopKeepsBounds(fs: Fs, top: Item)
    requires fs.Valid() && EntryInBounds(top)
    ensures var s := Visits(fs)(top);
            (!s.Done? ==> EntryInBounds(top.Next())) && (s.Down? ==> EntryInBounds(s.child))
  {
    var item := top.Next();
    if item.Entry().Some? && LoadChild(fs, item.Entry().value).Ok? {
      ChildInBounds(fs, item.Entry().value);
    }
  }

  lemma ChildInBounds(fs: Fs, entry: Bytes)
    requires fs.Valid() && |entry| == ENTRY_SIZE
    ensures LoadChild(fs, entry).Ok? ==> EntryInBounds(LoadChild(fs, entry).value)
  {
  }

  // ----- walks of any tree

  /** What the walk of a stack yields within some steps: the extents, and if it is over
      by then, also its error or its end. */
  datatype Partial = Partial(extents: Stream<Extent>, over: bool)

  ghost function RunFor(v: Visitor, stack: seq<Item>, n: nat): Partial
    decreases n
  {
    if n == 0 then Partial(Stream([], None), false)
    else match StepStack(v, stack)
      case Finished => Partial(Stream([], None), true)
      case Failing(e, _) => Partial(Stream([], Some(e)), true)
      case Moved(t) => RunFor(v, t, n - 1)
      case Yielding(x, t) => YieldFirst(x, RunFor(v, t, n - 1))
  }

  function YieldFirst(x: Extent, p: Partial): Partial {
    Partial(Stream([x] + p.extents.items, p.extents.err), p.over)
  }

  /** The walk of a tree, within some steps. */
  ghost function WalkFor(fs: Fs, root: Item, n: nat): Partial
    requires fs.Valid()
  {
    RunFor(Visits(fs), [root], n)
  }

  /** More steps yield the same and more; once the walk is over, just the same. */
  lemma {:induction false} RunExtends(v: Visitor, stack: seq<Item>, n: nat, m: nat)
    requires n <= m
    ensures RunFor(v, stack, n).extents.items <= RunFor(v, stack, m).extents.items
    ensures RunFor(v, stack, n).over ==> RunFor(v, stack, m) == RunFor(v, stack, n)
    decreases n
  {
    if n > 0 {
      var s := StepStack(v, stack);
      if s.Moved? || s.Yielding? {
        RunExtends(v, s.stack, n - 1, m - 1);
      }
    }
  }

  /** The walk of a finite tree is its flattening, given enough steps. */
  lemma {:induction false} RunOfFinite(v: Visitor, stack: seq<Item>, n: nat)
    requires StackEnds(v, stack) && RestOf(v, stack).steps < n
    ensures RunFor(v, stack, n) == Partial(RestOf(v, stack).extents, true)
    decreases n
  {
    if stack != [] {
      StepFollowsRest(v, stack);
      var s := StepStack(v, stack);
      if s.Moved? {
        RunOfFinite(v, s.stack, n - 1);
        NothingFirst(RestOf(v, s.stack).extents);
      } else if s.Yielding? {
        RunOfFinite(v, s.stack, n - 1);
      }
    }
  }

  lemma RunOfTree(v: Visitor, root: Item) returns (n: nat)
    requires IsFinite(v, root)
    ensures RunFor(v, [root], n) == Partial(Tree(v, root).extents, true)
  {
    Pushed(v, [], root);
    assert [] + [root] == [root];
    n := RestOf(v, [root]).steps + 1;
    RunOfFinite(v, [root], n);
    assert Tree(v, root).extents.items + [] == Tree(v, root).extents.items;
  }

  lemma WalkOfFinite(fs: Fs, root: Item) returns (n: nat)
    requires fs.Valid() && Finite(fs, root)
    ensures WalkFor(fs, root, n) == Partial(Flatten(fs, root), true)
  {
    n := RunOfTree(Visits(fs), root);
  }

  // ----- the iterator

  /** Nodes are visited as the disk says. */
  ghost predicate Follows(v: Visitor, fs: Fs)
    requires fs.Valid()
  {
    forall item {:trigger VisitNext(fs, item)} :: v(item) == VisitNext(fs, item)
  }

  lemma SameStep(v: Visitor, fs: Fs, stack: seq<Item>)
    requires fs.Valid() && Follows(v, fs)
    ensures StepStack(v, stack) == StepStack(Visits(fs), stack)
  {
    if stack != [] {
      assert v(stack[|stack| - 1]) == VisitNext(fs, stack[|stack| - 1]);
    }
  }

  ghost predicate Runs(v: Visitor, stack: seq<Item>, n: nat, p: Partial) {
    p == RunFor(v, stack, n)
  }

  ghost predicate WillRun(v: Visitor, stack: seq<Item>, n: nat, p: Partial) {
    forall q :: Runs(v, stack, n, q) ==> q == p
  }

  ghost predicate Steps(v: Visitor, stack: seq<Item>, s: Step) {
    s == StepStack(v, stack)
  }

  ghost predicate WillStep(v: Visitor, stack: seq<Item>, s: Step) {
    forall q :: Steps(v, stack, q) ==> q == s
  }

  /** The next step of a run that has more to yield. */
  lemma StepOfRun(v: Visitor, stack: seq<Item>, n: nat, p: Partial, s: Step)
    requires WillRun(v, stack, n, p) && WillStep(v, stack, s) && (p.over || p.extents.items != [])
    ensures n > 0
    ensures s.Finished? ==> p == Partial(Stream([], None), true)
    ensures s.Failing? ==> p == Partial(Stream([], Some(s.error)), true)
    ensures s.Moved? ==> WillRun(v, s.stack, n - 1, p)
    ensures s.Yielding? ==>
              && p.extents.items != [] && p.extents.items[0] == s.extent
              && WillRun(v, s.stack, n - 1, Partial(p.extents.Skip(1), p.over))
  {
    assert Runs(v, stack, n, RunFor(v, stack, n)) && Steps(v, stack, StepStack(v, stack));
    if s.Yielding? {
      assert ([s.extent] + RunFor(v, s.stack, n - 1).extents.items)[1..] == RunFor(v, s.stack, n - 1).extents.items;
    }
  }

  class Extents {
    const fs: Fs
    var toVisit: seq<Item>
    var isDone: bool
    /** How nodes are visited. */
    ghost const visit: Visitor
    /** What is left to yield, and whether that is all, ... */
    ghost var rest: Stream<Extent>
    ghost var over: bool
    /** ... within so many steps. */
    ghost var left: nat

    ghost predicate Valid()
      reads this
    {
      && fs.Valid() && Follows(visit, fs)
      && if isDone then rest == Stream([], None) && over
         else WillRun(visit, toVisit, left, Partial(rest, over))
    }

    /** A new iterator, with what it yields in the first `steps` steps. */
    constructor (fs: Fs, root: Item, ghost steps: nat)
      requires fs.Valid()
      ensures Valid() && this.fs == fs && Partial(rest, over) == WalkFor(fs, root, steps)
    {
      this.fs := fs;
      toVisit := [root];
      isDone := false;
      visit := Visits(fs);
      rest, over := WalkFor(fs, root, steps).extents, WalkFor(fs, root, steps).over;
      left := steps;
    }

    /** `next_impl`. */
    method NextImpl() returns (r: Result<Option<Extent>>)
      requires fs.Valid() && !isDone
      modifies `toVisit, `isDone
      ensures match StepStack(Visits(fs), old(toVisit))
              case Finished => r == Ok(None) && isDone && toVisit == old(toVisit)
              case Moved(t) => r == Ok(None) && toVisit == t && !isDone
              case Yielding(x, t) => r == Ok(Some(x)) && toVisit == t && !isDone
              case Failing(e, t) => r == Err(e) && toVisit == t && !isDone
    {
      if toVisit == [] {
        isDone := true;
        return Ok(None);
      }
      var below := toVisit[..|toVisit| - 1];
      var item := toVisit[|toVisit| - 1].Next();
      toVisit := below + [item];
      var entry := item.Entry();
      if entry.None? {
        toVisit := below;
        return Ok(None);
      }
      if item.depth == 0 {
        return Ok(Some(ReadExtent(entry.value)));
      }
      var child := LoadChild(fs, entry.value);
      if child.Err? {
        return Err(child.error);
      }
      toVisit := toVisit + [child.value];
      return Ok(None);
    }

    method TakeStep() returns (r: Result<Option<Extent>>, ghost s: Step)
      requires fs.Valid() && Follows(visit, fs) && !isDone
      modifies `toVisit, `isDone
      ensures WillStep(visit, old(toVisit), s)
      ensures isDone == s.Finished?
      ensures s.Finished? ==> r == Ok(None)
      ensures s.Moved? ==> r == Ok(None) && toVisit == s.stack
      ensures s.Yielding? ==> r == Ok(Some(s.extent)) && toVisit == s.stack
      ensures s.Failing? ==> r == Err(s.error)
    {
      SameStep(visit, fs, toVisit);
      s := StepStack(visit, toVisit);
      r := NextImpl();
    }

    /** One round of `Iterator::next`. */
    method TryNext() returns (r: Result<Option<Extent>>)
      requires Valid() && !isDone && (over || rest.items != [])
      modifies this
      ensures over == old(over) && (isDone ==> r == Ok(None))
      ensures r.Err? ==> over && old(rest) == Stream([], Some(r.error))
      ensures r.Ok? ==> Valid()
      ensures r == Ok(None) ==> rest == old(rest) && (isDone || left < old(left))
      ensures r.Ok? && r.value.Some? ==> Yielded(old(rest), Some(Ok(r.value.value)), rest)
    {
      ghost var stack, p, s := toVisit, Partial(rest, over), Finished;
      r, s := TakeStep();
      StepOfRun(visit, stack, left, p, s);
      if !isDone && r.Ok? {
        left := left - 1;
        rest := if r.value.None? then rest else rest.Skip(1);
      }
    }

    /** `Iterator::next`, as `impl_result_iter!` (src/iters.rs) defines it:
        retry until there is an item, an error or the end. The loop ends if the walk
        gets to one of them. */
    method Next() returns (r: Option<Result<Extent>>)
      requires Valid() && (over || rest.items != [])
      modifies this
      ensures Valid() && over == old(over)
      ensures Yielded(old(rest), r, rest)
    {
      while true
        invariant Valid() && rest == old(rest) && over == old(over)
        decreases if isDone then 0 else 1 + left
      {
        if isDone {
          return None;
        }
        var step := TryNext();
        if step.Err? {
          isDone, rest := true, Stream([], None);
          return Some(Err(step.error));
        }
        if step.value.Some? {
          return Some(Ok(step.value.value));
        }
      }
    }
  }

  // ----- exactly when the walk ends

  /** The walk comes to its end, or to an error, within `n` steps. */
  ghost predicate StopsWithin(v: Visitor, stack: seq<Item>, n: nat) {
    RunFor(v, stack, n).over
  }

  /** A walk that stops has walked its top, and unless that met an error, goes on with
      the others. */
  ghost predicate TopWalked(v: Visitor, below: seq<Item>, item: Item, n: nat) {
    && WalkWithin(v, item, n).Some?
    && var w := WalkWithin(v, item, n).value;
       w.extents.err.None? ==> w.steps <= n && StopsWithin(v, below, n - w.steps)
  }

  lemma {:induction false} StopsAfterTop(v: Visitor, below: seq<Item>, item: Item, n: nat)
    requires StopsWithin(v, below + [item], n)
    ensures TopWalked(v, below, item, n)
    decreases n, 1
  {
    var stack := below + [item];
    assert stack[..|stack| - 1] == below && stack[|stack| - 1] == item;
    match v(item)
    case Done =>
    case Leaf(x) => StopsAfterLeaf(v, below, item, n);
    case Broken(e) =>
    case Down(child) => StopsAfterChild(v, below, item, child, n);
  }

  lemma {:induction false} StopsAfterLeaf(v: Visitor, below: seq<Item>, item: Item, n: nat)
    requires v(item).Leaf? && n > 0 && StopsWithin(v, below + [item.Next()], n - 1)
    ensures TopWalked(v, below, item, n)
    decreases n, 0
  {
    StopsAfterTop(v, below, item.Next(), n - 1);
    DeeperIsSame(v, item.Next(), n - 1, n);
  }

  lemma {:induction false} StopsAfterChild(v: Visitor, below: seq<Item>, item: Item, child: Item, n: nat)
    requires v(item) == Down(child) && n > 0 && StopsWithin(v, below + [item.Next()] + [child], n - 1)
    ensures TopWalked(v, below, item, n)
    decreases n, 0
  {
    StopsAfterTop(v, below + [item.Next()], child, n - 1);
    var w := WalkWithin(v, child, n - 1).value;
    if w.extents.err.None? {
      StopsAfterTop(v, below, item.Next(), n - 1 - w.steps);
      WalkedBoth(v, below, item, child, w, n);
    } else {
      assert WalkWithin(v, item, n) == Some(w.(steps := w.steps + 1));
    }
  }

  /** The walk of a child, and then that of the rest of its parent. */
  lemma WalkedBoth(v: Visitor, below: seq<Item>, item: Item, child: Item, w: Walked, n: nat)
    requires v(item) == Down(child) && n > w.steps && WalkWithin(v, child, n - 1) == Some(w) && w.extents.err.None?
    requires TopWalked(v, below, item.Next(), n - 1 - w.steps)
    ensures TopWalked(v, below, item, n)
  {
    var k := n - 1 - w.steps;
    var next := WalkWithin(v, item.Next(), k);
    DeeperIsSame(v, item.Next(), k, n);
    assert WalkWithin(v, item, n) == Joined(w, next);
  }

  ghost predicate Stops(v: Visitor, root: Item) {
    exists n: nat :: StopsWithin(v, [root], n)
  }

  lemma StopsIfFinite(v: Visitor, root: Item)
    requires IsFinite(v, root)
    ensures Stops(v, root)
  {
    var n := RunOfTree(v, root);
    assert StopsWithin(v, [root], n);
  }

  lemma FiniteIfStops(v: Visitor, root: Item)
    requires Stops(v, root)
    ensures IsFinite(v, root)
  {
    var n: nat :| StopsWithin(v, [root], n);
    assert [] + [root] == [root];
    StopsAfterTop(v, [], root, n);
  }

  /** The walk of a tree ends if and only if the tree is finite, as far as it gets. */
  lemma WalkEndsExactly(fs: Fs, root: Item)
    requires fs.Valid()
    ensures Stops(Visits(fs), root) <==> Finite(fs, root)
  {
    if Finite(fs, root) {
      StopsIfFinite(Visits(fs), root);
    }
    if Stops(Visits(fs), root) {
      FiniteIfStops(Visits(fs), root);
    }
  }
}
