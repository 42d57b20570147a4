// The iteration guard of path resolution (src/resolve.rs): the loop ends without
// it, but it can be reached. Exactly when it fails is stated for every
// filesystem, and as a bound that a caller can check.

module ResolveGuard {
  import opened Basics
  import opened Arithmetic
  import opened Paths
  import opened ResolveSpec
  import opened ResolveProps

  // ----- how many iterations

  /** Number of iterations that a run takes when nothing limits them. */
  function Iterations(fs: Fs, follow: FollowSymlinks, w: Walk): nat
    requires w.links <= MAX_SYMLINKS
    decreases MAX_SYMLINKS - w.links, |w.todo|
  {
    if w.todo == [] then 0
    else match Advance(fs, follow, w)
      case Stop(_) => 1
      case Go(next) => 1 + Iterations(fs, follow, next)
  }

  lemma {:induction false} GuardIsExact(fs: Fs, follow: FollowSymlinks, w: Walk, limit: nat)
    requires w.links <= MAX_SYMLINKS && w.iters <= limit
    ensures Run(fs, follow, w, limit).Aborted? <==> w.iters + Iterations(fs, follow, w) > limit
    decreases MAX_SYMLINKS - w.links, |w.todo|
  {
    if w.todo != [] && w.iters < limit {
      AdvanceMakesProgress(fs, follow, w);
      var s := Advance(fs, follow, w);
      if s.Go? {
        GuardIsExact(fs, follow, s.next, limit);
      }
    }
  }

  lemma ComponentBound(w: Walk)
    requires Inv(w)
    ensures |w.todo| <= MAX_COMPONENTS
  {
    RenderLength(w.done, w.todo, w.slash);
    SlashedShape(w.todo);
  }

  lemma {:induction false} IterationBoundFrom(fs: Fs, follow: FollowSymlinks, w: Walk)
    requires fs.Valid() && Inv(w)
    ensures Iterations(fs, follow, w) <= |w.todo| + (MAX_SYMLINKS - w.links) * MAX_COMPONENTS
    decreases MAX_SYMLINKS - w.links, |w.todo|
  {
    if w.todo != [] {
      var s := Advance(fs, follow, w);
      AdvanceInv(fs, follow, w);
      AdvanceMakesProgress(fs, follow, w);
      if s.Go? {
        ComponentBound(s.next);
        IterationBoundFrom(fs, follow, s.next);
      }
    }
  }

  /** The loop ends within 41 * 2048 iterations on any filesystem and path,
      so a guard of that size can never fail. */
  lemma IterationBound(fs: Fs, path: Bytes, follow: FollowSymlinks, limit: nat)
    requires fs.Valid() && ValidPath(path)
    requires limit >= (MAX_SYMLINKS + 1) * MAX_COMPONENTS
    ensures !ResolveWithin(fs, path, follow, limit).Aborted?
  {
    if IsAbsolute(path) && |path| <= MAX_PATH_LEN && fs.root.Ok? {
      var w := Start(fs.root.value, path);
      StartInv(fs.root.value, path);
      ComponentBound(w);
      IterationBoundFrom(fs, follow, w);
      GuardIsExact(fs, follow, w, limit);
    }
  }

  lemma {:induction false} LimitIrrelevantFrom(fs: Fs, follow: FollowSymlinks, w: Walk, a: nat, b: nat)
    requires w.links <= MAX_SYMLINKS && a <= b
    requires !Run(fs, follow, w, a).Aborted?
    ensures Run(fs, follow, w, b) == Run(fs, follow, w, a)
    decreases MAX_SYMLINKS - w.links, |w.todo|
  {
    if w.todo != [] && Advance(fs, follow, w).Go? {
      LimitIrrelevantFrom(fs, follow, Advance(fs, follow, w).next, a, b);
    }
  }

  /** When the guard does not fail, it does not matter either: the outcome is
      the one an unguarded loop would reach. */
  lemma GuardChangesNothingElse(fs: Fs, path: Bytes, follow: FollowSymlinks, limit: nat)
    requires limit >= MAX_ITERATIONS
    requires !Resolve(fs, path, follow).Aborted?
    ensures ResolveWithin(fs, path, follow, limit) == Resolve(fs, path, follow)
  {
    if IsAbsolute(path) && |path| <= MAX_PATH_LEN && fs.root.Ok? {
      LimitIrrelevantFrom(fs, follow, Start(fs.root.value, path), MAX_ITERATIONS, limit);
    }
  }

  // ----- exactly when the guard fails

  /** The components of the link target that a step splices into the path. */
  function Added(fs: Fs, follow: FollowSymlinks, w: Walk): seq<Bytes>
    requires w.todo != []
  {
    var s := Advance(fs, follow, w);
    if s.Go? && s.next.links > w.links then
      Comps(SymlinkTarget(fs, fs.lookup(w.inode, w.todo[0]).value).value)
    else []
  }

  /** A step consumes one component and adds those of the link it follows. */
  ghost predicate Counted(w: Walk, next: Walk, added: nat) {
    && next.iters == w.iters + 1 && |next.todo| + 1 == |w.todo| + added
    && (next.links == w.links + 1 || (next.links == w.links && added == 0))
  }

  lemma StepCounts(fs: Fs, follow: FollowSymlinks, w: Walk)
    requires w.todo != [] && Advance(fs, follow, w).Go?
    ensures Counted(w, Advance(fs, follow, w).next, |Added(fs, follow, w)|)
    ensures Advance(fs, follow, w).next.links <= MAX_SYMLINKS || Advance(fs, follow, w).next.links == w.links
  {
  }

  /** The walk after `n` steps, or fewer if nothing is left to do. */
  function WalkFor(fs: Fs, follow: FollowSymlinks, w: Walk, n: nat): Step
    decreases n
  {
    if n == 0 || w.todo == [] then Go(w)
    else match Advance(fs, follow, w)
      case Stop(e) => Stop(e)
      case Go(next) => WalkFor(fs, follow, next, n - 1)
  }

  /** How many components the links followed in the first `n` steps add. */
  function Spliced(fs: Fs, follow: FollowSymlinks, w: Walk, n: nat): nat
    decreases n
  {
    if n == 0 || w.todo == [] then 0
    else match Advance(fs, follow, w)
      case Stop(_) => 0
      case Go(next) => |Added(fs, follow, w)| + Spliced(fs, follow, next, n - 1)
  }

  /** Conservation: the steps taken and the components left are the components of
      the path and those of the followed links. */
  lemma {:induction false} ComponentsAreConserved(fs: Fs, follow: FollowSymlinks, w: Walk, n: nat)
    requires WalkFor(fs, follow, w, n).Go?
    ensures var v := WalkFor(fs, follow, w, n).next;
            && v.iters + |v.todo| == w.iters + |w.todo| + Spliced(fs, follow, w, n)
            && v.iters <= w.iters + n && (v.todo != [] ==> v.iters == w.iters + n)
    decreases n
  {
    if n > 0 && w.todo != [] {
      StepCounts(fs, follow, w);
      var next := Advance(fs, follow, w).next;
      assert WalkFor(fs, follow, w, n) == WalkFor(fs, follow, next, n - 1);
      ComponentsAreConserved(fs, follow, next, n - 1);
    }
  }

  lemma {:induction false} AbortsFrom(fs: Fs, follow: FollowSymlinks, w: Walk, limit: nat)
    requires w.links <= MAX_SYMLINKS && w.iters <= limit
    ensures Run(fs, follow, w, limit).Aborted? <==>
            && WalkFor(fs, follow, w, limit - w.iters).Go?
            && w.iters + |w.todo| + Spliced(fs, follow, w, limit - w.iters) > limit
    decreases MAX_SYMLINKS - w.links, |w.todo|
  {
    if w.todo != [] && w.iters < limit {
      var s := Advance(fs, follow, w);
      if s.Go? {
        AdvanceMakesProgress(fs, follow, w);
        StepCounts(fs, follow, w);
        AbortsFrom(fs, follow, s.next, limit);
      }
    }
  }

  /** On every filesystem, the assertion on the iteration count fails exactly if the
      first 1000 components can be visited, and the path and the links followed
      among them have more than 1000 components. */
  lemma AbortsExactly(fs: Fs, path: Bytes, follow: FollowSymlinks)
    ensures Resolve(fs, path, follow).Aborted? <==>
            && IsAbsolute(path) && |path| <= MAX_PATH_LEN && fs.root.Ok?
            && var w := Start(fs.root.value, path);
               && WalkFor(fs, follow, w, MAX_ITERATIONS).Go?
               && |Comps(path)| + Spliced(fs, follow, w, MAX_ITERATIONS) > MAX_ITERATIONS
  {
    if IsAbsolute(path) && |path| <= MAX_PATH_LEN && fs.root.Ok? {
      AbortsFrom(fs, follow, Start(fs.root.value, path), MAX_ITERATIONS);
    }
  }

  // ----- a bound that can be checked beforehand

  /** No link of the filesystem has more than `k` components. */
  ghost predicate LinksWithin(fs: Fs, k: nat) {
    forall dir, name ::
      fs.lookup(dir, name).Ok? && SymlinkTarget(fs, fs.lookup(dir, name).value).Ok? ==>
        |Comps(SymlinkTarget(fs, fs.lookup(dir, name).value).value)| <= k
  }

  lemma AddedWithin(fs: Fs, follow: FollowSymlinks, w: Walk, k: nat)
    requires LinksWithin(fs, k) && w.todo != []
    ensures |Added(fs, follow, w)| <= k
  {
    var child := fs.lookup(w.inode, w.todo[0]);
    if child.Ok? && SymlinkTarget(fs, child.value).Ok? {
      assert |Comps(SymlinkTarget(fs, child.value).value)| <= k;
    }
  }

  /** A step pays for itself and for the components it adds. */
  lemma StepWithin(fs: Fs, follow: FollowSymlinks, w: Walk, k: nat)
    requires LinksWithin(fs, k) && w.links <= MAX_SYMLINKS && w.todo != [] && Advance(fs, follow, w).Go?
    ensures var next := Advance(fs, follow, w).next;
            && next.links <= MAX_SYMLINKS
            && 1 + |next.todo| + Times(MAX_SYMLINKS - next.links, k) <= |w.todo| + Times(MAX_SYMLINKS - w.links, k)
  {
    AdvanceMakesProgress(fs, follow, w);
    StepCounts(fs, follow, w);
    AddedWithin(fs, follow, w, k);
  }

  lemma {:induction false} IterationsWithin(fs: Fs, follow: FollowSymlinks, w: Walk, k: nat)
    requires LinksWithin(fs, k) && w.links <= MAX_SYMLINKS
    ensures Iterations(fs, follow, w) <= |w.todo| + Times(MAX_SYMLINKS - w.links, k)
    decreases MAX_SYMLINKS - w.links, |w.todo|
  {
    if w.todo != [] {
      var s := Advance(fs, follow, w);
      if s.Go? {
        AdvanceMakesProgress(fs, follow, w);
        StepWithin(fs, follow, w, k);
        IterationsWithin(fs, follow, s.next, k);
      }
    }
  }

  /** The guard never fails for a path of at most `1000 - 40 * k` components on a
      filesystem whose links have at most `k`. */
  lemma ShortPathsNeverAbort(fs: Fs, path: Bytes, follow: FollowSymlinks, k: nat)
    requires LinksWithin(fs, k) && |Comps(path)| + 40 * k <= 1000
    ensures !Resolve(fs, path, follow).Aborted?
  {
    if IsAbsolute(path) && |path| <= MAX_PATH_LEN && fs.root.Ok? {
      var w := Start(fs.root.value, path);
      IterationsWithin(fs, follow, w, k);
      TimesIsProduct(MAX_SYMLINKS, k);
      GuardIsExact(fs, follow, w, MAX_ITERATIONS);
    }
  }

  // ----- filesystems without symlinks

  ghost predicate NoSymlinks(fs: Fs) {
    forall dir, name :: fs.lookup(dir, name).Ok? ==> !fs.lookup(dir, name).value.kind.Symlink?
  }

  /** Look the names up one after the other, starting in `inode`. */
  function Visit(fs: Fs, inode: Inode, names: seq<Bytes>): Result<Inode>
    decreases |names|
  {
    if names == [] then Ok(inode)
    else if !inode.kind.Directory? then Err(NotADirectory)
    else
      var child :- fs.lookup(inode, names[0]);
      Visit(fs, if names[0] == CUR_DIR then inode else child, names[1..])
  }

  lemma RestOfPrefix(names: seq<Bytes>, n: nat)
    requires 0 < n <= |names|
    ensures names[..n][1..] == names[1..][..n - 1]
  {
  }

  lemma {:induction false} AbortsVisiting(fs: Fs, follow: FollowSymlinks, w: Walk, limit: nat)
    requires NoSymlinks(fs) && w.links <= MAX_SYMLINKS && w.iters <= limit
    ensures Run(fs, follow, w, limit).Aborted? <==>
            && |w.todo| > limit - w.iters
            && Visit(fs, w.inode, w.todo[..limit - w.iters]).Ok?
    decreases MAX_SYMLINKS - w.links, |w.todo|
  {
    if w.todo != [] && w.iters < limit {
      var s := Advance(fs, follow, w);
      if s.Go? {
        AbortsVisiting(fs, follow, s.next, limit);
        var n := limit - w.iters;
        if |w.todo| > n {
          RestOfPrefix(w.todo, n);
        }
      }
    }
  }

  /** Without symlinks, the assertion on the iteration count fails exactly for
      paths of more than 1000 components whose first 1000 can be visited. */
  lemma AbortsExactlyOnLongPaths(fs: Fs, path: Bytes, follow: FollowSymlinks)
    requires NoSymlinks(fs)
    ensures Resolve(fs, path, follow).Aborted? <==>
            && IsAbsolute(path) && |path| <= MAX_PATH_LEN && fs.root.Ok?
            && |Comps(path)| > MAX_ITERATIONS
            && Visit(fs, fs.root.value, Comps(path)[..MAX_ITERATIONS]).Ok?
  {
    if IsAbsolute(path) && |path| <= MAX_PATH_LEN && fs.root.Ok? {
      AbortsVisiting(fs, follow, Start(fs.root.value, path), MAX_ITERATIONS);
    }
  }

  /** A filesystem that holds an empty root directory and nothing else. */
  function EmptyFs(root: Inode): Fs {
    Fs(Ok(root),
       (dir, name) => if name == CUR_DIR || name == PARENT_DIR then Ok(root) else Err(NotFound),
       _ => Err(Io))
  }

  function Dots(n: nat): (cs: seq<Bytes>)
    ensures |cs| == n && forall i :: 0 <= i < n ==> cs[i] == CUR_DIR
  {
    seq(n, _ => CUR_DIR)
  }

  lemma {:induction false} DotsLength(n: nat)
    ensures |Slashed(Dots(n))| == 2 * n && 0 !in Slashed(Dots(n))
    decreases n
  {
    if n > 0 {
      DotsLength(n - 1);
      assert Dots(n)[1..] == Dots(n - 1);
    }
  }

  lemma {:induction false} VisitDots(root: Inode, n: nat)
    requires root.kind.Directory?
    ensures Visit(EmptyFs(root), root, Dots(n)) == Ok(root)
    decreases n
  {
    if n > 0 {
      VisitDots(root, n - 1);
      assert Dots(n)[1..] == Dots(n - 1);
    }
  }

  lemma EmptyFsParentLinks(root: Inode)
    ensures ParentLinks(EmptyFs(root))
  {
    var fs := EmptyFs(root);
    forall names | NormalNames(names) && PlainWalk(fs, names).Ok?
      ensures UpIsParent(fs, names)
    {
      if names != [] {
        assert names[|names| - 1] != CUR_DIR && names[|names| - 1] != PARENT_DIR;
      }
    }
  }

  lemma DotPath(n: nat)
    requires n > 0
    ensures var path := Slashed(Dots(n));
            ValidPath(path) && IsAbsolute(path) && |path| == 2 * n && Comps(path) == Dots(n)
  {
    DotsLength(n);
    CompsOfSlashed(Dots(n));
    SlashedShape(Dots(n));
  }

  /** The guard can be reached: repeating "/." more than 1000 times, which fits
      in the length limit, gives a valid path that aborts on an empty
      filesystem. */
  lemma GuardIsReachable(root: Inode, follow: FollowSymlinks, n: nat)
    requires root.kind.Directory?
    requires MAX_ITERATIONS < n && 2 * n <= MAX_PATH_LEN
    ensures var fs, path := EmptyFs(root), Slashed(Dots(n));
            && ValidPath(path) && fs.Valid() && ParentLinks(fs)
            && Resolve(fs, path, follow).Aborted?
  {
    EmptyFsParentLinks(root);
    DotPath(n);
    AbortsExactlyOnLongPaths(EmptyFs(root), Slashed(Dots(n)), follow);
    assert Dots(n)[..MAX_ITERATIONS] == Dots(MAX_ITERATIONS);
    VisitDots(root, MAX_ITERATIONS);
  }

  // ----- the bound is exact

  const LINK_NAME: Bytes := [0x61]

  /** `n` times "." and then "a". */
  function DotsThenLink(n: nat): (cs: seq<Bytes>)
    ensures |cs| == n + 1
  {
    Dots(n) + [LINK_NAME]
  }

  /** `path` is "/./././a" with `k` components. */
  ghost predicate IsLoop(path: Bytes, k: nat) {
    && k > 0 && ValidPath(path) && IsAbsolute(path) && !EndsWithSep(path)
    && |path| == 2 * k && Comps(path) == DotsThenLink(k - 1)
  }

  function LoopPath(k: nat): Bytes
    requires k > 0
  {
    Slashed(DotsThenLink(k - 1))
  }

  lemma LoopPathIs(k: nat)
    requires k > 0
    ensures IsLoop(LoopPath(k), k)
  {
    LoopPathBytes(k);
    CompsOfSlashed(DotsThenLink(k - 1));
  }

  lemma LoopPathBytes(k: nat)
    requires k > 0
    ensures var path := LoopPath(k);
            |path| == 2 * k && path[0] == SEP && path[|path| - 1] != SEP && 0 !in path
  {
    DotsLength(k - 1);
    SlashedConcat(Dots(k - 1), [LINK_NAME]);
    var link := Slashed([LINK_NAME]);
    assert link == [SEP] + LINK_NAME;
    assert k == 1 || Slashed(Dots(k - 1))[0] == SEP;
  }

  /** A filesystem whose root directory holds only "a", which is `link`. */
  function LoopFs(root: Inode, link: Inode, target: Bytes): Fs {
    Fs(Ok(root),
       (dir: Inode, name: Bytes) =>
         if !dir.kind.Directory? then Err(NotADirectory)
         else if name == CUR_DIR || name == PARENT_DIR then Ok(root)
         else if name == LINK_NAME then Ok(link)
         else Err(NotFound),
       (i: Inode) => if i.size == |target| then Ok(target) else Err(Io))
  }

  /** The link leads to `target`, whose last component is the link itself. */
  ghost predicate Loops(root: Inode, link: Inode, target: Bytes, k: nat) {
    && root.kind.Directory? && link.kind.Symlink? && IsLoop(target, k) && 2 * k <= MAX_PATH_LEN
    && SymlinkTarget(LoopFs(root, link, target), link) == Ok(target)
  }

  /** A link that stores a short target inline. */
  function LinkTo(target: Bytes): Inode {
    Inode(12, Symlink, |target|, if |target| <= 60 then target + seq(60 - |target|, _ => 0) else seq(60, _ => 0))
  }

  lemma LinkLoops(root: Inode, target: Bytes, k: nat)
    requires root.kind.Directory? && IsLoop(target, k) && 2 * k <= MAX_PATH_LEN
    ensures Loops(root, LinkTo(target), target, k)
  {
    if |target| <= 60 {
      assert (target + seq(60 - |target|, _ => 0))[..|target|] == target;
    }
  }

  lemma LoopParentLinks(root: Inode, link: Inode, target: Bytes)
    requires root.kind.Directory? && !link.kind.Directory?
    ensures ParentLinks(LoopFs(root, link, target))
  {
    var fs := LoopFs(root, link, target);
    forall names | NormalNames(names) && PlainWalk(fs, names).Ok?
      ensures UpIsParent(fs, names)
    {
      if names != [] {
        assert names[|names| - 1] != CUR_DIR && names[|names| - 1] != PARENT_DIR;
      }
    }
  }

  lemma LoopLinksWithin(root: Inode, link: Inode, target: Bytes, k: nat)
    requires Loops(root, link, target, k)
    ensures LoopFs(root, link, target).Valid() && LinksWithin(LoopFs(root, link, target), k)
  {
  }

  /** The walk in the root with `n` dots and the link left to do. */
  function LoopWalk(root: Inode, n: nat, links: nat, iters: nat): Walk {
    Walk([], DotsThenLink(n), false, root, links, iters)
  }

  lemma DotStep(root: Inode, link: Inode, target: Bytes, k: nat, n: nat, links: nat, iters: nat)
    requires Loops(root, link, target, k) && n > 0
    ensures Advance(LoopFs(root, link, target), All, LoopWalk(root, n, links, iters)) ==
            Go(LoopWalk(root, n - 1, links, iters + 1))
  {
    assert DotsThenLink(n)[1..] == DotsThenLink(n - 1);
  }

  lemma LinkStep(root: Inode, link: Inode, target: Bytes, k: nat, links: nat, iters: nat)
    requires Loops(root, link, target, k) && links <= MAX_SYMLINKS
    ensures Advance(LoopFs(root, link, target), All, LoopWalk(root, 0, links, iters)) ==
            if links == MAX_SYMLINKS then Stop(TooManySymlinks)
            else Go(LoopWalk(root, k - 1, links + 1, iters + 1))
  {
    var w := LoopWalk(root, 0, links, iters);
    assert w.todo == [LINK_NAME] && w.done + w.todo == [LINK_NAME];
    assert |PathOf(w)| == 2 by {
      assert Slashed([LINK_NAME]) == [SEP] + LINK_NAME + Slashed([]);
    }
    assert DotsThenLink(k - 1) + w.todo[1..] == DotsThenLink(k - 1);
  }

  lemma IterationsStep(fs: Fs, follow: FollowSymlinks, w: Walk, s: Step)
    requires w.links <= MAX_SYMLINKS && w.todo != [] && s == Advance(fs, follow, w)
    ensures s.Go? ==> s.next.links <= MAX_SYMLINKS && Iterations(fs, follow, w) == 1 + Iterations(fs, follow, s.next)
    ensures s.Stop? ==> Iterations(fs, follow, w) == 1
  {
  }

  lemma {:induction false} LoopIterations(root: Inode, link: Inode, target: Bytes, k: nat,
                                          n: nat, links: nat, iters: nat)
    requires Loops(root, link, target, k) && links <= MAX_SYMLINKS
    ensures Iterations(LoopFs(root, link, target), All, LoopWalk(root, n, links, iters)) ==
            n + 1 + Times(MAX_SYMLINKS - links, k)
    decreases MAX_SYMLINKS - links, n
  {
    var fs, w := LoopFs(root, link, target), LoopWalk(root, n, links, iters);
    IterationsStep(fs, All, w, Advance(fs, All, w));
    if n > 0 {
      DotStep(root, link, target, k, n, links, iters);
      LoopIterations(root, link, target, k, n - 1, links, iters + 1);
    } else {
      LinkStep(root, link, target, k, links, iters);
      if links < MAX_SYMLINKS {
        LoopIterations(root, link, target, k, k - 1, links + 1, iters + 1);
      }
    }
  }

  /** On this filesystem, for a path of `c` components, the guard fails exactly if
      `c + 40 * k` exceeds 1000. */
  lemma LoopAborts(root: Inode, link: Inode, target: Bytes, k: nat, path: Bytes, c: nat)
    requires Loops(root, link, target, k) && IsLoop(path, c) && 2 * c <= MAX_PATH_LEN
    ensures Resolve(LoopFs(root, link, target), path, All).Aborted? <==> c + MAX_SYMLINKS * k > MAX_ITERATIONS
  {
    LoopIterations(root, link, target, k, c - 1, 0, 0);
    TimesIsProduct(MAX_SYMLINKS, k);
    assert Start(root, path) == LoopWalk(root, c - 1, 0, 0);
    GuardIsExact(LoopFs(root, link, target), All, Start(root, path), MAX_ITERATIONS);
  }

  lemma LinkPathLoops(path: Bytes, c: nat)
    requires path == [SEP] + LINK_NAME && c == 1
    ensures IsLoop(path, c)
  {
    LoopPathIs(c);
    assert DotsThenLink(c - 1) == [LINK_NAME];
    assert LoopPath(c) == path + Slashed([]) == path;
  }

  /** A short path can fail the guard too: "/a" does, where "a" is a link whose
      target has at least 50 bytes and ends in the link itself. */
  lemma ShortPathAborts(root: Inode, target: Bytes, k: nat)
    requires root.kind.Directory? && IsLoop(target, k) && 25 <= k && 2 * k <= MAX_PATH_LEN
    ensures var fs := LoopFs(root, LinkTo(target), target);
            fs.Valid() && ParentLinks(fs) && Resolve(fs, [SEP] + LINK_NAME, All).Aborted?
  {
    var link, path := LinkTo(target), [SEP] + LINK_NAME;
    LinkLoops(root, target, k);
    LoopParentLinks(root, link, target);
    LoopLinksWithin(root, link, target, k);
    LinkPathLoops(path, 1);
    LoopAborts(root, link, target, k, path, 1);
  }

  /** The guard fails for some well-formed filesystem whose links have at most `k`
      components and some path of `c`. */
  ghost predicate MayAbort(c: nat, k: nat) {
    exists fs: Fs, path, follow ::
      && fs.Valid() && ParentLinks(fs) && LinksWithin(fs, k) && ValidPath(path) && |Comps(path)| == c
      && Resolve(fs, path, follow).Aborted?
  }

  lemma LoopMayAbort(c: nat, k: nat)
    requires 0 < c && 2 * c <= MAX_PATH_LEN && 0 < k && 2 * k <= MAX_PATH_LEN
    requires c + MAX_SYMLINKS * k > MAX_ITERATIONS
    ensures MayAbort(c, k)
  {
    var root := Inode(2, Directory, 0, seq(60, _ => 0));
    var target, path := LoopPath(k), LoopPath(c);
    LoopPathIs(k);
    LoopPathIs(c);
    LinkLoops(root, target, k);
    LoopParentLinks(root, LinkTo(target), target);
    LoopLinksWithin(root, LinkTo(target), target, k);
    LoopAborts(root, LinkTo(target), target, k, path, c);
  }

  lemma DotsMayAbort(c: nat)
    requires MAX_ITERATIONS < c && 2 * c <= MAX_PATH_LEN
    ensures MayAbort(c, 0)
  {
    var root := Inode(2, Directory, 0, seq(60, _ => 0));
    GuardIsReachable(root, All, c);
    DotPath(c);
    assert LinksWithin(EmptyFs(root), 0);
  }

  /** What a caller can rely on: a path of `c` components fails the guard on some
      well-formed filesystem whose links have at most `k` components if and only if
      `c + 40 * k` exceeds 1000. */
  lemma GuardBoundIsExact(c: nat, k: nat)
    requires 0 < c && 2 * c <= 4096 && 2 * k <= 4096
    ensures MayAbort(c, k) <==> c + 40 * k > 1000
  {
    if MayAbort(c, k) && c + 40 * k <= 1000 {
      var fs: Fs, path, follow :|
        && fs.Valid() && ParentLinks(fs) && LinksWithin(fs, k) && ValidPath(path) && |Comps(path)| == c
        && Resolve(fs, path, follow).Aborted?;
      ShortPathsNeverAbort(fs, path, follow, k);
    }
    if c + 40 * k > 1000 {
      if k > 0 {
        LoopMayAbort(c, k);
      } else {
        DotsMayAbort(c);
      }
    }
  }
}
