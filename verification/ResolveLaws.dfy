// Path resolution as a set of laws about paths. Each law says what one kind of
// next component does, without the walk that computes it: an ordinary child, a
// failing lookup, ".", "..", a link, and the separator at the end. Together they
// determine the outcome of every path.

module ResolveLaws {
  import opened Basics
  import opened Paths
  import opened ResolveSpec
  import opened ResolveProps

  // ----- where a link keeps its target

  /** The target of a link: its first bytes if it is short, and its contents otherwise. */
  lemma TargetIs(fs: Fs, link: Inode, target: Bytes)
    requires link.kind.Symlink? && link.size == |target| > 0
    requires if |target| <= 59 then target <= link.inline else fs.readFile(link) == Ok(target)
    ensures SymlinkTarget(fs, link) == if ValidPath(target) then Ok(target) else Err(Corrupt)
  {
    if |target| <= 59 {
      assert link.inline[..link.size] == target;
    }
  }

  /** What has no target: other inodes, empty links, and long links that cannot be read. */
  lemma NoTarget(fs: Fs, inode: Inode)
    ensures !inode.kind.Symlink? ==> SymlinkTarget(fs, inode) == Err(NotASymlink)
    ensures inode.kind.Symlink? && inode.size == 0 ==> SymlinkTarget(fs, inode) == Err(Corrupt)
    ensures inode.kind.Symlink? && inode.size > 59 && fs.readFile(inode).Err? ==>
              SymlinkTarget(fs, inode) == Err(fs.readFile(inode).error)
  {
  }

  // ----- paths that are not walked

  lemma RefusedPaths(fs: Fs, path: Bytes, follow: FollowSymlinks)
    ensures !IsAbsolute(path) ==> Resolve(fs, path, follow) == Failed(NotAbsolute)
    ensures IsAbsolute(path) && |path| > 4096 ==> Resolve(fs, path, follow) == Failed(PathTooLong)
    ensures IsAbsolute(path) && |path| <= 4096 && fs.root.Err? ==>
              Resolve(fs, path, follow) == Failed(fs.root.error)
  {
  }

  /** Only the components and a trailing separator count. */
  lemma SeparatorsDoNotMatter(fs: Fs, p: Bytes, q: Bytes, follow: FollowSymlinks)
    requires IsAbsolute(p) && IsAbsolute(q) && |p| <= 4096 && |q| <= 4096
    requires Comps(p) == Comps(q) && (EndsWithSep(p) <==> EndsWithSep(q))
    ensures Resolve(fs, p, follow) == Resolve(fs, q, follow)
  {
  }

  // ----- the way to the next component

  /** A way to resolve: `path(p, links, iters)` is the outcome of resolving the path `p`
      after some links have been followed and some iterations spent, and `walk` that of
      a walk under way. */
  datatype Resolver = Resolver(path: (Bytes, nat, nat) -> Outcome, walk: Walk -> Outcome)

  function ResolverOf(fs: Fs, follow: FollowSymlinks): Resolver {
    var walk := (w: Walk) => if w.links <= 40 then Run(fs, follow, w, 1000) else Aborted;
    Resolver((p: Bytes, links: nat, iters: nat) => Begin(walk, fs, p, links, iters), walk)
  }

  function Begin(walk: Walk -> Outcome, fs: Fs, path: Bytes, links: nat, iters: nat): Outcome {
    if !IsAbsolute(path) then Failed(NotAbsolute)
    else if |path| > 4096 then Failed(PathTooLong)
    else if fs.root.Err? then Failed(fs.root.error)
    else walk(Walk([], Comps(path), EndsWithSep(path), fs.root.value, links, iters))
  }

  ghost predicate Asked(w: Walk) {
    w.links <= 40
  }

  ghost predicate Posed(path: Bytes, links: nat, iters: nat) {
    true
  }

  /** `m` gives the outcomes in `fs`. */
  ghost predicate Resolves(m: Resolver, fs: Fs, follow: FollowSymlinks) {
    && (forall w {:trigger Asked(w)} :: Asked(w) ==> m.walk(w) == Run(fs, follow, w, 1000))
    && (forall p: Bytes, links: nat, iters: nat {:trigger Posed(p, links, iters)} :: Posed(p, links, iters) ==>
          m.path(p, links, iters) == Begin(m.walk, fs, p, links, iters))
  }

  /** `resolve_path` is the case where nothing has been spent. */
  lemma ResolverResolves(fs: Fs, follow: FollowSymlinks)
    ensures Resolves(ResolverOf(fs, follow), fs, follow)
    ensures forall p :: Resolve(fs, p, follow) == ResolverOf(fs, follow).path(p, 0, 0)
  {
  }

  /** Child lookups along `names` lead to `inode`, which is no link. */
  ghost predicate Reaches(fs: Fs, names: seq<Bytes>, inode: Inode) {
    && NormalNames(names)
    && PlainWalk(fs, names) == Ok(inode)
    && (names != [] ==> !inode.kind.Symlink?)
  }

  lemma {:induction false} RootIsRead(fs: Fs, names: seq<Bytes>)
    requires PlainWalk(fs, names).Ok?
    ensures fs.root.Ok?
    decreases |names|
  {
    if names != [] {
      RootIsRead(fs, Parent(names));
    }
  }

  /** A walk along `names` gets to what they lead to, if the iterations last. */
  lemma WalkAlong(m: Resolver, fs: Fs, follow: FollowSymlinks, names: seq<Bytes>, w: Walk)
    requires Resolves(m, fs, follow) && Reaches(fs, names, w.inode) && w.done == names && w.links <= 40
    requires |names| <= w.iters && fs.root.Ok?
    ensures var start := Walk([], names + w.todo, w.slash, fs.root.value, w.links, w.iters - |names|);
            && (w.iters <= 1000 ==> m.walk(start) == m.walk(w))
            && (w.iters >= 1000 && w.todo != [] ==> m.walk(start) == Aborted)
  {
    var start := Walk([], names + w.todo, w.slash, fs.root.value, w.links, w.iters - |names|);
    var begin := w.(iters := w.iters - |names|);
    assert Asked(start) && Asked(w);
    RewalkFrom(fs, follow, names, 0, begin, 1000);
    WalkAtEnd(fs, names, begin);
    assert names[..0] == [] && names[0..] == names;
    assert start == WalkAt(fs, names, 0, begin) && w == WalkAt(fs, names, |names|, begin);
  }

  /** `path` is written as the walk `w` has it. */
  ghost predicate Spells(path: Bytes, w: Walk) {
    IsAbsolute(path) && |path| <= 4096 && Comps(path) == w.done + w.todo && EndsWithSep(path) == w.slash
  }

  /** Resolution gets to the inode that `names` lead to, if the iterations last. */
  lemma WayTo(m: Resolver, fs: Fs, follow: FollowSymlinks, path: Bytes, iters: nat, w: Walk)
    requires Resolves(m, fs, follow) && Reaches(fs, w.done, w.inode) && w.links <= 40
    requires Spells(path, w) && w.iters == iters + |w.done|
    ensures w.iters <= 1000 ==> m.path(path, w.links, iters) == m.walk(w)
    ensures w.iters >= 1000 && w.todo != [] ==> m.path(path, w.links, iters) == Aborted
  {
    assert Posed(path, w.links, iters);
    RootIsRead(fs, w.done);
    WalkAlong(m, fs, follow, w.done, w);
  }

  lemma RenderSpells(w: Walk)
    requires Pieces(w.done) && Pieces(w.todo) && |Render(w.done + w.todo, w.slash)| <= 4096
    requires w.done + w.todo == [] ==> w.slash
    ensures Spells(Render(w.done + w.todo, w.slash), w)
  {
    CompsOfRender(w.done + w.todo, w.slash);
  }

  // ----- the laws

  /** A path of ordinary names leads to the inode at its end. Before a separator that
      inode must be a directory. */
  lemma OrdinaryPath(m: Resolver, fs: Fs, follow: FollowSymlinks, names: seq<Bytes>, inode: Inode, slash: bool,
                     links: nat, iters: nat)
    requires Resolves(m, fs, follow)
    requires NormalNames(names) && names != [] && PlainWalk(fs, names) == Ok(inode)
    requires follow.All? ==> !inode.kind.Symlink?
    requires |Render(names, slash)| <= 4096 && links <= 40
    ensures m.path(Render(names, slash), links, iters) ==
            if iters + |names| > 1000 then Aborted
            else if slash && !inode.kind.Directory? then Failed(NotADirectory)
            else Found(inode, Render(names, false))
  {
    var w := Walk([], [], slash, inode, links, iters);
    RootIsRead(fs, names);
    CompsOfRender(names, slash);
    RewalkFrom(fs, follow, names, 0, w, 1000);
    WalkAtEnd(fs, names, w);
    assert names[..0] == [] && names[0..] + [] == names;
    assert Asked(WalkAt(fs, names, 0, w)) && Posed(Render(names, slash), links, iters);
  }

  /** The same of `resolve_path`: a path of ordinary names that ends in a file resolves,
      and fails with a separator at its end. */
  lemma OrdinaryPathResolves(fs: Fs, follow: FollowSymlinks, names: seq<Bytes>, inode: Inode, slash: bool)
    requires NormalNames(names) && 0 < |names| <= 1000 && PlainWalk(fs, names) == Ok(inode)
    requires follow.All? ==> !inode.kind.Symlink?
    requires |Render(names, slash)| <= 4096
    ensures Resolve(fs, Render(names, slash), follow) ==
            if slash && !inode.kind.Directory? then Failed(NotADirectory)
            else Found(inode, Render(names, false))
  {
    ResolverResolves(fs, follow);
    OrdinaryPath(ResolverOf(fs, follow), fs, follow, names, inode, slash, 0, 0);
  }

  /** The component `c` comes up after ordinary names, and the iterations last up to it. */
  ghost predicate ComesUp(fs: Fs, names: seq<Bytes>, inode: Inode, c: Bytes, rest: seq<Bytes>, slash: bool,
                          links: nat, iters: nat)
  {
    && Reaches(fs, names, inode) && Pieces([c] + rest) && |Render(names + ([c] + rest), slash)| <= 4096
    && links <= 40 && iters + |names| < 1000
  }

  lemma AtComponent(m: Resolver, fs: Fs, follow: FollowSymlinks, names: seq<Bytes>, inode: Inode, c: Bytes,
                    rest: seq<Bytes>, slash: bool, links: nat, iters: nat) returns (w: Walk)
    requires Resolves(m, fs, follow) && ComesUp(fs, names, inode, c, rest, slash, links, iters)
    ensures w == Walk(names, [c] + rest, slash, inode, links, iters + |names|)
    ensures m.path(Render(names + ([c] + rest), slash), links, iters) == m.walk(w)
    ensures w.todo[0] == c && w.todo[1..] == rest
  {
    w := Walk(names, [c] + rest, slash, inode, links, iters + |names|);
    RenderSpells(w);
    WayTo(m, fs, follow, Render(names + ([c] + rest), slash), iters, w);
  }

  /** The iterations run out. */
  lemma GuardLaw(m: Resolver, fs: Fs, follow: FollowSymlinks, names: seq<Bytes>, inode: Inode, c: Bytes,
                 rest: seq<Bytes>, slash: bool, links: nat, iters: nat)
    requires Resolves(m, fs, follow)
    requires Reaches(fs, names, inode) && Pieces([c] + rest) && |Render(names + ([c] + rest), slash)| <= 4096
    requires links <= 40 && iters + |names| >= 1000
    ensures m.path(Render(names + ([c] + rest), slash), links, iters) == Aborted
  {
    var w := Walk(names, [c] + rest, slash, inode, links, iters + |names|);
    RenderSpells(w);
    WayTo(m, fs, follow, Render(names + ([c] + rest), slash), iters, w);
  }

  lemma StopsHere(m: Resolver, fs: Fs, follow: FollowSymlinks, w: Walk, e: Error)
    requires Resolves(m, fs, follow) && w.links <= 40
    requires w.todo != [] && w.iters < 1000 && Advance(fs, follow, w) == Stop(e)
    ensures m.walk(w) == Failed(e)
  {
    assert Asked(w);
  }

  lemma GoesOn(m: Resolver, fs: Fs, follow: FollowSymlinks, w: Walk, v: Walk)
    requires Resolves(m, fs, follow) && w.links <= 40 && v.links <= 40
    requires w.todo != [] && w.iters < 1000 && Advance(fs, follow, w) == Go(v)
    ensures m.walk(w) == m.walk(v)
  {
    assert Asked(w) && Asked(v);
  }

  lemma Finishes(m: Resolver, fs: Fs, follow: FollowSymlinks, w: Walk)
    requires Resolves(m, fs, follow) && w.links <= 40 && w.todo == []
    ensures m.walk(w) == Finish(w)
  {
    assert Asked(w);
  }

  /** A component after something that is not a directory, or that cannot be looked up,
      ends the resolution. */
  lemma FailingLookup(m: Resolver, fs: Fs, follow: FollowSymlinks, names: seq<Bytes>, inode: Inode, c: Bytes,
                      rest: seq<Bytes>, slash: bool, links: nat, iters: nat)
    requires Resolves(m, fs, follow) && ComesUp(fs, names, inode, c, rest, slash, links, iters)
    requires !inode.kind.Directory? || fs.lookup(inode, c).Err?
    ensures m.path(Render(names + ([c] + rest), slash), links, iters) ==
            Failed(if !inode.kind.Directory? then NotADirectory else fs.lookup(inode, c).error)
  {
    var w := AtComponent(m, fs, follow, names, inode, c, rest, slash, links, iters);
    StopsHere(m, fs, follow, w, if !inode.kind.Directory? then NotADirectory else fs.lookup(inode, c).error);
  }

  lemma ShorterPath(names: seq<Bytes>, c: Bytes, rest: seq<Bytes>, slash: bool, fewer: seq<Bytes>)
    requires fewer == names || fewer == Parent(names)
    requires c != [] && |Render(names + ([c] + rest), slash)| <= 4096
    ensures |Render(fewer + rest, slash || rest == [])| <= 4096
  {
    ParentLength(names);
    RenderLength(names, [c] + rest, slash);
    RenderLength(fewer, rest, slash || rest == []);
    assert ([c] + rest)[1..] == rest;
  }

  lemma PiecesOfRest(c: Bytes, rest: seq<Bytes>)
    requires Pieces([c] + rest)
    ensures c != [] && Pieces(rest)
  {
    assert ([c] + rest)[0] == c && ([c] + rest)[1..] == rest;
  }

  /** The path without `c`, and perhaps without the name before it, leads to the walk `v`. */
  lemma WithoutComponent(m: Resolver, fs: Fs, follow: FollowSymlinks, names: seq<Bytes>, c: Bytes, slash: bool,
                         iters: nat, v: Walk)
    requires Resolves(m, fs, follow) && Reaches(fs, v.done, v.inode) && v.links <= 40
    requires v.done == names || v.done == Parent(names)
    requires Pieces([c] + v.todo) && |Render(names + ([c] + v.todo), slash)| <= 4096
    requires v.slash == (slash || v.todo == []) && v.iters == iters + |v.done| <= 1000
    ensures m.path(Render(v.done + v.todo, v.slash), v.links, iters) == m.walk(v)
  {
    PiecesOfRest(c, v.todo);
    ShorterPath(names, c, v.todo, slash, v.done);
    RenderSpells(v);
    WayTo(m, fs, follow, Render(v.done + v.todo, v.slash), iters, v);
  }

  /** "." may be left out, but at the end it stands for a separator. */
  lemma CurDirLaw(m: Resolver, fs: Fs, follow: FollowSymlinks, names: seq<Bytes>, dir: Inode, rest: seq<Bytes>,
                  slash: bool, links: nat, iters: nat)
    requires Resolves(m, fs, follow) && ComesUp(fs, names, dir, [0x2e], rest, slash, links, iters)
    requires dir.kind.Directory? && fs.lookup(dir, [0x2e]).Ok?
    ensures m.path(Render(names + ([[0x2e]] + rest), slash), links, iters) ==
            m.path(Render(names + rest, slash || rest == []), links, iters + 1)
  {
    var w := AtComponent(m, fs, follow, names, dir, [0x2e], rest, slash, links, iters);
    var v := Walk(names, rest, slash || rest == [], dir, links, iters + 1 + |names|);
    GoesOn(m, fs, follow, w, v);
    WithoutComponent(m, fs, follow, names, [0x2e], slash, iters + 1, v);
  }

  lemma ParentIsReached(fs: Fs, names: seq<Bytes>, up: Inode)
    requires NormalNames(names) && PlainWalk(fs, names).Ok? && PlainWalk(fs, Parent(names)) == Ok(up)
    ensures Reaches(fs, Parent(names), up)
  {
    if names != [] {
      PrefixIsDirectory(fs, names, |names| - 1);
    }
  }

  lemma ParentDirStep(m: Resolver, fs: Fs, follow: FollowSymlinks, w: Walk, up: Inode) returns (v: Walk)
    requires Resolves(m, fs, follow) && w.todo != [] && w.todo[0] == [0x2e, 0x2e] && w.links <= 40 && w.iters < 1000
    requires w.inode.kind.Directory? && fs.lookup(w.inode, [0x2e, 0x2e]) == Ok(up)
    ensures v == Walk(Parent(w.done), w.todo[1..], w.slash || w.todo[1..] == [], up, w.links, w.iters + 1)
    ensures m.walk(w) == m.walk(v)
  {
    v := Walk(Parent(w.done), w.todo[1..], w.slash || w.todo[1..] == [], up, w.links, w.iters + 1);
    GoesOn(m, fs, follow, w, v);
  }

  /** A ".." that leads back to where the last name was looked up takes that name away;
      at the root it is left out. At the end it stands for a separator. */
  lemma ParentDirLaw(m: Resolver, fs: Fs, follow: FollowSymlinks, names: seq<Bytes>, dir: Inode, up: Inode,
                     rest: seq<Bytes>, slash: bool, links: nat, iters: nat)
    requires Resolves(m, fs, follow) && ComesUp(fs, names, dir, [0x2e, 0x2e], rest, slash, links, iters)
    requires dir.kind.Directory? && fs.lookup(dir, [0x2e, 0x2e]) == Ok(up) && PlainWalk(fs, Parent(names)) == Ok(up)
    ensures m.path(Render(names + ([[0x2e, 0x2e]] + rest), slash), links, iters) ==
            m.path(Render(Parent(names) + rest, slash || rest == []), links,
                      iters + if names == [] then 1 else 2)
  {
    var w := AtComponent(m, fs, follow, names, dir, [0x2e, 0x2e], rest, slash, links, iters);
    var v := ParentDirStep(m, fs, follow, w, up);
    ParentIsReached(fs, names, up);
    WithoutComponent(m, fs, follow, names, [0x2e, 0x2e], slash, iters + if names == [] then 1 else 2, v);
  }

  /** A ".." at the end gives whatever its lookup gives, and takes the last name away.
      The check for a directory is left out where no name is left. */
  lemma ParentDirAtEnd(m: Resolver, fs: Fs, follow: FollowSymlinks, names: seq<Bytes>, dir: Inode, up: Inode,
                       slash: bool, links: nat, iters: nat)
    requires Resolves(m, fs, follow) && ComesUp(fs, names, dir, [0x2e, 0x2e], [], slash, links, iters)
    requires dir.kind.Directory? && fs.lookup(dir, [0x2e, 0x2e]) == Ok(up)
    ensures m.path(Render(names + ([[0x2e, 0x2e]] + []), slash), links, iters) ==
            if |names| > 1 && !up.kind.Directory? then Failed(NotADirectory)
            else Found(up, Render(Parent(names), false))
  {
    var w := AtComponent(m, fs, follow, names, dir, [0x2e, 0x2e], [], slash, links, iters);
    var v := ParentDirStep(m, fs, follow, w, up);
    Finishes(m, fs, follow, v);
  }

  /** The path with the component after `names` replaced by `target`, or with everything
      before `rest` replaced if `target` is absolute. */
  function Replaced(names: seq<Bytes>, target: Bytes, rest: seq<Bytes>, slash: bool): Bytes {
    (if IsAbsolute(target) then [] else Slashed(names) + [0x2f]) + target + Slashed(rest)
    + (if slash then [0x2f] else [])
  }

  lemma ReplacedIsSpliced(w: Walk, target: Bytes)
    requires w.todo != []
    ensures Replaced(w.done, target, w.todo[1..], w.slash) == Spliced(w, target)
  {
  }

  /** The walk right after a link has been replaced by its target. */
  function Next(fs: Fs, v: Walk, target: Bytes): Walk
    requires v.todo != [] && fs.root.Ok?
  {
    Walk(if IsAbsolute(target) then [] else v.done, Comps(target) + v.todo[1..],
         v.slash || (|v.todo| == 1 && EndsWithSep(target)),
         if IsAbsolute(target) then fs.root.value else v.inode, v.links + 1, v.iters + 1)
  }

  /** Reading the path with the link replaced gives the next walk. */
  lemma ReplacedSpells(fs: Fs, v: Walk, target: Bytes)
    requires v.todo != [] && Pieces(v.done) && Pieces(v.todo) && target != [] && fs.root.Ok?
    ensures var path := Replaced(v.done, target, v.todo[1..], v.slash);
            IsAbsolute(path) && (|path| <= 4096 ==> Spells(path, Next(fs, v, target)))
  {
    ReplacedIsSpliced(v, target);
    SplicedComps(v, target);
    SplicedEnd(v, target);
  }

  lemma LinkIsFollowed(fs: Fs, v: Walk, link: Inode, target: Bytes)
    requires fs.root.Ok? && v.todo != [] && Pieces(v.done) && Pieces(v.todo) && v.links < 40
    requires SymlinkTarget(fs, link) == Ok(target) && target != []
    ensures FollowLink(fs, v, link) ==
            if |Replaced(v.done, target, v.todo[1..], v.slash)| > 4096 then Stop(PathTooLong)
            else Go(Next(fs, v, target))
  {
    SplicedIsRender(v, target);
    ReplacedIsSpliced(v, target);
  }

  /** The walk goes on as the resolution of `path`, which spells what comes next. */
  lemma GoesOnAs(m: Resolver, fs: Fs, follow: FollowSymlinks, w: Walk, path: Bytes, next: Walk, iters: nat)
    requires Resolves(m, fs, follow) && w.todo != [] && w.iters < 1000 && w.links <= 40 && next.links <= 40
    requires IsAbsolute(path) && (|path| <= 4096 ==> Spells(path, next))
    requires Reaches(fs, next.done, next.inode) && next.iters == iters + |next.done| <= 1000
    requires Advance(fs, follow, w) == if |path| > 4096 then Stop(PathTooLong) else Go(next)
    ensures m.walk(w) == m.path(path, next.links, iters)
  {
    if |path| > 4096 {
      assert Posed(path, next.links, iters);
      StopsHere(m, fs, follow, w, PathTooLong);
    } else {
      GoesOn(m, fs, follow, w, next);
      WayTo(m, fs, follow, path, iters, next);
    }
  }

  lemma NextIsReached(fs: Fs, w: Walk, target: Bytes, iters: nat)
    requires w.todo != [] && fs.root.Ok? && Reaches(fs, w.done, w.inode) && w.iters == iters + |w.done|
    ensures var next := Next(fs, w, target);
            && Reaches(fs, next.done, next.inode)
            && next.iters == iters + 1 + (if IsAbsolute(target) then |w.done| else 0) + |next.done|
  {
  }

  lemma LinkIsReplaced(m: Resolver, fs: Fs, follow: FollowSymlinks, iters: nat, w: Walk, link: Inode, target: Bytes)
    requires Resolves(m, fs, follow) && w.links < 40 && fs.root.Ok?
    requires w.todo != [] && Reaches(fs, w.done, w.inode) && w.iters == iters + |w.done| < 1000 && Pieces(w.todo)
    requires SymlinkTarget(fs, link) == Ok(target) && target != [] && Advance(fs, follow, w) == FollowLink(fs, w, link)
    ensures m.walk(w) ==
            m.path(Replaced(w.done, target, w.todo[1..], w.slash), w.links + 1,
                      iters + 1 + if IsAbsolute(target) then |w.done| else 0)
  {
    LinkIsFollowed(fs, w, link, target);
    NextIsReached(fs, w, target, iters);
    ReplacedSpells(fs, w, target);
    GoesOnAs(m, fs, follow, w, Replaced(w.done, target, w.todo[1..], w.slash), Next(fs, w, target),
             iters + 1 + if IsAbsolute(target) then |w.done| else 0);
  }

  lemma LinkIsMet(fs: Fs, follow: FollowSymlinks, w: Walk, link: Inode)
    requires w.todo != [] && NormalNames([w.todo[0]]) && w.inode.kind.Directory?
    requires fs.lookup(w.inode, w.todo[0]) == Ok(link) && link.kind.Symlink? && (follow.All? || |w.todo| > 1)
    ensures Advance(fs, follow, w) == FollowLink(fs, w, link)
  {
    assert [w.todo[0]][0] == w.todo[0];
  }

  lemma LinkStops(m: Resolver, fs: Fs, follow: FollowSymlinks, w: Walk, link: Inode)
    requires Resolves(m, fs, follow) && w.todo != [] && w.iters < 1000 && w.links <= 40
    requires Advance(fs, follow, w) == FollowLink(fs, w, link)
    requires w.links == 40 || SymlinkTarget(fs, link).Err?
    ensures m.walk(w) == Failed(if w.links == 40 then TooManySymlinks else SymlinkTarget(fs, link).error)
  {
    StopsHere(m, fs, follow, w, if w.links == 40 then TooManySymlinks else SymlinkTarget(fs, link).error);
  }

  /** A link, unless it comes last and only the others are followed, is replaced by its
      target in the path, at most forty times. */
  lemma LinkLaw(m: Resolver, fs: Fs, follow: FollowSymlinks, names: seq<Bytes>, dir: Inode, c: Bytes, link: Inode,
                rest: seq<Bytes>, slash: bool, links: nat, iters: nat)
    requires Resolves(m, fs, follow) && fs.Valid() && ComesUp(fs, names, dir, c, rest, slash, links, iters)
    requires dir.kind.Directory? && NormalNames([c]) && fs.lookup(dir, c) == Ok(link) && link.kind.Symlink?
    requires follow.All? || rest != []
    ensures var r := m.path(Render(names + ([c] + rest), slash), links, iters);
            var target := SymlinkTarget(fs, link);
            if links == 40 then r == Failed(TooManySymlinks)
            else if target.Err? then r == Failed(target.error)
            else r == m.path(Replaced(names, target.value, rest, slash), links + 1,
                                iters + 1 + if IsAbsolute(target.value) then |names| else 0)
  {
    var w := AtComponent(m, fs, follow, names, dir, c, rest, slash, links, iters);
    LinkIsMet(fs, follow, w, link);
    if links == 40 || SymlinkTarget(fs, link).Err? {
      LinkStops(m, fs, follow, w, link);
    } else {
      RootIsRead(fs, names);
      LinkIsReplaced(m, fs, follow, iters, w, link, SymlinkTarget(fs, link).value);
    }
  }

  // ----- the separator at the end

  lemma {:induction false} RunEndsInDirectory(fs: Fs, follow: FollowSymlinks, w: Walk, limit: nat)
    requires w.slash && w.links <= MAX_SYMLINKS && Run(fs, follow, w, limit).Found?
    ensures var r := Run(fs, follow, w, limit); r.inode.kind.Directory? || r.path == [0x2f]
    decreases MAX_SYMLINKS - w.links, |w.todo|
  {
    if w.todo != [] {
      AdvanceMakesProgress(fs, follow, w);
      RunEndsInDirectory(fs, follow, Advance(fs, follow, w).next, limit);
    }
  }

  /** A path that ends in a separator leads to a directory. Only where it leads to the
      root's path is there no check, and the inode is then a directory if ".." entries
      name the parent. */
  lemma TrailingSeparator(fs: Fs, path: Bytes, follow: FollowSymlinks)
    requires EndsWithSep(path) && Comps(path) != [] && Resolve(fs, path, follow).Found?
    ensures var r := Resolve(fs, path, follow);
            && (r.inode.kind.Directory? || r.path == [0x2f])
            && (fs.Valid() && ParentLinks(fs) && ValidPath(path) ==> r.inode.kind.Directory?)
  {
    RunEndsInDirectory(fs, follow, Start(fs.root.value, path), MAX_ITERATIONS);
    if fs.Valid() && ParentLinks(fs) && ValidPath(path) {
      ResultIsPlainWalk(fs, path, follow);
      CompsOfRender([], false);
    }
  }

  /** The exception: where the root's ".." names something else than a directory, that is
      what "/../" leads to. */
  lemma RootParentIsReturned(fs: Fs, root: Inode, up: Inode, follow: FollowSymlinks)
    requires fs.root == Ok(root) && root.kind.Directory? && fs.lookup(root, [0x2e, 0x2e]) == Ok(up)
    ensures Resolve(fs, [0x2f, 0x2e, 0x2e, 0x2f], follow) == Found(up, [0x2f])
  {
    var dots := [[0x2e, 0x2e]] + [];
    assert [] + dots == dots && dots[1..] == [];
    assert Slashed([]) == [] && Render(dots, true) == [0x2f, 0x2e, 0x2e, 0x2f];
    ResolverResolves(fs, follow);
    ParentDirAtEnd(ResolverOf(fs, follow), fs, follow, [], root, up, true, 0, 0);
  }
}
