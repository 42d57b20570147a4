// What path resolution promises: the returned path is canonical and leads, by
// plain child lookups, to the returned inode, and resolving it again changes
// nothing.

module ResolveProps {
  import opened Basics
  import opened Paths
  import opened ResolveSpec

  // ----- the path that comes back

  /** Names that a canonical path may have as components. */
  predicate NormalNames(cs: seq<Bytes>) {
    forall i :: 0 <= i < |cs| ==> ValidName(cs[i]) && cs[i] != CUR_DIR && cs[i] != PARENT_DIR
  }

  predicate Canonical(path: Bytes) {
    && IsAbsolute(path)
    && |path| <= 4096
    && NoDoubledSep(path)
    && (|path| > 1 ==> !EndsWithSep(path))
    && NormalNames(Comps(path))
  }

  /** Follow `names` from the root, one child lookup at a time, with every
      inode on the way a directory. */
  function PlainWalk(fs: Fs, names: seq<Bytes>): Result<Inode> {
    if names == [] then fs.root
    else
      var dir :- PlainWalk(fs, Parent(names));
      if !dir.kind.Directory? then Err(NotADirectory) else fs.lookup(dir, names[|names| - 1])
  }

  /** The ".." entry of a directory, if it can be looked up, names the
      directory it was reached from; that of the root names the root. */
  ghost predicate ParentLinks(fs: Fs) {
    forall names :: NormalNames(names) && PlainWalk(fs, names).Ok? ==>
                      UpIsParent(fs, names)
  }

  ghost predicate UpIsParent(fs: Fs, names: seq<Bytes>)
    requires PlainWalk(fs, names).Ok?
  {
    var up := fs.lookup(PlainWalk(fs, names).value, PARENT_DIR);
    up.Ok? ==> PlainWalk(fs, Parent(names)) == up
  }

  /** The components already resolved lead to the current inode. */
  ghost predicate Located(fs: Fs, follow: FollowSymlinks, w: Walk) {
    && NormalNames(w.done)
    && PlainWalk(fs, w.done) == Ok(w.inode)
    && (follow.All? && w.done != [] ==> !w.inode.kind.Symlink?)
  }

  lemma AdvanceLocated(fs: Fs, follow: FollowSymlinks, w: Walk)
    requires ParentLinks(fs) && Inv(w) && w.todo != []
    requires Located(fs, follow, w)
    ensures var s := Advance(fs, follow, w); s.Go? ==> Located(fs, follow, s.next)
  {
    var s := Advance(fs, follow, w);
    if s.Go? && w.todo[0] == PARENT_DIR {
      assert UpIsParent(fs, w.done);
    } else if s.Go? && s.next.links == w.links && w.todo[0] != CUR_DIR {
      assert Parent(s.next.done) == w.done;
    }
  }

  /** A step adds at most one component to those already resolved, and every
      resolved component is a normal name. */
  ghost predicate Resolved(w: Walk) {
    NormalNames(w.done) && |w.done| <= w.iters
  }

  lemma AdvanceResolved(fs: Fs, follow: FollowSymlinks, w: Walk)
    requires Inv(w) && w.todo != [] && Resolved(w)
    ensures var s := Advance(fs, follow, w); s.Go? ==> Resolved(s.next)
  {
  }

  lemma FinalPath(w: Walk)
    requires Inv(w) && Resolved(w) && w.todo == []
    ensures var path := Render(w.done, false);
            Canonical(path) && Comps(path) == w.done
  {
    var path := Render(w.done, false);
    assert w.done + w.todo == w.done;
    CompsOfRender(w.done, false);
    RenderLength(w.done, [], w.slash);
    RenderLength(w.done, [], false);
    DedupIsRender(path);
    DedupLeavesNoDouble(path);
  }

  lemma {:induction false} RunIsCanonical(fs: Fs, follow: FollowSymlinks, w: Walk, limit: nat)
    requires fs.Valid() && Inv(w) && Resolved(w) && w.iters <= limit
    requires Run(fs, follow, w, limit).Found?
    ensures var r := Run(fs, follow, w, limit);
            Canonical(r.path) && |Comps(r.path)| <= limit
    decreases MAX_SYMLINKS - w.links, |w.todo|
  {
    if w.todo == [] {
      FinalPath(w);
    } else {
      AdvanceInv(fs, follow, w);
      AdvanceResolved(fs, follow, w);
      AdvanceMakesProgress(fs, follow, w);
      RunIsCanonical(fs, follow, Advance(fs, follow, w).next, limit);
    }
  }

  /** Every path that resolution returns is canonical: absolute, within the
      length limit, without doubled or trailing separators and without "."
      and ".." components. */
  lemma ResultIsCanonical(fs: Fs, path: Bytes, follow: FollowSymlinks)
    requires fs.Valid() && ValidPath(path)
    requires Resolve(fs, path, follow).Found?
    ensures var r := Resolve(fs, path, follow);
            Canonical(r.path) && |Comps(r.path)| <= MAX_ITERATIONS
  {
    StartInv(fs.root.value, path);
    RunIsCanonical(fs, follow, Start(fs.root.value, path), MAX_ITERATIONS);
  }

  // ----- the inode that comes back

  lemma {:induction false} RunIsPlainWalk(fs: Fs, follow: FollowSymlinks, w: Walk, limit: nat)
    requires fs.Valid() && ParentLinks(fs) && Inv(w) && Located(fs, follow, w)
    requires Run(fs, follow, w, limit).Found?
    ensures var r := Run(fs, follow, w, limit);
            var names := Comps(r.path);
            && PlainWalk(fs, names) == Ok(r.inode)
            && (follow.All? && names != [] ==> !r.inode.kind.Symlink?)
    decreases MAX_SYMLINKS - w.links, |w.todo|
  {
    if w.todo == [] {
      CompsOfRender(w.done, false);
    } else {
      AdvanceInv(fs, follow, w);
      AdvanceLocated(fs, follow, w);
      RunIsPlainWalk(fs, follow, Advance(fs, follow, w).next, limit);
    }
  }

  /** The returned inode is the one that plain child lookups along the returned
      path reach from the root, whatever mixture of ".", "..", relative and
      absolute links led there. When all links are followed, it is not a link
      (unless the root itself is one). */
  lemma ResultIsPlainWalk(fs: Fs, path: Bytes, follow: FollowSymlinks)
    requires fs.Valid() && ParentLinks(fs) && ValidPath(path)
    requires Resolve(fs, path, follow).Found?
    ensures var r := Resolve(fs, path, follow);
            var names := Comps(r.path);
            && PlainWalk(fs, names) == Ok(r.inode)
            && (follow.All? && names != [] ==> !r.inode.kind.Symlink?)
  {
    StartInv(fs.root.value, path);
    RunIsPlainWalk(fs, follow, Start(fs.root.value, path), MAX_ITERATIONS);
  }

  // ----- resolving a canonical path again

  /** The walk along `names` and then as in `w`, after its first `k` components. */
  function WalkAt(fs: Fs, names: seq<Bytes>, k: nat, w: Walk): Walk
    requires k <= |names| && PlainWalk(fs, names[..k]).Ok?
  {
    Walk(names[..k], names[k..] + w.todo, w.slash, PlainWalk(fs, names[..k]).value, w.links, w.iters + k)
  }

  /** A plain walk that succeeds goes through directories only. */
  lemma {:induction false} PrefixIsDirectory(fs: Fs, names: seq<Bytes>, k: nat)
    requires k < |names| && PlainWalk(fs, names).Ok?
    ensures var dir := PlainWalk(fs, names[..k]);
            && dir.Ok? && dir.value.kind.Directory?
            && PlainWalk(fs, names[..k + 1]) == fs.lookup(dir.value, names[k])
    decreases |names|
  {
    if k == |names| - 1 {
      assert names[..k] == Parent(names) && names[..k + 1] == names;
    } else {
      PrefixIsDirectory(fs, Parent(names), k);
      assert Parent(names)[..k] == names[..k] && Parent(names)[..k + 1] == names[..k + 1];
    }
  }

  /** An ordinary child is added to the resolved components. */
  lemma ChildStep(fs: Fs, follow: FollowSymlinks, w: Walk, child: Inode)
    requires w.todo != [] && w.todo[0] != CUR_DIR && w.todo[0] != PARENT_DIR && w.inode.kind.Directory?
    requires fs.lookup(w.inode, w.todo[0]) == Ok(child)
    requires follow.All? || |w.todo| > 1 ==> !child.kind.Symlink?
    ensures Advance(fs, follow, w) ==
            Go(Walk(w.done + [w.todo[0]], w.todo[1..], w.slash, child, w.links, w.iters + 1))
  {
  }

  lemma NextName(names: seq<Bytes>, k: nat, rest: seq<Bytes>)
    requires k < |names|
    ensures var todo := names[k..] + rest;
            && todo[0] == names[k] && todo[1..] == names[k + 1..] + rest
            && names[..k] + [todo[0]] == names[..k + 1]
            && (|todo| == 1 <==> k + 1 == |names| && rest == [])
  {
    PrefixAndNext(names, k);
  }

  lemma NextChild(fs: Fs, follow: FollowSymlinks, names: seq<Bytes>, k: nat, w: Walk, dir: Inode, child: Inode)
    requires k < |names| && NormalNames(names)
    requires dir.kind.Directory? && fs.lookup(dir, names[k]) == Ok(child)
    requires follow.All? || k + 1 < |names| || w.todo != [] ==> !child.kind.Symlink?
    ensures Advance(fs, follow, Walk(names[..k], names[k..] + w.todo, w.slash, dir, w.links, w.iters + k)) ==
            Go(Walk(names[..k + 1], names[k + 1..] + w.todo, w.slash, child, w.links, w.iters + k + 1))
  {
    NextName(names, k, w.todo);
    ChildStep(fs, follow, Walk(names[..k], names[k..] + w.todo, w.slash, dir, w.links, w.iters + k), child);
  }

  /** The next of some normal names is an ordinary child. */
  lemma RewalkStep(fs: Fs, follow: FollowSymlinks, names: seq<Bytes>, k: nat, w: Walk)
    requires NormalNames(names) && PlainWalk(fs, names).Ok? && k < |names|
    requires follow.All? || w.todo != [] ==> !PlainWalk(fs, names).value.kind.Symlink?
    ensures PlainWalk(fs, names[..k]).Ok? && PlainWalk(fs, names[..k + 1]).Ok?
    ensures Advance(fs, follow, WalkAt(fs, names, k, w)) == Go(WalkAt(fs, names, k + 1, w))
  {
    PrefixIsDirectory(fs, names, k);
    if k + 1 < |names| {
      PrefixIsDirectory(fs, names, k + 1);
    } else {
      assert names[..k + 1] == names;
    }
    NextChild(fs, follow, names, k, w, PlainWalk(fs, names[..k]).value, PlainWalk(fs, names[..k + 1]).value);
  }

  lemma RunStep(fs: Fs, follow: FollowSymlinks, w: Walk, next: Walk, limit: nat)
    requires w.todo != [] && w.links == next.links <= MAX_SYMLINKS && Advance(fs, follow, w) == Go(next)
    ensures Run(fs, follow, w, limit) == if w.iters + 1 > limit then Aborted else Run(fs, follow, next, limit)
  {
  }

  /** Normal names are walked along one by one, as far as the iterations last. */
  lemma {:induction false} RewalkFrom(fs: Fs, follow: FollowSymlinks, names: seq<Bytes>, k: nat, w: Walk, limit: nat)
    requires NormalNames(names) && PlainWalk(fs, names).Ok? && k <= |names| && w.links <= MAX_SYMLINKS
    requires names != [] && (follow.All? || w.todo != []) ==> !PlainWalk(fs, names).value.kind.Symlink?
    ensures names[..|names|] == names && PlainWalk(fs, names[..k]).Ok?
    ensures Run(fs, follow, WalkAt(fs, names, k, w), limit) ==
            if k < |names| && w.iters + |names| > limit then Aborted
            else Run(fs, follow, WalkAt(fs, names, |names|, w), limit)
    decreases |names| - k
  {
    assert names[..|names|] == names;
    if k < |names| {
      RewalkStep(fs, follow, names, k, w);
      RunStep(fs, follow, WalkAt(fs, names, k, w), WalkAt(fs, names, k + 1, w), limit);
      RewalkFrom(fs, follow, names, k + 1, w, limit);
    }
  }

  lemma WalkAtEnd(fs: Fs, names: seq<Bytes>, w: Walk)
    requires PlainWalk(fs, names).Ok?
    ensures names[..|names|] == names
    ensures WalkAt(fs, names, |names|, w) ==
            Walk(names, w.todo, w.slash, PlainWalk(fs, names).value, w.links, w.iters + |names|)
  {
    assert names[..|names|] == names && names[|names|..] + w.todo == w.todo;
  }

  /** Resolution is idempotent: resolving the returned path in the same mode
      gives the same inode and the same path, within the iteration guard. */
  lemma ResolveIsIdempotent(fs: Fs, path: Bytes, follow: FollowSymlinks)
    requires fs.Valid() && ParentLinks(fs) && ValidPath(path)
    requires Resolve(fs, path, follow).Found?
    ensures var r := Resolve(fs, path, follow); Resolve(fs, r.path, follow) == r
  {
    var r := Resolve(fs, path, follow);
    var names := Comps(r.path);
    ResultIsCanonical(fs, path, follow);
    ResultIsPlainWalk(fs, path, follow);
    var end := Walk([], [], false, r.inode, 0, 0);
    RewalkFrom(fs, follow, names, 0, end, MAX_ITERATIONS);
    WalkAtEnd(fs, names, end);
    CanonicalIsRendered(r.path);
    assert names[..0] == [] && names[0..] + [] == names;
    if names != [] {
      assert Start(fs.root.value, r.path) == WalkAt(fs, names, 0, end);
    }
  }

  lemma CanonicalIsRendered(path: Bytes)
    requires Canonical(path)
    ensures path == Render(Comps(path), false)
    ensures EndsWithSep(path) <==> Comps(path) == []
  {
    DedupOfNormal(path);
    DedupIsRender(path);
    CompsOfRender(Comps(path), EndsWithSep(path));
    CompsOfRender(Comps(path), false);
  }
}
