// Path resolution at the level of components, as path_resolution(7) describes
// it: a current inode, the components still to resolve, and the canonical
// components resolved so far. src/resolve.rs works on the bytes of the path
// instead; module Resolve proves that it computes the outcome defined here.

module ResolveSpec {
  import opened Basics
  import opened Paths

  const MAX_SYMLINKS: nat := 40
  const MAX_PATH_LEN: nat := 4096
  const MAX_ITERATIONS: nat := 1000
  const MAX_COMPONENTS: nat := 2048
  const MAX_INLINE_SYMLINK_LEN: nat := 59

  type InlineData = s: Bytes | |s| == 60 witness seq(60, _ => 0)

  datatype Kind = Directory | Symlink | Other

  datatype Inode = Inode(index: nat, kind: Kind, size: nat, inline: InlineData)

  datatype FollowSymlinks = All | ExcludeFinalComponent

  /** The parts of the filesystem that resolution asks for: the root inode,
      `get_dir_entry_inode_by_name` and `read_inode_file`. */
  datatype Fs = Fs(
    root: Result<Inode>,
    lookup: (Inode, Bytes) -> Result<Inode>,
    readFile: Inode -> Result<Bytes>)
  {
    /** A whole-file read returns as many bytes as the inode says. */
    ghost predicate Valid() {
      forall i :: readFile(i).Ok? ==> |readFile(i).value| == i.size
    }
  }

  /** `Inode::symlink_target`. */
  function SymlinkTarget(fs: Fs, link: Inode): (r: Result<Bytes>)
    ensures r.Ok? ==> ValidPath(r.value)
    ensures r.Ok? && fs.Valid() ==> r.value != []
  {
    if !link.kind.Symlink? then Err(NotASymlink)
    else if link.size == 0 then Err(Corrupt)
    else
      var data :- if link.size <= MAX_INLINE_SYMLINK_LEN then Ok(link.inline[..link.size])
                  else fs.readFile(link);
      if ValidPath(data) then Ok(data) else Err(Corrupt)
  }

  datatype Outcome =
    | Found(inode: Inode, path: Bytes)
    | Failed(error: Error)
    | Aborted  // the assertion on the iteration count fails

  /** A resolution under way: `done` has been resolved to `inode`, `todo` is
      left, and `slash` says whether the path ends in a separator. */
  datatype Walk = Walk(done: seq<Bytes>, todo: seq<Bytes>, slash: bool, inode: Inode, links: nat, iters: nat)

  datatype Step = Stop(error: Error) | Go(next: Walk)

  /** The bytes of the path that a walk stands for. */
  function PathOf(w: Walk): Bytes {
    Render(w.done + w.todo, w.slash)
  }

  function Parent(done: seq<Bytes>): seq<Bytes> {
    if done == [] then [] else done[..|done| - 1]
  }

  /** Length of the path right after the target of a link is spliced in. */
  function SplicedLen(w: Walk, target: Bytes): int
    requires w.todo != []
  {
    |PathOf(w)| - |w.todo[0]| + |target| - if IsAbsolute(target) then |Slashed(w.done)| + 1 else 0
  }

  /** Replace the first component to do by the target of a symlink. */
  function FollowLink(fs: Fs, w: Walk, link: Inode): Step
    requires w.todo != []
  {
    if w.links + 1 > MAX_SYMLINKS then Stop(TooManySymlinks)
    else match SymlinkTarget(fs, link)
      case Err(e) => Stop(e)
      case Ok(target) =>
        if IsAbsolute(target) && fs.root.Err? then Stop(fs.root.error)
        else if SplicedLen(w, target) > MAX_PATH_LEN then Stop(PathTooLong)
        else Go(Walk(
                  if IsAbsolute(target) then [] else w.done,
                  Comps(target) + w.todo[1..],
                  w.slash || (|w.todo| == 1 && EndsWithSep(target)),
                  if IsAbsolute(target) then fs.root.value else w.inode,
                  w.links + 1,
                  w.iters + 1))
  }

  /** Resolve the first component to do. */
  function Advance(fs: Fs, follow: FollowSymlinks, w: Walk): Step
    requires w.todo != []
  {
    var comp := w.todo[0];
    var last := |w.todo| == 1;
    var next := w.(todo := w.todo[1..], iters := w.iters + 1);
    if !w.inode.kind.Directory? then Stop(NotADirectory)
    else match fs.lookup(w.inode, comp)
      case Err(e) => Stop(e)
      case Ok(child) =>
        if comp == CUR_DIR then Go(next.(slash := w.slash || last))
        else if comp == PARENT_DIR then
          Go(next.(done := Parent(w.done), slash := w.slash || last, inode := child))
        else if child.kind.Symlink? && (follow.All? || !last) then FollowLink(fs, w, child)
        else Go(next.(done := w.done + [comp], inode := child))
  }

  /** The end of a walk: only a directory may be followed by a separator. */
  function Finish(w: Walk): Outcome {
    if w.done != [] && w.slash && !w.inode.kind.Directory? then Failed(NotADirectory)
    else Found(w.inode, Render(w.done, false))
  }

  /** Every step either follows one more link or has one component less to do. */
  lemma AdvanceMakesProgress(fs: Fs, follow: FollowSymlinks, w: Walk)
    requires w.todo != []
    ensures var s := Advance(fs, follow, w);
            s.Go? ==> s.next.iters == w.iters + 1
                      && (|| (s.next.links == w.links + 1 <= MAX_SYMLINKS)
                          || (s.next.links == w.links && s.next.todo == w.todo[1..]))
  {
  }

  function Run(fs: Fs, follow: FollowSymlinks, w: Walk, limit: nat): Outcome
    requires w.links <= MAX_SYMLINKS
    decreases MAX_SYMLINKS - w.links, |w.todo|
  {
    if w.todo == [] then Finish(w)
    else if w.iters + 1 > limit then Aborted
    else match Advance(fs, follow, w)
      case Stop(e) => Failed(e)
      case Go(next) => Run(fs, follow, next, limit)
  }

  function Start(root: Inode, path: Bytes): Walk {
    Walk([], Comps(path), EndsWithSep(path), root, 0, 0)
  }

  /** The outcome of resolving `path` when at most `limit` iterations are
      allowed. */
  function ResolveWithin(fs: Fs, path: Bytes, follow: FollowSymlinks, limit: nat): Outcome {
    if !IsAbsolute(path) then Failed(NotAbsolute)
    else if |path| > MAX_PATH_LEN then Failed(PathTooLong)
    else match fs.root
      case Err(e) => Failed(e)
      case Ok(root) => Run(fs, follow, Start(root, path), limit)
  }

  /** The outcome of `resolve_path`. */
  function Resolve(fs: Fs, path: Bytes, follow: FollowSymlinks): Outcome {
    ResolveWithin(fs, path, follow, MAX_ITERATIONS)
  }

  // ----- what every step keeps

  /** All names on the path are valid and the path is not too long. */
  ghost predicate Inv(w: Walk) {
    && ValidNames(w.done)
    && ValidNames(w.todo)
    && |PathOf(w)| <= MAX_PATH_LEN
    && w.links <= MAX_SYMLINKS
  }

  lemma StartInv(root: Inode, path: Bytes)
    requires ValidPath(path) && IsAbsolute(path) && |path| <= MAX_PATH_LEN
    ensures Inv(Start(root, path)) && PathOf(Start(root, path)) == Dedup(path)
  {
    var w := Start(root, path);
    CompsAreNames(path);
    DedupIsRender(path);
    assert w.done + w.todo == Comps(path);
  }

  /** The bytes after the components `rest` have been written after others. */
  function Tail(rest: seq<Bytes>, slash: bool): (t: Bytes)
    ensures t == [] <==> rest == [] && !slash
    ensures t != [] ==> t[0] == SEP
  {
    Slashed(rest) + if slash then [SEP] else []
  }

  /** A path cut at its current component. */
  lemma PathAtComponent(w: Walk)
    requires w.todo != []
    ensures PathOf(w) == Slashed(w.done) + [SEP] + w.todo[0] + Tail(w.todo[1..], w.slash)
  {
    SlashedConcat(w.done, w.todo);
  }

  lemma RenderLength(done: seq<Bytes>, rest: seq<Bytes>, slash: bool)
    ensures |Render(done + rest, slash)| ==
            if done == [] && rest == [] then 1
            else |Slashed(done)| + |Slashed(rest)| + if slash then 1 else 0
  {
    SlashedConcat(done, rest);
  }

  lemma ParentLength(done: seq<Bytes>)
    ensures |Slashed(Parent(done))| <= |Slashed(done)|
  {
    if done != [] {
      assert done == Parent(done) + [done[|done| - 1]];
      SlashedSnoc(Parent(done), done[|done| - 1]);
    }
  }

  /** Removing "." or "..", and perhaps the component before it, does not make
      the path longer. */
  lemma DrainInv(w: Walk, next: Walk)
    requires Inv(w) && w.todo != []
    requires next.done == w.done || next.done == Parent(w.done)
    requires next.todo == w.todo[1..] && next.links == w.links
    ensures Inv(next)
  {
    ParentLength(w.done);
    RenderLength(w.done, w.todo, w.slash);
    RenderLength(next.done, next.todo, next.slash);
    assert |Slashed(w.todo)| == 1 + |w.todo[0]| + |Slashed(next.todo)|;
  }

  lemma LinkInv(fs: Fs, w: Walk, link: Inode)
    requires Inv(w) && w.todo != [] && fs.Valid()
    ensures var s := FollowLink(fs, w, link); s.Go? ==> Inv(s.next)
  {
    var s := FollowLink(fs, w, link);
    if s.Go? {
      var target := SymlinkTarget(fs, link).value;
      CompsAreNames(target);
      SplicedIsRender(w, target);
      PathAtComponent(w);
    }
  }

  /** The bytes right after the splice, before separators are merged again. */
  function Spliced(w: Walk, target: Bytes): Bytes
    requires w.todo != []
  {
    (if IsAbsolute(target) then [] else Slashed(w.done) + [SEP]) + target + Tail(w.todo[1..], w.slash)
  }

  /** Merging separators after a splice leaves the path of the next walk. */
  lemma SplicedIsRender(w: Walk, target: Bytes)
    requires w.todo != [] && target != []
    requires Pieces(w.done) && Pieces(w.todo)
    ensures |Spliced(w, target)| == SplicedLen(w, target)
    ensures Dedup(Spliced(w, target)) ==
            Render((if IsAbsolute(target) then [] else w.done) + (Comps(target) + w.todo[1..]),
                   w.slash || (|w.todo| == 1 && EndsWithSep(target)))
  {
    PathAtComponent(w);
    var x := Spliced(w, target);
    DedupIsRender(x);
    SplicedComps(w, target);
    SplicedEnd(w, target);
  }

  lemma TailComps(rest: seq<Bytes>, slash: bool)
    requires Pieces(rest)
    ensures Comps(Tail(rest, slash)) == rest
    ensures EndsWithSep(Tail(rest, slash)) <==> slash
  {
    CompsOfSlashed(rest);
    SlashedShape(rest);
    if slash {
      CompsConcat(Slashed(rest), [SEP]);
    } else {
      assert Slashed(rest) + [] == Slashed(rest);
    }
  }

  lemma CompsOfThree(head: Bytes, mid: Bytes, tail: Bytes)
    requires Splits(head, mid + tail) && Splits(mid, tail)
    ensures Comps(head + mid + tail) == Comps(head) + (Comps(mid) + Comps(tail))
  {
    assert head + mid + tail == head + (mid + tail);
    CompsConcat(head, mid + tail);
    CompsConcat(mid, tail);
  }

  lemma HeadComps(done: seq<Bytes>)
    requires Pieces(done)
    ensures Comps(Slashed(done) + [SEP]) == done
  {
    CompsOfSlashed(done);
    CompsConcat(Slashed(done), [SEP]);
  }

  lemma SplicedComps(w: Walk, target: Bytes)
    requires w.todo != [] && target != []
    requires Pieces(w.done) && Pieces(w.todo)
    ensures Comps(Spliced(w, target)) ==
            (if IsAbsolute(target) then [] else w.done) + (Comps(target) + w.todo[1..])
  {
    var head := if IsAbsolute(target) then [] else Slashed(w.done) + [SEP];
    TailComps(w.todo[1..], w.slash);
    HeadComps(w.done);
    CompsOfThree(head, target, Tail(w.todo[1..], w.slash));
  }

  lemma SplicedEnd(w: Walk, target: Bytes)
    requires w.todo != [] && target != []
    requires Pieces(w.done) && Pieces(w.todo)
    ensures EndsWithSep(Spliced(w, target)) <==> w.slash || (|w.todo| == 1 && EndsWithSep(target))
  {
    TailComps(w.todo[1..], w.slash);
  }

  /** Every step keeps the names valid and the path within its limit. */
  lemma AdvanceInv(fs: Fs, follow: FollowSymlinks, w: Walk)
    requires Inv(w) && w.todo != [] && fs.Valid()
    ensures var s := Advance(fs, follow, w); s.Go? ==> Inv(s.next)
  {
    var comp := w.todo[0];
    if comp == CUR_DIR || comp == PARENT_DIR {
      var s := Advance(fs, follow, w);
      if s.Go? {
        DrainInv(w, s.next);
      }
    } else if w.inode.kind.Directory? && fs.lookup(w.inode, comp).Ok? {
      LinkInv(fs, w, fs.lookup(w.inode, comp).value);
      assert (w.done + [comp]) + w.todo[1..] == w.done + w.todo;
    }
  }
}
