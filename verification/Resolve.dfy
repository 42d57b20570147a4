// `resolve_path` (src/resolve.rs): the loop that drains and splices the bytes
// of the path in place. It is proved to compute the component-level outcome of
// module ResolveSpec, for every filesystem and every valid path.

module Resolve {
  import opened Basics
  import opened Paths
  import opened ResolveSpec

  // ----- the three searches

  /** `find_next_sep`. */
  function FindNextSep(path: Bytes, start: nat): (r: Option<nat>)
    requires start < |path|
    ensures r.None? ==> SEP !in path[start..]
    ensures r.Some? ==> start <= r.value < |path| && path[r.value] == SEP && SEP !in path[start..r.value]
  {
    var end := ComponentEnd(path, start);
    assert end == |path| ==> path[start..] == path[start..end];
    if end < |path| then Some(end) else None
  }

  /** `find_prev_sep`. */
  function FindPrevSep(path: Bytes, start: nat): (r: Option<nat>)
    requires start < |path|
    ensures r.None? ==> forall j :: 0 <= j <= start ==> path[j] != SEP
    ensures r.Some? ==> r.value <= start && path[r.value] == SEP
    ensures r.Some? ==> forall j :: r.value < j <= start ==> path[j] != SEP
  {
    if path[start] == SEP then Some(start)
    else if start == 0 then None
    else FindPrevSep(path, start - 1)
  }

  /** `find_parent_component_start`. The preconditions are the assertions of
      the source; an absolute path always has an earlier separator. */
  function FindParentComponentStart(path: Bytes, start: nat): (r: nat)
    requires start != 0 && start < |path| && path[start - 1] == SEP
    requires IsAbsolute(path)
    ensures 1 <= r <= start && path[r - 1] == SEP
  {
    if start == 1 then start
    else
      var prev := FindPrevSep(path, start - 2);
      prev.value + 1
  }

  // ----- where the loop is in the bytes

  /** Byte index of the first component to do, or the end of the path. */
  function IndexOf(w: Walk): nat {
    if w.todo == [] then |PathOf(w)| else |Slashed(w.done)| + 1
  }

  /** The current component, as the byte loop finds it. */
  lemma ComponentBytes(w: Walk)
    requires Inv(w) && w.todo != []
    ensures var p, i := PathOf(w), IndexOf(w);
            var end := i + |w.todo[0]|;
            && 0 < i < end <= |p|
            && p[..i] == Slashed(w.done) + [SEP]
            && p[i..end] == w.todo[0]
            && p[end..] == Tail(w.todo[1..], w.slash)
            && ComponentEnd(p, i) == end
  {
    var p, i := PathOf(w), IndexOf(w);
    var end := i + |w.todo[0]|;
    PathAtComponent(w);
    assert p[..i] == Slashed(w.done) + [SEP];
    assert p[i..end] == w.todo[0];
    assert p[end..] == Tail(w.todo[1..], w.slash);
    if end < |p| {
      assert p[end] == p[end..][0];
    }
    ComponentEndUnique(p, i, end);
  }

  /** Whether the component is the last one shows in the bytes after it. */
  lemma TailLength(rest: seq<Bytes>, slash: bool)
    requires ValidNames(rest)
    ensures var t := Tail(rest, slash);
            && (t == [] <==> rest == [] && !slash)
            && (|t| == 1 <==> rest == [] && slash)
  {
    if rest != [] {
      assert Slashed(rest) == [SEP] + rest[0] + Slashed(rest[1..]);
    }
  }

  lemma LastComponentBytes(w: Walk)
    requires Inv(w) && w.todo != []
    ensures var p, end := PathOf(w), IndexOf(w) + |w.todo[0]|;
            end <= |p| && (|w.todo| == 1 <==> end == |p| || end == |p| - 1)
  {
    ComponentBytes(w);
    TailLength(w.todo[1..], w.slash);
  }

  /** What the search for the next separator finds. */
  lemma ComponentFound(w: Walk)
    requires Inv(w) && w.todo != []
    ensures var p, i := PathOf(w), IndexOf(w);
            var end := i + |w.todo[0]|;
            && i < end <= |p| && p[i..end] == w.todo[0]
            && FindNextSep(p, i) == (if end < |p| then Some(end) else None)
            && (|w.todo| == 1 <==> end == |p| || end == |p| - 1)
  {
    ComponentBytes(w);
    LastComponentBytes(w);
  }

  function DropFirst(t: Bytes): Bytes {
    if t == [] then [] else t[1..]
  }

  /** A rendered path is what comes before it, a separator, and its tail
      without the leading separator. */
  lemma RenderFromTail(done: seq<Bytes>, rest: seq<Bytes>, slash: bool)
    ensures Render(done + rest, slash || rest == []) ==
            Slashed(done) + [SEP] + DropFirst(Tail(rest, slash))
  {
    if rest == [] {
      assert done + rest == done;
      assert Slashed(done) + [SEP] + [] == Slashed(done) + [SEP];
    } else {
      SlashedConcat(done, rest);
      Regroup(Slashed(done), Slashed(rest), if slash then [SEP] else []);
    }
  }

  lemma Regroup(a: Bytes, b: Bytes, c: Bytes)
    requires b != [] && b[0] == SEP
    ensures (a + b) + c == a + [SEP] + (b + c)[1..]
  {
  }

  lemma DropFirstAt(p: Bytes, end: nat)
    requires end <= |p|
    ensures DropFirst(p[end..]) == p[Min(end + 1, |p|)..]
  {
  }

  /** Dropping the bytes from the end of `done` through the component and the
      separator after it. */
  lemma DrainedBytes(w: Walk, done: seq<Bytes>)
    requires w.todo != []
    ensures var p, end := PathOf(w), IndexOf(w) + |w.todo[0]|;
            && end <= |p|
            && Render(done + w.todo[1..], w.slash || |w.todo| == 1) ==
               Slashed(done) + [SEP] + p[Min(end + 1, |p|)..]
  {
    PathAtComponent(w);
    CutAfter(Slashed(w.done) + [SEP], w.todo[0], Tail(w.todo[1..], w.slash));
    DrainedFrom(PathOf(w), IndexOf(w) + |w.todo[0]|, done, w.todo[1..], w.slash);
  }

  lemma CutAfter(a: Bytes, b: Bytes, c: Bytes)
    ensures (a + b + c)[|a| + |b|..] == c
  {
  }

  lemma DrainedFrom(p: Bytes, end: nat, done: seq<Bytes>, rest: seq<Bytes>, slash: bool)
    requires end <= |p| && p[end..] == Tail(rest, slash)
    ensures Render(done + rest, slash || |rest| == 0) == Slashed(done) + [SEP] + p[Min(end + 1, |p|)..]
  {
    DropFirstAt(p, end);
    RenderFromTail(done, rest, slash);
  }

  /** After a drain the loop stands at the end of `done`. */
  lemma IndexAfterDrain(w: Walk)
    requires w.todo == [] ==> w.slash || w.done == []
    ensures IndexOf(w) == |Slashed(w.done)| + 1
  {
    assert w.todo == [] ==> w.done + w.todo == w.done;
  }

  lemma {:induction false} PrevSepUnique(path: Bytes, start: nat, k: nat)
    requires k <= start < |path| && path[k] == SEP
    requires forall j :: k < j <= start ==> path[j] != SEP
    ensures FindPrevSep(path, start) == Some(k)
    decreases start
  {
    if k < start {
      PrevSepUnique(path, start - 1, k);
    }
  }

  /** Searching back over the piece `c` finds the separator before it. */
  lemma PrevSepOverPiece(a: Bytes, c: Bytes, b: Bytes)
    requires c != [] && SEP !in c
    ensures FindPrevSep(a + [SEP] + c + b, |a| + |c|) == Some(|a|)
  {
    var path := a + [SEP] + c + b;
    forall j | |a| < j <= |a| + |c|
      ensures path[j] != SEP
    {
      assert path[j] == c[j - |a| - 1] && path[j] in c;
    }
    PrevSepUnique(path, |a| + |c|, |a|);
  }

  lemma ParentStartOf(a: Bytes, c: Bytes, b: Bytes)
    requires c != [] && SEP !in c
    requires |b| > 1 && b[0] == SEP && (a == [] || a[0] == SEP)
    ensures var p, i := a + [SEP] + c + b, |a| + |c| + 2;
            && p[i - 1] == SEP && IsAbsolute(p)
            && FindParentComponentStart(p, i) == |a| + 1
            && p[..|a| + 1] == a + [SEP]
  {
    PrevSepOverPiece(a, c, b);
  }

  lemma ParentStart(w: Walk)
    requires Inv(w) && w.todo != []
    ensures var p, i := PathOf(w), IndexOf(w);
            && 0 < i < |p| && p[i - 1] == SEP && IsAbsolute(p)
            && FindParentComponentStart(p, i) == |Slashed(Parent(w.done))| + 1
            && p[..|Slashed(Parent(w.done))| + 1] == Slashed(Parent(w.done)) + [SEP]
  {
    PathAtComponent(w);
    assert w.todo[0] != [];
    ParentStartIn(PathOf(w), IndexOf(w), w.done, w.todo[0], Tail(w.todo[1..], w.slash));
  }

  lemma ParentStartIn(p: Bytes, i: nat, done: seq<Bytes>, comp: Bytes, tail: Bytes)
    requires Pieces(done) && comp != []
    requires p == Slashed(done) + [SEP] + comp + tail && i == |Slashed(done)| + 1
    ensures 0 < i < |p| && p[i - 1] == SEP && IsAbsolute(p)
    ensures FindParentComponentStart(p, i) == |Slashed(Parent(done))| + 1
    ensures p[..|Slashed(Parent(done))| + 1] == Slashed(Parent(done)) + [SEP]
  {
    if done != [] {
      var up, last := Parent(done), done[|done| - 1];
      assert done == up + [last];
      ParentStartBelow(up, last, comp, tail);
    }
  }

  lemma ParentStartBelow(up: seq<Bytes>, last: Bytes, comp: Bytes, tail: Bytes)
    requires last != [] && SEP !in last && comp != []
    ensures var a := Slashed(up + [last]);
            var p, i := a + [SEP] + comp + tail, |a| + 1;
            && p[i - 1] == SEP && IsAbsolute(p)
            && FindParentComponentStart(p, i) == |Slashed(up)| + 1
            && p[..|Slashed(up)| + 1] == Slashed(up) + [SEP]
  {
    SlashedSnoc(up, last);
    ParentStartOf(Slashed(up), last, [SEP] + comp + tail);
    AssociateFour(Slashed(up) + [SEP] + last, [SEP], comp, tail);
  }

  lemma AssociateFour(a: Bytes, b: Bytes, c: Bytes, d: Bytes)
    ensures a + b + c + d == a + (b + c + d)
  {
  }

  lemma IndexInside(w: Walk)
    requires Inv(w)
    ensures IndexOf(w) < |PathOf(w)| <==> w.todo != []
    ensures 0 < IndexOf(w) <= |PathOf(w)|
  {
    if w.todo != [] {
      ComponentBytes(w);
    }
  }

  // ----- one branch of the loop body each, on bytes

  lemma CurDirBytes(w: Walk, next: Walk)
    requires Inv(w) && w.todo != []
    requires next.done == w.done && next.todo == w.todo[1..] && next.slash == (w.slash || |w.todo| == 1)
    ensures var p, i := PathOf(w), IndexOf(w);
            var end := i + |w.todo[0]|;
            && i <= end <= |p|
            && PathOf(next) == p[..i] + p[Min(end + 1, |p|)..]
            && IndexOf(next) == i
  {
    ComponentBytes(w);
    DrainedBytes(w, w.done);
    IndexAfterDrain(next);
  }

  lemma ParentDirBytes(w: Walk, next: Walk)
    requires Inv(w) && w.todo != []
    requires next.done == Parent(w.done) && next.todo == w.todo[1..] && next.slash == (w.slash || |w.todo| == 1)
    ensures var p, i := PathOf(w), IndexOf(w);
            var end := i + |w.todo[0]|;
            && 0 < i < |p| && p[i - 1] == SEP && IsAbsolute(p) && end <= |p|
            && PathOf(next) == p[..FindParentComponentStart(p, i)] + p[Min(end + 1, |p|)..]
            && IndexOf(next) == FindParentComponentStart(p, i)
  {
    ParentStart(w);
    DrainedBytes(w, Parent(w.done));
    IndexAfterDrain(next);
  }

  lemma SpliceBytes(w: Walk, target: Bytes)
    requires Inv(w) && w.todo != [] && target != []
    ensures var p, i := PathOf(w), IndexOf(w);
            var end := i + |w.todo[0]|;
            && i <= end <= |p|
            && Spliced(w, target) == p[..if IsAbsolute(target) then 0 else i] + target + p[end..]
  {
    ComponentBytes(w);
  }

  lemma IndexAfterSplice(w: Walk, next: Walk, target: Bytes)
    requires Inv(w) && w.todo != [] && target != []
    requires next.todo == Comps(target) + w.todo[1..]
    requires next.done == if IsAbsolute(target) then [] else w.done
    ensures IndexOf(next) == if IsAbsolute(target) then 1 else IndexOf(w)
  {
    if !IsAbsolute(target) {
      FirstComponent(target, 0);
      assert target[0..] == target;
    } else if next.todo == [] {
      assert next.done + next.todo == [];
    }
  }

  lemma NextComponentBytes(w: Walk, next: Walk)
    requires Inv(w) && w.todo != []
    requires next.done == w.done + [w.todo[0]] && next.todo == w.todo[1..] && next.slash == w.slash
    ensures PathOf(next) == PathOf(w)
    ensures IndexOf(next) == Min(IndexOf(w) + |w.todo[0]| + 1, |PathOf(w)|)
  {
    assert next.done + next.todo == w.done + w.todo;
    LastComponentBytes(w);
    if |w.todo| > 1 {
      SlashedSnoc(w.done, w.todo[0]);
    }
  }

  /** A termination measure that does not need the iteration guard: every
      iteration follows one more link, or leaves fewer bytes after `index`. */
  lemma MeasureDecreases(fs: Fs, follow: FollowSymlinks, w: Walk)
    requires Inv(w) && w.todo != []
    ensures var s := Advance(fs, follow, w);
            s.Go? ==> || w.links < s.next.links <= MAX_SYMLINKS
                      || (&& s.next.links == w.links
                          && |PathOf(s.next)| - IndexOf(s.next) < |PathOf(w)| - IndexOf(w))
  {
    var s := Advance(fs, follow, w);
    ComponentBytes(w);
    if s.Go? {
      if w.todo[0] == CUR_DIR {
        CurDirBytes(w, s.next);
      } else if w.todo[0] == PARENT_DIR {
        ParentDirBytes(w, s.next);
      } else if s.next.links == w.links {
        NextComponentBytes(w, s.next);
      }
    }
  }

  // ----- the loop

  /** The variables that the loop of `resolve_path` updates. */
  datatype Cursor = Cursor(path: Bytes, index: nat, inode: Inode, numSymlinks: nat)

  ghost function CursorOf(w: Walk): Cursor {
    Cursor(PathOf(w), IndexOf(w), w.inode, w.links)
  }

  /** What an iteration must leave in the variables. */
  ghost predicate Agrees(step: Step, r: Result<Cursor>) {
    match step
    case Stop(e) => r == Err(e)
    case Go(next) => r == Ok(CursorOf(next))
  }

  lemma CurDirAgrees(fs: Fs, follow: FollowSymlinks, w: Walk)
    requires Inv(w) && w.todo != [] && w.todo[0] == CUR_DIR
    requires w.inode.kind.Directory? && fs.lookup(w.inode, CUR_DIR).Ok?
    ensures var p, i := PathOf(w), IndexOf(w);
            var end := i + |CUR_DIR|;
            && end <= |p|
            && Agrees(Advance(fs, follow, w), Ok(Cursor(p[..i] + p[Min(end + 1, |p|)..], i, w.inode, w.links)))
  {
    CurDirBytes(w, Advance(fs, follow, w).next);
  }

  lemma ParentDirAgrees(fs: Fs, follow: FollowSymlinks, w: Walk, child: Inode)
    requires Inv(w) && w.todo != [] && w.todo[0] == PARENT_DIR
    requires w.inode.kind.Directory? && fs.lookup(w.inode, PARENT_DIR) == Ok(child)
    ensures var p, i := PathOf(w), IndexOf(w);
            var end := i + |PARENT_DIR|;
            && 0 < i < |p| && p[i - 1] == SEP && IsAbsolute(p) && end <= |p|
            && var start := FindParentComponentStart(p, i);
            Agrees(Advance(fs, follow, w), Ok(Cursor(p[..start] + p[Min(end + 1, |p|)..], start, child, w.links)))
  {
    ParentDirBytes(w, Advance(fs, follow, w).next);
  }

  lemma NextComponentAgrees(fs: Fs, follow: FollowSymlinks, w: Walk, child: Inode)
    requires Inv(w) && w.todo != [] && w.todo[0] != CUR_DIR && w.todo[0] != PARENT_DIR
    requires w.inode.kind.Directory? && fs.lookup(w.inode, w.todo[0]) == Ok(child)
    requires !(child.kind.Symlink? && (follow.All? || |w.todo| != 1))
    ensures var p, end := PathOf(w), IndexOf(w) + |w.todo[0]|;
            Agrees(Advance(fs, follow, w), Ok(Cursor(p, Min(end + 1, |p|), child, w.links)))
  {
    NextComponentBytes(w, Advance(fs, follow, w).next);
  }

  lemma SpliceNext(w: Walk, next: Walk, target: Bytes)
    requires Inv(w) && w.todo != [] && target != []
    requires next.done == (if IsAbsolute(target) then [] else w.done) && next.todo == Comps(target) + w.todo[1..]
    requires next.slash == (w.slash || (|w.todo| == 1 && EndsWithSep(target)))
    ensures var p, i := PathOf(w), IndexOf(w);
            var end := i + |w.todo[0]|;
            && i <= end <= |p|
            && var x := p[..if IsAbsolute(target) then 0 else i] + target + p[end..];
            && |x| == SplicedLen(w, target) && PathOf(next) == Dedup(x)
            && IndexOf(next) == if IsAbsolute(target) then 1 else i
  {
    SpliceBytes(w, target);
    SplicedIsRender(w, target);
    IndexAfterSplice(w, next, target);
  }

  lemma SpliceAgrees(fs: Fs, w: Walk, link: Inode, target: Bytes)
    requires fs.Valid() && Inv(w) && w.todo != [] && w.links < MAX_SYMLINKS
    requires SymlinkTarget(fs, link) == Ok(target)
    requires IsAbsolute(target) ==> fs.root.Ok?
    ensures var p, i := PathOf(w), IndexOf(w);
            var end, absolute := i + |w.todo[0]|, IsAbsolute(target);
            && i <= end <= |p|
            && var x := p[..if absolute then 0 else i] + target + p[end..];
            Agrees(FollowLink(fs, w, link),
                   if |x| > MAX_PATH_LEN then Err(PathTooLong)
                   else Ok(Cursor(Dedup(x), if absolute then 1 else i,
                                  if absolute then fs.root.value else w.inode, w.links + 1)))
  {
    var absolute := IsAbsolute(target);
    var next := Walk(if absolute then [] else w.done, Comps(target) + w.todo[1..],
                     w.slash || (|w.todo| == 1 && EndsWithSep(target)),
                     if absolute then fs.root.value else w.inode, w.links + 1, w.iters + 1);
    SpliceNext(w, next, target);
    assert SplicedLen(w, target) <= MAX_PATH_LEN ==> FollowLink(fs, w, link) == Go(next);
  }

  /** The branch that follows a symlink: splice its target into the path. */
  method SpliceSymlink(fs: Fs, child: Inode, c: Cursor, compEnd: nat, ghost w: Walk) returns (r: Result<Cursor>)
    requires fs.Valid() && Inv(w) && w.todo != []
    requires c == CursorOf(w) && compEnd == c.index + |w.todo[0]|
    ensures Agrees(FollowLink(fs, w, child), r)
  {
    if c.numSymlinks + 1 > MAX_SYMLINKS {
      return Err(TooManySymlinks);
    }
    var target :- SymlinkTarget(fs, child);
    r := SpliceTarget(fs, child, c, compEnd, target, w);
  }

  method SpliceTarget(fs: Fs, child: Inode, c: Cursor, compEnd: nat, target: Bytes, ghost w: Walk)
    returns (r: Result<Cursor>)
    requires fs.Valid() && Inv(w) && w.todo != [] && w.links < MAX_SYMLINKS && SymlinkTarget(fs, child) == Ok(target)
    requires c == CursorOf(w) && compEnd == c.index + |w.todo[0]|
    ensures Agrees(FollowLink(fs, w, child), r)
  {
    var index, inode, replaceStart := c.index, c.inode, c.index;
    if IsAbsolute(target) {
      inode :- fs.root;
      index := 1;
      replaceStart := 0;
    }
    SpliceAgrees(fs, w, child, target);
    r := ReplaceBytes(Cursor(c.path, index, inode, c.numSymlinks + 1), replaceStart, compEnd, target);
  }

  /** Replace bytes of the path, and normalize it again. */
  method ReplaceBytes(c: Cursor, start: nat, end: nat, target: Bytes) returns (r: Result<Cursor>)
    requires start <= end <= |c.path|
    ensures var x := c.path[..start] + target + c.path[end..];
            r == if |x| > MAX_PATH_LEN then Err(PathTooLong) else Ok(c.(path := Dedup(x)))
  {
    var path := c.path[..start] + target + c.path[end..];
    if |path| > MAX_PATH_LEN {
      return Err(PathTooLong);
    }
    path := PathDedupSep(path);
    r := Ok(c.(path := path));
  }

  /** Find the end of the current component, and whether it is the last one. */
  method FindComponent(path: Bytes, index: nat, ghost w: Walk) returns (compEnd: nat, isLastComponent: bool)
    requires Inv(w) && w.todo != [] && path == PathOf(w) && index == IndexOf(w)
    ensures index < compEnd <= |path| && path[index..compEnd] == w.todo[0]
    ensures isLastComponent <==> |w.todo| == 1
  {
    ComponentFound(w);
    var nextSep := FindNextSep(path, index);
    compEnd := if nextSep.Some? then nextSep.value else |path|;
    isLastComponent := nextSep.None? || compEnd == |path| - 1;
  }

  /** The body of the loop, after the iteration guard. */
  method ResolveComponent(fs: Fs, follow: FollowSymlinks, c: Cursor, ghost w: Walk) returns (r: Result<Cursor>)
    requires fs.Valid() && Inv(w) && w.todo != [] && c == CursorOf(w)
    ensures Agrees(Advance(fs, follow, w), r)
  {
    var path, index, inode := c.path, c.index, c.inode;
    var compEnd, isLastComponent := FindComponent(path, index, w);
    var comp := path[index..compEnd];

    if !inode.kind.Directory? {
      return Err(NotADirectory);
    }
    assert ValidName(comp);  // `DirEntryName::try_from` cannot fail
    var child :- fs.lookup(inode, comp);
    r := ResolveChild(fs, follow, c, compEnd, isLastComponent, child, w);
  }

  /** The branches of the loop body, once the component is looked up. */
  method ResolveChild(fs: Fs, follow: FollowSymlinks, c: Cursor, compEnd: nat, isLastComponent: bool, child: Inode,
                      ghost w: Walk)
    returns (r: Result<Cursor>)
    requires fs.Valid() && Inv(w) && w.todo != [] && c == CursorOf(w)
    requires compEnd == c.index + |w.todo[0]| <= |c.path| && c.path[c.index..compEnd] == w.todo[0]
    requires isLastComponent <==> |w.todo| == 1
    requires w.inode.kind.Directory? && fs.lookup(w.inode, w.todo[0]) == Ok(child)
    ensures Agrees(Advance(fs, follow, w), r)
  {
    var comp := c.path[c.index..compEnd];
    if comp == CUR_DIR {
      r := RemoveCurDir(fs, follow, c, compEnd, w);
    } else if comp == PARENT_DIR {
      r := RemoveParentDir(fs, follow, c, compEnd, child, w);
    } else if child.kind.Symlink? && (follow.All? || !isLastComponent) {
      r := SpliceSymlink(fs, child, c, compEnd, w);
    } else {
      NextComponentAgrees(fs, follow, w, child);
      r := Ok(Cursor(c.path, Min(compEnd + 1, |c.path|), child, c.numSymlinks));
    }
  }

  /** The branch for ".": remove it. */
  method RemoveCurDir(fs: Fs, follow: FollowSymlinks, c: Cursor, compEnd: nat, ghost w: Walk)
    returns (r: Result<Cursor>)
    requires Inv(w) && w.todo != [] && w.todo[0] == CUR_DIR && c == CursorOf(w) && compEnd == c.index + |CUR_DIR|
    requires w.inode.kind.Directory? && fs.lookup(w.inode, CUR_DIR).Ok?
    ensures Agrees(Advance(fs, follow, w), r)
  {
    CurDirAgrees(fs, follow, w);
    var compEndWithSep := Min(compEnd + 1, |c.path|);
    var path := c.path[..c.index] + c.path[compEndWithSep..];
    r := Ok(Cursor(path, c.index, c.inode, c.numSymlinks));
  }

  /** The branch for "..": remove it and the component before it. */
  method RemoveParentDir(fs: Fs, follow: FollowSymlinks, c: Cursor, compEnd: nat, child: Inode, ghost w: Walk)
    returns (r: Result<Cursor>)
    requires Inv(w) && w.todo != [] && w.todo[0] == PARENT_DIR && c == CursorOf(w)
    requires compEnd == c.index + |PARENT_DIR|
    requires w.inode.kind.Directory? && fs.lookup(w.inode, PARENT_DIR) == Ok(child)
    ensures Agrees(Advance(fs, follow, w), r)
  {
    ParentDirAgrees(fs, follow, w, child);
    var compEndWithSep := Min(compEnd + 1, |c.path|);
    var removeStart := FindParentComponentStart(c.path, c.index);
    var path := c.path[..removeStart] + c.path[compEndWithSep..];
    r := Ok(Cursor(path, removeStart, child, c.numSymlinks));
  }

  /** `resolve_path`. */
  method ResolvePath(fs: Fs, input: Bytes, follow: FollowSymlinks) returns (r: Outcome)
    requires fs.Valid() && ValidPath(input)
    ensures r == Resolve(fs, input, follow)
  {
    if !IsAbsolute(input) {
      return Failed(NotAbsolute);
    }
    if |input| > MAX_PATH_LEN {
      return Failed(PathTooLong);
    }
    var path := PathDedupSep(input);
    var numIterations := 0;
    if fs.root.Err? {
      return Failed(fs.root.error);
    }
    var c := Cursor(path, 1, fs.root.value, 0);

    ghost var expected := Resolve(fs, input, follow);
    ghost var w := Start(fs.root.value, input);
    StartInv(fs.root.value, input);
    StartIndex(w);
    while c.index < |c.path|
      invariant Inv(w) && c == CursorOf(w) && numIterations == w.iters
      invariant Run(fs, follow, w, MAX_ITERATIONS) == expected
      decreases MAX_SYMLINKS - c.numSymlinks, |c.path| - c.index
    {
      IndexInside(w);
      AdvanceInv(fs, follow, w);
      MeasureDecreases(fs, follow, w);
      AdvanceMakesProgress(fs, follow, w);
      numIterations := numIterations + 1;
      if numIterations > MAX_ITERATIONS {
        return Aborted;
      }
      var body := ResolveComponent(fs, follow, c, w);
      if body.Err? {
        return Failed(body.error);
      }
      c := body.value;
      w := Advance(fs, follow, w).next;
    }
    IndexInside(w);
    r := FinishPath(c, w);
  }

  /** The check of a trailing separator after the loop. */
  method FinishPath(c: Cursor, ghost w: Walk) returns (r: Outcome)
    requires Inv(w) && w.todo == [] && c == CursorOf(w)
    ensures r == Finish(w)
  {
    var path := c.path;
    assert w.done + w.todo == w.done;
    CompsOfRender(w.done, w.slash);
    if |path| > 1 && path[|path| - 1] == SEP {
      if c.inode.kind.Directory? {
        path := path[..|path| - 1];
      } else {
        return Failed(NotADirectory);
      }
    }
    assert path == Render(w.done, false);
    CanonicalIsValid(w.done);
    assert ValidPath(path);  // `PathBuf::try_from` cannot fail
    r := Found(c.inode, path);
  }

  lemma StartIndex(w: Walk)
    requires w.done == []
    ensures IndexOf(w) == 1
  {
    assert w.done + w.todo == w.todo;
  }

  lemma CanonicalIsValid(cs: seq<Bytes>)
    requires ValidNames(cs)
    ensures ValidPath(Render(cs, false))
  {
    CompsOfRender(cs, false);
    NoNullInSlashed(cs);
  }

  lemma {:induction false} NoNullInSlashed(cs: seq<Bytes>)
    requires ValidNames(cs)
    ensures 0 !in Slashed(cs)
    decreases |cs|
  {
    if cs != [] {
      NoNullInSlashed(cs[1..]);
    }
  }
}
