// Paths as byte strings (src/path.rs): validation, the component iterator and
// `push`, together with the two facts path resolution rests on: components
// are a homomorphism, and removing doubled separators gives the one normal
// form of an absolute path.

module Paths {
  import opened Basics

  const SEP: byte := 0x2f
  const DOT: byte := 0x2e
  const MAX_NAME_LEN: nat := 255

  const CUR_DIR: Bytes := [DOT]
  const PARENT_DIR: Bytes := [DOT, DOT]

  /** `DirEntryName::try_from` accepts `name`. */
  predicate ValidName(name: Bytes) {
    name != [] && |name| <= MAX_NAME_LEN && 0 !in name && SEP !in name
  }

  /** Index of the first separator at or after `start`, or the length of `s`. */
  function ComponentEnd(s: Bytes, start: nat): (end: nat)
    requires start <= |s|
    ensures start <= end <= |s|
    ensures SEP !in s[start..end]
    ensures end < |s| ==> s[end] == SEP
    decreases |s| - start
  {
    if start == |s| || s[start] == SEP then start
    else
      var end := ComponentEnd(s, start + 1);
      assert s[start..end] == [s[start]] + s[start + 1..end];
      end
  }

  lemma ComponentEndUnique(s: Bytes, start: nat, end: nat)
    requires start <= end <= |s|
    requires SEP !in s[start..end]
    requires end < |s| ==> s[end] == SEP
    ensures ComponentEnd(s, start) == end
    decreases end - start
  {
    if start < end {
      assert s[start] in s[start..end];
      assert s[start + 1..end] == s[start..end][1..];
      ComponentEndUnique(s, start + 1, end);
    }
  }

  /** Non-empty byte strings without separators. */
  predicate Pieces(cs: seq<Bytes>) {
    forall i :: 0 <= i < |cs| ==> cs[i] != [] && SEP !in cs[i]
  }

  /** The non-empty pieces between separators, in order. */
  function Comps(s: Bytes): (cs: seq<Bytes>)
    ensures Pieces(cs)
    decreases |s|
  {
    if s == [] then []
    else if s[0] == SEP then Comps(s[1..])
    else
      var end := ComponentEnd(s, 0);
      assert s[0..end] == s[..end];
      [s[..end]] + Comps(s[end..])
  }

  predicate IsAbsolute(s: Bytes) {
    s != [] && s[0] == SEP
  }

  predicate EndsWithSep(s: Bytes) {
    s != [] && s[|s| - 1] == SEP
  }

  predicate ShortPieces(cs: seq<Bytes>) {
    forall i :: 0 <= i < |cs| ==> |cs[i]| <= MAX_NAME_LEN
  }

  /** `Path::try_from` accepts `s`. (The empty pieces that `split` also
      produces always pass the length check.) */
  predicate ValidPath(s: Bytes) {
    0 !in s && ShortPieces(Comps(s))
  }

  // ----- components of a concatenation

  /** `a` and `b` do not fuse a component when written one after the other. */
  predicate Splits(a: Bytes, b: Bytes) {
    a == [] || b == [] || EndsWithSep(a) || IsAbsolute(b)
  }

  lemma {:induction false} CompsConcat(a: Bytes, b: Bytes)
    requires Splits(a, b)
    ensures Comps(a + b) == Comps(a) + Comps(b)
    decreases |a|
  {
    if a == [] {
      assert a + b == b;
    } else if a[0] == SEP {
      assert (a + b)[1..] == a[1..] + b;
      CompsConcat(a[1..], b);
    } else {
      var end := ComponentEnd(a, 0);
      assert (a + b)[0..end] == a[0..end];
      if end == |a| && b == [] {
        assert a + b == a;
      } else {
        if end == |a| {
          assert !EndsWithSep(a) by { assert a[0..end] == a; }
          assert (a + b)[end] == b[0];
        }
        ComponentEndUnique(a + b, 0, end);
        assert (a + b)[..end] == a[..end];
        assert (a + b)[end..] == a[end..] + b;
        CompsConcat(a[end..], b);
      }
    }
  }

  lemma FirstComponent(s: Bytes, offset: nat)
    requires offset < |s| && s[offset] != SEP
    ensures offset < ComponentEnd(s, offset)
    ensures var end := ComponentEnd(s, offset);
            Comps(s[offset..]) == [s[offset..end]] + Comps(s[end..])
  {
    var rest, end := s[offset..], ComponentEnd(s, offset);
    assert rest[0..end - offset] == s[offset..end];
    ComponentEndUnique(rest, 0, end - offset);
    assert rest[..end - offset] == s[offset..end] && rest[end - offset..] == s[end..];
  }

  lemma CompsOfOne(c: Bytes)
    requires c != [] && SEP !in c
    ensures Comps(c) == [c]
  {
    assert c[0] in c;
    assert c[0..|c|] == c;
    ComponentEndUnique(c, 0, |c|);
    assert c[..|c|] == c && c[|c|..] == [];
  }

  lemma {:induction false} NoNullInComps(s: Bytes)
    requires 0 !in s
    ensures forall i :: 0 <= i < |Comps(s)| ==> 0 !in Comps(s)[i]
    decreases |s|
  {
    if s == [] {
    } else if s[0] == SEP {
      NoNullInComps(s[1..]);
    } else {
      NoNullInComps(s[ComponentEnd(s, 0)..]);
    }
  }

  predicate ValidNames(cs: seq<Bytes>) {
    forall i :: 0 <= i < |cs| ==> ValidName(cs[i])
  }

  /** Every component of a valid path is a valid directory entry name. */
  lemma CompsAreNames(s: Bytes)
    requires ValidPath(s)
    ensures ValidNames(Comps(s))
  {
    NoNullInComps(s);
  }

  // ----- the normal form of an absolute path

  /** "/c0/c1/...": every component preceded by a separator. */
  function Slashed(cs: seq<Bytes>): Bytes {
    if cs == [] then [] else [SEP] + cs[0] + Slashed(cs[1..])
  }

  /** The absolute path with components `cs`, with or without a trailing
      separator. The root is always "/". */
  function Render(cs: seq<Bytes>, slash: bool): (s: Bytes)
    ensures IsAbsolute(s)
  {
    if cs == [] then [SEP]
    else Slashed(cs) + if slash then [SEP] else []
  }

  lemma {:induction false} SlashedConcat(a: seq<Bytes>, b: seq<Bytes>)
    ensures Slashed(a + b) == Slashed(a) + Slashed(b)
    decreases |a|
  {
    if a == [] {
      assert a + b == b;
    } else {
      assert (a + b)[1..] == a[1..] + b;
      SlashedConcat(a[1..], b);
    }
  }

  lemma SlashedSnoc(a: seq<Bytes>, c: Bytes)
    ensures Slashed(a + [c]) == Slashed(a) + [SEP] + c
  {
    SlashedConcat(a, [c]);
    assert [c][1..] == [];
  }

  lemma {:induction false} SlashedShape(cs: seq<Bytes>)
    requires Pieces(cs)
    ensures cs != [] ==> IsAbsolute(Slashed(cs)) && !EndsWithSep(Slashed(cs))
    ensures |Slashed(cs)| >= 2 * |cs|
    decreases |cs|
  {
    if cs != [] {
      SlashedShape(cs[1..]);
      assert cs[0][|cs[0]| - 1] in cs[0];
      if cs[1..] == [] {
        assert Slashed(cs) == [SEP] + cs[0];
      }
    }
  }

  lemma CompsOfCons(c: Bytes, rest: Bytes)
    requires c != [] && SEP !in c
    requires rest == [] || rest[0] == SEP
    ensures Comps([SEP] + c + rest) == [c] + Comps(rest)
  {
    assert ([SEP] + c + rest)[1..] == c + rest;
    CompsConcat(c, rest);
    CompsOfOne(c);
  }

  lemma {:induction false} CompsOfSlashed(cs: seq<Bytes>)
    requires Pieces(cs)
    ensures Comps(Slashed(cs)) == cs
    decreases |cs|
  {
    if cs != [] {
      CompsOfCons(cs[0], Slashed(cs[1..]));
      CompsOfSlashed(cs[1..]);
      assert cs == [cs[0]] + cs[1..];
    }
  }

  /** Reading back the components of a rendered path gives the components. */
  lemma CompsOfRender(cs: seq<Bytes>, slash: bool)
    requires Pieces(cs)
    ensures Comps(Render(cs, slash)) == cs
    ensures EndsWithSep(Render(cs, slash)) <==> cs == [] || slash
  {
    CompsOfSlashed(cs);
    SlashedShape(cs);
    if cs != [] && slash {
      CompsConcat(Slashed(cs), [SEP]);
    } else if cs != [] {
      assert Slashed(cs) + [] == Slashed(cs);
    }
  }

  // ----- doubled separators

  /** The value `path_dedup_sep` leaves in the vector. */
  function Dedup(s: Bytes): (r: Bytes)
    ensures |r| <= |s|
    ensures s != [] ==> r != [] && r[0] == s[0]
  {
    if |s| <= 1 then s
    else if s[0] == SEP && s[1] == SEP then Dedup(s[1..])
    else [s[0]] + Dedup(s[1..])
  }

  predicate NoDoubledSep(s: Bytes) {
    forall i :: 0 < i < |s| ==> !(s[i - 1] == SEP && s[i] == SEP)
  }

  /** `path_dedup_sep`: remove the second of two adjacent separators, in place,
      from left to right. */
  method PathDedupSep(input: Bytes) returns (path: Bytes)
    ensures path == Dedup(input)
  {
    path := input;
    var i := 1;
    assert path[0..] == path && [] + Dedup(path) == Dedup(path);
    while i < |path|
      invariant path == [] ==> input == []
      invariant path != [] ==> 1 <= i <= |path| && Merged(path, i) == Dedup(input)
      decreases |path| - i
    {
      if path[i - 1] == SEP && path[i] == SEP {
        MergeDoubled(path, i);
        path := path[..i] + path[i + 1..];
      } else {
        MergeNext(path, i);
        i := i + 1;
      }
    }
    if path != [] {
      assert path[i - 1..] == [path[i - 1]];
    }
  }

  /** Only the bytes from the one before `i` on are left to merge. */
  ghost function Merged(path: Bytes, i: nat): Bytes
    requires 1 <= i <= |path|
  {
    path[..i - 1] + Dedup(path[i - 1..])
  }

  lemma MergeDoubled(path: Bytes, i: nat)
    requires 1 <= i < |path| && path[i - 1] == SEP && path[i] == SEP
    ensures Merged(path[..i] + path[i + 1..], i) == Merged(path, i)
  {
    var merged := path[..i] + path[i + 1..];
    assert merged[..i - 1] == path[..i - 1];
    assert merged[i - 1..] == path[i - 1..][1..];
  }

  lemma MergeNext(path: Bytes, i: nat)
    requires 1 <= i < |path| && !(path[i - 1] == SEP && path[i] == SEP)
    ensures Merged(path, i + 1) == Merged(path, i)
  {
    var a, b, rest := path[..i - 1], [path[i - 1]], Dedup(path[i..]);
    assert path[i - 1..][1..] == path[i..];
    assert path[..i] == a + b;
    assert (a + b) + rest == a + (b + rest);
  }

  lemma {:induction false} DedupOfPiece(c: Bytes, t: Bytes)
    requires SEP !in c
    requires t == [] || t[0] == SEP
    ensures Dedup(c + t) == c + Dedup(t)
    decreases |c|
  {
    var s := c + t;
    if c == [] {
      assert s == t;
    } else {
      assert s[0] == c[0] && c[0] in c;
      assert s[1..] == c[1..] + t;
      DedupOfPiece(c[1..], t);
      assert [c[0]] + (c[1..] + Dedup(t)) == c + Dedup(t);
      if |s| == 1 {
        assert t == [] && s == c;
      }
    }
  }

  lemma RenderCons(c: Bytes, cs: seq<Bytes>, slash: bool)
    ensures Render([c] + cs, slash) ==
            [SEP] + (c + if cs == [] && !slash then [] else Render(cs, slash))
  {
    assert ([c] + cs)[1..] == cs;
    assert Slashed([c] + cs) == [SEP] + c + Slashed(cs);
  }

  lemma SuffixEnd(s: Bytes, k: nat)
    requires k < |s|
    ensures EndsWithSep(s[k..]) <==> EndsWithSep(s)
  {
    assert s[k..][|s| - k - 1] == s[|s| - 1];
  }

  lemma SplitAt(s: Bytes, start: nat, end: nat)
    requires start <= end <= |s|
    ensures s[start..] == s[start..end] + s[end..]
  {
  }

  lemma DedupFirst(s: Bytes)
    requires |s| > 1 && s[0] == SEP && s[1] != SEP
    ensures var end := ComponentEnd(s, 1);
            Dedup(s) == [SEP] + (s[1..end] + Dedup(s[end..]))
  {
    var end := ComponentEnd(s, 1);
    var c, t := s[1..end], s[end..];
    calc {
      Dedup(s);
      [SEP] + Dedup(s[1..]);
      { SplitAt(s, 1, end); }
      [SEP] + Dedup(c + t);
      { DedupOfPiece(c, t); }
      [SEP] + (c + Dedup(t));
    }
  }

  lemma LastByteOf(s: Bytes, k: nat, end: nat)
    requires k < end == |s| && SEP !in s[k..end]
    ensures !EndsWithSep(s)
  {
    assert s[|s| - 1] in s[k..end];
  }

  /** Removing doubled separators computes the normal form of an absolute
      path: the path rendered from its components. */
  lemma {:induction false} DedupIsRender(s: Bytes)
    requires IsAbsolute(s)
    ensures Dedup(s) == Render(Comps(s), EndsWithSep(s))
    decreases |s|
  {
    if |s| == 1 {
      assert s == [SEP] && s[1..] == [];
    } else if s[1] == SEP {
      var t := s[1..];
      DedupIsRender(t);
      DoubledFirst(s, t);
    } else {
      var end := ComponentEnd(s, 1);
      if end < |s| {
        DedupIsRender(s[end..]);
      }
      DedupComponent(s, end);
    }
  }

  lemma DoubledFirst(s: Bytes, t: Bytes)
    requires |s| > 1 && s[0] == SEP && s[1] == SEP && t == s[1..]
    ensures Dedup(s) == Dedup(t) && Comps(s) == Comps(t) && (EndsWithSep(s) <==> EndsWithSep(t))
  {
  }

  lemma DedupComponent(s: Bytes, end: nat)
    requires IsAbsolute(s) && |s| > 1 && s[1] != SEP && end == ComponentEnd(s, 1) <= |s|
    requires end < |s| ==> Dedup(s[end..]) == Render(Comps(s[end..]), EndsWithSep(s[end..]))
    ensures Dedup(s) == Render(Comps(s), EndsWithSep(s))
  {
    var t := s[end..];
    FirstComponent(s, 1);
    DedupFirst(s);
    RenderCons(s[1..end], Comps(t), EndsWithSep(s));
    if end == |s| {
      LastByteOf(s, 1, end);
    } else {
      OnlySeparators(t);
      SuffixEnd(s, end);
    }
  }

  lemma {:induction false} OnlySeparators(t: Bytes)
    requires t != []
    ensures Comps(t) == [] ==> EndsWithSep(t)
    decreases |t|
  {
    if |t| > 1 && t[0] == SEP {
      OnlySeparators(t[1..]);
    }
  }

  lemma {:induction false} DedupLeavesNoDouble(s: Bytes)
    ensures NoDoubledSep(Dedup(s))
    decreases |s|
  {
    if |s| > 1 {
      DedupLeavesNoDouble(s[1..]);
    }
  }

  lemma {:induction false} DedupOfNormal(s: Bytes)
    requires NoDoubledSep(s)
    ensures Dedup(s) == s
    decreases |s|
  {
    if |s| > 1 {
      assert s[0 + 1] == s[1];
      DedupOfNormal(s[1..]);
    }
  }

  lemma {:induction false} DedupKeepsComps(s: Bytes)
    ensures Comps(Dedup(s)) == Comps(s)
    decreases |s|
  {
    if |s| <= 1 {
    } else if s[0] == SEP {
      DedupKeepsComps(s[1..]);
      if s[1] != SEP {
        assert Dedup(s)[1..] == Dedup(s[1..]);
      }
    } else {
      var end := ComponentEnd(s, 0);
      var c, t := s[..end], s[end..];
      assert c == s[0..end] && s == c + t;
      DedupOfPiece(c, t);
      DedupKeepsComps(t);
      CompsConcat(c, Dedup(t));
      CompsConcat(c, t);
    }
  }

  /** `path_dedup_sep` is idempotent, leaves no doubled separator and never
      changes the component list. */
  lemma DedupNormalizes(s: Bytes)
    ensures Dedup(Dedup(s)) == Dedup(s)
    ensures NoDoubledSep(Dedup(s))
    ensures Comps(Dedup(s)) == Comps(s)
  {
    DedupLeavesNoDouble(s);
    DedupOfNormal(Dedup(s));
    DedupKeepsComps(s);
  }

  // ----- `PathBuf` and `Components`

  /** The bytes of `a.join(b)`. */
  function Join(a: Bytes, b: Bytes): Bytes {
    if IsAbsolute(b) then b
    else if a != [] && !EndsWithSep(a) then a + [SEP] + b
    else a + b
  }

  class PathBuf {
    var bytes: Bytes

    constructor (s: Bytes)
      requires ValidPath(s)
      ensures bytes == s
    {
      bytes := s;
    }

    /** Append a path, adding a separator if needed; an absolute path replaces
        the old one. A valid buffer stays valid. */
    method Push(p: Bytes)
      requires ValidPath(p)
      modifies this
      ensures bytes == Join(old(bytes), p)
      ensures old(ValidPath(bytes)) ==> ValidPath(bytes)
    {
      ghost var before := bytes;
      if IsAbsolute(p) {
        bytes := [];
        bytes := bytes + p;
        assert bytes == p;
        return;
      }
      var addSep := bytes != [] && bytes[|bytes| - 1] != SEP;
      if addSep {
        bytes := bytes + [SEP];
      }
      bytes := bytes + p;
      if ValidPath(before) {
        JoinIsHomomorphic(before, p);
      }
    }
  }

  /** Components are a homomorphism: joining a relative path concatenates the
      component lists, and joining an absolute path replaces them. */
  lemma JoinIsHomomorphic(a: Bytes, b: Bytes)
    requires ValidPath(a) && ValidPath(b)
    ensures ValidPath(Join(a, b))
    ensures Comps(Join(a, b)) == if IsAbsolute(b) then Comps(b) else Comps(a) + Comps(b)
    ensures IsAbsolute(Join(a, b)) <==> IsAbsolute(a) || IsAbsolute(b)
  {
    if !IsAbsolute(b) {
      if a != [] && !EndsWithSep(a) {
        CompsConcat(a, [SEP]);
        CompsConcat(a + [SEP], b);
        assert Comps(a + [SEP]) == Comps(a);
      } else {
        CompsConcat(a, b);
      }
    }
  }

  datatype Component = RootDir | CurDir | ParentDir | Normal(name: Bytes)

  function Classify(c: Bytes): Component {
    if c == CUR_DIR then CurDir
    else if c == PARENT_DIR then ParentDir
    else Normal(c)
  }

  function ClassifyAll(cs: seq<Bytes>): (r: seq<Component>)
    ensures |r| == |cs|
  {
    if cs == [] then [] else [Classify(cs[0])] + ClassifyAll(cs[1..])
  }

  /** The bytes of a component other than the root. */
  function BytesOf(c: Component): Bytes {
    match c
    case RootDir => []
    case CurDir => [0x2e]
    case ParentDir => [0x2e, 0x2e]
    case Normal(name) => name
  }

  /** Which component a name becomes: the two dot names are told apart from each other
      and from all others, and nothing is lost. */
  lemma {:induction false} ClassifiedAt(cs: seq<Bytes>, i: nat)
    requires i < |cs|
    ensures var c := ClassifyAll(cs)[i];
            && BytesOf(c) == cs[i] && !c.RootDir?
            && (c.CurDir? <==> cs[i] == [0x2e]) && (c.ParentDir? <==> cs[i] == [0x2e, 0x2e])
    decreases |cs|
  {
    if i > 0 {
      ClassifiedAt(cs[1..], i - 1);
    }
  }

  lemma ClassifyCons(c: Bytes, cs: seq<Bytes>)
    ensures ClassifyAll([c] + cs) == [Classify(c)] + ClassifyAll(cs)
  {
    assert ([c] + cs)[1..] == cs;
  }

  /** All that the component iterator of `s` yields. */
  function AllComponents(s: Bytes): seq<Component> {
    (if IsAbsolute(s) then [RootDir] else []) + ClassifyAll(Comps(s))
  }

  /** What the iterator yields: the root of an absolute path, and then each component
      with its own bytes, where only "." and ".." are told apart. */
  lemma ComponentsAreNames(s: Bytes, i: nat)
    requires i < |AllComponents(s)|
    ensures var all, root := AllComponents(s), if IsAbsolute(s) then 1 else 0;
            && |all| == root + |Comps(s)|
            && (all[i].RootDir? <==> IsAbsolute(s) && i == 0)
            && (i >= root ==>
                  && BytesOf(all[i]) == Comps(s)[i - root]
                  && (all[i].CurDir? <==> Comps(s)[i - root] == [0x2e])
                  && (all[i].ParentDir? <==> Comps(s)[i - root] == [0x2e, 0x2e]))
  {
    var root := if IsAbsolute(s) then 1 else 0;
    if i >= root {
      ClassifiedAt(Comps(s), i - root);
    }
  }

  lemma FirstRemaining(path: Bytes, offset: nat)
    requires offset < |path| && path[offset] != SEP
    ensures var end := ComponentEnd(path, offset);
            && offset < end <= |path|
            && ClassifyAll(Comps(path[offset..])) ==
               [Classify(path[offset..end])] + ClassifyAll(Comps(path[end..]))
  {
    var end := ComponentEnd(path, offset);
    FirstComponent(path, offset);
    ClassifyCons(path[offset..end], Comps(path[end..]));
  }

  /** The iterator returned by `Path::components`. */
  class Components {
    const path: Bytes
    var offset: nat

    constructor (path: Bytes)
      ensures this.path == path && offset == 0
      ensures Valid() && Remaining() == AllComponents(path)
    {
      this.path := path;
      offset := 0;
      new;
      assert path[0..] == path;
    }

    ghost predicate Valid()
      reads this
    {
      offset <= |path|
    }

    /** What is left to yield. */
    ghost function Remaining(): seq<Component>
      reads this
      requires Valid()
    {
      (if offset == 0 && IsAbsolute(path) then [RootDir] else []) + Names()
    }

    method SkipSeparators()
      requires Valid() && (offset == 0 ==> !IsAbsolute(path))
      modifies this
      ensures Valid() && (offset == 0 ==> !IsAbsolute(path))
      ensures Comps(path[offset..]) == old(Comps(path[offset..]))
      ensures offset < |path| ==> path[offset] != SEP
    {
      while offset < |path| && path[offset] == SEP
        invariant Valid() && (offset == 0 ==> !IsAbsolute(path))
        invariant Comps(path[offset..]) == old(Comps(path[offset..]))
        decreases |path| - offset
      {
        assert path[offset..][1..] == path[offset + 1..];
        offset := offset + 1;
      }
    }

    method Next() returns (r: Option<Component>)
      requires Valid()
      modifies this
      ensures Valid()
      ensures r.None? <==> old(Remaining()) == []
      ensures r.None? ==> Remaining() == []
      ensures r.Some? ==> old(Remaining()) == [r.value] + Remaining()
    {
      if offset >= |path| {
        return None;
      }
      if offset == 0 && path[0] == SEP {
        TakeRoot();
        return Some(RootDir);
      }
      r := NextName();
    }

    /** The components that are left but for the root. */
    ghost function Names(): seq<Component>
      reads this
      requires Valid()
    {
      ClassifyAll(Comps(path[offset..]))
    }

    method NextName() returns (r: Option<Component>)
      requires Valid() && (offset == 0 ==> !IsAbsolute(path))
      modifies this
      ensures Valid() && (offset == 0 ==> !IsAbsolute(path))
      ensures r.None? ==> old(Names()) == [] && Names() == []
      ensures r.Some? ==> old(Names()) == [r.value] + Names()
    {
      SkipSeparators();
      if offset >= |path| {
        return None;
      }
      var component := TakeComponent();
      r := Some(component);
    }

    method TakeRoot()
      requires offset == 0 && IsAbsolute(path)
      modifies this
      ensures offset == 1 && Valid() && Names() == old(ClassifyAll(Comps(path[offset..])))
    {
      assert path[0..] == path;
      offset := 1;
    }

    method TakeComponent() returns (r: Component)
      requires offset < |path| && path[offset] != SEP
      modifies this
      ensures 0 < offset <= |path|
      ensures old(ClassifyAll(Comps(path[offset..]))) == [r] + ClassifyAll(Comps(path[offset..]))
    {
      var end := ComponentEnd(path, offset);
      FirstRemaining(path, offset);
      r := Classify(path[offset..end]);
      offset := end;
    }
  }
}
