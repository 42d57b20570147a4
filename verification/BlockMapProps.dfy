// What the block map iterator yields: for each block of the file in order, the
// textbook direct, single, double or triple indirect entry.

module BlockMapProps {
  import opened Basics
  import opened Arithmetic
  import opened BlockMapIter

  /** The number of pointers in a block. */
  function PerBlock(env: Env): nat {
    env.blockSize / 4
  }

  /** How many blocks lie below a pointer at `level`. */
  function Span(env: Env, level: nat): nat
    decreases level, env.blockSize
  {
    if level == 0 then 1 else Times(PerBlock(env), Span(env, level - 1))
  }

  lemma {:induction false} SpanPositive(env: Env, level: nat)
    requires env.Valid()
    ensures Span(env, level) > 0
  {
    if level > 0 {
      SpanPositive(env, level - 1);
    }
  }

  /** Block `i` below a pointer. */
  ghost function Lookup(env: Env, pointer: nat, level: nat, i: nat): Result<nat>
    requires env.Valid() && i < Span(env, level)
    decreases level, 0, pointer
  {
    if level == 0 then Ok(pointer)
    else
      var block :- env.read(pointer);
      LookupIn(env, PointersFrom(block, 0), level - 1, i)
  }

  ghost function LookupIn(env: Env, pointers: seq<nat>, level: nat, i: nat): Result<nat>
    requires env.Valid() && i < Times(|pointers|, Span(env, level))
    decreases level, 1, |pointers|
  {
    var d := Span(env, level);
    if i < d then Lookup(env, pointers[0], level, i) else LookupIn(env, pointers[1..], level, i - d)
  }

  /** At each level the leading digit of `i` selects the next pointer. */
  lemma {:induction false} LookupByDivision(env: Env, pointers: seq<nat>, level: nat, i: nat)
    requires env.Valid() && i < Times(|pointers|, Span(env, level))
    ensures var d := Span(env, level);
            && d > 0 && i / d < |pointers| && i % d < d
            && LookupIn(env, pointers, level, i) == Lookup(env, pointers[i / d], level, i % d)
    decreases |pointers|
  {
    var d := Span(env, level);
    DivisionInRange(i, |pointers|, d);
    if i < d {
      DivisionIs(i, d, 0, i);
    } else {
      LookupByDivision(env, pointers[1..], level, i - d);
      DivisionAfterFirst(i, d);
    }
  }

  /** The number of blocks that a map can describe. */
  function Capacity(env: Env): nat {
    12 + Span(env, 1) + Span(env, 2) + Span(env, 3)
  }

  lemma CapacityIs(env: Env)
    ensures var p := PerBlock(env);
            Capacity(env) == 12 + p + p * p + p * p * p
  {
    var p := PerBlock(env);
    TimesIsProduct(p, 1);
    TimesIsProduct(p, p);
    TimesIsProduct(p, p * p);
    assert Span(env, 2) == Times(p, Span(env, 1));
    assert p * (p * p) == p * p * p;
  }

  /** The textbook entry for block `i` of a file. */
  ghost function Entry(env: Env, root: Root, i: nat): Result<nat>
    requires env.Valid() && i < Capacity(env)
  {
    var j := i - 12;
    if j < 0 then Ok(root[i])
    else if j < Span(env, 1) then Lookup(env, root[12], 1, j)
    else if j - Span(env, 1) < Span(env, 2) then Lookup(env, root[13], 2, j - Span(env, 1))
    else Lookup(env, root[14], 3, j - Span(env, 1) - Span(env, 2))
  }

  /** The values up to the first error. */
  function Collect(rs: seq<Result<nat>>): Stream<nat> {
    if rs == [] then Stream([], None)
    else match rs[0]
      case Err(e) => Stream([], Some(e))
      case Ok(x) => Stream([x], None).Then(Collect(rs[1..]))
  }

  lemma {:induction false} CollectAppend(a: seq<Result<nat>>, b: seq<Result<nat>>)
    ensures Collect(a + b) == Collect(a).Then(Collect(b))
    decreases |a|
  {
    if a == [] {
      assert a + b == b;
      ThenEmpty(Collect(b));
    } else {
      assert (a + b)[1..] == a[1..] + b;
      CollectAppend(a[1..], b);
      if a[0].Ok? {
        ThenFirst(Collect(a), a[0].value, Collect(a[1..]), Collect(b));
      }
    }
  }

  lemma {:induction false} CollectTake(rs: seq<Result<nat>>, n: nat)
    requires n <= |rs|
    ensures Take(Collect(rs), n) == Collect(rs[..n])
    decreases |rs|
  {
    if n > 0 && rs[0].Ok? {
      CollectTake(rs[1..], n - 1);
      TakeFirst(Collect(rs), rs[0].value, Collect(rs[1..]), n);
      assert rs[..n][1..] == rs[1..][..n - 1];
    }
  }

  ghost predicate AreLookups(env: Env, pointer: nat, level: nat, rs: seq<Result<nat>>)
    requires env.Valid()
  {
    |rs| == Span(env, level) && forall i :: 0 <= i < |rs| ==> rs[i] == Lookup(env, pointer, level, i)
  }

  ghost predicate AreLookupsIn(env: Env, pointers: seq<nat>, level: nat, rs: seq<Result<nat>>)
    requires env.Valid()
  {
    && |rs| == Times(|pointers|, Span(env, level))
    && forall i :: 0 <= i < |rs| ==> rs[i] == LookupIn(env, pointers, level, i)
  }

  lemma {:induction false} TreeIsCollected(env: Env, pointer: nat, level: nat, rs: seq<Result<nat>>)
    requires env.Valid() && AreLookups(env, pointer, level, rs)
    ensures Tree(env, pointer, level) == Collect(rs)
    decreases level, 0, 0
  {
    SpanPositive(env, level);
    if level == 0 {
      assert rs[0] == Lookup(env, pointer, level, 0);
      assert rs[1..] == [];
    } else {
      match env.read(pointer)
      case Err(e) =>
        assert rs[0] == Lookup(env, pointer, level, 0);
      case Ok(block) =>
        forall i | 0 <= i < |rs| ensures rs[i] == LookupIn(env, PointersFrom(block, 0), level - 1, i) {
          assert rs[i] == Lookup(env, pointer, level, i);
        }
        ForestIsCollected(env, PointersFrom(block, 0), level - 1, rs);
    }
  }

  lemma {:induction false} ForestIsCollected(env: Env, pointers: seq<nat>, level: nat, rs: seq<Result<nat>>)
    requires env.Valid() && AreLookupsIn(env, pointers, level, rs)
    ensures Forest(env, pointers, level) == Collect(rs)
    decreases level, 1, |pointers|
  {
    if pointers != [] {
      var d := Span(env, level);
      forall i | 0 <= i < d ensures rs[..d][i] == Lookup(env, pointers[0], level, i) {
        assert rs[i] == LookupIn(env, pointers, level, i);
      }
      TreeIsCollected(env, pointers[0], level, rs[..d]);
      forall i | 0 <= i < |rs[d..]| ensures rs[d..][i] == LookupIn(env, pointers[1..], level, i) {
        assert rs[i + d] == LookupIn(env, pointers, level, i + d);
      }
      ForestIsCollected(env, pointers[1..], level, rs[d..]);
      CollectAppend(rs[..d], rs[d..]);
      assert rs == rs[..d] + rs[d..];
    }
  }

  // ----- the whole map

  ghost function Entries(env: Env, root: Root, n: nat): (rs: seq<Result<nat>>)
    requires env.Valid() && n <= Capacity(env)
    ensures |rs| == n && forall i :: 0 <= i < n ==> rs[i] == Entry(env, root, i)
  {
    seq(n, i requires 0 <= i < n => Entry(env, root, i))
  }

  lemma {:induction false} CollectValues(rs: seq<Result<nat>>, values: seq<nat>)
    requires |rs| == |values| && forall i :: 0 <= i < |rs| ==> rs[i] == Ok(values[i])
    ensures Collect(rs) == Stream(values, None)
    decreases |rs|
  {
    if rs != [] {
      CollectValues(rs[1..], values[1..]);
      assert rs[0] == Ok(values[0]);
      assert values == [values[0]] + values[1..];
    }
  }

  lemma {:induction false} CollectIsShort(rs: seq<Result<nat>>)
    ensures |Collect(rs).items| <= |rs|
    decreases |rs|
  {
    if rs != [] {
      CollectIsShort(rs[1..]);
    }
  }

  lemma CollectParts(a: seq<Result<nat>>, b: seq<Result<nat>>, c: seq<Result<nat>>, d: seq<Result<nat>>)
    ensures Collect(a + (b + (c + d))) == Collect(a).Then(Collect(b).Then(Collect(c).Then(Collect(d))))
  {
    CollectAppend(c, d);
    CollectAppend(b, c + d);
    CollectAppend(a, b + (c + d));
  }

  lemma Parts(rs: seq<Result<nat>>, i: nat, j: nat, k: nat)
    requires i <= j <= k <= |rs|
    ensures rs == rs[..i] + (rs[i..j] + (rs[j..k] + rs[k..|rs|]))
  {
  }

  /** The first block of the file below entry `11 + level` of the root. */
  function FirstBelow(env: Env, level: nat): nat {
    if level <= 1 then 12
    else if level == 2 then 12 + Span(env, 1)
    else if level == 3 then 12 + Span(env, 1) + Span(env, 2)
    else Capacity(env)
  }

  lemma EntryBelow(env: Env, root: Root, level: nat, i: nat)
    requires env.Valid() && 1 <= level <= 3 && i < Span(env, level)
    ensures FirstBelow(env, level) + i < Capacity(env)
    ensures Entry(env, root, FirstBelow(env, level) + i) == Lookup(env, root[11 + level], level, i)
  {
  }

  lemma BelowIsCollected(env: Env, root: Root, level: nat, rs: seq<Result<nat>>)
    requires env.Valid() && 1 <= level <= 3 && rs == Entries(env, root, Capacity(env))
    ensures FirstBelow(env, level) <= FirstBelow(env, level + 1) <= |rs|
    ensures Below(env, root, 11 + level) == Collect(rs[FirstBelow(env, level)..FirstBelow(env, level + 1)])
  {
    var from, d := FirstBelow(env, level), Span(env, level);
    var part := rs[from..from + d];
    forall i | 0 <= i < d ensures part[i] == Lookup(env, root[11 + level], level, i) {
      EntryBelow(env, root, level, i);
    }
    TreeIsCollected(env, root[11 + level], level, part);
  }

  lemma DirectIsCollected(env: Env, root: Root, rs: seq<Result<nat>>)
    requires env.Valid() && rs == Entries(env, root, Capacity(env))
    ensures Stream(root[0..12], None) == Collect(rs[..12])
  {
    CollectValues(rs[..12], root[0..12]);
  }

  lemma PartsOfMap(env: Env, root: Root, rs: seq<Result<nat>>, i: nat, j: nat, k: nat)
    requires env.Valid() && i <= j <= k <= |rs|
    requires Stream(root[0..12], None) == Collect(rs[..i])
    requires Below(env, root, 12) == Collect(rs[i..j])
    requires Below(env, root, 13) == Collect(rs[j..k])
    requires Below(env, root, 14) == Collect(rs[k..|rs|])
    ensures AllFrom(env, root, 0) == Collect(rs)
  {
    Parts(rs, i, j, k);
    CollectParts(rs[..i], rs[i..j], rs[j..k], rs[k..|rs|]);
  }

  lemma AllIsCollected(env: Env, root: Root, rs: seq<Result<nat>>)
    requires env.Valid() && rs == Entries(env, root, Capacity(env))
    ensures AllFrom(env, root, 0) == Collect(rs)
  {
    DirectIsCollected(env, root, rs);
    BelowIsCollected(env, root, 1, rs);
    BelowIsCollected(env, root, 2, rs);
    BelowIsCollected(env, root, 3, rs);
    PartsOfMap(env, root, rs, 12, FirstBelow(env, 2), FirstBelow(env, 3));
  }

  /** The iterator looks up the entry of each block of the file in turn and stops
      at the first one that it cannot look up, or that the map has no room for. */
  lemma FileBlocksAreEntries(env: Env, root: Root, total: nat)
    requires env.Valid()
    ensures FileBlocks(env, root, total) == Collect(Entries(env, root, Min(total, Capacity(env))))
  {
    var rs := Entries(env, root, Capacity(env));
    AllIsCollected(env, root, rs);
    CollectIsShort(rs);
    if total <= |rs| {
      CollectTake(rs, total);
      assert rs[..total] == Entries(env, root, total);
    }
  }

  /** When the pointer blocks that the file needs can be read, the iterator yields
      every block that the map has room for, and block `i` is the entry of `i`. */
  lemma BlocksAreEntries(env: Env, root: Root, total: nat, values: seq<nat>)
    requires env.Valid() && |values| == Min(total, Capacity(env))
    requires forall i :: 0 <= i < |values| ==> Entry(env, root, i) == Ok(values[i])
    ensures FileBlocks(env, root, total) == Stream(values, None)
    ensures var p := PerBlock(env);
            |values| == Min(total, 12 + p + p * p + p * p * p)
  {
    FileBlocksAreEntries(env, root, total);
    CollectValues(Entries(env, root, |values|), values);
    CapacityIs(env);
  }
}
