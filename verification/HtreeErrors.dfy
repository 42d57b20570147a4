// What a lookup through the htree gives on any directory, well-formed or not: it
// follows the blocks that the nodes name, and the first thing that is wrong on
// the way is the error it reports.

module HtreeErrors {
  import opened Basics
  import opened ByteReaders
  import opened DirScan
  import opened Htree

  // ----- nodes

  /** The bytes are too short for a node, or for the entries that they count. */
  predicate BadNode(bytes: Bytes) {
    |bytes| < 8 || 8 * U16le(bytes, 2) > |bytes|
  }

  /** A node is read exactly if it has room for the entries it counts, and leads nowhere
      exactly if it counts none. */
  lemma NodeExactly(bytes: Bytes, hash: nat)
    ensures NewNode(bytes).Ok? <==> !BadNode(bytes)
    ensures NewNode(bytes).Err? ==> NewNode(bytes) == Err(Corrupt)
    ensures NewNode(bytes).Ok? ==> NewNode(bytes).value == bytes[..8 * U16le(bytes, 2)]
    ensures NewNode(bytes).Ok? && U16le(bytes, 2) == 0 ==> Child(NewNode(bytes).value, hash) == Err(Corrupt)
    ensures NewNode(bytes).Ok? && U16le(bytes, 2) > 0 ==> Child(NewNode(bytes).value, hash).Ok?
  {
  }

  /** The node in `bytes` sends the hash to block `next`. */
  ghost predicate Leads(bytes: Bytes, hash: nat, next: nat) {
    !BadNode(bytes) && Child(bytes[..8 * U16le(bytes, 2)], hash) == Ok(next)
  }

  /** The node in `bytes` sends no hash anywhere. */
  ghost predicate LeadsNowhere(bytes: Bytes) {
    BadNode(bytes) || U16le(bytes, 2) == 0
  }

  // ----- the way to a leaf

  /** Block `child` of the directory holds these bytes. */
  ghost predicate Holds(dir: Dir, child: nat, bytes: Bytes) {
    dir.fileBlock(child).Ok? && dir.fs.read(dir.fileBlock(child).value, false) == Ok(bytes)
  }

  /** Block `child` of the directory cannot be found or read. */
  ghost predicate Unreadable(dir: Dir, child: nat, e: Error) {
    var index := dir.fileBlock(child);
    index == Err(e) || (index.Ok? && dir.fs.read(index.value, false) == Err(e))
  }

  /** What the blocks on the way hold, each after the first sent to by the one before. */
  ghost predicate IsWay(dir: Dir, way: seq<nat>, held: seq<Bytes>, hash: nat) {
    && |way| == |held| + 1
    && forall i :: 0 <= i < |held| ==>
         Holds(dir, way[i], held[i]) && 8 <= |held[i]| && Leads(held[i][8..], hash, way[i + 1])
  }

  /** A search from a block with some levels below it. */
  type Descent = (nat, nat) -> Result<Leaf>

  function DescentOf(dir: Dir, hash: nat): Descent
    requires dir.fs.Valid()
  {
    (child: nat, levels: nat) => Descend(dir, child, levels, hash)
  }

  /** The search goes on where the node in `bytes` sends it. */
  ghost predicate GoesOn(d: Descent, dir: Dir, hash: nat, child: nat, levels: nat, bytes: Bytes, next: nat) {
    Holds(dir, child, bytes) && 8 <= |bytes| && Leads(bytes[8..], hash, next) && levels > 0 ==>
      d(child, levels) == d(next, levels - 1)
  }

  ghost predicate FollowsNodes(d: Descent, dir: Dir, hash: nat) {
    forall child, levels, bytes, next :: GoesOn(d, dir, hash, child, levels, bytes, next)
  }

  lemma DescentFollows(dir: Dir, hash: nat)
    requires dir.fs.Valid()
    ensures FollowsNodes(DescentOf(dir, hash), dir, hash)
  {
    forall child, levels, bytes, next
      ensures GoesOn(DescentOf(dir, hash), dir, hash, child, levels, bytes, next)
    {
      if Holds(dir, child, bytes) && 8 <= |bytes| {
        NodeExactly(bytes[8..], hash);
      }
    }
  }

  lemma WayRest(dir: Dir, way: seq<nat>, held: seq<Bytes>, hash: nat)
    requires IsWay(dir, way, held, hash) && held != []
    ensures IsWay(dir, way[1..], held[1..], hash)
    ensures Holds(dir, way[0], held[0]) && 8 <= |held[0]| && Leads(held[0][8..], hash, way[1])
  {
    forall i | 0 <= i < |held[1..]|
      ensures && Holds(dir, way[1..][i], held[1..][i]) && 8 <= |held[1..][i]|
              && Leads(held[1..][i][8..], hash, way[1..][i + 1])
    {
      assert held[1..][i] == held[i + 1] && way[1..][i] == way[i + 1] && way[1..][i + 1] == way[i + 2];
    }
  }

  /** The search follows the way. */
  lemma {:induction false} FollowsWay(d: Descent, dir: Dir, way: seq<nat>, held: seq<Bytes>, levels: nat, hash: nat)
    requires FollowsNodes(d, dir, hash) && IsWay(dir, way, held, hash) && |held| <= levels
    ensures d(way[0], levels) == d(way[|held|], levels - |held|)
    decreases |held|
  {
    if held != [] {
      WayRest(dir, way, held, hash);
      assert GoesOn(d, dir, hash, way[0], levels, held[0], way[1]);
      FollowsWay(d, dir, way[1..], held[1..], levels - 1, hash);
      assert way[1..][|held| - 1] == way[|held|];
    }
  }

  // ----- lookups

  /** The root block sends the name to the first block of a way of `depth` levels. */
  ghost predicate StartsAt(dir: Dir, name: Bytes, hash: nat, child: nat, depth: nat) {
    && dir.blocks.items != [] && dir.fs.read(dir.blocks.items[0], true).Ok? && !IsDots(name)
    && var root := dir.fs.read(dir.blocks.items[0], true).value;
       && 0x20 <= |root| && root[0x1e] == depth
       && dir.hash(root[0x1c], name) == Ok(hash) && Leads(root[0x20..], hash, child)
  }

  lemma LookupStarts(dir: Dir, name: Bytes, hash: nat, child: nat, depth: nat)
    requires dir.fs.Valid() && StartsAt(dir, name, hash, child, depth)
    ensures var leaf := Descend(dir, child, depth, hash);
            && (leaf.Err? ==> HtreeLookup(dir, name) == Err(leaf.error))
            && (leaf.Ok? ==> HtreeLookup(dir, name) == FindIn(ScanBlock(dir.fs.parse, leaf.value.block, 0), name))
  {
    NodeExactly(dir.fs.read(dir.blocks.items[0], true).value[0x20..], hash);
  }

  /** A name is searched for in the leaf at the end of a way that has as many levels as
      the root says. */
  lemma LookupAtLeaf(dir: Dir, name: Bytes, hash: nat, way: seq<nat>, held: seq<Bytes>, leaf: Bytes)
    requires dir.fs.Valid() && IsWay(dir, way, held, hash) && StartsAt(dir, name, hash, way[0], |held|)
    requires Holds(dir, way[|held|], leaf)
    ensures HtreeLookup(dir, name) == FindIn(ScanBlock(dir.fs.parse, leaf, 0), name)
  {
    LookupStarts(dir, name, hash, way[0], |held|);
    DescentFollows(dir, hash);
    FollowsWay(DescentOf(dir, hash), dir, way, held, |held|, hash);
  }

  /** A block that cannot be read ends the lookup, and so does a node that leads nowhere. */
  lemma LookupIsBlocked(dir: Dir, name: Bytes, hash: nat, way: seq<nat>, held: seq<Bytes>, depth: nat, e: Error)
    requires dir.fs.Valid() && IsWay(dir, way, held, hash) && StartsAt(dir, name, hash, way[0], depth)
    requires |held| <= depth
    requires || Unreadable(dir, way[|held|], e)
             || (|held| < depth && e == Corrupt && exists bytes ::
                   Holds(dir, way[|held|], bytes) && 8 <= |bytes| && LeadsNowhere(bytes[8..]))
    ensures HtreeLookup(dir, name) == Err(e)
  {
    LookupStarts(dir, name, hash, way[0], depth);
    DescentFollows(dir, hash);
    FollowsWay(DescentOf(dir, hash), dir, way, held, depth, hash);
    if !Unreadable(dir, way[|held|], e) {
      var bytes :| Holds(dir, way[|held|], bytes) && 8 <= |bytes| && LeadsNowhere(bytes[8..]);
      NodeExactly(bytes[8..], hash);
    }
  }

  /** What is wrong before the way starts: there is no root block, or it cannot be read,
      or its hash algorithm is not known, or it has no entries. */
  lemma LookupFailsAtRoot(dir: Dir, name: Bytes)
    requires dir.fs.Valid()
    ensures dir.blocks.items == [] ==>
              HtreeLookup(dir, name) == Err(if dir.blocks.err.Some? then dir.blocks.err.value else Corrupt)
    ensures dir.blocks.items != [] && dir.fs.read(dir.blocks.items[0], true).Err? ==>
              HtreeLookup(dir, name) == Err(dir.fs.read(dir.blocks.items[0], true).error)
    ensures dir.blocks.items != [] && dir.fs.read(dir.blocks.items[0], true).Ok? && !IsDots(name) ==>
              var root := dir.fs.read(dir.blocks.items[0], true).value;
              && (dir.hash(root[0x1c], name).Err? ==> HtreeLookup(dir, name) == Err(dir.hash(root[0x1c], name).error))
              && (dir.hash(root[0x1c], name).Ok? && LeadsNowhere(root[0x20..]) ==>
                    HtreeLookup(dir, name) == Err(Corrupt))
  {
    if dir.blocks.items != [] && dir.fs.read(dir.blocks.items[0], true).Ok? {
      var root := dir.fs.read(dir.blocks.items[0], true).value;
      if dir.hash(root[0x1c], name).Ok? {
        NodeExactly(root[0x20..], dir.hash(root[0x1c], name).value);
      }
    }
  }

  /** "." and ".." are the entries at offsets 0 and 12 of the root block, and nothing
      else is accepted there. */
  lemma DotsAreAtRoot(dir: Dir, root: Bytes, offset: nat, name: Bytes)
    requires dir.fs.Valid() && dir.blocks.items != [] && dir.fs.read(dir.blocks.items[0], true) == Ok(root)
    requires (offset == 0 && name == [0x2e]) || (offset == 12 && name == [0x2e, 0x2e])
    ensures offset <= |root|
    ensures match dir.fs.parse(root[offset..])
            case Err(e) => HtreeLookup(dir, name) == Err(e)
            case Ok((None, _)) => HtreeLookup(dir, name) == Err(Corrupt)
            case Ok((Some(entry), _)) =>
              HtreeLookup(dir, name) == if entry.name == name then Ok(entry) else Err(Corrupt)
  {
  }

  // ----- searching entries

  /** The first entry with the name is found; if there is none, the error of the scan or
      the missing name is reported. */
  lemma {:induction false} FindsFirst(entries: Stream<Entry>, name: Bytes, k: nat)
    requires k <= |entries.items| && forall i :: 0 <= i < k ==> entries.items[i].name != name
    ensures k < |entries.items| && entries.items[k].name == name ==> FindIn(entries, name) == Ok(entries.items[k])
    ensures k == |entries.items| ==>
              FindIn(entries, name) == Err(if entries.err.Some? then entries.err.value else NotFound)
    decreases k
  {
    if k > 0 {
      FindsFirst(entries.Skip(1), name, k - 1);
    }
  }
}
