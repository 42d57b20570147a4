// What the block cache promises over every run of hits, misses and failed
// reads: cached blocks are the blocks of the device, and a block that was just
// requested stays in the cache for a known number of requests.

module CacheProps {
  import opened Basics
  import opened Arithmetic
  import opened BlockCache

  // ----- cached blocks are the blocks of the device

  /** `data` is block `index` of the device. */
  ghost predicate IsDeviceBlock(device: Bytes, blockSize: nat, index: nat, data: Bytes) {
    (index + 1) * blockSize <= |device| && data == BlockOf(device, blockSize, index)
  }

  ghost predicate FaithfulEntry(device: Bytes, blockSize: nat, e: Entry) {
    IsDeviceBlock(device, blockSize, e.index, e.data) || (e.index == 0 && IsPlaceholder(blockSize, e.data))
  }

  ghost predicate IsPlaceholder(blockSize: nat, data: Bytes) {
    data == seq(blockSize, _ => 0)
  }

  /** Every entry holds its block of the device; only block 0 may still be
      represented by a placeholder of zeros. */
  ghost predicate Faithful(c: Cache, device: Bytes) {
    AllFaithful(device, c.blockSize, c.entries)
  }

  ghost predicate AllFaithful(device: Bytes, blockSize: nat, entries: seq<Entry>) {
    forall i :: 0 <= i < |entries| ==> FaithfulEntry(device, blockSize, entries[i])
  }

  /** A successful call of `f` reads the device from byte `start` on. */
  ghost predicate Honest(f: ReadFn, device: Bytes, start: nat) {
    forall n :: f(n).error.None? ==> start + n <= |device| && f(n).bytes == device[start..start + n]
  }

  lemma FreshIsFaithful(blockSize: nat, maxBlocksPerRead: nat, numEntries: nat, numFsBlocks: nat, device: Bytes)
    ensures Faithful(Fresh(blockSize, maxBlocksPerRead, numEntries, numFsBlocks), device)
  {
  }

  lemma BlockOfGroup(device: Bytes, blockSize: nat, block: nat, n: nat, i: nat)
    requires i < n && block * blockSize + n * blockSize <= |device|
    ensures var start := block * blockSize;
            && (i + 1) * blockSize <= n * blockSize
            && IsDeviceBlock(device, blockSize, block + i,
                             BlockOf(device[start..start + n * blockSize], blockSize, i))
  {
    var start := block * blockSize;
    GroupFits(i, n, blockSize);
    assert (block + i + 1) * blockSize == start + (i + 1) * blockSize;
    assert (block + i) * blockSize == start + i * blockSize;
    assert (i + 1) * blockSize == i * blockSize + blockSize;
    SliceOfSlice(device, start, n * blockSize, i * blockSize, blockSize);
  }

  lemma SliceOfSlice(s: Bytes, start: nat, len: nat, offset: nat, size: nat)
    requires start + len <= |s| && offset + size <= len
    ensures s[start..start + len][offset..offset + size] == s[start + offset..start + offset + size]
  {
    var a, b := s[start..start + len][offset..offset + size], s[start + offset..start + offset + size];
    assert |a| == |b| == size;
    assert forall i :: 0 <= i < size ==> a[i] == b[i];
  }

  lemma GroupIsFaithful(device: Bytes, blockSize: nat, block: nat, n: nat, bytes: Bytes)
    requires block * blockSize + n * blockSize <= |device| && |bytes| == n * blockSize
    requires bytes == device[block * blockSize..block * blockSize + n * blockSize]
    ensures AllFaithful(device, blockSize, Group(block, bytes, blockSize, n))
  {
    forall i | 0 <= i < n
      ensures FaithfulEntry(device, blockSize, Group(block, bytes, blockSize, n)[i])
    {
      BlockOfGroup(device, blockSize, block, n, i);
    }
  }

  lemma BothFaithful(device: Bytes, blockSize: nat, first: seq<Entry>, rest: seq<Entry>, n: nat)
    requires AllFaithful(device, blockSize, first) && AllFaithful(device, blockSize, rest) && n <= |rest|
    ensures AllFaithful(device, blockSize, first + rest[..n])
  {
  }

  lemma PromoteIsFaithful(device: Bytes, blockSize: nat, entries: seq<Entry>, i: nat)
    requires AllFaithful(device, blockSize, entries) && i < |entries|
    ensures AllFaithful(device, blockSize, Promote(entries, i))
  {
  }

  /** A request keeps the cache faithful, and a successful one returns the
      block of the device (for block 0, perhaps a placeholder). */
  lemma GetIsFaithful(c: Cache, block: nat, f: ReadFn, device: Bytes)
    requires c.WellFormed() && block < c.numFsBlocks && FillsBuffer(f)
    requires Faithful(c, device) && Honest(f, device, block * c.blockSize)
    ensures var r := Get(c, block, f);
            && Faithful(r.cache, device)
            && (r.result.Ok? ==> FaithfulEntry(device, c.blockSize, Entry(block, r.result.value)))
  {
    match Position(c.entries, block)
    case Some(i) => PromoteIsFaithful(device, c.blockSize, c.entries, i);
    case None =>
      var n := c.NumBlocksToRead(block);
      var fill := f(n * c.blockSize);
      if fill.error.None? {
        GroupIsFaithful(device, c.blockSize, block, n, fill.bytes);
        var group := Group(block, fill.bytes, c.blockSize, n);
        BothFaithful(device, c.blockSize, group, c.entries, |c.entries| - n);
        assert FaithfulEntry(device, c.blockSize, group[0]);
      }
  }

  datatype Request = Request(block: nat, f: ReadFn)

  ghost predicate Admissible(c: Cache, q: Request) {
    q.block < c.numFsBlocks && FillsBuffer(q.f)
  }

  ghost predicate AllAdmissible(c: Cache, qs: seq<Request>) {
    forall i :: 0 <= i < |qs| ==> Admissible(c, qs[i])
  }

  /** The cache after a run of requests. */
  ghost function Run(c: Cache, qs: seq<Request>): (d: Cache)
    requires c.WellFormed() && AllAdmissible(c, qs)
    ensures d.WellFormed() && |d.entries| == |c.entries| && d == c.(entries := d.entries)
    decreases |qs|
  {
    if qs == [] then c
    else
      var last := |qs| - 1;
      var d := Run(c, qs[..last]);
      GetKeepsShape(d, qs[last].block, qs[last].f);
      Get(d, qs[last].block, qs[last].f).cache
  }

  /** Over every run that starts with a fresh cache the entries stay faithful. */
  lemma {:induction false} RunIsFaithful(c: Cache, qs: seq<Request>, device: Bytes)
    requires c.WellFormed() && AllAdmissible(c, qs) && Faithful(c, device)
    requires forall i :: 0 <= i < |qs| ==> Honest(qs[i].f, device, qs[i].block * c.blockSize)
    ensures Faithful(Run(c, qs), device)
    decreases |qs|
  {
    if qs != [] {
      var last := |qs| - 1;
      RunIsFaithful(c, qs[..last], device);
      GetIsFaithful(Run(c, qs[..last]), qs[last].block, qs[last].f, device);
    }
  }

  /** The first block of the device is all zeros. */
  ghost predicate StartsWithZeros(device: Bytes, blockSize: nat) {
    blockSize <= |device| && forall i :: 0 <= i < blockSize ==> device[i] == 0
  }

  lemma PlaceholderIsBlockZero(device: Bytes, blockSize: nat, data: Bytes)
    requires IsPlaceholder(blockSize, data)
    ensures IsDeviceBlock(device, blockSize, 0, data) <==> StartsWithZeros(device, blockSize)
  {
    if blockSize <= |device| {
      assert BlockOf(device, blockSize, 0) == device[..blockSize];
      if IsDeviceBlock(device, blockSize, 0, data) {
        forall i | 0 <= i < blockSize
          ensures device[i] == 0
        {
          assert device[..blockSize][i] == data[i];
        }
      }
    }
  }

  /** The entry that a request for block 0 finds is a placeholder. */
  ghost predicate Shadowed(c: Cache) {
    var p := Position(c.entries, 0);
    p.Some? && IsPlaceholder(c.blockSize, c.entries[p.value].data)
  }

  /** A successful request for block 0 returns the block of the device, unless a
      placeholder shadows it and the device does not start with zeros. This holds
      for every faithful cache, hence after every run. */
  lemma BlockZeroExactly(c: Cache, f: ReadFn, device: Bytes)
    requires c.WellFormed() && 0 < c.numFsBlocks && FillsBuffer(f)
    requires Faithful(c, device) && Honest(f, device, 0) && Get(c, 0, f).result.Ok?
    ensures IsDeviceBlock(device, c.blockSize, 0, Get(c, 0, f).result.value) <==>
            !Shadowed(c) || StartsWithZeros(device, c.blockSize)
    ensures Shadowed(c) ==> !Get(c, 0, f).called
  {
    var data := Get(c, 0, f).result.value;
    assert 0 * c.blockSize == 0;
    GetIsFaithful(c, 0, f, device);
    if IsPlaceholder(c.blockSize, data) {
      PlaceholderIsBlockZero(device, c.blockSize, data);
    }
  }

  /** In a fresh cache the placeholders shadow block 0: its first request reads
      nothing and returns zeros, whatever the device holds. */
  lemma PlaceholderShadowsBlockZero(blockSize: nat, maxBlocksPerRead: nat, numEntries: nat, numFsBlocks: nat,
                                    f: ReadFn, device: Bytes)
    requires 0 < blockSize && 0 < maxBlocksPerRead <= numEntries && 0 < numFsBlocks && FillsBuffer(f)
    ensures var c := Fresh(blockSize, maxBlocksPerRead, numEntries, numFsBlocks);
            var r := Get(c, 0, f);
            && Shadowed(c) && !r.called && r.result.Ok? && IsPlaceholder(blockSize, r.result.value)
            && (IsDeviceBlock(device, blockSize, 0, r.result.value) <==> StartsWithZeros(device, blockSize))
  {
    var c := Fresh(blockSize, maxBlocksPerRead, numEntries, numFsBlocks);
    assert c.entries[0].index == 0;
    PlaceholderIsBlockZero(device, blockSize, Get(c, 0, f).result.value);
  }

  // ----- recency

  /** `block` is among the first `p + 1` entries. */
  ghost predicate Within(entries: seq<Entry>, block: nat, p: nat) {
    exists i :: 0 <= i <= p && i < |entries| && entries[i].index == block
  }

  lemma WithinMeansHit(c: Cache, block: nat, p: nat, f: ReadFn)
    requires c.WellFormed() && block < c.numFsBlocks && FillsBuffer(f)
    requires Within(c.entries, block, p)
    ensures var r := Get(c, block, f); !r.called && r.result.Ok?
  {
  }

  /** A successful request leaves its block at the front. */
  lemma RequestedIsFirst(c: Cache, block: nat, f: ReadFn)
    requires c.WellFormed() && block < c.numFsBlocks && FillsBuffer(f)
    requires Get(c, block, f).result.Ok?
    ensures Within(Get(c, block, f).cache.entries, block, 0)
  {
    assert Get(c, block, f).cache.entries[0].index == block;
  }

  lemma PromoteAt(entries: seq<Entry>, j: nat, i: nat)
    requires j < |entries| && i < |entries|
    ensures Promote(entries, j)[if i == j then 0 else if i < j then i + 1 else i] == entries[i]
  {
  }

  /** One request, whatever it is for and however it ends, moves a block back by
      at most a group. */
  lemma StepMovesBack(c: Cache, q: Request, block: nat, p: nat)
    requires c.WellFormed() && Admissible(c, q)
    requires Within(c.entries, block, p) && p + c.maxBlocksPerRead < |c.entries|
    ensures Within(Get(c, q.block, q.f).cache.entries, block, p + c.maxBlocksPerRead)
  {
    var i :| 0 <= i <= p && i < |c.entries| && c.entries[i].index == block;
    var r := Get(c, q.block, q.f);
    match Position(c.entries, q.block)
    case Some(j) =>
      PromoteAt(c.entries, j, i);
    case None =>
      var n := c.NumBlocksToRead(q.block);
      if q.f(n * c.blockSize).error.None? {
        assert r.cache.entries[n + i] == c.entries[i];
      } else {
        assert r.cache.entries[i].index == block;
      }
  }

  lemma {:induction false} RunMovesBack(c: Cache, qs: seq<Request>, block: nat)
    requires c.WellFormed() && AllAdmissible(c, qs)
    requires Within(c.entries, block, 0) && |qs| * c.maxBlocksPerRead < |c.entries|
    ensures Within(Run(c, qs).entries, block, |qs| * c.maxBlocksPerRead)
    decreases |qs|
  {
    if qs != [] {
      var last := |qs| - 1;
      assert |qs| * c.maxBlocksPerRead == last * c.maxBlocksPerRead + c.maxBlocksPerRead;
      RunMovesBack(c, qs[..last], block);
      StepMovesBack(Run(c, qs[..last]), qs[last], block, last * c.maxBlocksPerRead);
    }
  }

  /** Recency bound: after a successful request for a block, fewer than
      num_entries / max_blocks_per_read further requests cannot evict it, so
      asking for it again calls no read. */
  lemma RecentBlockIsCached(c: Cache, block: nat, f: ReadFn, qs: seq<Request>, g: ReadFn)
    requires c.WellFormed() && block < c.numFsBlocks && FillsBuffer(f) && FillsBuffer(g)
    requires Get(c, block, f).result.Ok?
    requires AllAdmissible(c, qs) && |qs| * c.maxBlocksPerRead < |c.entries|
    ensures var d := Get(c, block, f).cache;
            && d.WellFormed() && AllAdmissible(d, qs)
            && var r := Get(Run(d, qs), block, g);
            !r.called && r.result.Ok?
  {
    var d := Get(c, block, f).cache;
    GetKeepsShape(c, block, f);
    RequestedIsFirst(c, block, f);
    assert AllAdmissible(d, qs) by {
      forall i | 0 <= i < |qs|
        ensures Admissible(d, qs[i])
      {
        assert Admissible(c, qs[i]);
      }
    }
    RunMovesBack(d, qs, block);
    WithinMeansHit(Run(d, qs), block, |qs| * c.maxBlocksPerRead, g);
  }

  // ----- the bound is exact

  /** The first `k` entries are new, the others old. */
  ghost predicate Layered(entries: seq<Entry>, k: nat, start: nat) {
    && k <= |entries|
    && (forall i :: 0 <= i < k ==> start <= entries[i].index < start + k)
    && (forall i :: k <= i < |entries| ==> entries[i].index < start)
  }

  ghost predicate Leads(c: Cache, q: Request, d: Cache) {
    c.WellFormed() && Admissible(c, q) && d == Get(c, q.block, q.f).cache
  }

  /** After a request the first `k` entries are new. */
  ghost predicate LayeredAfter(c: Cache, q: Request, k: nat, start: nat) {
    forall d :: Leads(c, q, d) ==> Layered(d.entries, k, start)
  }

  lemma StepLayers(c: Cache, n: nat, f: ReadFn, k: nat, start: nat)
    requires c.WellFormed() && n == c.maxBlocksPerRead && FillsBuffer(f) && Layered(c.entries, k, start)
    requires k + n <= |c.entries| && start + k + n <= c.numFsBlocks
    requires f(n * c.blockSize).error.None?
    ensures Get(c, start + k, f).called && LayeredAfter(c, Request(start + k, f), k + n, start)
  {
    var group := Group(start + k, f(n * c.blockSize).bytes, c.blockSize, n);
    GroupLayers(group, n, c.entries, k, start);
    LayeredIsNew(c.entries, k, start);
    LoadsGroup(c, start + k, n, f);
    LayeredIf(c, Request(start + k, f), group + c.entries[..|c.entries| - n], k + n, start);
  }

  lemma LayeredIsNew(entries: seq<Entry>, k: nat, start: nat)
    requires Layered(entries, k, start)
    ensures forall i :: 0 <= i < |entries| ==> entries[i].index != start + k
  {
  }

  lemma LayeredIf(c: Cache, q: Request, entries: seq<Entry>, k: nat, start: nat)
    requires c.WellFormed() && Admissible(c, q) && Get(c, q.block, q.f).cache.entries == entries
    requires Layered(entries, k, start)
    ensures LayeredAfter(c, q, k, start)
  {
  }

  /** A request that misses loads a group. */
  lemma LoadsGroup(c: Cache, block: nat, n: nat, f: ReadFn)
    requires c.WellFormed() && n == c.maxBlocksPerRead && block + n <= c.numFsBlocks && FillsBuffer(f)
    requires (forall i :: 0 <= i < |c.entries| ==> c.entries[i].index != block) && f(n * c.blockSize).error.None?
    ensures Get(c, block, f).called
    ensures Get(c, block, f).cache.entries ==
            Group(block, f(n * c.blockSize).bytes, c.blockSize, n) + c.entries[..|c.entries| - n]
  {
    assert c.NumBlocksToRead(block) == n && Position(c.entries, block).None?;
  }

  lemma GroupLayers(group: seq<Entry>, n: nat, entries: seq<Entry>, k: nat, start: nat)
    requires Layered(entries, k, start) && |group| == n && k + n <= |entries|
    requires forall i :: 0 <= i < n ==> group[i].index == start + k + i
    ensures Layered(group + entries[..|entries| - n], k + n, start)
  {
  }

  lemma RunSnoc(c: Cache, qs: seq<Request>, q: Request)
    requires c.WellFormed() && AllAdmissible(c, qs) && Admissible(c, q)
    ensures AllAdmissible(c, qs + [q])
    ensures Run(c, qs + [q]) == Get(Run(c, qs), q.block, q.f).cache
  {
    assert (qs + [q])[..|qs|] == qs;
  }

  /** After the requests `qs` the first `k` entries are new. */
  ghost predicate Swept(c: Cache, start: nat, qs: seq<Request>, k: nat) {
    c.WellFormed() && AllAdmissible(c, qs) && Layered(Run(c, qs).entries, k, start)
  }

  lemma SweptSnoc(c: Cache, start: nat, qs: seq<Request>, q: Request, k: nat)
    requires c.WellFormed() && AllAdmissible(c, qs) && Admissible(c, q)
    requires LayeredAfter(Run(c, qs), q, k, start)
    ensures Swept(c, start, qs + [q], k)
  {
    RunSnoc(c, qs, q);
    assert Leads(Run(c, qs), q, Run(c, qs + [q]));
  }

  lemma SweepStep(c: Cache, qs: seq<Request>, f: ReadFn, k: nat, start: nat)
    requires FillsBuffer(f) && f(c.maxBlocksPerRead * c.blockSize).error.None?
    requires Swept(c, start, qs, k)
    requires k + c.maxBlocksPerRead <= |c.entries| && start + |c.entries| <= c.numFsBlocks
    ensures Swept(c, start, qs + [Request(start + k, f)], k + c.maxBlocksPerRead)
  {
    var d := Run(c, qs);
    var n := c.maxBlocksPerRead;
    StepLayers(d, n, f, k, start);
    SweptSnoc(c, start, qs, Request(start + k, f), k + n);
  }

  lemma {:induction false} Sweep(c: Cache, start: nat, f: ReadFn, n: nat) returns (qs: seq<Request>)
    requires FillsBuffer(f) && f(c.maxBlocksPerRead * c.blockSize).error.None?
    requires Swept(c, start, [], 0)
    requires Times(n, c.maxBlocksPerRead) <= |c.entries| && start + |c.entries| <= c.numFsBlocks
    ensures |qs| == n && Swept(c, start, qs, Times(n, c.maxBlocksPerRead))
    decreases n
  {
    if n == 0 {
      qs := [];
    } else {
      var before := Sweep(c, start, f, n - 1);
      var k := Times(n - 1, c.maxBlocksPerRead);
      SweepStep(c, before, f, k, start);
      qs := before + [Request(start + k, f)];
    }
  }

  /** The bound cannot be improved: when the cache holds exactly `q` groups,
      there are `q` requests, for consecutive groups of blocks beyond all cached
      ones, that evict every block it held. */
  lemma SweepEvicts(c: Cache, start: nat, f: ReadFn, q: nat) returns (qs: seq<Request>)
    requires c.WellFormed() && FillsBuffer(f) && f(c.maxBlocksPerRead * c.blockSize).error.None?
    requires forall i :: 0 <= i < |c.entries| ==> c.entries[i].index < start
    requires |c.entries| == q * c.maxBlocksPerRead && start + |c.entries| <= c.numFsBlocks
    ensures |qs| == q && AllAdmissible(c, qs)
    ensures forall block: nat :: block < start ==> Position(Run(c, qs).entries, block).None?
  {
    TimesIsProduct(q, c.maxBlocksPerRead);
    qs := Sweep(c, start, f, q);
  }

  // ----- the default options

  const MAX_BYTES_PER_READ: nat := 8 * 4096

  /** The group size and number of entries that `CacheOpts::new` chooses. */
  function DefaultOpts(blockSize: nat): (r: (nat, nat))
    requires 0 < blockSize
  {
    var group := if MAX_BYTES_PER_READ / blockSize > 1 then MAX_BYTES_PER_READ / blockSize else 1;
    (group, group * 8)
  }

  /** With the default options a block survives seven requests, and a group fits
      in a 32-bit read buffer for every possible block size. */
  lemma DefaultBound(blockSize: nat, requests: nat)
    requires 1024 <= blockSize <= 0x8000_0000 && requests <= 7
    ensures var (group, entries) := DefaultOpts(blockSize);
            && 0 < group <= 32 && group <= entries <= 256
            && requests * group < entries
            && group * blockSize < U32_LIMIT
  {
    var (group, entries) := DefaultOpts(blockSize);
    QuotientBound(MAX_BYTES_PER_READ, blockSize);
    BufferFits(requests, 7, group);
  }

  lemma QuotientBound(a: nat, b: nat)
    requires 1024 <= b
    ensures a / b * b <= a && a / b <= a / 1024
  {
    var q := a / b;
    assert a == q * b + a % b;
    BufferFits(1024, b, q);
    assert q * 1024 <= a;
  }
}
