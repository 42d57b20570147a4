# Verified model of ext4-view

ext4-view is a read-only reader for ext2, ext3 and ext4 filesystems, written in
Rust. This project models the state machines at its core in Dafny and proves
that each agrees with a simple specification. `dafny verify dfyconfig.toml`
verifies all of it.

## What is modelled

**Paths** (`Paths`, `ResolveSpec`, `Resolve`, `ResolveProps`, `ResolveLaws`,
`ResolveGuard`). Path resolution edits a byte string in place: it cuts out "." and "..", splices
link targets in and merges separators. The loop (`Resolve.ResolvePath`) is proved
equal to a walk over component lists (`ResolveSpec.Resolve`), and the properties
of path_resolution(7) are proved of that walk: canonical results, the inode found
by plain lookups, idempotence, termination, and exactly when the iteration guard
fails. `ResolveLaws` says what each kind of next component does to the outcome of
a path, without the walk: an ordinary name, a failing lookup, ".", "..", a link, a
separator at the end, and the limits on links, length and iterations.

**Journal** (`JournalFormat`, `JournalSpec`, `JournalLoader`, `JournalProps`,
`JournalEnds`, `JournalRevocation`, `JournalExample`). The loader is a class with an uncommitted
and a committed map. It is proved to compute the overlay of the complete
transactions of the log, and cutting the log at any block is proved to lose
exactly the transactions whose commit block is cut off. `JournalEnds` decides from
the bytes after the last record whether a journal ends there quietly or cannot be
loaded, and with which error.

**Block cache and block reads** (`BlockCache`, `CacheProps`, `BlockRead`). The
least-recently-used deque that reads blocks in groups is proved faithful to the
device over every run, also when the journal's block map is installed over a warm
cache. How long a block stays cached is bounded, and the bound is exact.

**File mapping** (`ExtentTree`, `ExtentWalk`, `ExtentCycle`, `ExtentFormat`,
`ExtentBlocks`, `BlockMapIter`, `BlockMapProps`, `BlockMapNeeded`, `BlockLookup`,
`FileMap`). The extent tree walk with an explicit stack, the hole-filling iterator
and the nested block map iterators are classes. Each `next` is proved to yield a
reference sequence item by item (`Basics.Yielded`), and the reference sequences
are proved to be what the format defines.

**Files** (`FileCursor`, `FileProps`, `FileSession`, `MountedFile`,
`MountedJournal`, `MapExample`, `ExtentExample`). The cursor is proved to behave
like a position in a flat array of bytes over every run of reads, failed reads and
seeks. `MountedFile` puts the layers together: each byte of a file in terms of the
device, the file's map and the journal's map. `MountedJournal` ties reads to the
journal: a block reads as the copy of the last complete transaction that wrote it.
The two example modules hold files that the code fails on.

**Directories** (`DirScan`, `DirFormat`, `Htree`, `HtreeFormat`, `HtreeProps`,
`HtreeErrors`, `DirOnDisk`, `HtreeExample`). Htree lookup, with its binary searches
and its single leaf, is proved equal to the linear scan of the directory, for
directories on a disk whose blocks are found through extents or a block map.
`HtreeErrors` says what the lookup gives on any other directory.

## Where the code and its documentation differ

- The guard of 1000 iterations in `resolve_path` is documented as unreachable
  (src/resolve.rs:73-75, 103-106). It is reachable by long paths, and also by the
  path "/a" when "a" is a long link. The model keeps the failed assertion as an
  outcome and proves exactly when it happens (`ResolveGuard.AbortsExactly`), and
  which lengths of paths and links rule it out (`ResolveGuard.GuardBoundIsExact`).
- The revocation of a block affects only the transaction that revokes it
  (src/journal/block_map.rs:81-85, 233-239), so an earlier copy stays mapped. The
  model follows the code and proves exactly when that matters.
- `read_bytes` is documented never to run out of blocks (src/file.rs:129-131). It
  does, and panics, after an error of the block iterator, and for files that are
  larger than their block map can describe. `FileSession.PanicsExactly` is the
  exact condition for every read of every run, and `MapExample` has a file of each
  kind.
- A zero pointer stands for a hole, but only for the blocks of the file: a zero
  pointer to an indirect block makes the iterator read block 0, which is an error
  (`MapExample.ZeroIndirectPointer`).
- The depths of an extent tree are only checked to be at most five
  (src/iters/extents.rs:88-90), so a node may lead back to itself and the walk may
  never end. It ends if and only if it gets to no such node
  (`ExtentCycle.WalkEndsUnlessCyclic`), and `ExtentExample` has a file for which it
  does not.

## Hypotheses

- Reading a block is a function of the block during one operation. Failures of
  the device are parameters (`up`, `fault`, `faults`), and may happen at any read
  of file data or any cache miss.
- Checksum checks are arbitrary predicates on bytes, and the name hash is an
  arbitrary function.
- Members about the blocks of a file with extents assume that the walk of its tree
  gets as far as they need: to the end of the file, to an extent that stops the
  search, or to its own end (`FileMap.WellFormed`, `FileMap.CanFind`). Otherwise
  the source does not return. The agreement of htree and scan on disk assumes that
  the walk ends.
- `ResultIsPlainWalk` and `ResolveIsIdempotent` assume that ".." names the
  directory a child was reached from, and that the root's ".." is the root.
- `ResolveLaws` is stated for any `m` that `Resolves`, that is, gives the outcomes of
  the model; `ResolveLaws.ResolverResolves` has one, and says that with no link and
  no iteration spent it is `resolve_path`. `ParentDirLaw` assumes that ".." names the
  directory that the last name was looked up in; `ParentDirAtEnd` does not.
- `HtreeAgreesWithScan` assumes a directory whose scan meets no error, whose root
  block starts with "." and ".." and names a known hash algorithm, whose nodes are
  sorted and not empty and lead to blocks of the directory that can be read, and
  where a name other than those two is only in the leaf that its hash leads to. It
  also assumes that a block that is found is the block of the iterator;
  `DirOnDisk.HtreeAgreesOnDisk` proves that from extents in file order. Names need
  not be unique or valid.
- `usize` has at least 32 bits, as the source assumes.

## Model

| member | source | states |
|---|---|---|
| Paths.CompsAreNames | src/path.rs:171-183 | Every component of a valid path is non-empty, at most 255 bytes, and free of null and separator. |
| Paths.CompsConcat | src/path.rs:557-607 | Components of a concatenation at a separator are the components of the parts, one list after the other. |
| Paths.CompsOfRender | src/path.rs:557-607 | Splitting a rendered path gives back the components it was rendered from, and tells whether it ends in a separator. |
| Paths.PathDedupSep | src/resolve.rs:302-316 | The in-place loop computes `Dedup`, for which the laws below are proved. |
| Paths.DedupIsRender | src/resolve.rs:302-316 | On absolute paths, removing doubled separators computes the normal form rendered from the components. |
| Paths.DedupNormalizes | src/resolve.rs:302-316 | Separator removal is idempotent, leaves no doubled separator and never changes the component list. |
| Paths.PathBuf.constructor | src/path.rs:258-276 | A new buffer holds the given valid bytes. |
| Paths.PathBuf.Push | src/path.rs:313-352 | Pushing is `Join` on the bytes, and keeps a valid buffer valid. |
| Paths.JoinIsHomomorphic | src/path.rs:313-362 | Join of valid paths is valid; its components are those of both parts in order, or of the second alone if that is absolute. |
| Paths.Components.SkipSeparators | src/path.rs:557-607 | Skipping separators leaves the components that remain unchanged. |
| Paths.Components.Next | src/path.rs:557-607 | Each call yields the first remaining component, classified, until none is left; `ComponentsAreNames` says what the classification keeps. |
| Paths.ComponentsAreNames | src/path.rs:557-607 | What is yielded is the root, exactly for an absolute path and first, and then each component with its own bytes; "." and "..", and no other name, are told apart. |
| ResolveSpec.SymlinkTarget | src/inode.rs:262-291 | A link target, if there is one, is a valid non-empty path; where it is kept is stated by `ResolveLaws.TargetIs`. |
| ResolveLaws.TargetIs | src/inode.rs:275-290 | A target of at most 59 bytes is read from the inode, whatever the file data are, and a longer one from the file data, whatever the inode holds; it is the target exactly if it is a valid path. |
| ResolveLaws.NoTarget | src/inode.rs:266-273 | An inode that is no link has no target, an empty link is corrupt, and the error of reading a long target is passed on. |
| ResolveSpec.StartInv | src/resolve.rs:78-101 | The walk starts with the separators of the input merged, and with valid names. |
| ResolveSpec.AdvanceInv | src/resolve.rs:102-211 | Every iteration keeps all names valid and the path within 4096 bytes. |
| ResolveSpec.AdvanceMakesProgress | src/resolve.rs:102-211 | Every iteration follows one more link, at most 40 in all, or consumes one component. |
| ResolveSpec.SplicedIsRender | src/resolve.rs:183-205 | Splicing a link target into the path and merging separators gives the path of the target's components followed by the rest. |
| Resolve.FindNextSep | src/resolve.rs:241-248 | Finds the first separator at or after the start, exactly if there is one. |
| Resolve.FindPrevSep | src/resolve.rs:253-266 | Finds the last separator at or before the start, exactly if there is one. |
| Resolve.ParentStart | src/resolve.rs:272-297 | At every iteration the search for the parent finds the start of the component before the current one, or the first byte after the root; the assertions of the source hold. |
| Resolve.ComponentBytes | src/resolve.rs:113-147 | At every iteration the byte range that the loop cuts out is the first component that is left to do, so it is a valid entry name. |
| Resolve.FindComponent | src/resolve.rs:113-131 | The byte search finds the end of the current component, and whether it is the last one. |
| Resolve.SpliceSymlink | src/resolve.rs:163-205 | The byte splice for a link agrees with following the link component by component. |
| Resolve.RemoveCurDir | src/resolve.rs:150-152 | Removing "." from the bytes agrees with skipping the component. |
| Resolve.RemoveParentDir | src/resolve.rs:153-160 | Removing ".." and the component before it from the bytes agrees with going to the parent component by component. |
| Resolve.ResolveComponent | src/resolve.rs:113-211 | One iteration on bytes agrees with one step of the walk over components, including its errors. |
| Resolve.FinishPath | src/resolve.rs:213-231 | The trailing separator check after the loop agrees with the walk's last step, which `OrdinaryPath` and `TrailingSeparator` pin down. |
| Resolve.ResolvePath | src/resolve.rs:61-232 | The byte-splicing loop computes exactly the walk over components: the same inode, path, error or failed assertion, on every filesystem and path. |
| Resolve.MeasureDecreases | src/resolve.rs:102-211 | Links left, then bytes after the index, decrease lexicographically on every iteration, without the iteration guard. |
| Resolve.CanonicalIsValid | src/resolve.rs:229-229 | The final path is a valid path, so the last unwrap cannot fail. |
| ResolveProps.AdvanceLocated | src/resolve.rs:102-211 | Every iteration keeps: the current inode is what plain lookups along the finished components reach. |
| ResolveProps.ResultIsCanonical | src/resolve.rs:102-231 | Every returned path is absolute, at most 4096 bytes, without doubled or trailing separators and without dot components. |
| ResolveProps.ResultIsPlainWalk | src/resolve.rs:96-231 | If ".." entries name parents, the returned inode is what plain child lookups along the returned path reach from the root. |
| ResolveProps.ResolveIsIdempotent | src/resolve.rs:96-231 | Resolving the returned path again in the same mode gives the same inode and path, within the guard. |
| ResolveLaws.RefusedPaths | src/resolve.rs:78-96 | A relative path is not absolute, an absolute one of more than 4096 bytes is too long, and otherwise the error of the root inode comes first. |
| ResolveLaws.SeparatorsDoNotMatter | src/resolve.rs:90-91 | Two absolute paths with the same components, both or neither with a separator at the end, resolve in the same way. |
| ResolveLaws.ResolverResolves | src/resolve.rs:61-232 | The laws below, which count links and iterations spent before, hold of resolution from the start. |
| ResolveLaws.OrdinaryPath | src/resolve.rs:203-226 | A path of ordinary names, none a link that is followed, leads to the inode that child lookups find; with a separator at the end that must be a directory, and is otherwise not one. |
| ResolveLaws.OrdinaryPathResolves | src/resolve.rs:203-226 | The same of `resolve_path`: "/f" is found and "/f/" is not a directory, if "f" is a file. |
| ResolveLaws.FailingLookup | src/resolve.rs:133-148 | A component after something that is no directory ends in that error, and a component that cannot be looked up in the error of the lookup, be it a dot, a link or the last one. |
| ResolveLaws.CurDirLaw | src/resolve.rs:150-152 | A "." that can be looked up may be left out of the path at the cost of one iteration; at the end it stands for a separator. |
| ResolveLaws.ParentDirLaw | src/resolve.rs:153-160 | A ".." that names the directory the last name was looked up in takes that name out of the path; at the root it is left out; at the end it stands for a separator. |
| ResolveLaws.ParentDirAtEnd | src/resolve.rs:153-226 | Whatever a final ".." names is returned with the path without the last name; it must be a directory unless that path is the root's. |
| ResolveLaws.LinkLaw | src/resolve.rs:161-203 | A link, unless it comes last and only others are followed, resolves as the path with the link replaced by its target, or with everything up to it replaced if the target is absolute; the 41st link and a bad target are errors, in that order. |
| ResolveLaws.GuardLaw | src/resolve.rs:108-111 | A component that comes up after 1000 iterations fails the assertion. |
| ResolveLaws.TrailingSeparator | src/resolve.rs:213-226 | A path with components and a separator at its end leads to a directory, or to the root's path, where there is no check; if ".." entries name parents, always to a directory. |
| ResolveLaws.RootParentIsReturned | src/resolve.rs:153-226 | The exception exists: "/../" returns whatever the root's ".." names, also if that is no directory. |
| ResolveGuard.ComponentsAreConserved | src/resolve.rs:102-211 | Over every run without a stop, iterations done plus components to do equals the components of the path plus those of the link targets spliced in. |
| ResolveGuard.AbortsExactly | src/resolve.rs:71-111 | On every filesystem the assertion fails if and only if the first 1000 components can be visited, and the path and the targets of the links followed among them have more than 1000 components. |
| ResolveGuard.ShortPathsNeverAbort | src/resolve.rs:71-111 | If no link has more than k components and the path has at most 1000 - 40 * k, the assertion never fails. |
| ResolveGuard.GuardBoundIsExact | src/resolve.rs:71-111 | That bound is exact: paths of c components can fail the assertion with links of at most k components if and only if c + 40 * k exceeds 1000. |
| ResolveGuard.ShortPathAborts | src/resolve.rs:71-76 | The path "/a" fails the assertion on a concrete filesystem where "a" is a link to a path of 50 bytes or more. |
| ResolveGuard.IterationBound | src/resolve.rs:68-76 | At most 41 * 2048 iterations happen on any filesystem and path. |
| ResolveGuard.GuardChangesNothingElse | src/resolve.rs:108-111 | Where the guard does not fail, the outcome is that of the unguarded loop. |
| ResolveGuard.AbortsExactlyOnLongPaths | src/resolve.rs:71-76 | Without links, that is the case if and only if the path has more than 1000 components and the first 1000 can be visited. |
| ResolveGuard.GuardIsReachable | src/resolve.rs:71-76 | A concrete family of valid paths of at most 4096 bytes that fails the assertion. |
| JournalFormat.ReadEncodedTag | src/journal/descriptor_block.rs:77-105 | A written tag, with or without UUID, is read back with all its fields, whatever follows it. |
| JournalFormat.DescriptorBlockTagIter.Next | src/journal/descriptor_block.rs:131-166 | The iterator yields the reference stream of tags, item by item, and never slices out of range. |
| JournalFormat.TagStreamIsShort | src/journal/descriptor_block.rs:131-166 | On any bytes at most len/16 + 1 items are yielded. |
| JournalFormat.TagsRoundTrip | src/journal/descriptor_block.rs:66-105 | Writing any non-empty list of unescaped tags, with or without UUIDs and whatever follows, and iterating gives back the list. |
| JournalFormat.EscapedTagFails | src/journal/descriptor_block.rs:149-154 | Iteration yields the tags before an escaped one, and then the error that it is not supported. |
| JournalFormat.TruncatedTagFails | src/journal/descriptor_block.rs:77-147 | Iteration yields the tags before bytes that are too short for a tag, and then the error that the block is corrupt. |
| JournalFormat.ReadRevocationBlockTable | src/journal/revocation_block.rs:43-94 | The loop appends exactly the table of the block, or fails exactly where the table is malformed. |
| JournalFormat.RevocationRoundTrip | src/journal/revocation_block.rs:43-94 | A written table, with any header, padding and checksum, is read back. |
| JournalSpec.LastWriteWins | src/journal/block_map.rs:212-213 | Of several tags for a block the last one decides. |
| JournalSpec.EffectAt | src/journal/block_map.rs:230-239 | A transaction maps exactly the blocks it writes and does not itself revoke. |
| JournalSpec.OverlayAt | src/journal/block_map.rs:241-243 | Over a whole journal the last transaction that maps a block decides. |
| JournalLoader.BlockMapLoader.constructor | src/journal/block_map.rs:117-146 | The loader starts with empty maps at the superblock's sequence number. |
| JournalLoader.BlockMapLoader.ProcessTag | src/journal/block_map.rs:192-214 | One tag takes one journal block, checks it and enters it in the uncommitted map, or fails as the reference does. |
| JournalLoader.BlockMapLoader.ProcessDescriptorBlock | src/journal/block_map.rs:186-217 | The tag loop enters exactly the writes of the descriptor block, or gives its error. |
| JournalLoader.BlockMapLoader.ProcessRevocationBlock | src/journal/block_map.rs:219-228 | Appends the block's table to the revoked blocks, or gives its error. |
| JournalLoader.BlockMapLoader.ProcessCommitBlock | src/journal/block_map.rs:230-251 | Commits the uncommitted map without the blocks revoked in this transaction, clears both, and counts the sequence; a bad checksum commits nothing. |
| JournalLoader.BlockMapLoader.ProcessNext | src/journal/block_map.rs:148-184 | One step does to the fields what reading one record of the log prescribes; `JournalEnds` says from the bytes what that is when there is no record. |
| JournalLoader.ProcessedKeepsExpected | src/journal/block_map.rs:42-62 | Every step keeps the result that the rest of the journal will give, or reaches it. |
| JournalLoader.LoadBlockMap | src/journal/block_map.rs:35-63 | For every journal content the result is the in-order overlay of the complete transactions, or the fatal error; unfinished and corrupt transactions leave no trace. Which contents give which is `JournalEnds.ReplayExactly`. |
| JournalProps.ReadRecordExactly | src/journal/block_map.rs:148-228 | A record is read exactly where the blocks form one: tags, data blocks, checksums and sequence number. |
| JournalProps.TxnIsRead | src/journal/block_map.rs:148-251 | A transaction laid out in full is read back, whatever follows it. |
| JournalProps.ReadTxnIsTxn | src/journal/block_map.rs:148-251 | Whatever is read as a transaction is laid out as one. |
| JournalProps.TxnOfParts | src/journal/block_map.rs:186-228 | A transaction has the writes and the revocations of its blocks in their order. |
| JournalProps.EndsAreCommits | src/journal/block_map.rs:172-184 | Transaction i of a replayed journal ends in a valid commit block numbered sequence + i. |
| JournalProps.CompleteLogIsReplayed | src/journal/block_map.rs:35-63 | A journal of complete transactions in order, up to the largest sequence number, is replayed in full, whatever incomplete rest follows. |
| JournalProps.ReplayIsOverlay | src/journal/block_map.rs:35-63 | Conversely, for every content of the journal the result is the overlay of the complete transactions, in order, that its blocks start with, and no complete transaction follows them. |
| JournalProps.CrashCut | src/journal/block_map.rs:42-62 | If a journal loads, so does every prefix of its blocks, and gives exactly the transactions whose commit block it still contains. |
| JournalEnds.TagsFailExactly | src/journal/block_map.rs:186-217 | A descriptor block fails exactly where its tags do, the log runs out, or a data block cannot be read or does not match, whichever comes first, and with that error. |
| JournalEnds.TableExactly | src/journal/revocation_block.rs:43-94 | A revocation table is corrupt exactly if its size is no multiple of eight or does not fit in the block. |
| JournalEnds.BlockIsRead | src/journal/block_map.rs:148-228 | In terms of bytes: a block ends the journal exactly if it lacks the magic number, has another sequence number, or is a descriptor, commit or revocation block that is damaged; it fails exactly if its type is unknown or its tags fail with an error other than corruption. |
| JournalEnds.QuietJournalIsReplayed | src/journal/block_map.rs:35-63 | Complete transactions, then perhaps some records of another, then nothing, a corrupt block, or a block that ends the journal: the result is the overlay of the complete transactions. |
| JournalEnds.FailingJournalIsRefused | src/journal/block_map.rs:35-63 | The same, but then an error of the journal's blocks, a block that cannot be read or one that fails: the result is that error. |
| JournalEnds.ReplayExactly | src/journal/block_map.rs:35-63 | Every content of a journal is of one of these two kinds, or ends with the largest sequence number, and so replay gives the overlay or an error exactly as the blocks after the records say. |
| JournalRevocation.OverlaysAt | src/journal/block_map.rs:230-239 | Block by block, the overlay of some transactions differs from one that honours revocations of earlier transactions exactly at stale blocks. |
| JournalRevocation.RevocationsMatterExactly | src/journal/block_map.rs:230-239 | For every journal that loads, the map is the one that honours revocations if and only if no block is revoked after its last write. |
| JournalExample.RevokedBlockIsStillMapped | src/journal/block_map.rs:81-85 | A journal of five blocks of 1024 bytes each where a revoked block stays mapped: descriptor, data, commit, revocation, commit. |
| JournalExample.HeaderRoundTrip | src/journal/block_header.rs:32-46 | A written block header is read back, whatever follows it. |
| BlockCache.Cache.NumBlocksToRead | src/block_cache.rs:129-143 | A full group, unless the filesystem ends first; never beyond its end. |
| BlockCache.Position | src/block_cache.rs:169-174 | The first entry for the block, exactly if there is one. |
| BlockCache.GetKeepsShape | src/block_cache.rs:159-252 | Every request, hit, miss or failure, keeps the length of the deque and the block sizes. |
| BlockCache.BlockCache.constructor | src/block_cache.rs:96-125 | The new cache holds placeholders of block 0. |
| BlockCache.BlockCache.InsertBlock | src/block_cache.rs:226-252 | The entry at the back is reused for the block and moved to the front; the others shift back by one. |
| BlockCache.BlockCache.InsertGroup | src/block_cache.rs:198-209 | Inserting a group in reverse order leaves the group in order at the front. |
| BlockCache.BlockCache.GetOrInsertBlocks | src/block_cache.rs:159-210 | The result and the new deque are those of the reference `Get`. |
| CacheProps.GetIsFaithful | src/block_cache.rs:159-252 | A request keeps every entry equal to its block of the device, and a success returns that block; only block 0 may be a placeholder. |
| CacheProps.RunIsFaithful | src/block_cache.rs:159-252 | Over every run of hits, misses and failed reads the entries stay faithful. |
| CacheProps.BlockZeroExactly | src/block_cache.rs:104-110 | In every faithful cache, hence after every run, a successful request for block 0 gives the block of the device unless the first entry for it is a placeholder and the device does not start with zeros. |
| CacheProps.PlaceholderShadowsBlockZero | src/block_cache.rs:104-110 | In a fresh cache that is the case: block 0 reads as zeros without a read, which is right exactly if the device starts with zeros. |
| CacheProps.StepMovesBack | src/block_cache.rs:170-209 | One request moves a cached block back by at most one group, despite group inserts and duplicates. |
| CacheProps.RecentBlockIsCached | src/block_cache.rs:129-209 | After a successful request, fewer than num_entries / max_blocks_per_read further requests cannot evict the block, so asking again reads nothing. |
| CacheProps.SweepEvicts | src/block_cache.rs:159-252 | That bound is exact: as many requests as there are groups can evict everything. |
| CacheProps.DefaultBound | src/block_cache.rs:264-283 | With the default options the bound is seven requests, and a group always fits in 32 bits. |
| BlockRead.DeviceReader | src/lib.rs:344-357 | The read callback delivers the device's bytes or an error, and succeeds exactly if the device is up and long enough. |
| BlockRead.CachedReadIsDirect | src/lib.rs:300-364 | A successful read of a block that maps to a non-zero block equals a direct read, which `DirectReadIs` spells out; out of bounds fails the same way; a failure changes nothing. |
| BlockRead.DirectReadIs | src/lib.rs:300-338 | A direct read fails as corrupt exactly in the first 1024 bytes of block 0, past the last block or past the end of the block, and otherwise gives the device's bytes in the journal's copy of the block, or in the block itself if the journal has none. |
| BlockRead.CachedReadIs | src/lib.rs:300-364 | The same of a read through the cache, which may fail otherwise only as the device does, and gives zeros at most for block 0. |
| BlockRead.CachedReadSucceeds | src/lib.rs:300-364 | While the device is up and as large as the filesystem, every read in bounds succeeds. |
| BlockRead.Ext4.constructor | src/lib.rs:204-228 | A filesystem starts with an empty journal map and a faithful cache. |
| BlockRead.Ext4.InstallJournal | src/lib.rs:230-232 | Installing the journal over a warm cache keeps the cache and its faithfulness. |
| BlockRead.Ext4.ReadFromBlock | src/lib.rs:300-364 | The method fills the buffer, or leaves it, and updates the cache as `CachedRead` prescribes; a success at a non-zero block puts the device's bytes in the buffer, from the journal's copy if there is one. |
| ExtentFormat.HeaderRoundTrip | src/iters/extents.rs:74-97 | A written header is read back with all its fields, whatever follows it. |
| ExtentFormat.NodeRoundTrip | src/iters/extents.rs:116-133 | A written node is read back with as many entries as its header counts, whatever follows it. |
| ExtentFormat.ChildIsLoaded | src/iters/extents.rs:225-276 | A child stored in a block, with room for more entries and with a checksum that passes, is loaded from the block that its entry names. |
| ExtentFormat.NewItemExactly | src/iters/extents.rs:74-133 | Bytes are a node exactly if they have the magic number, a depth of at most five and room for the entries that they count; otherwise they are corrupt. |
| ExtentFormat.LoadFailsExactly | src/iters/extents.rs:225-276 | Loading a node fails with an error exactly if the block cannot be read with that error, or is corrupt: a bad header, no room in the block, a checksum that does not match, or too few bytes for its entries. |
| ExtentFormat.ExtentRoundTrip | src/iters/extents.rs:210-223 | A written extent is read back with all its fields. |
| ExtentFormat.TreeRoundTrip | src/iters/extents.rs:189-281 | Every tree written to disk, of any height and whatever depths its inner nodes state, is finite, and its walk yields the extents of its leaves from left to right, up to the first block that holds no node, with the error for it. |
| ExtentWalk.StepFollowsRest | src/iters/extents.rs:189-281 | One step of the stack yields the first extent of the recursive flattening of what is left, or leaves it unchanged with less work to do, or meets its error. |
| ExtentWalk.StepKeepsBounds | src/iters/extents.rs:135-148 | Every step keeps the entry arithmetic within 32 bits. |
| ExtentWalk.Extents.constructor | src/iters/extents.rs:161-172 | A new iterator, over any tree, has left to yield what the stack walk yields, however many steps that takes. |
| ExtentWalk.Extents.NextImpl | src/iters/extents.rs:189-281 | The method changes the stack as `StepStack` prescribes. |
| ExtentWalk.Extents.Next | src/iters.rs:36-53 | If the walk gets to another extent, an error or its end, the retry loop terminates and yields that. |
| ExtentWalk.WalkOfFinite | src/iters/extents.rs:189-281 | What the walk of a finite tree yields is its left-to-right flattening, up to the first error. |
| ExtentWalk.RunExtends | src/iters/extents.rs:189-281 | More steps of a walk yield the same extents first, and nothing else once it is over. |
| ExtentWalk.WalkEndsExactly | src/iters/extents.rs:189-281 | The stack walk ends, or meets an error, in some number of steps if and only if the recursive walk does in some height. |
| ExtentCycle.FiniteExactly | src/iters/extents.rs:189-281 | The recursive walk ends if and only if it gets to no node that leads back to itself; what comes before such a node is walked without error. |
| ExtentCycle.WalkEndsUnlessCyclic | src/iters/extents.rs:189-281 | The stack walk ends, or meets an error, if and only if it gets to no node that leads back to itself. |
| ExtentWalk.DecreasingIsFinite | src/iters/extents.rs:88-90 | A tree whose depths decrease from parent to child, as the format prescribes, is finite. |
| ExtentCycle.CycleNeverEnds | src/iters/extents.rs:88-90 | The walk of a node whose first child is the node itself yields nothing in any number of steps, whatever is below it on the stack. |
| ExtentExample.CycleExists | src/iters/extents.rs:74-97 | A concrete device and inode whose extent tree passes every check and whose walk never ends. |
| ExtentExample.CyclicFile | src/iters/extents.rs:74-133 | On every such device the walk meets a cycle and never gets to the first block of the file. |
| ExtentBlocks.RunInRange | src/iters/extents.rs:210-223 | Every extent that a walk yields has 32-bit, 48-bit and 16-bit fields. |
| ExtentBlocks.BlocksForWalk | src/iters/file_blocks/extents_blocks.rs:65-165 | The blocks of a file are those of any part of the walk that gets to the end of the file or to its own end; extents after the end do not matter. |
| ExtentBlocks.BlocksForFinite | src/iters/file_blocks/extents_blocks.rs:65-165 | For a finite tree they are those of its flattening. |
| ExtentBlocks.BlockCount | src/iters/file_blocks/extents_blocks.rs:65-165 | For every finite list of extents, in any order and overlapping or not, exactly as many blocks are yielded as the file has. |
| ExtentBlocks.EmitEnds | src/iters/file_blocks/extents_blocks.rs:65-165 | The iterator yields as many blocks as the file has if and only if it meets no error. |
| ExtentBlocks.BlocksAreMapped | src/iters/file_blocks/extents_blocks.rs:65-165 | For sorted extents item i is where the covering extent puts block i, and zero if none covers it. |
| ExtentBlocks.BlocksComeInOrder | src/iters/file_blocks/extents_blocks.rs:65-165 | Whatever the extents are, sorted or not, each is put where it says or right after those before it, with zeros in between. |
| ExtentBlocks.EndOfNext | src/iters/file_blocks/extents_blocks.rs:89-115 | An extent ends at the larger of its own position and the end of those before it, plus its length. |
| ExtentBlocks.EmitEndsAt | src/iters/file_blocks/extents_blocks.rs:65-165 | An error of the walk comes after the blocks of the extents before it, and only if they do not fill the file. |
| ExtentBlocks.HoleAtEnd | src/iters/file_blocks/extents_blocks.rs:117-138 | After the last extent there are zeros up to the end of the file. |
| ExtentBlocks.StateSteps | src/iters/file_blocks/extents_blocks.rs:65-165 | Every call of next_impl yields the first block of what is left, or leaves it unchanged with a smaller measure. |
| ExtentBlocks.ExtentsBlocks.constructor | src/iters/file_blocks/extents_blocks.rs:50-63 | A new iterator has all blocks of the file left to yield, if the walk gets to the end of the file or to its own end. |
| ExtentBlocks.ExtentsBlocks.FetchExtent | src/iters/file_blocks/extents_blocks.rs:85-140 | Takes the next extent from the extent iterator and sets the hole before it, or the final hole. |
| ExtentBlocks.ExtentsBlocks.FromExtent | src/iters/file_blocks/extents_blocks.rs:142-164 | Takes the next block of the current extent; the checked addition cannot fail. |
| ExtentBlocks.ExtentsBlocks.NextImpl | src/iters/file_blocks/extents_blocks.rs:65-165 | The method changes the fields as `StepState` prescribes. |
| ExtentBlocks.ExtentsBlocks.Next | src/iters/file_blocks/extents_blocks.rs:187-187 | Yields the hole-filled blocks, item by item, then the error or the end. |
| BlockMapIter.IndirectBlockIter.Next | src/iters/file_blocks/block_map.rs:203-225 | Yields the pointers of the block in order. |
| BlockMapIter.DoubleIndirectBlockIter.constructor | src/iters/file_blocks/block_map.rs:234-242 | A new iterator has all blocks below its pointer left to yield. |
| BlockMapIter.DoubleIndirectBlockIter.NextImpl | src/iters/file_blocks/block_map.rs:244-260 | Yields the first block of what is left, or leaves it unchanged with a smaller measure, or gives the error of a pointer block. |
| BlockMapIter.DoubleIndirectBlockIter.Next | src/iters/file_blocks/block_map.rs:263-263 | Yields the blocks below a double indirect pointer, item by item. |
| BlockMapIter.TripleIndirectBlockIter.constructor | src/iters/file_blocks/block_map.rs:272-280 | A new iterator has all blocks below its pointer left to yield. |
| BlockMapIter.TripleIndirectBlockIter.NextImpl | src/iters/file_blocks/block_map.rs:282-301 | As for double indirection, one level deeper. |
| BlockMapIter.TripleIndirectBlockIter.Next | src/iters/file_blocks/block_map.rs:304-304 | Yields the blocks below a triple indirect pointer, item by item. |
| BlockMapIter.BlockMap.constructor | src/iters/file_blocks/block_map.rs:72-92 | A new iterator has the file's blocks left to yield. |
| BlockMapIter.BlockMap.NextImpl | src/iters/file_blocks/block_map.rs:103-176 | Yields the first block of what is left, or leaves it unchanged with a smaller measure; the `todo!` arm is unreachable. |
| BlockMapIter.BlockMap.Next | src/iters/file_blocks/block_map.rs:179-179 | Yields the file's blocks, item by item, then the error or the end. |
| BlockMapProps.LookupByDivision | src/iters/file_blocks/block_map.rs:22-45 | At each level the quotient of the position selects the pointer and the remainder continues below it. |
| BlockMapProps.TreeIsCollected | src/iters/file_blocks/block_map.rs:227-304 | The nested iteration visits the positions below a pointer in order, up to the first one that cannot be looked up. |
| BlockMapProps.FileBlocksAreEntries | src/iters/file_blocks/block_map.rs:103-176 | The iterator looks up the textbook entry of each block in turn and stops at the first failure, at the file's end, or at the map's capacity. |
| BlockMapProps.BlocksAreEntries | src/iters/file_blocks/block_map.rs:103-176 | With the needed pointer blocks readable exactly min(total, 12+p+p*p+p*p*p) blocks are yielded and block i is the textbook direct, single, double or triple indirect entry. |
| BlockMapNeeded.OnlyNeededBlocksMatter | src/iters/file_blocks/block_map.rs:103-176 | Two disks that agree on the pointer blocks on the way to the blocks of the file give the same result, errors included. |
| BlockMapNeeded.OthersAreNotRead | src/iters/file_blocks/block_map.rs:103-176 | No other block is read: if all of them fail with any error, nothing changes. |
| BlockMapNeeded.NeededBlocksMatter | src/iters/file_blocks/block_map.rs:103-176 | Each of those pointer blocks is read: if the one on the way to block i fails, the iterator ends in an error at block i at the latest. |
| BlockLookup.FindExtentForBlock | src/dir_htree.rs:243-262 | If the walk gets to an extent that stops the search, or to its end, the search ends and returns the first extent that covers the block, or the first error. |
| BlockLookup.SearchForWalk | src/dir_htree.rs:243-262 | The result is that of any part of the walk that decides the search; extents after that do not matter. |
| BlockLookup.SearchForFinite | src/dir_htree.rs:243-262 | For a finite tree it is the search of its flattening. |
| BlockLookup.SearchFinds | src/dir_htree.rs:243-262 | Whatever the extents are, the first that covers the block or ends past 2^32 decides the search, the latter with an error; if there is none, the error of the walk or corruption does. |
| BlockLookup.BlockFromExtents | src/dir_htree.rs:270-279 | The absolute block is that extent's start plus the distance into it. |
| BlockLookup.SearchAgrees | src/dir_htree.rs:244-286 | For sorted extents the search gives the iterator's item exactly where an extent covers the block and ends below 2^32; elsewhere, and at every hole, it is an error. |
| BlockLookup.BlockFromMap | src/dir_htree.rs:280-285 | For a block map it is the iterator's n-th item, or the error there, or corruption. |
| BlockLookup.NthIsEntry | src/dir_htree.rs:280-285 | That item is the textbook entry if the file has the block and the entries before it can be looked up, and corruption in every other case. |
| FileMap.FileBlocks.Next | src/iters/file_blocks.rs:49-54 | Both kinds of block iterator yield what is left, item by item. |
| FileMap.OpenBlocks | src/iters/file_blocks.rs:34-42 | Opening gives the iterator over all blocks of the file, or the error of the extent root; an extent tree need only be walkable up to the end of the file. |
| FileMap.BlockFromFileBlock | src/dir_htree.rs:265-286 | Finding one block, for both kinds of file; an extent tree need only be walkable up to an extent that stops the search. |
| FileMap.FileBlockAgrees | src/dir_htree.rs:265-286 | Finding one block agrees with the block iterator at the same position: always with a block map, and with sorted extents exactly where one reaches it. |
| FileCursor.File.constructor | src/file.rs:58-70 | A new file is at position 0 with all its blocks ahead. |
| FileCursor.File.CurrentBlock | src/file.rs:125-137 | The current block, fetched from the iterator only if there is none. |
| FileCursor.File.CopyFromBlock | src/file.rs:140-195 | Delivers at most the rest of the block, and moves on; a failed read changes nothing. |
| FileCursor.File.ReadBytes | src/file.rs:86-198 | The buffer, the cursor and the result are those of `ReadStep`, including the error and panic cases; the rest of the buffer is untouched. |
| FileCursor.File.SeekTo | src/file.rs:208-223 | The loop leaves the iterator at the block of the position, dropping errors on the way. |
| FileProps.FlatSlice | src/file.rs:140-195 | A slice of the concatenated blocks that lies within one block is that block's slice. |
| FileProps.StaysAt | src/file.rs:186-195 | Moving forward within a block, or to its end, keeps the cursor's block and iterator in step with its position. |
| FileProps.ReadIs | src/file.rs:86-198 | For every cursor in step with a place in the flat file, a read gives what the flat file gives there: its bytes with length min(buffer, left in file, left in block), the error of the disk, the error of the block iterator just after the last block, or a panic. |
| FileSession.CompleteIs | src/inode.rs:186-191 | A file has a block for every byte if and only if it has as many blocks as its size needs. |
| FileSession.ExtentsAreComplete | src/iters/file_blocks/extents_blocks.rs:65-165 | A file with extents has a block for every byte if and only if the walk of its tree meets no error before the end of the file. |
| FileSession.MapIsComplete | src/iters/file_blocks/block_map.rs:103-113 | A file with a readable block map has a block for every byte if and only if its size fits the map's capacity. |
| FileSession.RunsAreFlat | src/file.rs:86-223 | Every run of reads, failed reads and seeks of any file gives the replies of a place in a flat byte array, up to the first panic. |
| FileSession.PlainRead | src/file.rs:86-198 | Where the file has a block, a read of the flat file gives its bytes or the error of the disk, whatever becomes of later blocks. |
| FileSession.ReadGives | src/file.rs:140-198 | Written out: a read of a hole gives zeros even if the device fails; of another block it gives the error of the device or what the disk gives, from the position's offset on; the length is the least of buffer, rest of the file and rest of the block, and an error leaves the position. |
| FileSession.PanicsExactly | src/file.rs:128-132 | For every file, and wherever a run has taken the cursor, a read panics if and only if its buffer is not empty, its position is within the file, and the block iterator has given its error or has neither a block nor an error for the position. |
| FileSession.SpendsExactly | src/file.rs:125-137 | A read gives the error of the block iterator, which is then spent, if and only if it wants bytes of the block that the error stands for. |
| FileSession.PanicsAfterSeek | src/file.rs:208-223 | After a seek a read panics if and only if the position is within the file but past the blocks and the error of the iterator, which the seek drops. |
| MapExample.ZeroIndirectPointer | src/iters/file_blocks/block_map.rs:121-136 | On every mounted filesystem a zero pointer to an indirect block is an error after the twelve direct blocks, and not a hole. |
| MapExample.SparseFilePanics | src/file.rs:128-132 | A sparse file of 13 blocks: the first read of its last block is that error, and the second panics. |
| MapExample.HugeFilePanics | src/file.rs:128-132 | A concrete device, all blocks of which can be read, and a file of one block more than its map can describe: reading its last byte panics. |
| FileSession.IteratorErrorThenPanic | src/file.rs:128-132 | After a read that gives the error of the block iterator the next read panics. |
| FileSession.ReadsJoin | src/file.rs:77-85 | Whatever the file, the chunk sizes and however often reads fail, the delivered chunks join to a contiguous part of the flat file, which reaches the end of the file when a read delivers nothing. |
| FileSession.ReadInodeFile | src/lib.rs:372-389 | With no failure of the device, the loop returns the whole contents if and only if the file has a block for every byte; otherwise it gives the error of the block iterator, or panics if that has none. |
| FileSession.ReadMappedFile | src/lib.rs:372-389 | A file with a readable block map panics if and only if it needs more blocks than the map can describe. |
| MountedFile.CacheReadsMount | src/lib.rs:300-364 | A successful cached read of a block that does not stand for block 0 gives what the mounted filesystem has. |
| MountedFile.ByteOfFile | src/lib.rs:300-389 | Each byte of a file is zero in a hole, and otherwise the device's byte in the block that the file's map leads to, or in the journal's copy of that block. |
| MountedJournal.CommittedBlockReads | src/journal.rs:60-65 | After a journal is loaded, a block that its complete transactions wrote reads as the copy of the last write that is not revoked in its own transaction. |
| MountedJournal.OtherBlockReads | src/journal.rs:60-65 | Every other block reads as it did without the journal. |
| DirScan.ReadDir.FromBlock | src/iters/read_dir.rs:113-148 | Yields the first entry of what is left, or leaves it unchanged and makes progress. |
| DirScan.ReadDir.NextImpl | src/iters/read_dir.rs:94-149 | As above, fetching the next block where needed. |
| DirScan.ReadDir.Next | src/iters/read_dir.rs:168-168 | Terminates and yields the entries of the directory, item by item, then the error or the end. |
| DirScan.FindByScan | src/dir.rs:20-49 | The linear lookup returns the first entry with the name, or the scan's error, or not found. |
| DirFormat.RecordRoundTrip | src/dir_entry.rs:237-317 | A written record, used or unused, is parsed back with its size, whatever follows it. |
| DirFormat.MalformedExactly | src/dir_entry.rs:237-317 | Bytes are refused, as corrupt, exactly if they are shorter than a record, state a size below eight, or hold an entry whose name does not fit or is not valid or whose type is unknown. |
| DirFormat.BlockRoundTrip | src/iters/read_dir.rs:113-148 | Scanning a block gives back the entries written to it, up to bytes that are no record, which are an error. |
| DirFormat.DirRoundTrip | src/iters/read_dir.rs:94-149 | Scanning a directory gives back the entries written to its blocks, in order, up to the first block that cannot be read or holds something else; only the first block is read as the first. |
| HtreeErrors.FindsFirst | src/dir.rs:38-49 | A lookup returns the first entry with the name; if there is none, the error of the scan, or not found. |
| HtreeFormat.NodeRoundTrip | src/dir_htree.rs:92-121 | A written node is read back, whatever follows it: as many entries as it counts, with their hashes and blocks. |
| Htree.BinarySearch | src/dir_htree.rs:157-177 | The loop ends where `Search` ends: in every list of hashes at one that is at most the hash while the next is not; its subtraction cannot fail. |
| Htree.SearchIsLast | src/dir_htree.rs:157-177 | In a sorted list that is the last hash that is at most the given one. |
| HtreeFormat.LookupInWritten | src/dir_htree.rs:157-177 | In a written node with sorted hashes the lookup leads to the block of the last entry that is at most the hash. |
| Htree.LookupBlockByHash | src/dir_htree.rs:157-177 | Gives the block of the entry that the search ends at, and nothing exactly in an empty node. |
| Htree.FindLeafNode | src/dir_htree.rs:292-345 | Descends level by level to the leaf that the searches of the nodes lead to, sorted or not, or gives the first error. |
| Htree.ReadDotOrDotdot | src/dir_htree.rs:213-241 | Answers "." and ".." from their fixed offsets, and nothing else. |
| Htree.SearchLeaf | src/dir_htree.rs:379-405 | The linear search of a leaf returns its first entry with the name, or the parse error, or not found. |
| Htree.GetDirEntryViaHtree | src/dir_htree.rs:355-406 | The method computes `HtreeLookup`, for every directory and name. |
| HtreeProps.OnlyInOneBlock | src/dir_htree.rs:376-405 | If a name can only be in one block, scanning the directory finds what scanning that block finds. |
| HtreeProps.FindsRoute | src/dir_htree.rs:319-342 | In a tree of sorted nodes that lead to readable blocks, the search ends at the leaf that is found by taking, in each node, the last entry at most the hash. |
| HtreeProps.HtreeAgreesWithScan | src/dir_htree.rs:355-406 | In a well-formed htree directory the lookup returns for every name the entry that the linear scan returns, and not found exactly when the scan finds nothing. |
| HtreeProps.LookUpBothWays | src/dir.rs:32-49 | Both branches of the lookup by name give the same entry or error. |
| HtreeErrors.NodeExactly | src/dir_htree.rs:92-177 | A node is read exactly if it has room for the entries that it counts, and leads nowhere exactly if it counts none. |
| HtreeErrors.LookupAtLeaf | src/dir_htree.rs:292-406 | On any directory, sorted or not, a name is searched for in the leaf at the end of the way that the nodes lead, with as many levels as the root says. |
| HtreeErrors.LookupIsBlocked | src/dir_htree.rs:319-342 | A block on the way that cannot be found or read gives its error, and a node that is too short or empty is corrupt. |
| HtreeErrors.LookupFailsAtRoot | src/dir_htree.rs:182-318 | Before that, the error of the first block, of the hash algorithm and of the root's node come in this order. |
| HtreeErrors.DotsAreAtRoot | src/dir_htree.rs:213-241 | "." and ".." are the entries at offsets 0 and 12 of the root block; any other entry there is an error. |
| DirOnDisk.LookupAgreesOnDisk | src/dir_htree.rs:265-345 | For a directory on disk, finding one of its blocks agrees with the block iterator, as the search for a leaf needs. |
| DirOnDisk.HtreeAgreesOnDisk | src/dir_htree.rs:355-406 | On disk, with a block map or with extents in file order, the agreement with the scan holds for every name. |
| DirOnDisk.ScanOnDisk | src/dir_block.rs:55-79 | Scanning a directory on disk gives the entries of its blocks in order, up to the first block that cannot be read, does not pass its checksum, which depends on whether it is the first, or holds something else. |
| HtreeExample.ExampleExists | src/dir_htree.rs:292-406 | A concrete directory in bytes, on a concrete disk, meets the hypotheses of the agreement, and its file is found. |

## Left out

- Checksums (src/checksum.rs and the validators in src/journal and src/dir_block.rs): only whether a check passes is modelled.
- Name hashing (src/dir_entry_hash.rs): any function of the algorithm and the name.
- Superblock, block group, inode and feature flag decoding, labels and UUIDs: fixed-offset reads that would only add easy members.
- Reader implementations, formatting, UTF-8 and OsStr conversions, `std::io` adapters: library wrappers.
- Journal log wrap-around, escaped journal blocks, unwritten extents and hash collision continuation: the source does not implement them.
- The lookup function of `ResolveSpec.Fs` is not connected to `Htree` and `DirScan`: resolution is proved for any lookup function, and directory lookup on its own.
- FileCursor.File.ReadBytes: the block iterator that a file owns is represented by the sequence it has left to yield; `FileMap.FileBlocks.Next` is proved to yield that sequence, but the object is not part of the class.
- ExtentFormat.TreeRoundTrip: the bytes of a node that are not read, such as the generation in its header, are written as zeros.
- FileCursor.File.SeekTo: likewise starts again from the sequence of a new iterator; making that iterator cannot fail where opening the file did not.
- DirScan.ReadDir.Next: likewise holds its block iterator as a sequence; the encrypted directory check before it is not modelled.
- JournalLoader.LoadBlockMap: likewise holds the journal's block iterator as a sequence.
- FileSession.ReadInodeFile: does not model the conversion of the file size to `usize`, which matters only on 32-bit targets.
- ExtentWalk.Extents.Next: termination is proved where the walk gets to another extent, an error or its end, as it must be; elsewhere the source loops.
- The bodies of `resolve_path`, `next_impl` of the block map and `read_bytes` are split into several methods, one for each part or branch.
