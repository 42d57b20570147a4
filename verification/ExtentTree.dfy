// The nodes of an extent tree (src/iters/extents.rs): their format, and what is
// found at each of their entries.

module ExtentTree {
  import opened Basics
  import opened ByteReaders

  const ENTRY_SIZE: nat := 12
  const EXTENT_MAGIC: nat := 0xf30a
  const MAX_DEPTH: nat := 5

  /** A contiguous range of blocks that hold file data (src/extent.rs). */
  datatype Extent = Extent(blockWithinFile: nat, startBlock: nat, numBlocks: nat)

  datatype NodeHeader = NodeHeader(numEntries: nat, maxEntries: nat, depth: nat)
  {
    function NodeSize(): nat {
      (numEntries + 1) * ENTRY_SIZE
    }

    function ChecksumOffset(): nat {
      (maxEntries + 1) * ENTRY_SIZE
    }
  }

  /** What the walk asks of the filesystem: the first bytes of a block, and
      whether the checksum after a node matches. */
  datatype Fs = Fs(
    read: (nat, nat) -> Result<Bytes>,
    blockSize: nat,
    hasChecksums: bool,
    checksumOk: (Bytes, nat) -> bool)
  {
    ghost predicate Valid() {
      forall b, n :: read(b, n).Ok? ==> |read(b, n).value| == n
    }
  }

  /** `NodeHeader::from_bytes`. */
  function ReadHeader(data: Bytes): (r: Result<NodeHeader>)
    ensures r.Ok? ==> r.value.depth <= MAX_DEPTH && r.value.numEntries < U16_LIMIT
  {
    if |data| < ENTRY_SIZE then Err(Corrupt)
    else if U16le(data, 0) != EXTENT_MAGIC then Err(Corrupt)
    else if U16le(data, 6) > MAX_DEPTH then Err(Corrupt)
    else Ok(NodeHeader(U16le(data, 2), U16le(data, 4), U16le(data, 6)))
  }

  /** A node on the stack. Entry 0 is the header, entry 1 the first real one. */
  datatype Item = Item(node: Bytes, entry: nat, depth: nat)
  {
    function Entry(): (r: Option<Bytes>)
      ensures r.Some? ==> |r.value| == ENTRY_SIZE
    {
      var start := entry * ENTRY_SIZE;
      if start + ENTRY_SIZE <= |node| then Some(node[start..start + ENTRY_SIZE]) else None
    }

    function Next(): Item {
      this.(entry := entry + 1)
    }

    /** Bytes of the entries that have not been visited. */
    function Left(): nat {
      if entry * ENTRY_SIZE <= |node| then |node| - entry * ENTRY_SIZE else 0
    }
  }

  /** `ToVisitItem::new`. */
  function NewItem(node: Bytes): (r: Result<Item>)
    ensures r.Ok? ==>
              && r.value.entry == 0 && r.value.depth <= MAX_DEPTH
              && ENTRY_SIZE <= |r.value.node| <= U16_LIMIT * ENTRY_SIZE && |r.value.node| % ENTRY_SIZE == 0
              && r.value.node <= node
  {
    var header :- ReadHeader(node);
    if |node| < header.NodeSize() then Err(Corrupt)
    else Ok(Item(node[..header.NodeSize()], 0, header.depth))
  }

  function ReadExtent(entry: Bytes): (r: Extent)
    requires |entry| == ENTRY_SIZE
    ensures r.blockWithinFile < U32_LIMIT && r.startBlock < U48_LIMIT && r.numBlocks < U16_LIMIT
  {
    Extent(U32le(entry, 0), U64FromHiLo(U16le(entry, 6), U32le(entry, 8)), U16le(entry, 4))
  }

  /** Read the node in a block. */
  function LoadNode(fs: Fs, child: nat): (r: Result<Item>)
    requires fs.Valid()
    ensures r.Ok? ==>
              && r.value.entry == 0 && r.value.depth <= MAX_DEPTH
              && |r.value.node| <= fs.blockSize
  {
    var headerBytes :- fs.read(child, ENTRY_SIZE);
    var header :- ReadHeader(headerBytes);
    var size := header.ChecksumOffset() + if fs.hasChecksums then 4 else 0;
    if size > fs.blockSize then Err(Corrupt)
    else
      var node :- fs.read(child, size);
      if fs.hasChecksums && !fs.checksumOk(node, header.ChecksumOffset()) then Err(Corrupt)
      else NewItem(node)
  }

  /** The block that an entry of an internal node points to. */
  function ChildBlock(entry: Bytes): (b: nat)
    requires |entry| == ENTRY_SIZE
    ensures b < U48_LIMIT
  {
    U64FromHiLo(U16le(entry, 8), U32le(entry, 4))
  }

  /** Read the node that an entry of an internal node points to. */
  function LoadChild(fs: Fs, entry: Bytes): (r: Result<Item>)
    requires fs.Valid() && |entry| == ENTRY_SIZE
  {
    LoadNode(fs, ChildBlock(entry))
  }

  // ----- visiting the next entry of a node

  /** What the next entry of a node is: there is none, an extent, or a child that can
      or cannot be loaded. */
  datatype Visit = Done | Leaf(extent: Extent) | Broken(error: Error) | Down(child: Item)

  function VisitNext(fs: Fs, item: Item): Visit
    requires fs.Valid()
  {
    match item.Next().Entry()
    case None => Done
    case Some(entry) =>
      if item.depth == 0 then Leaf(ReadExtent(entry))
      else match LoadChild(fs, entry)
        case Err(e) => Broken(e)
        case Ok(child) => Down(child)
  }

  /** A way to visit nodes. The walk relies on no more than that a node has finitely
      many entries. */
  type Visitor = v: Item -> Visit | forall item :: !v(item).Done? ==> item.Next().Left() < item.Left()
    witness _ => Done

  function Visits(fs: Fs): Visitor
    requires fs.Valid()
  {
    (item: Item) => VisitNext(fs, item)
  }
}
