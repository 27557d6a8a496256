/**
 Whole chains and whole volumes as a writer lays them out, and the proof that the walks and `open`
 read them back: the catalog, the diff area and the bitmap, each over any number of linked blocks.
 */
module DiskImages {
  import opened Bitmaps
  import opened BlockMaps
  import opened Bytes
  import opened Chains
  import opened Descriptors
  import opened Layouts
  import opened Pairing
  import opened Sorting
  import opened Views
  import opened Volumes
  import opened Wrappers

  /** The identifier {3808876b-c176-4e48-b7ae-04046e6cc752}, as bytes on disk. */
  const IDENTIFIER_BYTES: Guid :=
    [0x6b, 0x87, 0x08, 0x38, 0x76, 0xc1, 0x48, 0x4e, 0xb7, 0xae, 0x04, 0x04, 0x6e, 0x6c, 0xc7, 0x52]

  datatype DiskBlock = DiskBlock(header: BlockHeader, payload: Payload)

  /** The header says the block belongs to a chain of this kind. */
  predicate Marks(h: BlockHeader, kind: ChainKind) {
    match kind
    case CatalogChain => h.identifier == IDENTIFIER_BYTES && h.recordType == 0x02
    case DiffAreaChain => h.recordType == 0x03
    case BitmapChain => h.recordType == 0x06
  }

  /** What block `i` of a chain links to. */
  function Link(chain: seq<u64>, i: nat): u64
    requires i < |chain|
  {
    if i + 1 < |chain| then chain[i + 1] else 0
  }

  /** The block at `o` is `b`, written for a chain of this kind and linked to `next`. */
  predicate Stores(img: Image, kind: ChainKind, o: u64, b: DiskBlock, next: u64) {
    && o != 0 && InVolume(|img|, o) && BlockAt(img, o) == EncodeHeader(b.header) + b.payload
    && Marks(b.header, kind) && b.header.nextOffset == next
  }

  /** `blocks` are written in order at the offsets of `chain`; the last one ends it. */
  predicate Written(img: Image, kind: ChainKind, chain: seq<u64>, blocks: seq<DiskBlock>) {
    && 0 < |chain| == |blocks| <= (if kind.CatalogChain? then 4096 else 1048576) && Distinct(chain)
    && forall i | 0 <= i < |chain| :: Stores(img, kind, chain[i], blocks[i], Link(chain, i))
  }

  lemma StoredBlockReads(img: Image, kind: ChainKind, o: u64, b: DiskBlock, next: u64)
    requires Stores(img, kind, o, b, next)
    ensures Usable(img, kind, o) && NextOf(img, o) == next
    ensures PieceOf(BlockAt(img, o)) == Piece(b.header.relativeOffset, b.payload)
  {
    BlockReadsAsWritten(b.header, b.payload);
  }

  lemma WrittenIsPath(img: Image, kind: ChainKind, chain: seq<u64>, blocks: seq<DiskBlock>)
    requires Written(img, kind, chain, blocks)
    ensures IsPath(img, kind, chain[0], chain)
    ensures NextOf(img, chain[|chain| - 1]) == 0
  {
    forall i | 0 <= i < |chain|
      ensures Usable(img, kind, chain[i]) && NextOf(img, chain[i]) == Link(chain, i)
    {
      StoredBlockReads(img, kind, chain[i], blocks[i], Link(chain, i));
    }
    forall i | 0 < i < |chain| ensures chain[i] == NextOf(img, chain[i - 1]) {
      assert Usable(img, kind, chain[i - 1]) && NextOf(img, chain[i - 1]) == Link(chain, i - 1);
    }
  }

  /** The walk over a written chain visits its blocks, in order, and stops at the last. */
  lemma WalkOfWritten(img: Image, kind: ChainKind, chain: seq<u64>, blocks: seq<DiskBlock>)
    requires Written(img, kind, chain, blocks)
    ensures Visits(img, kind, chain[0]) == chain
  {
    WrittenIsPath(img, kind, chain, blocks);
    WalkExtendsEveryDistinctPath(img, kind, chain[0], {}, Cap(kind), chain);
    WalkIsDistinctPath(img, kind, chain[0], {}, Cap(kind));
    PathGoesOn(img, kind, chain[0], chain, Visits(img, kind, chain[0]));
  }

  lemma PathGoesOn(img: Image, kind: ChainKind, first: u64, s: seq<u64>, w: seq<u64>)
    requires IsPath(img, kind, first, w) && s <= w && s != [] && InVolume(|img|, s[|s| - 1])
    ensures |w| > |s| ==> NextOf(img, s[|s| - 1]) != 0
  {
    if |w| > |s| {
      assert w[|s|] == NextOf(img, w[|s| - 1]);
      assert Usable(img, kind, w[|s|]);
    }
  }

  function Join<T>(lists: seq<seq<T>>): seq<T> {
    if lists == [] then [] else Join(lists[..|lists| - 1]) + lists[|lists| - 1]
  }

  // ---------- Diff area ----------

  /** The payload holds `ds`, ended by an all-zero record or the end of the block. */
  predicate HoldsDescriptors(payload: Payload, ds: seq<BlockDescriptor>) {
    && ZERO_DESCRIPTOR !in ds && BLOCK_DESCRIPTOR_LEN * |ds| <= PAYLOAD_LEN
    && payload[..BLOCK_DESCRIPTOR_LEN * |ds|] == EncodeAll(ds)
    && EndsList(payload[BLOCK_DESCRIPTOR_LEN * |ds|..])
  }

  predicate DiffAreaWritten(img: Image, chain: seq<u64>, blocks: seq<DiskBlock>, lists: seq<seq<BlockDescriptor>>) {
    && Written(img, DiffAreaChain, chain, blocks) && |lists| == |blocks|
    && forall i | 0 <= i < |blocks| :: HoldsDescriptors(blocks[i].payload, lists[i])
  }

  lemma HeldDescriptorsScan(header: BlockHeader, payload: Payload, ds: seq<BlockDescriptor>)
    requires HoldsDescriptors(payload, ds)
    ensures Scan(EncodeHeader(header) + payload, STORE_BLOCK_HEADER_LEN) == ds
  {
    var rest := payload[BLOCK_DESCRIPTOR_LEN * |ds|..];
    assert EncodeHeader(header) + payload == EncodeHeader(header) + EncodeAll(ds) + rest;
    ScanOfEncodeAll(EncodeHeader(header), ds, rest);
  }

  predicate ScansAs(img: Image, o: u64, ds: seq<BlockDescriptor>) {
    InVolume(|img|, o) && Scan(BlockAt(img, o), STORE_BLOCK_HEADER_LEN) == ds
  }

  lemma {:induction false} FlattenIsJoin(img: Image, chain: seq<u64>, lists: seq<seq<BlockDescriptor>>)
    requires |chain| == |lists| && forall i | 0 <= i < |chain| :: ScansAs(img, chain[i], lists[i])
    ensures Flatten(img, chain) == Join(lists)
  {
    if chain != [] {
      var n := |chain| - 1;
      assert ScansAs(img, chain[n], lists[n]);
      FlattenIsJoin(img, chain[..n], lists[..n]);
    }
  }

  /** Any descriptor lists written over any number of chained blocks read back as one list, in order. */
  lemma DiffAreaRoundTrip(img: Image, chain: seq<u64>, blocks: seq<DiskBlock>, lists: seq<seq<BlockDescriptor>>)
    requires DiffAreaWritten(img, chain, blocks, lists)
    ensures DescriptorList(img, chain[0]) == Join(lists)
  {
    WalkOfWritten(img, DiffAreaChain, chain, blocks);
    forall i | 0 <= i < |chain| ensures ScansAs(img, chain[i], lists[i]) {
      assert Stores(img, DiffAreaChain, chain[i], blocks[i], Link(chain, i));
      HeldDescriptorsScan(blocks[i].header, blocks[i].payload, lists[i]);
    }
    FlattenIsJoin(img, chain, lists);
  }

  // ---------- Bitmap ----------

  function PiecesOf(blocks: seq<DiskBlock>): (pieces: seq<Piece>)
    ensures |pieces| == |blocks|
    ensures forall i | 0 <= i < |blocks| :: pieces[i] == Piece(blocks[i].header.relativeOffset, blocks[i].payload)
  {
    seq(|blocks|, i requires 0 <= i < |blocks| => Piece(blocks[i].header.relativeOffset, blocks[i].payload))
  }

  predicate Rising(pieces: seq<Piece>) {
    forall i, j | 0 <= i < j < |pieces| :: pieces[i].relativeOffset < pieces[j].relativeOffset
  }

  /** The blocks hold the pieces of the bitmap, each once, linked in any order. */
  ghost predicate BitmapWritten(img: Image, chain: seq<u64>, blocks: seq<DiskBlock>, pieces: seq<Piece>) {
    && Written(img, BitmapChain, chain, blocks) && Rising(pieces)
    && DistinctKeys(PiecesOf(blocks), (p: Piece) => p.relativeOffset)
    && forall p :: p in PiecesOf(blocks) <==> p in pieces
  }

  predicate PieceAt(img: Image, o: u64, p: Piece) {
    InVolume(|img|, o) && PieceOf(BlockAt(img, o)) == p
  }

  lemma {:induction false} PiecesAreStored(img: Image, chain: seq<u64>, pieces: seq<Piece>)
    requires |chain| == |pieces| && forall i | 0 <= i < |chain| :: PieceAt(img, chain[i], pieces[i])
    ensures Pieces(img, chain) == pieces
  {
    if chain != [] {
      var n := |chain| - 1;
      assert PieceAt(img, chain[n], pieces[n]);
      PiecesAreStored(img, chain[..n], pieces[..n]);
      assert pieces == pieces[..n] + [pieces[n]];
    }
  }

  lemma {:induction false} RisingIsInOrder(pieces: seq<Piece>)
    requires Rising(pieces)
    ensures InOrder(pieces) == pieces
  {
    if pieces != [] {
      var n := |pieces| - 1;
      RisingIsInOrder(pieces[..n]);
      assert pieces == pieces[..n] + [pieces[n]];
    }
  }

  /** A bitmap cut into pieces and linked in any order reads back whole. */
  lemma BitmapRoundTrip(img: Image, chain: seq<u64>, blocks: seq<DiskBlock>, pieces: seq<Piece>)
    requires BitmapWritten(img, chain, blocks, pieces)
    ensures StoreBitmap(img, chain[0]) == Concat(pieces)
  {
    WalkOfWritten(img, BitmapChain, chain, blocks);
    forall i | 0 <= i < |chain| ensures PieceAt(img, chain[i], PiecesOf(blocks)[i]) {
      StoredBlockReads(img, BitmapChain, chain[i], blocks[i], Link(chain, i));
    }
    PiecesAreStored(img, chain, PiecesOf(blocks));
    SortIgnoresOrder(PiecesOf(blocks), pieces, (p: Piece) => p.relativeOffset);
    RisingIsInOrder(pieces);
  }

  // ---------- Catalog ----------

  /** The payload holds the 127 entries of a full catalog block, whatever the bytes they leave free. */
  ghost predicate HoldsEntries(payload: Payload, es: seq<CatalogEntry>) {
    exists xs: seq<DiskEntry> ::
      EncodeEntries(xs) == payload && EntriesIn(xs) == es && forall i | 0 <= i < |xs| :: Writable(xs[i])
  }

  /** Every block can be read as one that holds entries. */
  lemma EveryPayloadHoldsEntries(payload: Payload) returns (es: seq<CatalogEntry>)
    ensures HoldsEntries(payload, es)
  {
    var xs := EveryPayloadIsEntries(payload);
    es := EntriesIn(xs);
  }

  ghost predicate CatalogWritten(
    img: Image, h: BlockHeader, chain: seq<u64>, blocks: seq<DiskBlock>, lists: seq<seq<CatalogEntry>>)
  {
    && 7680 + 128 <= |img| && img[7680..7680 + 128] == EncodeHeader(h) && h.identifier == IDENTIFIER_BYTES
    && Written(img, CatalogChain, chain, blocks) && h.size == chain[0] && |lists| == |blocks|
    && forall i | 0 <= i < |blocks| :: HoldsEntries(blocks[i].payload, lists[i])
  }

  predicate ReadsEntries(img: Image, o: u64, es: seq<CatalogEntry>) {
    InVolume(|img|, o) && EntriesFrom(BlockAt(img, o), CATALOG_BLOCK_HEADER_LEN) == es
  }

  lemma {:induction false} EntriesAreJoin(img: Image, chain: seq<u64>, lists: seq<seq<CatalogEntry>>)
    requires |chain| == |lists| && forall i | 0 <= i < |chain| :: ReadsEntries(img, chain[i], lists[i])
    ensures EntriesOn(img, chain) == Join(lists)
  {
    if chain != [] {
      var n := |chain| - 1;
      assert ReadsEntries(img, chain[n], lists[n]);
      EntriesAreJoin(img, chain[..n], lists[..n]);
    }
  }

  lemma StoredEntriesRead(img: Image, o: u64, b: DiskBlock, next: u64, es: seq<CatalogEntry>)
    requires Stores(img, CatalogChain, o, b, next) && HoldsEntries(b.payload, es)
    ensures ReadsEntries(img, o, es)
  {
    var xs :| EncodeEntries(xs) == b.payload && EntriesIn(xs) == es && forall i | 0 <= i < |xs| :: Writable(xs[i]);
    EntriesOfEncode(EncodeHeader(b.header), xs);
  }

  lemma CatalogStarts(img: Image, h: BlockHeader)
    requires Header(img) == EncodeHeader(h) && h.identifier == VSS_IDENTIFIER
    ensures HasVssHeader(img) && CatalogOffset(img) == h.size
  {
    HeaderFields(h, []);
    assert Header(img) == EncodeHeader(h) + [];
  }

  /** A written catalog, over any number of chained blocks, reads back entry for entry. */
  lemma CatalogRoundTrip(
    img: Image, h: BlockHeader, chain: seq<u64>, blocks: seq<DiskBlock>, lists: seq<seq<CatalogEntry>>)
    requires CatalogWritten(img, h, chain, blocks, lists)
    ensures Catalog(img) == Join(lists)
  {
    CatalogStarts(img, h);
    assert Stores(img, CatalogChain, chain[0], blocks[0], Link(chain, 0));
    WalkOfWritten(img, CatalogChain, chain, blocks);
    forall i | 0 <= i < |chain| ensures ReadsEntries(img, chain[i], lists[i]) {
      StoredEntriesRead(img, chain[i], blocks[i], Link(chain, i), lists[i]);
    }
    EntriesAreJoin(img, chain, lists);
  }

  // ---------- A whole store ----------

  /** The descriptors `ds` are written over a chain that starts at `at`. */
  ghost predicate ListWritten(img: Image, at: nat, ds: seq<BlockDescriptor>) {
    exists chain, blocks, lists :: DiffAreaWritten(img, chain, blocks, lists) && chain[0] == at && Join(lists) == ds
  }

  /** `bitmap` is written over a chain that starts at `at`. */
  ghost predicate BitsWritten(img: Image, at: nat, bitmap: seq<byte>) {
    exists chain, blocks, pieces ::
      BitmapWritten(img, chain, blocks, pieces) && chain[0] == at && Concat(pieces) == bitmap
  }

  /** A store is written out: its descriptors one block behind its header, its bitmap on a chain of its own. */
  ghost predicate StoreWritten(img: Image, header: u64, bitmapAt: u64, ds: seq<BlockDescriptor>, bitmap: seq<byte>) {
    ListWritten(img, header + 16384, ds) && BitsWritten(img, bitmapAt, bitmap)
  }

  lemma WrittenListReads(img: Image, at: nat, ds: seq<BlockDescriptor>)
    requires ListWritten(img, at, ds)
    ensures at <= MAX_U64 && DescriptorList(img, at) == ds
  {
    var chain, blocks, lists :| DiffAreaWritten(img, chain, blocks, lists) && chain[0] == at && Join(lists) == ds;
    DiffAreaRoundTrip(img, chain, blocks, lists);
  }

  lemma WrittenBitsRead(img: Image, at: u64, bitmap: seq<byte>)
    requires BitsWritten(img, at, bitmap)
    ensures StoreBitmap(img, at) == bitmap
  {
    var chain, blocks, pieces :| BitmapWritten(img, chain, blocks, pieces)
      && chain[0] == at && Concat(pieces) == bitmap;
    BitmapRoundTrip(img, chain, blocks, pieces);
  }

  lemma WrittenStoreReads(
    img: Image, d: StoreDescriptor, header: u64, bitmapAt: u64, ds: seq<BlockDescriptor>, bitmap: seq<byte>)
    requires d.storeHeaderOffset == Some(header) && d.storeBitmapOffset == Some(bitmapAt)
    requires StoreWritten(img, header, bitmapAt, ds, bitmap)
    ensures DescriptorList(img, DiffAreaStart(d)) == ds
    ensures StoreBitmap(img, bitmapAt) == bitmap
  {
    WrittenListReads(img, header + 16384, ds);
    WrittenBitsRead(img, bitmapAt, bitmap);
  }

  /**
   A volume written with a catalog in which a type-0x03 entry closes the bracket of the type-0x02
   entry `i`, and with the store it points to, opens that snapshot and shows the written descriptors
   and bitmap by the documented rule.
   */
  lemma WrittenVolumeRoundTrip(
    img: Image, h: BlockHeader, chain: seq<u64>, blocks: seq<DiskBlock>, lists: seq<seq<CatalogEntry>>,
    i: nat, header: u64, bitmapAt: u64, ds: seq<BlockDescriptor>, bitmap: seq<byte>)
    requires CatalogWritten(img, h, chain, blocks, lists)
    requires var es := Join(lists);
      && i < |es| && es[i].Snapshot?
      && Closer(es[i + 1..], es[i].descriptor.storeId, 0)
         == Some(StorePointer(es[i].descriptor.storeId, header, bitmapAt))
    requires StoreWritten(img, header, bitmapAt, ds, bitmap)
    ensures var s := |Snapshots(Join(lists)[..i])|;
      && SnapshotError(StoresIn(img), s) == None
      && s < |StoresIn(img)|
      && var d := StoresIn(img)[s];
         && d.storeHeaderOffset == Some(header) && d.storeBitmapOffset == Some(bitmapAt)
         && forall p: u64 :: SnapshotByte(img, d, p) == View(img, ds, bitmap, p)
  {
    CatalogRoundTrip(img, h, chain, blocks, lists);
    CatalogIsRaw(img);
    PairingIsBracketMatching(Catalog(img), i);
    SnapshotOpensIffPaired(img, i);
    var d := StoresIn(img)[|Snapshots(Join(lists)[..i])|];
    WrittenStoreReads(img, d, header, bitmapAt, ds, bitmap);
  }
}
