/**
 A volume, written byte for byte, on which the reader does what its documentation says it does not:
 its one snapshot opens, shows data past the end of the volume, and hides the live bytes of the
 partial last block. It also shows that the hypotheses of the round trips can be met.
 */
module OddVolume {
  import opened Bitmaps
  import opened BlockMaps
  import opened Bytes
  import opened Chains
  import opened Descriptors
  import opened DiskImages
  import opened Layouts
  import opened Pairing
  import opened Views
  import opened Volumes
  import opened Wrappers

  const STORE_ID: Guid := [7, 7, 7, 7, 7, 7, 7, 7, 7, 7, 7, 7, 7, 7, 7, 7]

  function Ones(n: nat): seq<byte> {
    seq(n, _ => 1)
  }

  /** Nothing links on from any block of this volume. */
  function HeaderOf(recordType: u32, size: u64): BlockHeader {
    BlockHeader(VSS_IDENTIFIER, 1, recordType, 0, 0, 0, size, Zeros(72))
  }

  // ---------- The volume ----------

  /** The volume header, in block 0, puts the catalog at block 1. */
  const VOLUME_HEADER := HeaderOf(0x01, BLOCK_SIZE)

  function HeaderBlock(): Block {
    Zeros(VSS_VOLUME_HEADER_OFFSET) + EncodeHeader(VOLUME_HEADER)
    + Zeros(BLOCK_SIZE - VSS_VOLUME_HEADER_OFFSET - CATALOG_BLOCK_HEADER_LEN)
  }

  /** One snapshot, whose pointer puts its store header at block 2 and its bitmap at block 4. */
  const SNAPSHOT := StoreDescriptor(STORE_ID, 6 * BLOCK_SIZE, 1, 0, 0, None, None)
  const CLOSER := StorePointer(STORE_ID, 2 * BLOCK_SIZE, 4 * BLOCK_SIZE)
  const BLANK := EntryRecord(0, 0, STORE_ID, 0, 0, 0, Zeros(72))

  function Empties(n: nat): (xs: seq<DiskEntry>)
    ensures |xs| == n && forall i | 0 <= i < |xs| :: Writable(xs[i])
  {
    if n == 0 then [] else [DiskEntry(Empty, BLANK)] + Empties(n - 1)
  }

  function Entries(): (xs: seq<DiskEntry>)
    ensures |xs| == 127 && forall i | 0 <= i < |xs| :: Writable(xs[i])
  {
    [DiskEntry(Snapshot(SNAPSHOT), BLANK), DiskEntry(CLOSER, BLANK)] + Empties(125)
  }

  function CatalogBlock(): DiskBlock {
    DiskBlock(HeaderOf(0x02, 0), EncodeEntries(Entries()))
  }

  /** The diff area, at block 3, holds one descriptor: it saves block 7, which the volume does not have, in block 5. */
  const BEYOND := BlockDescriptor(7 * BLOCK_SIZE, 0, 5 * BLOCK_SIZE, 0, 0)

  function DiffAreaBlock(): DiskBlock {
    DiskBlock(HeaderOf(0x03, 0), EncodeAll([BEYOND]) + Zeros(PAYLOAD_LEN - BLOCK_DESCRIPTOR_LEN))
  }

  /** The bitmap, at block 4, marks no block as unallocated. */
  function BitmapBlock(): DiskBlock {
    DiskBlock(HeaderOf(0x06, 0), Zeros(PAYLOAD_LEN))
  }

  function BytesOf(b: DiskBlock): Block {
    EncodeHeader(b.header) + b.payload
  }

  /** Block `k` of the volume. */
  predicate Holds(img: Image, k: nat, block: Block) {
    InVolume(|img|, k * BLOCK_SIZE) && BlockAt(img, k * BLOCK_SIZE) == block
  }

  /** Six blocks, the last all ones, and a partial seventh of 512 ones. */
  predicate IsOdd(img: Image) {
    && |img| == 6 * BLOCK_SIZE + 512
    && Holds(img, 0, HeaderBlock()) && Holds(img, 1, BytesOf(CatalogBlock()))
    && Holds(img, 3, BytesOf(DiffAreaBlock())) && Holds(img, 4, BytesOf(BitmapBlock()))
    && Holds(img, 5, Ones(BLOCK_SIZE)) && img[6 * BLOCK_SIZE..] == Ones(512)
  }

  /** There is such a volume. */
  lemma OddVolumeExists() returns (img: Image)
    ensures IsOdd(img)
  {
    img := Lay(HeaderBlock(), BytesOf(CatalogBlock()), Zeros(BLOCK_SIZE),
      BytesOf(DiffAreaBlock()), BytesOf(BitmapBlock()), Ones(BLOCK_SIZE), Ones(512));
  }

  lemma Lay(b0: Block, b1: Block, b2: Block, b3: Block, b4: Block, b5: Block, tail: seq<byte>) returns (img: Image)
    requires |tail| == 512
    ensures |img| == 6 * BLOCK_SIZE + 512 && img[6 * BLOCK_SIZE..] == tail
    ensures Holds(img, 0, b0) && Holds(img, 1, b1) && Holds(img, 3, b3) && Holds(img, 4, b4) && Holds(img, 5, b5)
  {
    img := b0 + b1 + b2 + b3 + b4 + b5 + tail;
    assert img == b0 + b1 + b2 + b3 + b4 + b5 + tail;
  }

  // ---------- What is on it ----------

  /** A chain of one block is written. */
  lemma OneBlockIsWritten(img: Image, kind: ChainKind, k: nat, b: DiskBlock)
    requires 0 < k < 6 && Holds(img, k, BytesOf(b))
    requires Marks(b.header, kind) && b.header.nextOffset == 0
    ensures Written(img, kind, [k * BLOCK_SIZE], [b])
  {
  }

  lemma VolumeHeaderIsWritten(img: Image)
    requires Holds(img, 0, HeaderBlock())
    ensures Header(img) == EncodeHeader(VOLUME_HEADER)
  {
    var from := VSS_VOLUME_HEADER_OFFSET;
    assert Header(img) == BlockAt(img, 0)[from..from + CATALOG_BLOCK_HEADER_LEN];
  }

  lemma CatalogIsWritten(img: Image)
    requires Holds(img, 0, HeaderBlock()) && Holds(img, 1, BytesOf(CatalogBlock()))
    ensures CatalogWritten(img, VOLUME_HEADER, [BLOCK_SIZE], [CatalogBlock()], [EntriesIn(Entries())])
  {
    VolumeHeaderIsWritten(img);
    OneBlockIsWritten(img, CatalogChain, 1, CatalogBlock());
  }

  lemma OneDescriptorIsHeld(d: BlockDescriptor, payload: Payload)
    requires d != ZERO_DESCRIPTOR && payload == EncodeAll([d]) + Zeros(PAYLOAD_LEN - BLOCK_DESCRIPTOR_LEN)
    ensures HoldsDescriptors(payload, [d])
  {
    assert payload[..BLOCK_DESCRIPTOR_LEN] == EncodeAll([d]);
    assert payload[BLOCK_DESCRIPTOR_LEN..] == Zeros(PAYLOAD_LEN - BLOCK_DESCRIPTOR_LEN);
  }

  lemma DiffAreaIsWritten(img: Image)
    requires Holds(img, 3, BytesOf(DiffAreaBlock()))
    ensures DiffAreaWritten(img, [3 * BLOCK_SIZE], [DiffAreaBlock()], [[BEYOND]])
  {
    OneBlockIsWritten(img, DiffAreaChain, 3, DiffAreaBlock());
    OneDescriptorIsHeld(BEYOND, DiffAreaBlock().payload);
  }

  lemma BitmapIsWritten(img: Image)
    requires Holds(img, 4, BytesOf(BitmapBlock()))
    ensures BitmapWritten(img, [4 * BLOCK_SIZE], [BitmapBlock()], [Piece(0, Zeros(PAYLOAD_LEN))])
  {
    OneBlockIsWritten(img, BitmapChain, 4, BitmapBlock());
    assert PiecesOf([BitmapBlock()]) == [Piece(0, Zeros(PAYLOAD_LEN))];
  }

  /** The one store of the volume, as the catalog gives it. */
  const STORE := SNAPSHOT.(storeHeaderOffset := Some(2 * BLOCK_SIZE), storeBitmapOffset := Some(4 * BLOCK_SIZE))

  lemma JoinOne<T>(list: seq<T>)
    ensures Join([list]) == list
  {
    assert [list][..0] == [];
  }

  lemma ConcatOne(piece: Piece)
    ensures Concat([piece]) == piece.payload
  {
    assert [piece][..0] == [];
  }

  lemma StoreIsWritten(img: Image)
    requires Holds(img, 3, BytesOf(DiffAreaBlock())) && Holds(img, 4, BytesOf(BitmapBlock()))
    ensures StoreWritten(img, 2 * BLOCK_SIZE, 4 * BLOCK_SIZE, [BEYOND], Zeros(PAYLOAD_LEN))
  {
    DiffAreaIsWritten(img);
    JoinOne([BEYOND]);
    BitmapIsWritten(img);
    ConcatOne(Piece(0, Zeros(PAYLOAD_LEN)));
  }

  lemma {:induction false} EmptiesChangeNothing(stores: seq<StoreDescriptor>, n: nat)
    ensures Run(stores, EntriesIn(Empties(n))) == stores
  {
    if n > 0 {
      EmptiesChangeNothing(stores, n - 1);
      assert Empties(n)[1..] == Empties(n - 1);
      assert EntriesIn(Empties(n))[1..] == EntriesIn(Empties(n - 1));
    }
  }

  lemma PairingGivesStore()
    ensures Run([], EntriesIn(Entries())) == [STORE]
  {
    var xs, es := Entries(), EntriesIn(Entries());
    assert xs[1..][1..] == Empties(125);
    assert es[0] == Snapshot(SNAPSHOT) && es[1..] == EntriesIn(xs[1..]);
    assert es[1..][0] == CLOSER && es[1..][1..] == EntriesIn(Empties(125));
    assert Step([], es[0]) == [SNAPSHOT];
    assert Step([SNAPSHOT], CLOSER) == [STORE];
    EmptiesChangeNothing([STORE], 125);
  }

  lemma CatalogReads(img: Image)
    requires Holds(img, 0, HeaderBlock()) && Holds(img, 1, BytesOf(CatalogBlock()))
    ensures Catalog(img) == EntriesIn(Entries())
  {
    var es := EntriesIn(Entries());
    CatalogIsWritten(img);
    CatalogRoundTrip(img, VOLUME_HEADER, [BLOCK_SIZE], [CatalogBlock()], [es]);
    JoinOne(es);
  }

  lemma StoresRead(img: Image)
    requires Holds(img, 0, HeaderBlock()) && Holds(img, 1, BytesOf(CatalogBlock()))
    ensures StoresIn(img) == [STORE]
  {
    CatalogReads(img);
    PairingGivesStore();
  }

  lemma StoreReads(img: Image)
    requires Holds(img, 3, BytesOf(DiffAreaBlock())) && Holds(img, 4, BytesOf(BitmapBlock()))
    ensures IsStore(img, STORE, BEYOND)
  {
    StoreIsWritten(img);
    WrittenStoreReads(img, STORE, 2 * BLOCK_SIZE, 4 * BLOCK_SIZE, [BEYOND], Zeros(PAYLOAD_LEN));
  }

  /** The list of `d` on disk is `x` alone, and its bitmap marks nothing. */
  ghost predicate IsStore(img: Image, d: StoreDescriptor, x: BlockDescriptor) {
    && d.storeHeaderOffset.Some? && d.storeBitmapOffset.Some?
    && DescriptorList(img, DiffAreaStart(d)) == [x]
    && StoreBitmap(img, d.storeBitmapOffset.value) == Zeros(PAYLOAD_LEN)
  }

  /** The volume has one store, whose snapshot opens, and the list and bitmap on disk are the written ones. */
  lemma SnapshotOpens(img: Image)
    requires IsOdd(img)
    ensures StoresIn(img) == [STORE] && SnapshotError([STORE], 0) == None
    ensures IsStore(img, STORE, BEYOND)
  {
    StoresRead(img);
    StoreReads(img);
  }

  // ---------- Where the reader departs from its documentation ----------

  /** A plain descriptor of a block shows what its store block holds, wherever the block is. */
  lemma SavedBlockIsShown(img: Image, d: StoreDescriptor, x: BlockDescriptor)
    requires IsStore(img, d, x)
    requires x.IsPlain() && BaseOf(x.originalOffset) == x.originalOffset && InVolume(|img|, x.storeOffset)
    ensures SnapshotByte(img, d, x.originalOffset) == img[x.storeOffset]
  {
    LastPlainWins(img, [x], Zeros(PAYLOAD_LEN), x.originalOffset, 0);
  }

  lemma BeyondIsPlain()
    ensures BEYOND.IsPlain() && BaseOf(BEYOND.originalOffset) == BEYOND.originalOffset
    ensures BaseOf(6 * BLOCK_SIZE) == 6 * BLOCK_SIZE
  {
  }

  lemma OddBytes(img: Image)
    requires IsOdd(img)
    ensures |img| == 6 * BLOCK_SIZE + 512 && img[BEYOND.storeOffset] == 1 && img[6 * BLOCK_SIZE] == 1
  {
    assert img[5 * BLOCK_SIZE] == BlockAt(img, 5 * BLOCK_SIZE)[0];
    assert img[6 * BLOCK_SIZE] == img[6 * BLOCK_SIZE..][0];
  }

  /** Byte 114688 lies past the end of the volume, and the one snapshot shows a 1 there. */
  lemma PastEndCanShowData() returns (img: Image)
    ensures StoresIn(img) == [STORE] && SnapshotError([STORE], 0) == None
    ensures BEYOND.originalOffset >= |img| && SnapshotByte(img, STORE, BEYOND.originalOffset) == 1
  {
    img := OddVolumeExists();
    SnapshotOpens(img);
    OddBytes(img);
    BeyondIsPlain();
    SavedBlockIsShown(img, STORE, BEYOND);
  }

  lemma {:induction false} ZeroHasNoBits(i: nat)
    ensures !Bit(0, i)
  {
    if i > 0 {
      ZeroHasNoBits(i - 1);
    }
  }

  /** A byte of a partial block that the one descriptor does not describe is not freed, and hidden. */
  lemma UndescribedByteIsHidden(img: Image, d: StoreDescriptor, x: BlockDescriptor, p: u64)
    requires IsStore(img, d, x) && x.originalOffset != BaseOf(p) && !InVolume(|img|, BaseOf(p))
    ensures !Described([x], BaseOf(p)) && !IsUnallocated(Zeros(PAYLOAD_LEN), p / BLOCK_SIZE)
    ensures SnapshotByte(img, d, p) == 0
  {
    ZeroHasNoBits(p / BLOCK_SIZE % 8);
    LiveOrZero(img, [x], Zeros(PAYLOAD_LEN), p);
  }

  /**
   Byte 98304, in the partial last block, is a 1 that no descriptor describes and the bitmap does not
   free; the one snapshot shows a 0 there.
   */
  lemma PartialBlockIsHidden() returns (img: Image, p: u64)
    ensures StoresIn(img) == [STORE] && SnapshotError([STORE], 0) == None
    ensures p == 6 * BLOCK_SIZE < |img| && img[p] == 1 && SnapshotByte(img, STORE, p) == 0
    ensures !Described(DescriptorList(img, DiffAreaStart(STORE)), BaseOf(p))
    ensures !IsUnallocated(StoreBitmap(img, STORE.storeBitmapOffset.value), p / BLOCK_SIZE)
  {
    p := 6 * BLOCK_SIZE;
    img := OddVolumeExists();
    SnapshotOpens(img);
    OddBytes(img);
    BeyondIsPlain();
    UndescribedByteIsHidden(img, STORE, BEYOND, p);
  }
}
