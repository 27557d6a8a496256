/** A volume's shadow-copy metadata: open, catalog walk, store information, snapshot state. */
module Volumes {
  import opened Bitmaps
  import opened BlockMaps
  import opened Bytes
  import opened Chains
  import opened Descriptors
  import opened Pairing
  import opened Readers
  import opened Reconstruct
  import opened Views
  import opened Wrappers
  import StoreInfos

  const VSS_VOLUME_HEADER_OFFSET: nat := 0x1E00
  const MAX_STORE_INFO_LEN: nat := 0x10_0000

  datatype VssError =
    | StoreIndexOutOfRange(index: nat, count: nat)
    | StoreInfoUnavailable(index: nat)
    | StoreOffsetOutOfBounds(index: nat, offset: u64, volumeSize: u64)

  // ---------- What is on disk ----------

  function Header(img: Image): seq<byte> {
    if VSS_VOLUME_HEADER_OFFSET + CATALOG_BLOCK_HEADER_LEN <= |img|
    then img[VSS_VOLUME_HEADER_OFFSET..VSS_VOLUME_HEADER_OFFSET + CATALOG_BLOCK_HEADER_LEN] else []
  }

  predicate HasVssHeader(img: Image) {
    Header(img) != [] && ReadGuid(Header(img), 0) == VSS_IDENTIFIER
  }

  function CatalogOffset(img: Image): u64 {
    LeU64(Header(img), 48)
  }

  /** The entries of the blocks of a catalog chain, in chain order. */
  function EntriesOn(img: Image, chain: seq<u64>): seq<CatalogEntry> {
    if chain == [] then []
    else
      var n := |chain| - 1;
      EntriesOn(img, chain[..n])
      + if InVolume(|img|, chain[n]) then EntriesFrom(BlockAt(img, chain[n]), CATALOG_BLOCK_HEADER_LEN) else []
  }

  /** Every catalog entry of the volume; none without a header or a catalog. */
  function Catalog(img: Image): seq<CatalogEntry> {
    if HasVssHeader(img) && CatalogOffset(img) != 0
    then EntriesOn(img, Visits(img, CatalogChain, CatalogOffset(img))) else []
  }

  function StoresIn(img: Image): seq<StoreDescriptor> {
    Run([], Catalog(img))
  }

  lemma EntriesAppend(img: Image, chain: seq<u64>, o: u64)
    requires InVolume(|img|, o)
    ensures EntriesOn(img, chain + [o])
         == EntriesOn(img, chain) + EntriesFrom(BlockAt(img, o), CATALOG_BLOCK_HEADER_LEN)
  {
    assert (chain + [o])[..|chain|] == chain;
  }

  /** Pairing carries on across block boundaries. */
  lemma StoresAfterBlock(img: Image, chain: seq<u64>, o: u64)
    requires InVolume(|img|, o)
    ensures Run([], EntriesOn(img, chain + [o]))
         == Run(Run([], EntriesOn(img, chain)), EntriesFrom(BlockAt(img, o), CATALOG_BLOCK_HEADER_LEN))
  {
    EntriesAppend(img, chain, o);
    RunAppend([], EntriesOn(img, chain), EntriesFrom(BlockAt(img, o), CATALOG_BLOCK_HEADER_LEN));
  }

  lemma {:induction false} BlockEntriesAreRaw(block: Block, off: nat)
    ensures Raw(EntriesFrom(block, off))
    decreases BLOCK_SIZE - off
  {
    if off + CATALOG_ENTRY_LEN <= BLOCK_SIZE {
      BlockEntriesAreRaw(block, off + CATALOG_ENTRY_LEN);
    }
  }

  lemma {:induction false} EntriesAreRaw(img: Image, chain: seq<u64>)
    ensures Raw(EntriesOn(img, chain))
  {
    if chain != [] {
      var n := |chain| - 1;
      EntriesAreRaw(img, chain[..n]);
      if InVolume(|img|, chain[n]) {
        BlockEntriesAreRaw(BlockAt(img, chain[n]), CATALOG_BLOCK_HEADER_LEN);
      }
    }
  }

  lemma CatalogIsRaw(img: Image)
    ensures Raw(Catalog(img))
  {
    EntriesAreRaw(img, Visits(img, CatalogChain, CatalogOffset(img)));
  }

  // ---------- walk_catalog ----------

  /** The reverse search of a pointer entry, updating the descriptor it finds. */
  method AttachPointer(stores: seq<StoreDescriptor>, e: CatalogEntry) returns (r: seq<StoreDescriptor>)
    requires e.StorePointer?
    ensures r == Close(stores, e)
  {
    r := stores;
    var i := |stores|;
    assert stores[..i] == stores;
    while i > 0
      invariant 0 <= i <= |stores|
      invariant Close(stores, e) == Close(stores[..i], e) + stores[i..]
    {
      i := i - 1;
      assert stores[..i + 1][..i] == stores[..i];
      if Unpaired(stores[i], e.storeId) {
        r := stores[i := Attach(stores[i], e)];
        assert stores[..i + 1] == stores[..i] + [stores[i]];
        return;
      }
      assert stores[i..] == [stores[i]] + stores[i + 1..];
    }
  }

  lemma EntryStep(block: Block, off: nat, stores: seq<StoreDescriptor>)
    requires off + CATALOG_ENTRY_LEN <= BLOCK_SIZE
    ensures var next := off + CATALOG_ENTRY_LEN;
      Run(stores, EntriesFrom(block, off)) == Run(Step(stores, ParseEntry(block[off..next])), EntriesFrom(block, next))
  {
    assert EntriesFrom(block, off)[1..] == EntriesFrom(block, off + CATALOG_ENTRY_LEN);
  }

  /** Feeds the entries of one catalog block to the pairing. */
  method EnumerateBlock(block: array<byte>, stores: seq<StoreDescriptor>) returns (r: seq<StoreDescriptor>)
    requires block.Length == BLOCK_SIZE
    ensures r == Run(stores, EntriesFrom(block[..], CATALOG_BLOCK_HEADER_LEN))
  {
    ghost var bytes: Block := block[..];
    r := stores;
    var off := CATALOG_BLOCK_HEADER_LEN;
    while off + CATALOG_ENTRY_LEN <= BLOCK_SIZE
      invariant Run(r, EntriesFrom(bytes, off)) == Run(stores, EntriesFrom(bytes, CATALOG_BLOCK_HEADER_LEN))
    {
      EntryStep(bytes, off, r);
      var entry := ParseEntry(block[off..off + CATALOG_ENTRY_LEN]);
      assert block[off..off + CATALOG_ENTRY_LEN] == bytes[off..off + CATALOG_ENTRY_LEN];
      match entry {
        case Snapshot(descriptor) => r := r + [descriptor];
        case StorePointer(_, _, _) => r := AttachPointer(r, entry);
        case Empty =>
        case Other =>
      }
      off := off + CATALOG_ENTRY_LEN;
    }
  }

  /** Walks the catalog chain from `first`. */
  method WalkCatalog(reader: Reader, first: u64, volumeSize: u64) returns (stores: seq<StoreDescriptor>)
    requires volumeSize == |reader.data|
    modifies reader
    ensures stores == Run([], EntriesOn(reader.data, Visits(reader.data, CatalogChain, first)))
  {
    ghost var img := reader.data;
    stores := [];
    var visited: set<u64> := {};
    var next: u64 := first;
    var blocks := 0;
    ghost var chain: seq<u64> := [];
    PendingStart(img, CatalogChain, first);
    while next != 0 && blocks < MAX_CATALOG_BLOCKS
      invariant blocks <= MAX_CATALOG_BLOCKS
      invariant Pending(img, CatalogChain, first, chain, next, visited, MAX_CATALOG_BLOCKS - blocks)
      invariant stores == Run([], EntriesOn(img, chain))
      decreases Unvisited(volumeSize, visited)
    {
      PendingStep(img, CatalogChain, first, chain, next, visited, MAX_CATALOG_BLOCKS - blocks);
      if next in visited {
        break;
      }
      visited := visited + {next};
      var loaded := LoadUsable(reader, CatalogChain, next, volumeSize);
      if loaded.None? {
        break;
      }
      var block := loaded.value;
      stores := EnumerateBlock(block, stores);
      StoresAfterBlock(img, chain, next);
      chain := chain + [next];
      blocks := blocks + 1;
      next := LeU64(block[..], 40);
    }
    if blocks == MAX_CATALOG_BLOCKS || next == 0 {
      PendingStep(img, CatalogChain, first, chain, next, visited, MAX_CATALOG_BLOCKS - blocks);
    }
  }

  // ---------- Outcomes of store_info and snapshot_state ----------

  /** The record behind the store header at `o`: its size field, capped by 1 MiB and by the volume's tail. */
  function InfoBytes(img: Image, o: u64): seq<byte>
    requires o + STORE_BLOCK_HEADER_LEN <= |img|
  {
    var end := o + STORE_BLOCK_HEADER_LEN;
    img[end..end + Min(Min(LeU64(img[o..end], 48), MAX_STORE_INFO_LEN), |img| - end)]
  }

  /** What `store_info` answers for store `index`. */
  function StoreInfoOutcome(
    img: Image, stores: seq<StoreDescriptor>, index: nat): Result<StoreInfos.StoreInfo, VssError>
  {
    if index >= |stores| then Err(StoreIndexOutOfRange(index, |stores|))
    else match stores[index].storeHeaderOffset
      case None => Err(StoreInfoUnavailable(index))
      case Some(o) =>
        if o + STORE_BLOCK_HEADER_LEN > |img| then Err(StoreOffsetOutOfBounds(index, o, |img|))
        else Ok(StoreInfos.Parse(InfoBytes(img, o)))
  }

  /** Why a snapshot of store `index` cannot be opened, if it cannot. */
  function SnapshotError(stores: seq<StoreDescriptor>, index: nat): Option<VssError> {
    if index >= |stores| then Some(StoreIndexOutOfRange(index, |stores|))
    else if stores[index].storeHeaderOffset.None? then Some(StoreInfoUnavailable(index))
    else if stores[index].storeBitmapOffset.None? then Some(StoreInfoUnavailable(index))
    else None
  }

  function DiffAreaStart(d: StoreDescriptor): u64
    requires d.storeHeaderOffset.Some?
  {
    SaturatingAdd(d.storeHeaderOffset.value, BLOCK_SIZE)
  }

  /** `st` is the state of the snapshot of `d`: its index and bitmap are those of the chains on disk. */
  ghost predicate StateOf(st: SnapshotState, img: Image, d: StoreDescriptor) {
    && d.storeHeaderOffset.Some? && d.storeBitmapOffset.Some?
    && Decodes(st, img, DescriptorList(img, DiffAreaStart(d)), StoreBitmap(img, d.storeBitmapOffset.value))
  }

  /** Byte `p` of the snapshot of store `d`: the documented rule on the flat list and bitmap found on disk. */
  function SnapshotByte(img: Image, d: StoreDescriptor, p: u64): byte
    requires d.storeHeaderOffset.Some? && d.storeBitmapOffset.Some?
  {
    View(img, DescriptorList(img, DiffAreaStart(d)), StoreBitmap(img, d.storeBitmapOffset.value), p)
  }

  /** The block of the snapshot at `base`. */
  function SnapshotBlock(img: Image, d: StoreDescriptor, base: u64): (b: seq<byte>)
    requires d.storeHeaderOffset.Some? && d.storeBitmapOffset.Some?
    requires base + BLOCK_SIZE <= MAX_U64 + 1
    ensures |b| == BLOCK_SIZE
    ensures forall w | 0 <= w < BLOCK_SIZE :: b[w] == SnapshotByte(img, d, base + w)
  {
    ViewBlock(img, DescriptorList(img, DiffAreaStart(d)), StoreBitmap(img, d.storeBitmapOffset.value), base)
  }

  lemma SnapshotByteOf(img: Image, d: StoreDescriptor, ds: seq<BlockDescriptor>, bitmap: seq<byte>, p: u64)
    requires d.storeHeaderOffset.Some? && d.storeBitmapOffset.Some?
    requires DescriptorList(img, DiffAreaStart(d)) == ds && StoreBitmap(img, d.storeBitmapOffset.value) == bitmap
    ensures SnapshotByte(img, d, p) == View(img, ds, bitmap, p)
  {
  }

  lemma StateShowsSnapshot(st: SnapshotState, img: Image, d: StoreDescriptor)
    requires StateOf(st, img, d)
    ensures Keyed(st)
    ensures forall p: u64 :: ViewOf(img, st, p) == SnapshotByte(img, d, p)
  {
    var ds, bitmap := DescriptorList(img, DiffAreaStart(d)), StoreBitmap(img, d.storeBitmapOffset.value);
    DecodedIsKeyed(st, img, ds, bitmap);
    forall p: u64 ensures ViewOf(img, st, p) == SnapshotByte(img, d, p) {
      IndexRefinesList(img, st, ds, bitmap, p);
    }
  }

  /**
   Past the end of the volume, on disk: a byte of a snapshot whose block does not wholly fit is zero
   exactly when no descriptor of the store's list supplies it, or the byte at the supplying address is zero.
   */
  lemma SnapshotReadsZeroPastEnd(img: Image, d: StoreDescriptor, p: u64)
    requires d.storeHeaderOffset.Some? && d.storeBitmapOffset.Some? && !InVolume(|img|, BaseOf(p))
    ensures SnapshotByte(img, d, p) == 0 <==>
      forall q: nat | SuppliedFrom(DescriptorList(img, DiffAreaStart(d)), |img|, p, q) :: img[q] == 0
  {
    var ds, bitmap := DescriptorList(img, DiffAreaStart(d)), StoreBitmap(img, d.storeBitmapOffset.value);
    PastEndReadsZero(img, ds, bitmap, p);
  }

  /**
   Live passthrough, on disk: a byte that no descriptor describes and the bitmap does not free is live
   iff its block fits in the volume or the byte is zero anyway.
   */
  lemma SnapshotPassesLiveThrough(img: Image, d: StoreDescriptor, p: u64)
    requires d.storeHeaderOffset.Some? && d.storeBitmapOffset.Some? && p < |img|
    requires !Described(DescriptorList(img, DiffAreaStart(d)), BaseOf(p))
    requires !IsUnallocated(StoreBitmap(img, d.storeBitmapOffset.value), p / BLOCK_SIZE)
    ensures SnapshotByte(img, d, p) == img[p] <==> InVolume(|img|, BaseOf(p)) || img[p] == 0
  {
    var ds, bitmap := DescriptorList(img, DiffAreaStart(d)), StoreBitmap(img, d.storeBitmapOffset.value);
    PassthroughNeedsFullBlock(img, ds, bitmap, p);
  }

  /** The catalog never yields one offset without the other, so the second missing-pointer exit is never taken. */
  lemma SecondExitUnreachable(img: Image, index: nat)
    ensures var stores := StoresIn(img);
      SnapshotError(stores, index) == if index >= |stores| then Some(StoreIndexOutOfRange(index, |stores|))
        else if stores[index].storeHeaderOffset.None? then Some(StoreInfoUnavailable(index)) else None
  {
    CatalogIsRaw(img);
    StoresAreSnapshotEntries(Catalog(img));
  }

  /** The snapshot of the store a type-0x02 entry makes opens iff some type-0x03 entry closes its bracket. */
  lemma SnapshotOpensIffPaired(img: Image, i: nat)
    requires i < |Catalog(img)| && Catalog(img)[i].Snapshot?
    ensures var es := Catalog(img); var s := |Snapshots(es[..i])|;
      SnapshotError(StoresIn(img), s) == None <==> Closer(es[i + 1..], es[i].descriptor.storeId, 0).Some?
  {
    CatalogIsRaw(img);
    PairingIsBracketMatching(Catalog(img), i);
    SecondExitUnreachable(img, |Snapshots(Catalog(img)[..i])|);
    assert Catalog(img)[i].descriptor.storeHeaderOffset == None;
  }

  // ---------- The volume ----------

  class VssVolume {
    const reader: Reader
    const volumeSize: u64
    const hasVssHeader: bool
    const catalogOffset: u64
    const stores: seq<StoreDescriptor>

    /** The fields say what the image says. */
    ghost predicate Opened() {
      && volumeSize == |reader.data|
      && hasVssHeader == HasVssHeader(reader.data)
      && catalogOffset == CatalogOffset(reader.data)
      && stores == StoresIn(reader.data)
    }

    constructor Open(reader: Reader)
      modifies reader
      ensures Opened() && this.reader == reader
    {
      var size := reader.SeekEnd();
      var has, offset: u64 := false, 0;
      if size >= VSS_VOLUME_HEADER_OFFSET + CATALOG_BLOCK_HEADER_LEN {
        reader.SeekStart(VSS_VOLUME_HEADER_OFFSET);
        var hdr := new byte[CATALOG_BLOCK_HEADER_LEN](_ => 0);
        reader.ReadExact(hdr);
        assert hdr[..] == Header(reader.data);
        has := ReadGuid(hdr[..], 0) == VSS_IDENTIFIER;
        offset := LeU64(hdr[..], 48);
      }
      var found: seq<StoreDescriptor> := [];
      if has && offset != 0 {
        found := WalkCatalog(reader, offset, size);
      }
      this.reader := reader;
      this.volumeSize := size;
      this.hasVssHeader := has;
      this.catalogOffset := offset;
      this.stores := found;
    }

    method StoreInfo(index: nat) returns (r: Result<StoreInfos.StoreInfo, VssError>)
      requires Opened()
      modifies reader
      ensures r == StoreInfoOutcome(reader.data, stores, index)
    {
      if index >= |stores| {
        return Err(StoreIndexOutOfRange(index, |stores|));
      }
      if stores[index].storeHeaderOffset.None? {
        return Err(StoreInfoUnavailable(index));
      }
      var headerOff := stores[index].storeHeaderOffset.value;
      if headerOff > MAX_U64 - STORE_BLOCK_HEADER_LEN || headerOff + STORE_BLOCK_HEADER_LEN > volumeSize {
        return Err(StoreOffsetOutOfBounds(index, headerOff, volumeSize));
      }
      var ibuf := ReadInfoBytes(headerOff);
      r := Ok(StoreInfos.Parse(ibuf[..]));
    }

    method ReadInfoBytes(headerOff: u64) returns (ibuf: array<byte>)
      requires volumeSize == |reader.data| && headerOff + STORE_BLOCK_HEADER_LEN <= volumeSize
      modifies reader
      ensures fresh(ibuf) && ibuf[..] == InfoBytes(reader.data, headerOff)
    {
      var headerEnd := headerOff + STORE_BLOCK_HEADER_LEN;
      reader.SeekStart(headerOff);
      var hbuf := new byte[STORE_BLOCK_HEADER_LEN](_ => 0);
      reader.ReadExact(hbuf);
      var want := LeU64(hbuf[..], 48);
      var infoLen := Min(Min(want, MAX_STORE_INFO_LEN), volumeSize - headerEnd);
      ibuf := new byte[infoLen](_ => 0);
      reader.ReadExact(ibuf);
    }

    /** Builds the reader-independent state of the snapshot of store `index`. */
    method GetSnapshotState(index: nat) returns (r: Result<SnapshotState, VssError>)
      requires Opened()
      modifies reader
      ensures match SnapshotError(stores, index)
        case Some(e) => r == Err(e)
        case None => r.Ok? && StateOf(r.value, reader.data, stores[index])
    {
      if index >= |stores| {
        return Err(StoreIndexOutOfRange(index, |stores|));
      }
      var d := stores[index];
      if d.storeHeaderOffset.None? {
        return Err(StoreInfoUnavailable(index));
      }
      if d.storeBitmapOffset.None? {
        return Err(StoreInfoUnavailable(index));
      }
      var diffStart := SaturatingAdd(d.storeHeaderOffset.value, BLOCK_SIZE);
      var blockMap := BuildBlockMap(reader, diffStart, volumeSize);
      var bitmap := BuildBitmap(reader, d.storeBitmapOffset.value, volumeSize);
      r := Ok(Reconstruct.SnapshotState.SnapshotState(volumeSize, blockMap, bitmap));
    }
  }

  /** A snapshot that borrows its volume's reader. */
  class Snapshot {
    const reader: Reader
    const state: SnapshotState
    ghost const store: StoreDescriptor

    ghost predicate Valid() {
      StateOf(state, reader.data, store)
    }

    constructor (reader: Reader, state: SnapshotState, ghost store: StoreDescriptor)
      ensures this.reader == reader && this.state == state && this.store == store
    {
      this.reader := reader;
      this.state := state;
      this.store := store;
    }

    /** The whole block `offset` falls in. */
    method ReadBlock(offset: u64) returns (out: array<byte>)
      requires Valid()
      modifies reader
      ensures fresh(out) && out.Length == BLOCK_SIZE
      ensures out[..] == SnapshotBlock(reader.data, store, BaseOf(offset))
      ensures forall w | 0 <= w < 16384 :: out[w] == SnapshotByte(reader.data, store, offset / 16384 * 16384 + w)
    {
      StateShowsSnapshot(state, reader.data, store);
      out := Reconstruct.ReadBlock(state, reader, offset);
    }

    /** Fills the whole buffer; there is no bound on `offset + buf.Length`. */
    method ReadAt(offset: u64, buf: array<byte>)
      requires Valid()
      modifies reader, buf
      ensures forall i | 0 <= i < buf.Length :: buf[i] == SnapshotByte(reader.data, store,
        if offset + i <= 0xFFFF_FFFF_FFFF_FFFF then offset + i else 0xFFFF_FFFF_FFFF_FFFF)
    {
      StateShowsSnapshot(state, reader.data, store);
      Reconstruct.ReadAt(state, reader, offset, buf, buf.Length);
    }
  }

  /** `VssVolume::snapshot`. */
  method OpenSnapshot(volume: VssVolume, index: nat) returns (r: Result<Snapshot, VssError>)
    requires volume.Opened()
    modifies volume.reader
    ensures match SnapshotError(volume.stores, index)
      case Some(e) => r == Err(e)
      case None =>
        && r.Ok? && fresh(r.value) && r.value.Valid()
        && r.value.reader == volume.reader && r.value.store == volume.stores[index]
  {
    var state := volume.GetSnapshotState(index);
    if state.Err? {
      return Err(state.error);
    }
    var snapshot := new Snapshot(volume.reader, state.value, volume.stores[index]);
    r := Ok(snapshot);
  }
}
