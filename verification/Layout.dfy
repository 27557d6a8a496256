/**
 Writers of the documented layouts, and the proof that the readers invert them: block headers,
 catalog entries and whole catalog blocks.
 */
module Layouts {
  import opened Bitmaps
  import opened Bytes
  import opened Chains
  import opened Descriptors
  import opened Pairing
  import opened Volumes
  import opened Wrappers
  import StoreInfos

  // ---------- Block headers ----------

  /** The bytes of a header or an entry that no reader looks at. */
  type Padding = b: seq<byte> | |b| == 72 witness Zeros(72)

  /** The 128-byte header of catalog and store blocks; the volume header has its catalog offset where `size` is. */
  datatype BlockHeader = BlockHeader(
    identifier: Guid,
    version: u32,
    recordType: u32,
    relativeOffset: u64,
    currentOffset: u64,
    nextOffset: u64,
    size: u64,
    rest: Padding)

  function EncodeHeader(h: BlockHeader): (b: seq<byte>)
    ensures |b| == STORE_BLOCK_HEADER_LEN
  {
    h.identifier + Encode(h.version, 4) + Encode(h.recordType, 4) + Encode(h.relativeOffset, 8)
    + Encode(h.currentOffset, 8) + Encode(h.nextOffset, 8) + Encode(h.size, 8) + h.rest
  }

  lemma FieldAt(b: seq<byte>, off: nat, n: nat, width: nat)
    requires off + width <= |b| && n < Pow256(width) && b[off..off + width] == Encode(n, width)
    ensures Field(b, off, width) == n
  {
    ValueOfEncode(n, width);
  }

  lemma HeaderSlices(h: BlockHeader)
    ensures var b := EncodeHeader(h);
      && b[0..16] == h.identifier && b[20..24] == Encode(h.recordType, 4) && b[24..32] == Encode(h.relativeOffset, 8)
      && b[40..48] == Encode(h.nextOffset, 8) && b[48..56] == Encode(h.size, 8)
  {
    var e1 := h.identifier + Encode(h.version, 4);
    var e2 := e1 + Encode(h.recordType, 4);
    var e3 := e2 + Encode(h.relativeOffset, 8);
    var e4 := e3 + Encode(h.currentOffset, 8);
    var e5 := e4 + Encode(h.nextOffset, 8);
    var b := EncodeHeader(h);
    assert b == e5 + (Encode(h.size, 8) + h.rest);
    assert b[..48] == e5 && b[..40] == e4 && b[..32] == e3 && b[..24] == e2 && b[..20] == e1;
  }

  /** The fields the readers look at, in a header followed by anything. */
  lemma HeaderFields(h: BlockHeader, after: seq<byte>)
    ensures var b := EncodeHeader(h) + after;
      && ReadGuid(b, 0) == h.identifier && LeU32(b, 20) == h.recordType && LeU64(b, 24) == h.relativeOffset
      && LeU64(b, 40) == h.nextOffset && LeU64(b, 48) == h.size
  {
    PowersOf256();
    HeaderSlices(h);
    var head := EncodeHeader(h);
    var b := head + after;
    assert forall i, j | 0 <= i <= j <= |head| :: b[i..j] == head[i..j];
    FieldAt(b, 20, h.recordType, 4);
    FieldAt(b, 24, h.relativeOffset, 8);
    FieldAt(b, 40, h.nextOffset, 8);
    FieldAt(b, 48, h.size, 8);
  }

  /**
   How each of the three walks reads a written block: whether it accepts it, where it goes next, and
   what a bitmap block holds.
   */
  lemma BlockReadsAsWritten(h: BlockHeader, payload: Payload)
    ensures var b := EncodeHeader(h) + payload;
      && (Accepts(CatalogChain, b) <==> h.identifier == VSS_IDENTIFIER && h.recordType == 0x02)
      && (Accepts(DiffAreaChain, b) <==> h.recordType == 0x03)
      && (Accepts(BitmapChain, b) <==> h.recordType == 0x06)
      && LeU64(b, 40) == h.nextOffset && PieceOf(b) == Piece(h.relativeOffset, payload)
  {
    HeaderFields(h, payload);
    assert (EncodeHeader(h) + payload)[STORE_BLOCK_HEADER_LEN..] == payload;
  }

  /** The volume header at byte 7680 says whether there is shadow-copy metadata and where the catalog starts. */
  lemma VolumeHeaderReads(img: Image, h: BlockHeader)
    requires VSS_VOLUME_HEADER_OFFSET + CATALOG_BLOCK_HEADER_LEN <= |img|
    requires img[VSS_VOLUME_HEADER_OFFSET..VSS_VOLUME_HEADER_OFFSET + CATALOG_BLOCK_HEADER_LEN] == EncodeHeader(h)
    ensures HasVssHeader(img) <==> h.identifier == VSS_IDENTIFIER
    ensures CatalogOffset(img) == h.size
  {
    HeaderFields(h, []);
    assert Header(img) == EncodeHeader(h) + [];
  }

  /** A store header followed by the record it announces reads back as that record. */
  lemma StoreInfoRoundTrip(
    img: Image, stores: seq<StoreDescriptor>, index: nat, o: u64, h: BlockHeader, r: StoreInfos.Record)
    requires index < |stores| && stores[index].storeHeaderOffset == Some(o)
    requires StoreInfos.Writable(r) && h.size == |StoreInfos.Serialize(r)|
    requires o + STORE_BLOCK_HEADER_LEN + h.size <= |img|
    requires img[o..o + STORE_BLOCK_HEADER_LEN] == EncodeHeader(h)
    requires img[o + STORE_BLOCK_HEADER_LEN..o + STORE_BLOCK_HEADER_LEN + h.size] == StoreInfos.Serialize(r)
    ensures StoreInfoOutcome(img, stores, index) == Ok(StoreInfos.StoreInfo(
      r.id, r.setId, r.context, r.attributes, StoreInfos.Units(r.op), StoreInfos.Units(r.svc)))
  {
    HeaderFields(h, []);
    assert EncodeHeader(h) + [] == EncodeHeader(h);
    assert InfoBytes(img, o) == StoreInfos.Serialize(r);
    StoreInfos.ParseOfSerialize(r);
  }

  // ---------- Catalog entries ----------

  /** The fields of a 128-byte catalog record, whatever its type makes of them. */
  datatype EntryRecord = EntryRecord(kind: u64, size: u64, id: Guid, p: u64, q: u64, r: u64, rest: Padding)

  function EncodeRecord(x: EntryRecord): (b: seq<byte>)
    ensures |b| == CATALOG_ENTRY_LEN
  {
    Encode(x.kind, 8) + Encode(x.size, 8) + x.id + Encode(x.p, 8) + Encode(x.q, 8) + Encode(x.r, 8) + x.rest
  }

  /** A catalog entry, and a record that supplies every byte the entry's type leaves free. */
  datatype DiskEntry = DiskEntry(entry: CatalogEntry, filler: EntryRecord)

  /** Descriptors are written without offsets, and an ignored entry has none of the three known types. */
  predicate Writable(x: DiskEntry) {
    Raw([x.entry]) && (x.entry.Other? ==> x.filler.kind != 0 && x.filler.kind != 2 && x.filler.kind != 3)
  }

  function RecordOf(x: DiskEntry): EntryRecord {
    match x.entry
    case Snapshot(d) =>
      EntryRecord(2, d.volumeSize, d.storeId, d.sequence, d.flags, d.creationTime, x.filler.rest)
    case StorePointer(id, header, bitmap) => x.filler.(kind := 3, id := id, p := header, r := bitmap)
    case Empty => x.filler.(kind := 0)
    case Other => x.filler
  }

  function EncodeEntry(x: DiskEntry): (b: seq<byte>)
    ensures |b| == CATALOG_ENTRY_LEN
  {
    EncodeRecord(RecordOf(x))
  }

  lemma EntrySlices(a: seq<byte>, b: seq<byte>, c: seq<byte>, d: seq<byte>, e: seq<byte>, f: seq<byte>, rest: seq<byte>)
    requires |a| == |b| == |d| == |e| == |f| == 8 && |c| == 16
    ensures var s := a + b + c + d + e + f + rest;
      && s[0..8] == a && s[8..16] == b && s[16..32] == c && s[32..40] == d && s[40..48] == e && s[48..56] == f
  {
  }

  lemma RecordFields(x: EntryRecord)
    ensures var b := EncodeRecord(x);
      && LeU64(b, 0) == x.kind && LeU64(b, 8) == x.size && ReadGuid(b, 16) == x.id
      && LeU64(b, 32) == x.p && LeU64(b, 40) == x.q && LeU64(b, 48) == x.r
  {
    PowersOf256();
    var b := EncodeRecord(x);
    EntrySlices(Encode(x.kind, 8), Encode(x.size, 8), x.id, Encode(x.p, 8), Encode(x.q, 8), Encode(x.r, 8), x.rest);
    FieldAt(b, 0, x.kind, 8);
    FieldAt(b, 8, x.size, 8);
    FieldAt(b, 32, x.p, 8);
    FieldAt(b, 40, x.q, 8);
    FieldAt(b, 48, x.r, 8);
  }

  /** Reading an entry back gives the entry, field by field, whatever the bytes its type leaves free. */
  lemma ParseOfEncodeEntry(x: DiskEntry)
    requires Writable(x)
    ensures ParseEntry(EncodeEntry(x)) == x.entry
  {
    RecordFields(RecordOf(x));
    if x.entry.Snapshot? {
      assert [x.entry][0].descriptor.storeHeaderOffset == None;
    }
  }

  /** The fields of a record on disk. */
  function ReadRecord(buf: seq<byte>): EntryRecord
    requires |buf| == CATALOG_ENTRY_LEN
  {
    EntryRecord(
      LeU64(buf, 0), LeU64(buf, 8), ReadGuid(buf, 16), LeU64(buf, 32), LeU64(buf, 40), LeU64(buf, 48), buf[56..])
  }

  lemma EncodeOfReadRecord(buf: seq<byte>)
    requires |buf| == CATALOG_ENTRY_LEN
    ensures EncodeRecord(ReadRecord(buf)) == buf
  {
    EncodeOfValue(buf[0..8]);
    EncodeOfValue(buf[8..16]);
    EncodeOfValue(buf[32..40]);
    EncodeOfValue(buf[40..48]);
    EncodeOfValue(buf[48..56]);
    JoinFields(buf);
  }

  lemma JoinFields(buf: seq<byte>)
    requires |buf| == CATALOG_ENTRY_LEN
    ensures buf[0..8] + buf[8..16] + buf[16..32] + buf[32..40] + buf[40..48] + buf[48..56] + buf[56..] == buf
  {
  }

  /** Every 128 bytes are a written entry: the one they parse to, with themselves as filler. */
  lemma EncodeOfParseEntry(buf: seq<byte>)
    requires |buf| == CATALOG_ENTRY_LEN
    ensures var x := DiskEntry(ParseEntry(buf), ReadRecord(buf)); Writable(x) && EncodeEntry(x) == buf
  {
    EncodeOfReadRecord(buf);
  }

  function EncodeEntries(xs: seq<DiskEntry>): (b: seq<byte>)
    ensures |b| == CATALOG_ENTRY_LEN * |xs|
  {
    if xs == [] then [] else EncodeEntry(xs[0]) + EncodeEntries(xs[1..])
  }

  function EntriesIn(xs: seq<DiskEntry>): (es: seq<CatalogEntry>)
    ensures |es| == |xs|
  {
    if xs == [] then [] else [xs[0].entry] + EntriesIn(xs[1..])
  }

  /** The entry written after `before` is the next one read. */
  lemma EntryIsNext(before: seq<byte>, e: seq<byte>, rest: seq<byte>)
    requires |e| == CATALOG_ENTRY_LEN && |before| + |e| + |rest| == BLOCK_SIZE
    ensures before + (e + rest) == (before + e) + rest
    ensures EntriesFrom(before + (e + rest), |before|)
         == [ParseEntry(e)] + EntriesFrom((before + e) + rest, |before + e|)
  {
    var block := before + (e + rest);
    assert block == (before + e) + rest;
    assert block[|before|..|before| + CATALOG_ENTRY_LEN] == e;
  }

  /** A full block of 127 written entries reads back entry for entry. */
  lemma {:induction false} EntriesOfEncode(before: seq<byte>, xs: seq<DiskEntry>)
    requires forall i | 0 <= i < |xs| :: Writable(xs[i])
    requires |before| + CATALOG_ENTRY_LEN * |xs| == BLOCK_SIZE
    ensures EntriesFrom(before + EncodeEntries(xs), |before|) == EntriesIn(xs)
    decreases |xs|
  {
    if xs != [] {
      var e, rest := EncodeEntry(xs[0]), EncodeEntries(xs[1..]);
      EntryIsNext(before, e, rest);
      ParseOfEncodeEntry(xs[0]);
      EntriesOfEncode(before + e, xs[1..]);
    }
  }

  /** Every payload of 127 records is a full block of written entries. */
  lemma {:induction false} EveryPayloadIsEntries(payload: seq<byte>) returns (xs: seq<DiskEntry>)
    requires |payload| % CATALOG_ENTRY_LEN == 0
    ensures EncodeEntries(xs) == payload && forall i | 0 <= i < |xs| :: Writable(xs[i])
  {
    if payload == [] {
      xs := [];
    } else {
      var buf := payload[..CATALOG_ENTRY_LEN];
      EncodeOfParseEntry(buf);
      var rest := EveryPayloadIsEntries(payload[CATALOG_ENTRY_LEN..]);
      xs := [DiskEntry(ParseEntry(buf), ReadRecord(buf))] + rest;
      assert xs[1..] == rest && payload == buf + payload[CATALOG_ENTRY_LEN..];
    }
  }
}
