/**
 What the reader finds on a volume, for every image and by byte position: the walks, the descriptor
 list, the bitmap, the catalog and its pairing, the store information, and each byte of a snapshot.
 Offsets, lengths, record types, flags and caps are written out, so each statement can be checked
 against the format without looking at the reader's own functions.
 */
module OnDisk {
  import opened Bitmaps
  import opened BlockMaps
  import opened Bytes
  import opened Chains
  import opened Descriptors
  import opened DiskImages
  import opened Numbers
  import opened Pairing
  import opened Reconstruct
  import opened Sorting
  import opened Views
  import opened Volumes
  import opened Wrappers

  // ---------- Chains ----------

  /** A block of the chain's type lies wholly in the volume at `o`. */
  predicate ChainBlock(img: Image, kind: ChainKind, o: nat) {
    && o != 0 && o + 16384 <= |img|
    && match kind
       case CatalogChain => img[o..o + 16] == IDENTIFIER_BYTES && NumberAt(img, o + 20, 4) == 2
       case DiffAreaChain => NumberAt(img, o + 20, 4) == 3
       case BitmapChain => NumberAt(img, o + 20, 4) == 6
  }

  /** `s` follows the links at byte 40 from `first`, over different blocks of the chain's type, within its cap. */
  predicate Follows(img: Image, kind: ChainKind, first: u64, s: seq<u64>) {
    && |s| <= (if kind.CatalogChain? then 4096 else 1048576)
    && (s != [] ==> s[0] == first)
    && (forall i, j | 0 <= i < j < |s| :: s[i] != s[j])
    && (forall i | 0 <= i < |s| :: ChainBlock(img, kind, s[i]))
    && (forall i | 0 < i < |s| :: s[i] == NumberAt(img, s[i - 1] + 40, 8))
  }

  lemma BlockInNumbers(img: Image, o: u64)
    requires o + 16384 <= |img|
    ensures ReadGuid(BlockAt(img, o), 0) == img[o..o + 16]
    ensures LeU32(BlockAt(img, o), 20) == NumberAt(img, o + 20, 4)
    ensures LeU64(BlockAt(img, o), 24) == NumberAt(img, o + 24, 8)
    ensures NextOf(img, o) == NumberAt(img, o + 40, 8)
  {
    FieldInSlice(img, o, o + 16384, 20, 4);
    FieldInSlice(img, o, o + 16384, 24, 8);
    FieldInSlice(img, o, o + 16384, 40, 8);
    SliceOfSlice(img, o, o + 16384, 0, 16);
  }

  lemma UsableIsChainBlock(img: Image, kind: ChainKind, o: u64)
    ensures Usable(img, kind, o) <==> ChainBlock(img, kind, o)
  {
    if o + 16384 <= |img| {
      BlockInNumbers(img, o);
    }
  }

  lemma PathInNumbers(img: Image, kind: ChainKind, first: u64, s: seq<u64>)
    ensures Follows(img, kind, first, s) <==> IsPath(img, kind, first, s) && Distinct(s) && |s| <= Cap(kind)
  {
    forall i | 0 <= i < |s|
      ensures Usable(img, kind, s[i]) <==> ChainBlock(img, kind, s[i])
      ensures s[i] + 16384 <= |img| ==> NextOf(img, s[i]) == NumberAt(img, s[i] + 40, 8)
    {
      UsableIsChainBlock(img, kind, s[i]);
      if s[i] + 16384 <= |img| {
        BlockInNumbers(img, s[i]);
      }
    }
  }

  /** Each of the three walks visits the longest sequence that follows the links on disk. */
  lemma WalkOnDisk(img: Image, kind: ChainKind, first: u64, s: seq<u64>)
    ensures s <= Visits(img, kind, first) <==> Follows(img, kind, first, s)
  {
    PathInNumbers(img, kind, first, s);
    WalkIsLongestDistinctPath(img, kind, first, Cap(kind), s);
  }

  lemma VisitsFit(img: Image, kind: ChainKind, first: u64)
    ensures forall o | o in Visits(img, kind, first) :: o + 16384 <= |img|
  {
    WalkOnDisk(img, kind, first, Visits(img, kind, first));
  }

  // ---------- The descriptor list ----------

  predicate Blank(img: Image, at: nat) {
    at + 32 <= |img| && forall j | at <= j < at + 32 :: img[j] == 0
  }

  /** Record `k` of the block at `o` is `d`, and is not all zeros. */
  predicate RecordIn(img: Image, o: nat, k: nat, d: BlockDescriptor) {
    RecordAt(img, o + 128 + 32 * k, d) && !Blank(img, o + 128 + 32 * k)
  }

  /** From record `m` on, the block at `o` holds `ds`: record after record, up to an all-zero one or the end. */
  predicate ListFrom(img: Image, o: nat, m: nat, ds: seq<BlockDescriptor>)
    decreases |ds|
  {
    if ds == [] then m == 508 || Blank(img, o + 128 + 32 * m)
    else m < 508 && RecordIn(img, o, m, ds[0]) && ListFrom(img, o, m + 1, ds[1..])
  }

  /** The block at `o` holds `ds`. */
  predicate ListAt(img: Image, o: nat, ds: seq<BlockDescriptor>) {
    o + 16384 <= |img| && ListFrom(img, o, 0, ds)
  }

  lemma BlankRecord(img: Image, o: nat, off: nat)
    requires o + 16384 <= |img| && off + 32 <= 16384
    ensures BlockAt(img, o)[off..off + 32] == img[o + off..o + off + 32]
    ensures AllZero(BlockAt(img, o)[off..off + 32]) <==> Blank(img, o + off)
  {
    SliceOfSlice(img, o, o + 16384, off, off + 32);
    var record := img[o + off..o + off + 32];
    assert forall j | o + off <= j < o + off + 32 :: img[j] == record[j - (o + off)];
  }

  /** Scanning from record `m` on, which stands at `off` in the block. */
  lemma ScanStepOnDisk(img: Image, o: nat, m: nat, off: nat)
    requires o + 16384 <= |img| && m < 508 && off == 128 + 32 * m
    ensures var ds := Scan(BlockAt(img, o), off);
      if Blank(img, o + off) then ds == []
      else ds != [] && RecordIn(img, o, m, ds[0]) && ds[1..] == Scan(BlockAt(img, o), off + 32)
  {
    BlankRecord(img, o, off);
    ParseInNumbers(img, o + off);
    ScanUnfolds(BlockAt(img, o), off);
  }

  lemma ScanUnfolds(block: Block, off: nat)
    requires off + 32 <= 16384
    ensures Scan(block, off)
         == if AllZero(block[off..off + 32]) then [] else [Parse(block[off..off + 32])] + Scan(block, off + 32)
  {
  }

  lemma {:induction false} ScanFromRecord(img: Image, o: nat, m: nat, off: nat)
    requires o + 16384 <= |img| && m <= 508 && off == 128 + 32 * m
    ensures ListFrom(img, o, m, Scan(BlockAt(img, o), off))
    decreases 508 - m
  {
    if m < 508 {
      ScanStepOnDisk(img, o, m, off);
      if !Blank(img, o + off) {
        ScanFromRecord(img, o, m + 1, off + 32);
      }
    }
  }

  lemma ScanOnDisk(img: Image, o: nat)
    requires o + 16384 <= |img|
    ensures ListAt(img, o, Scan(BlockAt(img, o), 128))
  {
    ScanFromRecord(img, o, 0, 128);
  }

  /** The descriptor list is what the visited blocks hold, one after the other. */
  lemma DescriptorListOnDisk(img: Image, first: u64) returns (lists: seq<seq<BlockDescriptor>>)
    ensures var w := Visits(img, DiffAreaChain, first);
      && |lists| == |w| && (forall i | 0 <= i < |w| :: ListAt(img, w[i], lists[i]))
      && DescriptorList(img, first) == Join(lists)
  {
    var w := Visits(img, DiffAreaChain, first);
    VisitsFit(img, DiffAreaChain, first);
    assert forall i | 0 <= i < |w| :: w[i] in w;
    lists := seq(|w|, i requires 0 <= i < |w| => Scan(BlockAt(img, w[i]), 128));
    forall i | 0 <= i < |w| ensures ListAt(img, w[i], lists[i]) && ScansAs(img, w[i], lists[i]) {
      ScanOnDisk(img, w[i]);
    }
    FlattenIsJoin(img, w, lists);
  }

  // ---------- The bitmap ----------

  /** Where the visited block `k` belongs in the bitmap: the number at its byte 24. */
  function KeyOf(img: Image, w: seq<u64>, k: nat): nat
    requires k < |w|
  {
    NumberAt(img, (w[k] as int) + 24, 8)
  }

  /** How many of the first `n` visited blocks go before block `k`: a smaller key, or the same and further front. */
  function GoBefore(img: Image, w: seq<u64>, k: nat, n: nat): nat
    requires k < |w| && n <= |w|
  {
    if n == 0 then 0
    else
      GoBefore(img, w, k, n - 1)
      + if KeyOf(img, w, n - 1) < KeyOf(img, w, k) || (KeyOf(img, w, n - 1) == KeyOf(img, w, k) && n - 1 < k)
        then 1 else 0
  }

  /** `p` is the piece the block at `o` holds. */
  predicate PieceOn(img: Image, w: seq<u64>, i: nat, p: Piece)
    requires i < |w|
  {
    w[i] + 16384 <= |img| && p.relativeOffset == KeyOf(img, w, i) && p.payload == img[w[i] + 128..w[i] + 16384]
  }

  predicate PiecesOn(img: Image, w: seq<u64>, pieces: seq<Piece>) {
    |pieces| == |w| && forall i | 0 <= i < |w| :: PieceOn(img, w, i, pieces[i])
  }

  lemma {:induction false} GoBeforeIsBefore(img: Image, w: seq<u64>, pieces: seq<Piece>, k: nat, n: nat)
    requires PiecesOn(img, w, pieces) && k < |w| && n <= |w|
    ensures GoBefore(img, w, k, n) == Before(pieces, (p: Piece) => p.relativeOffset, k, n)
  {
    if n > 0 {
      GoBeforeIsBefore(img, w, pieces, k, n - 1);
      assert PieceOn(img, w, k, pieces[k]) && PieceOn(img, w, n - 1, pieces[n - 1]);
    }
  }

  lemma PieceOnDisk(img: Image, w: seq<u64>, i: nat)
    requires i < |w| && w[i] + 16384 <= |img|
    ensures PieceOn(img, w, i, PieceOf(BlockAt(img, w[i])))
  {
    BlockInNumbers(img, w[i]);
    SliceOfSlice(img, w[i], w[i] + 16384, 128, 16384);
    assert BlockAt(img, w[i])[128..] == BlockAt(img, w[i])[128..16384];
  }

  lemma PiecesOnDisk(img: Image, first: u64) returns (pieces: seq<Piece>)
    ensures var w := Visits(img, BitmapChain, first);
      pieces == Pieces(img, w) && PiecesOn(img, w, pieces)
  {
    var w := Visits(img, BitmapChain, first);
    VisitsFit(img, BitmapChain, first);
    assert forall i | 0 <= i < |w| :: w[i] in w;
    pieces := seq(|w|, i requires 0 <= i < |w| => PieceOf(BlockAt(img, w[i])));
    forall i | 0 <= i < |w| ensures PieceAt(img, w[i], pieces[i]) && PieceOn(img, w, i, pieces[i]) {
      PieceOnDisk(img, w, i);
    }
    PiecesAreStored(img, w, pieces);
  }

  /**
   Block `n` is marked by the visited block `k`: exactly `n / 8 / 16256` visited blocks go before it,
   and in byte `n / 8 % 16256` of what it holds bit `n % 8` is set.
   */
  predicate MarkedBy(img: Image, w: seq<u64>, n: u64, k: nat) {
    k < |w| && GoBefore(img, w, k, |w|) == n / 8 / 16256 && BitOn(img, w, k, n / 8 % 16256, n % 8)
  }

  predicate BitOn(img: Image, w: seq<u64>, k: nat, at: nat, bit: nat)
    requires k < |w|
  {
    at < 16256 && w[k] + 16384 <= |img| && img[w[k] + 128 + at] / Pow2(bit) % 2 == 1
  }

  lemma PieceAtPlace(img: Image, w: seq<u64>, pieces: seq<Piece>, k: nat)
    requires PiecesOn(img, w, pieces) && k < |w|
    ensures var sorted := InOrder(pieces); var place := GoBefore(img, w, k, |w|);
      place < |sorted| && PieceOn(img, w, k, sorted[place])
  {
    GoBeforeIsBefore(img, w, pieces, k, |w|);
    SortPutsAtRank(pieces, (p: Piece) => p.relativeOffset, k);
    assert PieceOn(img, w, k, pieces[k]);
  }

  lemma PieceMarks(img: Image, w: seq<u64>, pieces: seq<Piece>, n: u64, k: nat)
    requires PiecesOn(img, w, pieces) && k < |w| && GoBefore(img, w, k, |w|) == n / 8 / 16256
    ensures IsUnallocated(Concat(InOrder(pieces)), n) <==> MarkedBy(img, w, n, k)
  {
    BitOfSortedPiece(pieces, n);
    BitAtPlace(img, w, pieces, k, n / 8 / 16256, n / 8 % 16256, n % 8);
  }

  lemma BitAtPlace(img: Image, w: seq<u64>, pieces: seq<Piece>, k: nat, place: nat, at: nat, bit: nat)
    requires PiecesOn(img, w, pieces) && k < |w| && GoBefore(img, w, k, |w|) == place && at < 16256
    ensures place < |InOrder(pieces)|
    ensures Bit(InOrder(pieces)[place].payload[at], bit) <==> BitOn(img, w, k, at, bit)
  {
    PieceAtPlace(img, w, pieces, k);
    ByteOfPiece(img, w, k, InOrder(pieces)[place], at);
    BitIsRemainder(InOrder(pieces)[place].payload[at], bit);
  }

  lemma ByteOfPiece(img: Image, w: seq<u64>, k: nat, p: Piece, at: nat)
    requires k < |w| && PieceOn(img, w, k, p) && at < 16256
    ensures p.payload[at] == img[w[k] + 128 + at]
  {
    assert img[w[k] + 128..w[k] + 16384][at] == img[w[k] + 128 + at];
  }

  lemma PlaceIsTaken(img: Image, w: seq<u64>, pieces: seq<Piece>, n: u64) returns (k: nat)
    requires PiecesOn(img, w, pieces) && IsUnallocated(Concat(InOrder(pieces)), n)
    ensures k < |w| && GoBefore(img, w, k, |w|) == n / 8 / 16256
  {
    BitOfSortedPiece(pieces, n);
    InOrderIsStableSort(pieces);
    k := EveryPlaceIsARank(pieces, (p: Piece) => p.relativeOffset, n / 8 / 16256);
    GoBeforeIsBefore(img, w, pieces, k, |w|);
  }

  /** The bitmap, by position on disk: which blocks are unallocated. */
  lemma BitmapOnDisk(img: Image, first: u64, n: u64)
    ensures IsUnallocated(StoreBitmap(img, first), n)
      <==> exists k :: MarkedBy(img, Visits(img, BitmapChain, first), n, k)
  {
    var w := Visits(img, BitmapChain, first);
    var pieces := PiecesOnDisk(img, first);
    if k :| MarkedBy(img, w, n, k) {
      PieceMarks(img, w, pieces, n, k);
    }
    if IsUnallocated(Concat(InOrder(pieces)), n) {
      var k := PlaceIsTaken(img, w, pieces, n);
      PieceMarks(img, w, pieces, n, k);
    }
  }

  // ---------- The catalog ----------

  /** The identifier stands at byte 7680, and the header it starts is all there. */
  predicate HeaderOnDisk(img: Image) {
    7808 <= |img| && img[7680..7696] == IDENTIFIER_BYTES
  }

  lemma HeaderInNumbers(img: Image)
    ensures HasVssHeader(img) <==> HeaderOnDisk(img)
    ensures CatalogOffset(img) == if 7808 <= |img| then NumberAt(img, 7728, 8) else 0
  {
    if 7808 <= |img| {
      SliceOfSlice(img, 7680, 7808, 0, 16);
      FieldInSlice(img, 7680, 7808, 48, 8);
    }
  }

  /** Entry `k` of the block at `o` is `e`. */
  predicate EntryIn(img: Image, o: nat, k: nat, e: CatalogEntry) {
    EntryAt(img, o + (128 + 128 * k), e)
  }

  /** The block at `o` holds these 127 entries. */
  predicate EntriesAt(img: Image, o: nat, es: seq<CatalogEntry>) {
    o + 16384 <= |img| && |es| == 127 && forall k | 0 <= k < |es| :: EntryIn(img, o, k, es[k])
  }

  lemma EntriesUnfold(block: Block, off: nat)
    requires off + 128 <= 16384
    ensures EntriesFrom(block, off) == [ParseEntry(block[off..off + 128])] + EntriesFrom(block, off + 128)
  {
  }

  lemma {:induction false} EntryOfBlock(block: Block, off: nat, k: nat, at: nat)
    requires at == off + 128 * k && at + 128 <= 16384 && k < |EntriesFrom(block, off)|
    ensures EntriesFrom(block, off)[k] == ParseEntry(block[at..at + 128])
    decreases k
  {
    EntriesUnfold(block, off);
    if k > 0 {
      EntryOfBlock(block, off + 128, k - 1, at);
    }
  }

  lemma EntryOnBlock(img: Image, o: nat, k: nat, at: nat)
    requires o + 16384 <= |img| && k < 127 && at == 128 + 128 * k
    ensures EntryAt(img, o + at, EntriesFrom(BlockAt(img, o), 128)[k])
  {
    EntryOfBlock(BlockAt(img, o), 128, k, at);
    SliceOfSlice(img, o, o + 16384, at, at + 128);
    ParseEntryInNumbers(img, o + at);
  }

  lemma EntriesOnBlock(img: Image, o: nat)
    requires o + 16384 <= |img|
    ensures EntriesAt(img, o, EntriesFrom(BlockAt(img, o), 128))
  {
    forall k | 0 <= k < 127 ensures EntryIn(img, o, k, EntriesFrom(BlockAt(img, o), 128)[k]) {
      EntryOnBlock(img, o, k, 128 + 128 * k);
    }
  }

  /** The catalog is what the blocks visited from the offset at byte 7728 hold, one after the other. */
  lemma CatalogOnDisk(img: Image) returns (w: seq<u64>, lists: seq<seq<CatalogEntry>>)
    requires HeaderOnDisk(img) && NumberAt(img, 7728, 8) != 0
    ensures CatalogOffset(img) == NumberAt(img, 7728, 8) && w == Visits(img, CatalogChain, CatalogOffset(img))
    ensures |lists| == |w| && forall i | 0 <= i < |w| :: EntriesAt(img, w[i], lists[i])
    ensures Catalog(img) == Join(lists)
  {
    HeaderInNumbers(img);
    w := Visits(img, CatalogChain, CatalogOffset(img));
    VisitsFit(img, CatalogChain, CatalogOffset(img));
    assert forall i | 0 <= i < |w| :: w[i] in w;
    lists := seq(|w|, i requires 0 <= i < |w| => EntriesFrom(BlockAt(img, w[i]), 128));
    forall i | 0 <= i < |w| ensures EntriesAt(img, w[i], lists[i]) && ReadsEntries(img, w[i], lists[i]) {
      EntriesOnBlock(img, w[i]);
    }
    EntriesAreJoin(img, w, lists);
  }

  /** Without the identifier, without room for the header, or without a catalog offset, there are no stores. */
  lemma NoCatalogNoStores(img: Image)
    requires !HeaderOnDisk(img) || NumberAt(img, 7728, 8) == 0
    ensures StoresIn(img) == []
  {
    HeaderInNumbers(img);
  }

  // ---------- Stores and their pointers ----------

  /** Type-0x03 entries of `g` minus type-0x02 entries of `g`, from entry `lo` up to entry `hi`. */
  function Balance(es: seq<CatalogEntry>, g: Guid, lo: nat, hi: nat): int
    requires hi <= |es|
  {
    if hi <= lo then 0
    else
      Balance(es, g, lo, hi - 1)
      + match es[hi - 1]
        case StorePointer(id, _, _) => if id == g then 1 else 0
        case Snapshot(d) => if d.storeId == g then -1 else 0
        case _ => 0
  }

  /** The type-0x03 entry `j` closes the bracket of the type-0x02 entry `i`: the first to tip the balance behind it. */
  ghost predicate ClosesBracket(es: seq<CatalogEntry>, i: nat, j: nat) {
    i < j < |es| && es[i].Snapshot? && FirstTip(es, es[i].descriptor.storeId, i + 1, j, 0)
  }

  /** The balance from `lo` on first exceeds `depth` with entry `j`. */
  ghost predicate FirstTip(es: seq<CatalogEntry>, g: Guid, lo: nat, j: nat, depth: nat) {
    && lo <= j < |es| && Balance(es, g, lo, j + 1) == depth + 1
    && forall hi | lo <= hi <= j :: Balance(es, g, lo, hi) <= depth
  }

  lemma {:induction false} BalanceSplit(es: seq<CatalogEntry>, g: Guid, lo: nat, hi: nat)
    requires lo < hi <= |es|
    ensures Balance(es, g, lo, hi) == Balance(es, g, lo, lo + 1) + Balance(es, g, lo + 1, hi)
  {
    if hi > lo + 1 {
      BalanceSplit(es, g, lo, hi - 1);
    }
  }

  lemma BalanceOfOne(es: seq<CatalogEntry>, g: Guid, lo: nat)
    requires lo < |es|
    ensures Balance(es, g, lo, lo + 1) == if es[lo].Opens(g) then -1 else if es[lo].Closes(g) then 1 else 0
  {
    assert Balance(es, g, lo, lo) == 0;
  }

  /** The same tip, seen from one entry earlier. */
  lemma TipFromEarlier(es: seq<CatalogEntry>, g: Guid, lo: nat, j: nat, depth: nat, before: nat)
    requires lo < |es| && FirstTip(es, g, lo + 1, j, depth)
    requires before + 0 == depth + Balance(es, g, lo, lo + 1)
    ensures FirstTip(es, g, lo, j, before)
  {
    forall hi | lo <= hi <= j ensures Balance(es, g, lo, hi) <= before {
      if hi > lo {
        BalanceSplit(es, g, lo, hi);
        assert Balance(es, g, lo + 1, hi) <= depth;
      }
    }
    BalanceSplit(es, g, lo, j + 1);
  }

  lemma CloserStep(es: seq<CatalogEntry>, g: Guid, lo: nat, depth: nat)
    requires lo < |es|
    ensures Closer(es[lo..], g, depth) ==
      if es[lo].Opens(g) then Closer(es[lo + 1..], g, depth + 1)
      else if !es[lo].Closes(g) then Closer(es[lo + 1..], g, depth)
      else if depth == 0 then Some(es[lo])
      else Closer(es[lo + 1..], g, depth - 1)
  {
    assert es[lo..][0] == es[lo] && es[lo..][1..] == es[lo + 1..];
  }

  /** The matcher, which counts depth forward, stops at the first entry that tips the balance. */
  lemma {:induction false} CloserTips(es: seq<CatalogEntry>, g: Guid, lo: nat, depth: nat) returns (j: nat)
    requires lo <= |es| && Closer(es[lo..], g, depth).Some?
    ensures FirstTip(es, g, lo, j, depth) && Closer(es[lo..], g, depth).value == es[j]
    decreases |es| - lo
  {
    CloserStep(es, g, lo, depth);
    if es[lo].Closes(g) && depth == 0 {
      j := lo;
      BalanceOfOne(es, g, lo);
    } else {
      var deeper := if es[lo].Opens(g) then depth + 1 else if es[lo].Closes(g) then depth - 1 else depth;
      j := CloserTips(es, g, lo + 1, deeper);
      BalanceOfOne(es, g, lo);
      TipFromEarlier(es, g, lo, j, deeper, depth);
    }
  }

  lemma {:induction false} NoCloserNoTip(es: seq<CatalogEntry>, g: Guid, lo: nat, depth: nat, hi: nat)
    requires lo <= hi <= |es| && Closer(es[lo..], g, depth) == None
    ensures Balance(es, g, lo, hi) <= depth
    decreases |es| - lo
  {
    if lo < hi {
      CloserStep(es, g, lo, depth);
      BalanceOfOne(es, g, lo);
      BalanceSplit(es, g, lo, hi);
      var deeper := if es[lo].Opens(g) then depth + 1 else if es[lo].Closes(g) then depth - 1 else depth;
      NoCloserNoTip(es, g, lo + 1, deeper, hi);
    }
  }

  lemma TipsOnce(es: seq<CatalogEntry>, g: Guid, lo: nat, j: nat, j': nat, depth: nat)
    requires FirstTip(es, g, lo, j, depth) && FirstTip(es, g, lo, j', depth)
    ensures j == j'
  {
  }

  /** The matcher finds the closing entry, and finds none only where there is none. */
  lemma CloserCloses(es: seq<CatalogEntry>, i: nat, j: nat)
    requires ClosesBracket(es, i, j)
    ensures Closer(es[i + 1..], es[i].descriptor.storeId, 0) == Some(es[j])
  {
    var g := es[i].descriptor.storeId;
    if Closer(es[i + 1..], g, 0).Some? {
      var j' := CloserTips(es, g, i + 1, 0);
      TipsOnce(es, g, i + 1, j, j', 0);
    } else {
      NoCloserNoTip(es, g, i + 1, 0, j + 1);
    }
  }

  /** The number of the store that the type-0x02 entry `i` of the catalog makes. */
  function StoreNumber(es: seq<CatalogEntry>, i: nat): nat
    requires i <= |es|
  {
    if i == 0 then 0 else StoreNumber(es, i - 1) + if es[i - 1].Snapshot? then 1 else 0
  }

  lemma {:induction false} StoreNumberIsCount(es: seq<CatalogEntry>, i: nat)
    requires i <= |es|
    ensures StoreNumber(es, i) == |Snapshots(es[..i])|
  {
    if i > 0 {
      StoreNumberIsCount(es, i - 1);
      assert es[..i][..i - 1] == es[..i - 1];
    }
  }

  lemma StoreIsPaired(img: Image, i: nat)
    requires i < |Catalog(img)| && Catalog(img)[i].Snapshot?
    ensures var es := Catalog(img); var s := StoreNumber(es, i);
      s < |StoresIn(img)|
      && StoresIn(img)[s] == Paired(es[i].descriptor, Closer(es[i + 1..], es[i].descriptor.storeId, 0))
      && es[i].descriptor.storeHeaderOffset == None && es[i].descriptor.storeBitmapOffset == None
  {
    CatalogIsRaw(img);
    PairingIsBracketMatching(Catalog(img), i);
    StoreNumberIsCount(Catalog(img), i);
  }

  /** The store of a type-0x02 entry whose bracket is closed has the entry's fields and the closing entry's offsets. */
  lemma ClosedStoreOnDisk(img: Image, i: nat, j: nat)
    requires ClosesBracket(Catalog(img), i, j)
    ensures var es := Catalog(img); var s := StoreNumber(es, i); var e := es[i].descriptor;
      s < |StoresIn(img)| && es[j].StorePointer? && StoresIn(img)[s] == StoreDescriptor(
        e.storeId, e.volumeSize, e.sequence, e.flags, e.creationTime,
        Some(es[j].storeHeaderOffset), Some(es[j].storeBitmapOffset))
  {
    StoreIsPaired(img, i);
    CloserCloses(Catalog(img), i, j);
  }

  /** The store of one whose bracket stays open has no offsets. */
  lemma OpenStoreOnDisk(img: Image, i: nat)
    requires i < |Catalog(img)| && Catalog(img)[i].Snapshot?
    requires forall j :: !ClosesBracket(Catalog(img), i, j)
    ensures var es := Catalog(img); var s := StoreNumber(es, i); var e := es[i].descriptor;
      s < |StoresIn(img)| && StoresIn(img)[s] == StoreDescriptor(
        e.storeId, e.volumeSize, e.sequence, e.flags, e.creationTime, None, None)
  {
    var es := Catalog(img);
    var g := es[i].descriptor.storeId;
    StoreIsPaired(img, i);
    if Closer(es[i + 1..], g, 0).Some? {
      var j := CloserTips(es, g, i + 1, 0);
      assert ClosesBracket(es, i, j);
    }
  }

  /** The stores are those of the type-0x02 entries, and no others. */
  lemma StoreCountOnDisk(img: Image)
    ensures |StoresIn(img)| == StoreNumber(Catalog(img), |Catalog(img)|)
  {
    RunLength([], Catalog(img));
    StoreNumberIsCount(Catalog(img), |Catalog(img)|);
    assert Catalog(img)[..|Catalog(img)|] == Catalog(img);
  }

  // ---------- Store information ----------

  /** What `store_info` answers: three errors, each with its guard and its fields, or the record behind the header. */
  lemma StoreInfoOnDisk(img: Image, stores: seq<StoreDescriptor>, index: nat)
    ensures var r := StoreInfoOutcome(img, stores, index);
      if index >= |stores| then r == Err(StoreIndexOutOfRange(index, |stores|))
      else if stores[index].storeHeaderOffset == None then r == Err(StoreInfoUnavailable(index))
      else
        var o := stores[index].storeHeaderOffset.value;
        if o + 128 > |img| then r == Err(StoreOffsetOutOfBounds(index, o, |img|))
        else r.Ok? && InfoIn(img[o + 128..o + 128 + RecordLength(img, o)], r.value)
  {
    if index < |stores| && stores[index].storeHeaderOffset.Some? {
      var o := stores[index].storeHeaderOffset.value;
      if o + 128 <= |img| {
        FieldInSlice(img, o, o + 128, 48, 8);
        ParseInfoInNumbers(img[o + 128..o + 128 + RecordLength(img, o)]);
      }
    }
  }

  /** The least of the number at byte 48 of the header, 1 MiB, and what the volume holds behind the header. */
  function RecordLength(img: Image, o: nat): (k: nat)
    requires o + 128 <= |img|
    ensures k <= NumberAt(img, o + 48, 8) && k <= 0x10_0000 && o + 128 + k <= |img|
    ensures k == NumberAt(img, o + 48, 8) || k == 0x10_0000 || o + 128 + k == |img|
  {
    var want, room := NumberAt(img, o + 48, 8), |img| - o - 128;
    if want <= 0x10_0000 && want <= room then want else if 0x10_0000 <= room then 0x10_0000 else room
  }

  // ---------- Bytes of a snapshot ----------

  /** An overlay that covers byte `p`, with a store block that fits. */
  predicate OverlayOf(x: BlockDescriptor, size: nat, p: u64) {
    && x.originalOffset == p / 16384 * 16384
    && x.flags / 2 % 2 == 1 && x.flags / 4 % 2 == 0
    && x.storeOffset + 16384 <= size
    && x.allocationBitmap / Pow2(p % 16384 / 512) % 2 == 1
  }

  predicate PlainOf(x: BlockDescriptor, p: u64) {
    && x.originalOffset == p / 16384 * 16384
    && x.flags % 2 == 0 && x.flags / 2 % 2 == 0 && x.flags / 4 % 2 == 0
  }

  lemma KindsInNumbers(x: BlockDescriptor, size: nat, p: u64)
    ensures Patches(x, size, BaseOf(p), p - BaseOf(p)) <==> OverlayOf(x, size, p)
    ensures PlainAt(x, BaseOf(p)) <==> PlainOf(x, p)
  {
    FlagsAreRemainders(x);
    BitIsRemainder(x.allocationBitmap, p % 16384 / 512);
  }

  /** The list starts one block behind the store header; where that would overflow, there is none. */
  lemma ListStart(img: Image, d: StoreDescriptor, header: u64)
    requires d.storeHeaderOffset == Some(header)
    ensures header + 16384 <= 0xFFFF_FFFF_FFFF_FFFF ==> DiffAreaStart(d) == header + 16384
    ensures header + 16384 > 0xFFFF_FFFF_FFFF_FFFF ==>
      DiffAreaStart(d) == 0xFFFF_FFFF_FFFF_FFFF && DescriptorList(img, DiffAreaStart(d)) == []
  {
  }

  /** The descriptors of the store with this header. */
  function ListOf(img: Image, header: u64): seq<BlockDescriptor> {
    if header + 16384 <= 0xFFFF_FFFF_FFFF_FFFF then DescriptorList(img, header + 16384) else []
  }

  // The three cases for any descriptor list, and then for the one a store has on disk.

  lemma OverlayInNumbers(img: Image, ds: seq<BlockDescriptor>, bitmap: seq<byte>, p: u64, i: nat)
    requires i < |ds| && OverlayOf(ds[i], |img|, p)
    requires forall j | i < j < |ds| :: !OverlayOf(ds[j], |img|, p)
    ensures View(img, ds, bitmap, p) == img[ds[i].storeOffset + p % 16384]
  {
    KindsInNumbers(ds[i], |img|, p);
    forall j | i < j < |ds| ensures !Patches(ds[j], |img|, BaseOf(p), p - BaseOf(p)) {
      KindsInNumbers(ds[j], |img|, p);
    }
    LastOverlayWins(img, ds, bitmap, p, i);
    assert p - BaseOf(p) == p % 16384;
  }

  lemma PlainInNumbers(img: Image, ds: seq<BlockDescriptor>, bitmap: seq<byte>, p: u64, i: nat)
    requires forall j | 0 <= j < |ds| :: !OverlayOf(ds[j], |img|, p)
    requires i < |ds| && PlainOf(ds[i], p)
    requires forall j | i < j < |ds| :: !PlainOf(ds[j], p)
    ensures View(img, ds, bitmap, p)
         == if ds[i].storeOffset + 16384 <= |img| then img[ds[i].storeOffset + p % 16384] else 0
  {
    KindsInNumbers(ds[i], |img|, p);
    forall j | 0 <= j < |ds|
      ensures !Patches(ds[j], |img|, BaseOf(p), p - BaseOf(p)) && (j > i ==> !PlainAt(ds[j], BaseOf(p)))
    {
      KindsInNumbers(ds[j], |img|, p);
    }
    LastPlainWins(img, ds, bitmap, p, i);
    assert p - BaseOf(p) == p % 16384;
  }

  lemma LiveInNumbers(img: Image, ds: seq<BlockDescriptor>, bitmap: seq<byte>, p: u64)
    requires forall j | 0 <= j < |ds| :: !OverlayOf(ds[j], |img|, p) && !PlainOf(ds[j], p)
    ensures View(img, ds, bitmap, p) ==
      if (forall j | 0 <= j < |ds| :: ds[j].originalOffset != p / 16384 * 16384)
         && IsUnallocated(bitmap, p / 16384) then 0
      else if p / 16384 * 16384 + 16384 <= |img| then img[p] else 0
  {
    forall j | 0 <= j < |ds|
      ensures !Patches(ds[j], |img|, BaseOf(p), p - BaseOf(p)) && !PlainAt(ds[j], BaseOf(p))
    {
      KindsInNumbers(ds[j], |img|, p);
    }
    LiveOrZero(img, ds, bitmap, p);
  }

  /** The last overlay that covers a byte supplies it. */
  lemma OverlaySupplies(img: Image, d: StoreDescriptor, header: u64, bitmapAt: u64, p: u64, i: nat)
    requires d.storeHeaderOffset == Some(header) && d.storeBitmapOffset == Some(bitmapAt)
    requires var ds := ListOf(img, header);
      i < |ds| && OverlayOf(ds[i], |img|, p) && forall j | i < j < |ds| :: !OverlayOf(ds[j], |img|, p)
    ensures SnapshotByte(img, d, p) == img[ListOf(img, header)[i].storeOffset + p % 16384]
  {
    ListStart(img, d, header);
    OverlayInNumbers(img, ListOf(img, header), StoreBitmap(img, bitmapAt), p, i);
  }

  /** Without one, the last plain descriptor supplies it, or a zero when its store block does not fit. */
  lemma PlainSupplies(img: Image, d: StoreDescriptor, header: u64, bitmapAt: u64, p: u64, i: nat)
    requires d.storeHeaderOffset == Some(header) && d.storeBitmapOffset == Some(bitmapAt)
    requires var ds := ListOf(img, header);
      && (forall j | 0 <= j < |ds| :: !OverlayOf(ds[j], |img|, p))
      && i < |ds| && PlainOf(ds[i], p) && forall j | i < j < |ds| :: !PlainOf(ds[j], p)
    ensures var q := ListOf(img, header)[i].storeOffset;
      SnapshotByte(img, d, p) == if q + 16384 <= |img| then img[q + p % 16384] else 0
  {
    ListStart(img, d, header);
    PlainInNumbers(img, ListOf(img, header), StoreBitmap(img, bitmapAt), p, i);
  }

  /**
   With neither, the byte is live where its block fits, and zero where the block does not fit, or
   nothing describes it and the bitmap frees it.
   */
  lemma LiveByteShows(img: Image, d: StoreDescriptor, header: u64, bitmapAt: u64, p: u64)
    requires d.storeHeaderOffset == Some(header) && d.storeBitmapOffset == Some(bitmapAt)
    requires var ds := ListOf(img, header);
      forall j | 0 <= j < |ds| :: !OverlayOf(ds[j], |img|, p) && !PlainOf(ds[j], p)
    ensures var ds, base := ListOf(img, header), p / 16384 * 16384;
      SnapshotByte(img, d, p) ==
        if (forall j | 0 <= j < |ds| :: ds[j].originalOffset != base)
           && exists k :: MarkedBy(img, Visits(img, BitmapChain, bitmapAt), p / 16384, k) then 0
        else if base + 16384 <= |img| then img[p] else 0
  {
    ListStart(img, d, header);
    LiveInNumbers(img, ListOf(img, header), StoreBitmap(img, bitmapAt), p);
    BitmapOnDisk(img, bitmapAt, p / 16384);
  }

  // ---------- How much is read for a block ----------

  /** The overlays of a block that have a store block in the volume. */
  function OverlaysIn(ds: seq<BlockDescriptor>, size: nat): nat {
    if ds == [] then 0
    else
      (if ds[0].flags / 2 % 2 == 1 && ds[0].flags / 4 % 2 == 0 && ds[0].storeOffset + 16384 <= size then 1 else 0)
      + OverlaysIn(ds[1..], size)
  }

  lemma {:induction false} OverlayFetchCount(ds: seq<BlockDescriptor>, size: nat)
    ensures |OverlayFetches(ds, size)| == OverlaysIn(ds, size)
  {
    if ds != [] {
      FlagsAreRemainders(ds[0]);
      OverlayFetchCount(ds[1..], size);
    }
  }

  /** One read for the base where it fits, and one for each overlay whose store block fits; for a freed block, none. */
  lemma ReadsPerBlock(st: SnapshotState, base: u64)
    ensures var ds := st.DescriptorsAt(base);
      |Plan(st, base)| ==
        if ds != [] then
          (if BaseSource(ds, base) + 16384 <= st.volumeSize then 1 else 0) + OverlaysIn(ds, st.volumeSize)
        else if IsUnallocated(st.bitmap, base / 16384) || base + 16384 > st.volumeSize then 0 else 1
  {
    OverlayFetchCount(st.DescriptorsAt(base), st.volumeSize);
  }
}
