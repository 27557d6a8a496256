/** Copy-on-write reconstruction: the block reader and the positioned reader, refining the view. */
module Reconstruct {
  import opened Bitmaps
  import opened BlockMaps
  import opened Bytes
  import opened Chains
  import opened Descriptors
  import opened Readers
  import opened Views
  import opened Wrappers

  /** The reader-independent half of a snapshot; it does not change once built. */
  datatype SnapshotState = SnapshotState(volumeSize: u64, blockMap: BlockMap, bitmap: seq<byte>) {

    function DescriptorsAt(base: u64): seq<BlockDescriptor> {
      if base in blockMap then blockMap[base] else []
    }
  }

  /** The state `snapshot_state` builds for a diff area and a bitmap chain. */
  ghost predicate Decodes(st: SnapshotState, img: Image, ds: seq<BlockDescriptor>, bitmap: seq<byte>) {
    st.volumeSize == |img| && IsIndex(st.blockMap, ds) && st.bitmap == bitmap
  }

  /** Byte `p` of the snapshot a state describes. */
  function ViewOf(img: Image, st: SnapshotState, p: u64): byte {
    View(img, st.DescriptorsAt(BaseOf(p)), st.bitmap, p)
  }

  /** Looking a block up in the index loses nothing: the state's view is the view of the flat list. */
  lemma IndexRefinesList(img: Image, st: SnapshotState, ds: seq<BlockDescriptor>, bitmap: seq<byte>, p: u64)
    requires Decodes(st, img, ds, bitmap)
    ensures ViewOf(img, st, p) == View(img, ds, bitmap, p)
  {
    var base := BaseOf(p);
    SelectEmpty(ds, base);
    assert st.DescriptorsAt(base) == Select(ds, base);
    ViewOfSelect(img, ds, bitmap, p);
  }

  // ---------- The reads one block needs, and what they render ----------

  /** One seek and 16384-byte read, and how the bytes are used. */
  datatype Fetch = Whole(offset: u64) | Patch(offset: u64, allocation: u32)

  /** What the bytes read for `f` make of the block assembled so far. */
  function Use(f: Fetch, read: Block, out: Block): Block {
    match f
    case Whole(_) => read
    case Patch(_, allocation) => Overlay(out, read, allocation)
  }

  function Apply(img: Image, f: Fetch, out: Block): Block
    requires InVolume(|img|, f.offset)
  {
    Use(f, BlockAt(img, f.offset), out)
  }

  /** `out` with the sub-blocks `allocation` selects taken from `overlay`. */
  function Overlay(out: Block, overlay: Block, allocation: u32): Block {
    seq(BLOCK_SIZE, w requires 0 <= w < BLOCK_SIZE =>
      if Bit(allocation, w / SUB_BLOCK_SIZE) then overlay[w] else out[w])
  }

  predicate Fetchable(size: nat, plan: seq<Fetch>) {
    forall i | 0 <= i < |plan| :: InVolume(size, plan[i].offset)
  }

  function Render(img: Image, plan: seq<Fetch>, out: Block): Block
    requires Fetchable(|img|, plan)
  {
    if plan == [] then out else Render(img, plan[1..], Apply(img, plan[0], out))
  }

  /** The overlays of a descriptor list that have an in-range store block, in order. */
  function OverlayFetches(ds: seq<BlockDescriptor>, size: nat): (plan: seq<Fetch>)
    ensures Fetchable(size, plan)
  {
    if ds == [] then []
    else
      (if ds[0].IsActiveOverlay() && InVolume(size, ds[0].storeOffset)
       then [Patch(ds[0].storeOffset, ds[0].allocationBitmap)] else [])
      + OverlayFetches(ds[1..], size)
  }

  function WholeIfInVolume(size: nat, o: u64): (plan: seq<Fetch>)
    ensures Fetchable(size, plan)
  {
    if InVolume(size, o) then [Whole(o)] else []
  }

  /** The reads `read_block` makes for the block at `base`. */
  function Plan(st: SnapshotState, base: u64): (plan: seq<Fetch>)
    ensures Fetchable(st.volumeSize, plan)
  {
    var ds := st.DescriptorsAt(base);
    if ds != [] then WholeIfInVolume(st.volumeSize, BaseSource(ds, base)) + OverlayFetches(ds, st.volumeSize)
    else if IsUnallocated(st.bitmap, base / BLOCK_SIZE) then []
    else WholeIfInVolume(st.volumeSize, base)
  }

  /** One block read: a seek and a read of 16384 bytes. */
  function FetchAt(o: nat): seq<Access> {
    [Seek(o), Read(o, BLOCK_SIZE)]
  }

  /** The log after carrying out a plan: its reads, in order, and nothing else. */
  function Perform(log: seq<Access>, plan: seq<Fetch>): seq<Access>
    decreases |plan|
  {
    if plan == [] then log else Perform(log + FetchAt(plan[0].offset), plan[1..])
  }

  lemma PerformWhole(log: seq<Access>, size: nat, o: u64)
    ensures Perform(log, WholeIfInVolume(size, o)) == if InVolume(size, o) then log + FetchAt(o) else log
  {
    assert [Whole(o)][1..] == [];
    assert Perform(log, [Whole(o)]) == Perform(log + FetchAt(o), []);
  }

  lemma {:induction false} PerformAppend(log: seq<Access>, a: seq<Fetch>, b: seq<Fetch>)
    ensures Perform(log, a + b) == Perform(Perform(log, a), b)
    decreases |a|
  {
    if a == [] {
      assert a + b == b;
    } else {
      PerformAppend(log + FetchAt(a[0].offset), a[1..], b);
      assert (a + b)[1..] == a[1..] + b;
    }
  }

  lemma {:induction false} RenderAppend(img: Image, a: seq<Fetch>, b: seq<Fetch>, out: Block)
    requires Fetchable(|img|, a) && Fetchable(|img|, b)
    ensures Fetchable(|img|, a + b) && Render(img, a + b, out) == Render(img, b, Render(img, a, out))
  {
    if a == [] {
      assert a + b == b;
    } else {
      RenderAppend(img, a[1..], b, Apply(img, a[0], out));
      assert (a + b)[1..] == a[1..] + b;
    }
  }

  predicate KeyedAt(ds: seq<BlockDescriptor>, base: u64) {
    forall i | 0 <= i < |ds| :: ds[i].originalOffset == base
  }

  lemma OverlayFetchesStep(img: Image, ds: seq<BlockDescriptor>, out: Block)
    requires ds != []
    ensures Render(img, OverlayFetches(ds, |img|), out)
         == Render(img, OverlayFetches(ds[1..], |img|), AfterOne(img, ds[0], out))
  {
    if ds[0].IsActiveOverlay() && InVolume(|img|, ds[0].storeOffset) {
      assert OverlayFetches(ds, |img|)[1..] == OverlayFetches(ds[1..], |img|);
    } else {
      assert OverlayFetches(ds, |img|) == OverlayFetches(ds[1..], |img|);
    }
  }

  lemma PerformOverlayStep(log: seq<Access>, ds: seq<BlockDescriptor>, size: nat)
    requires ds != []
    ensures Perform(log, OverlayFetches(ds, size)) == Perform(
      if ds[0].IsActiveOverlay() && InVolume(size, ds[0].storeOffset) then log + FetchAt(ds[0].storeOffset) else log,
      OverlayFetches(ds[1..], size))
  {
    if ds[0].IsActiveOverlay() && InVolume(size, ds[0].storeOffset) {
      assert OverlayFetches(ds, size)[1..] == OverlayFetches(ds[1..], size);
    } else {
      assert OverlayFetches(ds, size) == OverlayFetches(ds[1..], size);
    }
  }

  /** Byte `w` after a patch, or `byteBefore` without one. */
  function PatchedByte(img: Image, patch: Option<BlockDescriptor>, w: nat, byteBefore: byte): byte
    requires patch.Some? ==> InVolume(|img|, patch.value.storeOffset)
    requires w < BLOCK_SIZE
  {
    if patch.Some? then img[patch.value.storeOffset + w] else byteBefore
  }

  /** `out` after one descriptor of the list. */
  function AfterOne(img: Image, d: BlockDescriptor, out: Block): Block {
    if d.IsActiveOverlay() && InVolume(|img|, d.storeOffset)
    then Overlay(out, BlockAt(img, d.storeOffset), d.allocationBitmap) else out
  }

  lemma AfterOneByte(img: Image, d: BlockDescriptor, base: u64, out: Block, w: nat)
    requires d.originalOffset == base && w < BLOCK_SIZE
    ensures AfterOne(img, d, out)[w]
         == PatchedByte(img, if Patches(d, |img|, base, w) then Some(d) else None, w, out[w])
  {
  }

  /** Merging overlays front to back leaves each byte to the last one that patches it. */
  lemma {:induction false} MergeIsLastPatch(img: Image, ds: seq<BlockDescriptor>, base: u64, out: Block, w: nat)
    requires KeyedAt(ds, base) && w < BLOCK_SIZE
    ensures Render(img, OverlayFetches(ds, |img|), out)[w] == PatchedByte(img, LastPatch(ds, |img|, base, w), w, out[w])
    decreases |ds|
  {
    if ds != [] {
      assert ds == [ds[0]] + ds[1..];
      LastOfPrepend(ds[0], ds[1..], |img|, base, w);
      OverlayFetchesStep(img, ds, out);
      AfterOneByte(img, ds[0], base, out, w);
      MergeIsLastPatch(img, ds[1..], base, AfterOne(img, ds[0], out), w);
    }
  }

  lemma LastOfPrepend(d: BlockDescriptor, ds: seq<BlockDescriptor>, size: nat, base: u64, w: nat)
    ensures LastPatch([d] + ds, size, base, w) ==
      if LastPatch(ds, size, base, w).Some? then LastPatch(ds, size, base, w)
      else if Patches(d, size, base, w) then Some(d) else None
  {
    Appended([d], ds, size, base, w);
    assert [d][..0] == [];
  }

  predicate Keyed(st: SnapshotState) {
    forall base | base in st.blockMap :: KeyedAt(st.blockMap[base], base)
  }

  lemma {:induction false} SelectIsKeyed(ds: seq<BlockDescriptor>, base: u64)
    ensures KeyedAt(Select(ds, base), base)
  {
    if ds != [] {
      SelectIsKeyed(ds[..|ds| - 1], base);
    }
  }

  lemma DecodedIsKeyed(st: SnapshotState, img: Image, ds: seq<BlockDescriptor>, bitmap: seq<byte>)
    requires Decodes(st, img, ds, bitmap)
    ensures Keyed(st)
  {
    forall base | base in st.blockMap ensures KeyedAt(st.blockMap[base], base) {
      SelectIsKeyed(ds, base);
    }
  }

  lemma RenderWhole(img: Image, o: u64, w: nat)
    requires w < BLOCK_SIZE
    ensures Render(img, WholeIfInVolume(|img|, o), Zeros(BLOCK_SIZE))[w] == Source(img, o, w)
  {
    if InVolume(|img|, o) {
      assert Render(img, [Whole(o)], Zeros(BLOCK_SIZE)) == Render(img, [], Apply(img, Whole(o), Zeros(BLOCK_SIZE)));
    }
  }

  lemma RenderDescribed(img: Image, ds: seq<BlockDescriptor>, base: u64, w: nat)
    requires KeyedAt(ds, base) && w < BLOCK_SIZE
    ensures var plan := WholeIfInVolume(|img|, BaseSource(ds, base)) + OverlayFetches(ds, |img|);
      && Fetchable(|img|, plan)
      && Render(img, plan, Zeros(BLOCK_SIZE))[w]
         == PatchedByte(img, LastPatch(ds, |img|, base, w), w, Source(img, BaseSource(ds, base), w))
  {
    var whole := WholeIfInVolume(|img|, BaseSource(ds, base));
    RenderAppend(img, whole, OverlayFetches(ds, |img|), Zeros(BLOCK_SIZE));
    MergeIsLastPatch(img, ds, base, Render(img, whole, Zeros(BLOCK_SIZE)), w);
    RenderWhole(img, BaseSource(ds, base), w);
  }

  lemma ViewOfDescribed(img: Image, ds: seq<BlockDescriptor>, bitmap: seq<byte>, p: u64)
    requires KeyedAt(ds, BaseOf(p)) && ds != []
    ensures var base := BaseOf(p); var w := p - base;
      View(img, ds, bitmap, p)
        == PatchedByte(img, LastPatch(ds, |img|, base, w), w, Source(img, BaseSource(ds, base), w))
  {
    assert ds[0].originalOffset == BaseOf(p);
    SelectEmpty(ds, BaseOf(p));
  }

  lemma ViewOfUndescribed(img: Image, bitmap: seq<byte>, p: u64)
    ensures View(img, [], bitmap, p)
         == if IsUnallocated(bitmap, p / BLOCK_SIZE) then 0 else Source(img, BaseOf(p), p - BaseOf(p))
  {
  }

  /** Performing the planned reads in order yields the view of the block. */
  lemma RenderIsView(img: Image, st: SnapshotState, base: u64, w: nat)
    requires st.volumeSize == |img| && Keyed(st)
    requires base % BLOCK_SIZE == 0 && w < BLOCK_SIZE && base + w <= MAX_U64
    ensures Render(img, Plan(st, base), Zeros(BLOCK_SIZE))[w] == ViewOf(img, st, base + w)
  {
    BaseOfSum(base, w);
    var ds := st.DescriptorsAt(base);
    if ds != [] {
      RenderDescribed(img, ds, base, w);
      ViewOfDescribed(img, ds, st.bitmap, base + w);
    } else {
      RenderWhole(img, base, w);
      ViewOfUndescribed(img, st.bitmap, base + w);
    }
  }

  /** Every byte of `block` is the view's of the block at `base`. */
  ghost predicate Shows(img: Image, st: SnapshotState, base: u64, block: Block)
    requires base + BLOCK_SIZE <= MAX_U64 + 1
  {
    forall w | 0 <= w < BLOCK_SIZE :: block[w] == ViewOf(img, st, base + w)
  }

  lemma RenderedBlockIsView(img: Image, st: SnapshotState, base: u64, out: Block)
    requires st.volumeSize == |img| && Keyed(st)
    requires base % BLOCK_SIZE == 0 && base + BLOCK_SIZE <= MAX_U64 + 1
    requires out == Render(img, Plan(st, base), Zeros(BLOCK_SIZE))
    ensures Shows(img, st, base, out)
  {
    forall w | 0 <= w < BLOCK_SIZE ensures out[w] == ViewOf(img, st, base + w) {
      RenderIsView(img, st, base, w);
    }
  }

  // ---------- read_block_at, apply_overlay, read_block, read_at ----------

  /** Reads the block at `offset`; one that does not fit in the volume leaves zeros and contributes nothing. */
  method ReadBlockAt(reader: Reader, offset: u64, volumeSize: u64, out: array<byte>) returns (present: bool)
    requires volumeSize == |reader.data| && out.Length == BLOCK_SIZE
    modifies reader, out
    ensures present == InVolume(volumeSize, offset)
    ensures out[..] == if present then BlockAt(reader.data, offset) else Zeros(BLOCK_SIZE)
    ensures reader.log == if present then old(reader.log) + FetchAt(offset) else old(reader.log)
  {
    if offset <= MAX_U64 - BLOCK_SIZE && offset + BLOCK_SIZE <= volumeSize {
      reader.SeekStart(offset);
      reader.ReadExact(out);
      present := true;
    } else {
      forall i | 0 <= i < BLOCK_SIZE {
        out[i] := 0;
      }
      present := false;
    }
  }

  lemma SubBlockOf(i: nat, w: nat)
    requires i * SUB_BLOCK_SIZE <= w < (i + 1) * SUB_BLOCK_SIZE
    ensures w / SUB_BLOCK_SIZE == i
  {
  }

  /** Overwrites, in place, the sub-blocks of `out` whose bit is set. */
  method ApplyOverlay(out: array<byte>, overlay: array<byte>, allocation: u32)
    requires out.Length == overlay.Length == BLOCK_SIZE && out != overlay
    modifies out
    ensures out[..] == Overlay(old(out[..]), overlay[..], allocation)
  {
    for i := 0 to SUB_BLOCK_COUNT
      invariant forall w | 0 <= w < i * SUB_BLOCK_SIZE ::
        out[w] == if Bit(allocation, w / SUB_BLOCK_SIZE) then overlay[w] else old(out[w])
      invariant forall w | i * SUB_BLOCK_SIZE <= w < BLOCK_SIZE :: out[w] == old(out[w])
    {
      var start := i * SUB_BLOCK_SIZE;
      if Bit(allocation, i) {
        CopyInto(overlay, start, SUB_BLOCK_SIZE, out, start);
      }
      forall w | start <= w < start + SUB_BLOCK_SIZE
        ensures out[w] == if Bit(allocation, w / SUB_BLOCK_SIZE) then overlay[w] else old(out[w])
      {
        SubBlockOf(i, w);
      }
    }
  }

  /** The last plain descriptor, found from the back. */
  method FindLastPlain(ds: seq<BlockDescriptor>, ghost base: u64) returns (last: Option<BlockDescriptor>)
    requires KeyedAt(ds, base)
    ensures last == LastPlain(ds, base)
  {
    var i := |ds|;
    assert ds[..i] == ds;
    while i > 0
      invariant 0 <= i <= |ds|
      invariant LastPlain(ds, base) == LastPlain(ds[..i], base)
    {
      i := i - 1;
      assert ds[..i + 1][..i] == ds[..i];
      if ds[i].IsPlain() {
        return Some(ds[i]);
      }
    }
    return None;
  }

  /** Reconstructs the block that contains `offset`: every byte of it is the view's. */
  method ReadBlock(st: SnapshotState, reader: Reader, offset: u64) returns (out: array<byte>)
    requires st.volumeSize == |reader.data| && Keyed(st)
    modifies reader
    ensures fresh(out) && out.Length == BLOCK_SIZE
    ensures Shows(reader.data, st, BaseOf(offset), out[..])
    ensures reader.log == Perform(old(reader.log), Plan(st, BaseOf(offset)))
  {
    var base := BaseOf(offset);
    out := new byte[BLOCK_SIZE](_ => 0);
    FillBlock(st, reader, offset / BLOCK_SIZE, base, out);
    RenderedBlockIsView(reader.data, st, base, out[..]);
  }

  /** The choice between a described, an unallocated and a live block; `out` comes zeroed. */
  method FillBlock(st: SnapshotState, reader: Reader, blockNumber: u64, base: u64, out: array<byte>)
    requires st.volumeSize == |reader.data| && Keyed(st) && out.Length == BLOCK_SIZE
    requires blockNumber == base / BLOCK_SIZE && out[..] == Zeros(BLOCK_SIZE)
    modifies reader, out
    ensures out[..] == Render(reader.data, Plan(st, base), Zeros(BLOCK_SIZE))
    ensures reader.log == Perform(old(reader.log), Plan(st, base))
  {
    if base in st.blockMap && st.blockMap[base] != [] {
      ReadDescribed(reader, st.blockMap[base], base, st.volumeSize, out);
    } else if IsUnallocated(st.bitmap, blockNumber) {
      // already zeroed
    } else {
      var present := ReadBlockAt(reader, base, st.volumeSize, out);
      assert present ==> [Whole(base)][1..] == [];
      PerformWhole(old(reader.log), st.volumeSize, base);
    }
  }

  /** The described case: the base block, then the overlays. */
  method ReadDescribed(reader: Reader, ds: seq<BlockDescriptor>, base: u64, volumeSize: u64, out: array<byte>)
    requires volumeSize == |reader.data| && out.Length == BLOCK_SIZE && KeyedAt(ds, base)
    modifies reader, out
    ensures var plan := WholeIfInVolume(volumeSize, BaseSource(ds, base)) + OverlayFetches(ds, volumeSize);
      && Fetchable(volumeSize, plan) && out[..] == Render(reader.data, plan, Zeros(BLOCK_SIZE))
      && reader.log == Perform(old(reader.log), plan)
  {
    ghost var img := reader.data;
    var lastPlain := FindLastPlain(ds, base);
    var baseSource := if lastPlain.Some? then lastPlain.value.storeOffset else base;
    var _ := ReadBlockAt(reader, baseSource, volumeSize, out);
    RenderAppend(img, WholeIfInVolume(|img|, baseSource), OverlayFetches(ds, |img|), Zeros(BLOCK_SIZE));
    assert out[..] == Render(img, WholeIfInVolume(|img|, baseSource), Zeros(BLOCK_SIZE)) by {
      assert [Whole(baseSource)][1..] == [];
    }
    PerformWhole(old(reader.log), |img|, baseSource);
    PerformAppend(old(reader.log), WholeIfInVolume(|img|, baseSource), OverlayFetches(ds, |img|));
    MergeOverlays(reader, ds, volumeSize, out);
  }

  /** Patches the active overlays of `ds` into `out`, in list order. */
  method MergeOverlays(reader: Reader, ds: seq<BlockDescriptor>, volumeSize: u64, out: array<byte>)
    requires volumeSize == |reader.data| && out.Length == BLOCK_SIZE
    modifies reader, out
    ensures out[..] == Render(reader.data, OverlayFetches(ds, |reader.data|), old(out[..]))
    ensures reader.log == Perform(old(reader.log), OverlayFetches(ds, |reader.data|))
  {
    ghost var img := reader.data;
    ghost var target := Render(img, OverlayFetches(ds, |img|), out[..]);
    ghost var finalLog := Perform(reader.log, OverlayFetches(ds, |img|));
    for i := 0 to |ds|
      invariant target == Render(img, OverlayFetches(ds[i..], |img|), out[..])
      invariant finalLog == Perform(reader.log, OverlayFetches(ds[i..], |img|))
    {
      OverlayFetchesStep(img, ds[i..], out[..]);
      PerformOverlayStep(reader.log, ds[i..], |img|);
      assert ds[i..][1..] == ds[i + 1..];
      MergeOne(reader, ds[i], volumeSize, out);
    }
  }

  /** One turn of that loop: a descriptor that is no active overlay, or whose block does not fit, changes nothing. */
  method MergeOne(reader: Reader, d: BlockDescriptor, volumeSize: u64, out: array<byte>)
    requires volumeSize == |reader.data| && out.Length == BLOCK_SIZE
    modifies reader, out
    ensures out[..] == AfterOne(reader.data, d, old(out[..]))
    ensures reader.log == if d.IsActiveOverlay() && InVolume(|reader.data|, d.storeOffset)
      then old(reader.log) + FetchAt(d.storeOffset) else old(reader.log)
  {
    if d.IsActiveOverlay() {
      var overlay := new byte[BLOCK_SIZE](_ => 0);
      var present := ReadBlockAt(reader, d.storeOffset, volumeSize, overlay);
      if present {
        ApplyOverlay(out, overlay, d.allocationBitmap);
      }
    }
  }

  /** The address the saturating cursor stands at after `i` bytes. */
  function Address(offset: u64, i: nat): u64 {
    Min(offset + i, MAX_U64)
  }

  /** How many bytes one turn of the loop copies when `left` are wanted. */
  function TurnLength(cursor: u64, left: nat): nat {
    Min(BLOCK_SIZE - (cursor - BaseOf(cursor)), left)
  }

  /** The log of a read of `want` bytes from the moment `written` are served: a plan for every turn. */
  function PerformRead(log: seq<Access>, st: SnapshotState, offset: u64, want: nat, written: nat): seq<Access>
    decreases want - written
  {
    if written >= want then log
    else
      var cursor := Address(offset, written);
      var next := written + TurnLength(cursor, want - written);
      PerformRead(Perform(log, Plan(st, BaseOf(cursor))), st, offset, want, next)
  }

  /** `end` is `log` and what a read with `written` bytes served still does to the cursor. */
  ghost predicate ReadPerformed(
    log: seq<Access>, st: SnapshotState, offset: u64, want: nat, written: nat, end: seq<Access>)
  {
    end == PerformRead(log, st, offset, want, written)
  }

  /** A read with this log and `written` bytes served ends with the log `goal`. */
  ghost predicate EndsWith(
    log: seq<Access>, st: SnapshotState, offset: u64, want: nat, written: nat, goal: seq<Access>)
  {
    forall end | ReadPerformed(log, st, offset, want, written, end) :: end == goal
  }

  lemma ReadStarts(log: seq<Access>, st: SnapshotState, offset: u64, want: nat)
    ensures EndsWith(log, st, offset, want, 0, PerformRead(log, st, offset, want, 0))
  {
  }

  lemma ReadEnds(log: seq<Access>, st: SnapshotState, offset: u64, want: nat, goal: seq<Access>)
    requires EndsWith(log, st, offset, want, want, goal)
    ensures log == goal
  {
    assert ReadPerformed(log, st, offset, want, want, log);
  }

  lemma TurnEndsWith(
    log: seq<Access>, after: seq<Access>, st: SnapshotState, offset: u64, want: nat, written: nat, goal: seq<Access>)
    requires written < want && EndsWith(log, st, offset, want, written, goal)
    requires after == Perform(log, Plan(st, BaseOf(Address(offset, written))))
    ensures EndsWith(after, st, offset, want, written + TurnLength(Address(offset, written), want - written), goal)
  {
    var next := written + TurnLength(Address(offset, written), want - written);
    assert ReadPerformed(log, st, offset, want, written, PerformRead(after, st, offset, want, next));
  }

  /** Byte `i` of the request, in the block the cursor is in after `written` bytes, is the view's at its address. */
  lemma BlockServes(img: Image, st: SnapshotState, block: Block, offset: u64, written: nat, cursor: u64, i: nat)
    requires Shows(img, st, BaseOf(cursor), block)
    requires cursor == Address(offset, written) && written <= i < written + (BLOCK_SIZE - (cursor - BaseOf(cursor)))
    ensures block[cursor - BaseOf(cursor) + (i - written)] == ViewOf(img, st, Address(offset, i))
  {
    assert BaseOf(cursor) + (cursor - BaseOf(cursor) + (i - written)) == Address(offset, i);
  }

  /**
   Fills `buf[..want]` with the view from `offset` on, and touches nothing else. No bound on
   `offset + want`: once the cursor saturates, the byte at the last address repeats.
   */
  method ReadAt(st: SnapshotState, reader: Reader, offset: u64, buf: array<byte>, want: nat)
    requires st.volumeSize == |reader.data| && Keyed(st) && want <= buf.Length
    modifies reader, buf
    ensures forall i | 0 <= i < want :: buf[i] == ViewOf(reader.data, st, Address(offset, i))
    ensures forall i | want <= i < buf.Length :: buf[i] == old(buf[i])
    ensures reader.log == PerformRead(old(reader.log), st, offset, want, 0)
  {
    ghost var goal := PerformRead(reader.log, st, offset, want, 0);
    ReadStarts(reader.log, st, offset, want);
    var written := 0;
    var cursor: u64 := offset;
    while written < want
      invariant 0 <= written <= want
      invariant cursor == Address(offset, written)
      invariant forall i | 0 <= i < written :: buf[i] == ViewOf(reader.data, st, Address(offset, i))
      invariant forall i | written <= i < buf.Length :: buf[i] == old(buf[i])
      invariant EndsWith(reader.log, st, offset, want, written, goal)
    {
      var n := CopyTurn(st, reader, offset, cursor, buf, written, want, goal);
      written := written + n;
      cursor := SaturatingAdd(cursor, n);
    }
    ReadEnds(reader.log, st, offset, want, goal);
  }

  /** One turn of the loop: materializes the block at the cursor and copies what the request spans of it. */
  method CopyTurn(
    st: SnapshotState, reader: Reader, ghost offset: u64, cursor: u64, buf: array<byte>, written: nat, want: nat,
    ghost goal: seq<Access>)
    returns (n: nat)
    requires st.volumeSize == |reader.data| && Keyed(st) && written < want <= buf.Length
    requires cursor == Address(offset, written) && EndsWith(reader.log, st, offset, want, written, goal)
    modifies reader, buf
    ensures n == TurnLength(cursor, want - written)
    ensures SaturatingAdd(cursor, n) == Address(offset, written + n)
    ensures forall i | written <= i < written + n :: buf[i] == ViewOf(reader.data, st, Address(offset, i))
    ensures forall i | 0 <= i < buf.Length && !(written <= i < written + n) :: buf[i] == old(buf[i])
    ensures EndsWith(reader.log, st, offset, want, written + n, goal)
  {
    var base := BaseOf(cursor);
    var within := cursor - base;
    var block := ReadTurn(st, reader, offset, cursor, written, want, goal);
    n := TurnLength(cursor, want - written);
    forall i | written <= i < written + n
      ensures block[within + (i - written)] == ViewOf(reader.data, st, Address(offset, i))
    {
      BlockServes(reader.data, st, block[..], offset, written, cursor, i);
    }
    CopyInto(block, within, n, buf, written);
  }

  /** The block of one turn, and the log it leaves. */
  method ReadTurn(
    st: SnapshotState, reader: Reader, ghost offset: u64, cursor: u64, ghost written: nat, ghost want: nat,
    ghost goal: seq<Access>)
    returns (block: array<byte>)
    requires st.volumeSize == |reader.data| && Keyed(st) && written < want
    requires cursor == Address(offset, written) && EndsWith(reader.log, st, offset, want, written, goal)
    modifies reader
    ensures fresh(block) && block.Length == BLOCK_SIZE && Shows(reader.data, st, BaseOf(cursor), block[..])
    ensures EndsWith(reader.log, st, offset, want, written + TurnLength(cursor, want - written), goal)
  {
    BaseOfBase(cursor);
    block := ReadBlock(st, reader, BaseOf(cursor));
    TurnEndsWith(old(reader.log), reader.log, st, offset, want, written, goal);
  }

  /** `buf[at..at + n].copy_from_slice(&block[from..from + n])`. */
  method CopyInto(block: array<byte>, from: nat, n: nat, buf: array<byte>, at: nat)
    requires from + n <= block.Length && at + n <= buf.Length && block != buf
    modifies buf
    ensures forall i | at <= i < at + n :: buf[i] == block[from + (i - at)]
    ensures forall i | 0 <= i < buf.Length && !(at <= i < at + n) :: buf[i] == old(buf[i])
  {
    forall i | at <= i < at + n {
      buf[i] := block[from + (i - at)];
    }
  }
}
