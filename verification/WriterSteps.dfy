/**
 The copy-on-write environment from the outside, in numbers: each kind of step a writer may take, the
 runs they make, and the law every run obeys, none of them stated through the environment's own rules.
 */
module WriterSteps {
  import opened Bitmaps
  import opened Bytes
  import opened Chains
  import opened CopyOnWrite
  import opened Descriptors
  import opened DiskImages
  import opened Numbers
  import opened OnDisk
  import opened Pairing
  import opened Views
  import opened Volumes
  import opened Wrappers

  // ---------- What the rules say, in numbers ----------

  /** A full block of the volume, none of it the store's, not marked in the bitmap. */
  predicate Guarded(env: Env, base: nat) {
    && base % 16384 == 0 && base + 16384 <= |env.snap|
    && (forall q | base <= q < base + 16384 :: q !in env.area)
    && var n := base / 16384;
       n / 8 < |env.bitmap| ==> env.bitmap[n / 8] / Pow2(n % 8) % 2 == 0
  }

  predicate IsOverlayOf(d: BlockDescriptor, base: nat) {
    d.originalOffset == base && d.flags / 2 % 2 == 1 && d.flags / 4 % 2 == 0
  }

  predicate IsPlainOf(d: BlockDescriptor, base: nat) {
    d.originalOffset == base && d.flags % 2 == 0 && d.flags / 2 % 2 == 0 && d.flags / 4 % 2 == 0
  }

  /** Sub-block `i` of the block at `base` is saved by an overlay. */
  predicate SubBlockSaved(ds: seq<BlockDescriptor>, base: nat, i: nat) {
    exists k | 0 <= k < |ds| :: IsOverlayOf(ds[k], base) && ds[k].allocationBitmap / Pow2(i) % 2 == 1
  }

  predicate BlockSaved(ds: seq<BlockDescriptor>, base: nat) {
    exists k | 0 <= k < |ds| :: IsPlainOf(ds[k], base)
  }

  /** `d` saves data: it is plain, or an overlay in use. */
  predicate Saves(d: BlockDescriptor) {
    d.flags / 4 % 2 == 0 && (d.flags / 2 % 2 == 1 || d.flags % 2 == 0)
  }

  lemma GuardedIsProtected(env: Env, base: u64)
    ensures Guarded(env, base) <==> Protected(env, base)
  {
    var n := base / 16384;
    if n / 8 < |env.bitmap| {
      BitIsRemainder(env.bitmap[n / 8], n % 8);
    }
  }

  lemma SavedInNumbers(ds: seq<BlockDescriptor>, base: u64, i: nat)
    ensures SubBlockSaved(ds, base, i) <==> OverlaySaved(ds, base, i)
    ensures BlockSaved(ds, base) <==> PlainSaved(ds, base)
  {
    forall k | 0 <= k < |ds|
      ensures OverlaySaves(ds[k], base, i) <==> IsOverlayOf(ds[k], base) && ds[k].allocationBitmap / Pow2(i) % 2 == 1
      ensures PlainAt(ds[k], base) <==> IsPlainOf(ds[k], base)
    {
      FlagsAreRemainders(ds[k]);
      BitIsRemainder(ds[k].allocationBitmap, i);
    }
  }

  lemma SavesIsNotInert(d: BlockDescriptor)
    ensures Saves(d) <==> !d.IsInert()
  {
    FlagsAreRemainders(d);
  }

  // ---------- The steps there are ----------

  /** Any byte outside the store may change, once its sub-block, or its block, is saved, or where nothing has to be. */
  lemma WriteIsStep(env: Env, s: World, q: u64, v: byte)
    requires q < |s.img| && q !in env.area
    requires Guarded(env, q / 16384 * 16384) ==>
      SubBlockSaved(s.ds, q / 16384 * 16384, q % 16384 / 512) || BlockSaved(s.ds, q / 16384 * 16384)
    ensures Next(env, s, World(s.img[q := v], s.ds))
  {
    GuardedIsProtected(env, BaseOf(q));
    SavedInNumbers(s.ds, BaseOf(q), q % 16384 / 512);
    assert q - BaseOf(q) == q % 16384;
    assert Write(env, s, World(s.img[q := v], s.ds), q, v);
  }

  /** No store block in use reaches address `q`. */
  predicate Free(ds: seq<BlockDescriptor>, q: nat) {
    forall k | 0 <= k < |ds| && Saves(ds[k]) :: !(ds[k].storeOffset <= q < ds[k].storeOffset + 16384)
  }

  lemma FreeIsNotHeld(ds: seq<BlockDescriptor>, q: nat)
    ensures Free(ds, q) <==> !Held(ds, q)
  {
    forall k | 0 <= k < |ds| ensures Saves(ds[k]) <==> !ds[k].IsInert() {
      SavesIsNotInert(ds[k]);
    }
  }

  /** Byte `w` of the block is copied, if `d` is plain, or its sub-block is one of those `d` selects. */
  predicate SavesByte(d: BlockDescriptor, before: Image, after: Image, w: nat)
    requires |after| == |before| && d.storeOffset + 16384 <= |before| && d.originalOffset + 16384 <= |before|
    requires w < 16384
  {
    d.flags / 2 % 2 == 0 || d.allocationBitmap / Pow2(w / 512) % 2 == 1 ==>
      after[d.storeOffset + w] == before[d.originalOffset + w]
  }

  /**
   A block or some of its sub-blocks may be saved to a free store block: nothing else changes, and
   `d` is appended.
   */
  lemma SaveIsStep(env: Env, s: World, img: Image, d: BlockDescriptor)
    requires Saves(d) && d.storeOffset + 16384 <= |s.img| == |img|
    requires forall q: nat | d.storeOffset <= q < d.storeOffset + 16384 :: q in env.area && Free(s.ds, q)
    requires forall q: nat | q < |img| && !(d.storeOffset <= q < d.storeOffset + 16384) :: img[q] == s.img[q]
    requires Guarded(env, d.originalOffset) && d.originalOffset + 16384 <= |s.img| ==>
      && (d.flags / 2 % 2 == 0 ==> !BlockSaved(s.ds, d.originalOffset))
      && (d.flags / 2 % 2 == 1 ==> forall i | 0 <= i < 32 && d.allocationBitmap / Pow2(i) % 2 == 1 ::
            !SubBlockSaved(s.ds, d.originalOffset, i) && !BlockSaved(s.ds, d.originalOffset))
      && forall w | 0 <= w < 16384 :: SavesByte(d, s.img, img, w)
    ensures Next(env, s, World(img, s.ds + [d]))
  {
    var t := World(img, s.ds + [d]);
    SavesIsNotInert(d);
    FlagsAreRemainders(d);
    GuardedIsProtected(env, d.originalOffset);
    assert Fresh(env, s, d) by {
      forall q: nat | InStoreBlock(d, q) ensures q in env.area && !Held(s.ds, q) {
        FreeIsNotHeld(s.ds, q);
      }
    }
    if Protected(env, d.originalOffset) && InVolume(|s.img|, d.originalOffset) {
      SaveIsFirst(s, d);
      SaveCopies(s, t, d);
    }
    assert Save(env, s, t, d);
  }

  lemma SaveIsFirst(s: World, d: BlockDescriptor)
    requires Saves(d)
    requires d.flags / 2 % 2 == 0 ==> !BlockSaved(s.ds, d.originalOffset)
    requires d.flags / 2 % 2 == 1 ==> forall i | 0 <= i < 32 && d.allocationBitmap / Pow2(i) % 2 == 1 ::
      !SubBlockSaved(s.ds, d.originalOffset, i) && !BlockSaved(s.ds, d.originalOffset)
    ensures FirstSave(s, d)
  {
    FlagsAreRemainders(d);
    SavedInNumbers(s.ds, d.originalOffset, 0);
    forall i | 0 <= i < SUB_BLOCK_COUNT && Bit(d.allocationBitmap, i) && !d.IsPlain()
      ensures !Saved(s.ds, d.originalOffset, i)
    {
      BitIsRemainder(d.allocationBitmap, i);
      SavedInNumbers(s.ds, d.originalOffset, i);
    }
  }

  lemma SaveCopies(s: World, t: World, d: BlockDescriptor)
    requires Saves(d) && |t.img| == |s.img|
    requires d.storeOffset + 16384 <= |s.img| && d.originalOffset + 16384 <= |s.img|
    requires forall w | 0 <= w < 16384 :: SavesByte(d, s.img, t.img, w)
    ensures Copies(s, t, d)
  {
    FlagsAreRemainders(d);
    forall w | 0 <= w < BLOCK_SIZE ensures CopiesByte(s, t, d, w) {
      BitIsRemainder(d.allocationBitmap, w / 512);
      assert SavesByte(d, s.img, t.img, w);
    }
  }

  /** A descriptor that saves nothing may be appended at any time. */
  lemma MarkIsStep(env: Env, s: World, d: BlockDescriptor)
    requires !Saves(d)
    ensures Next(env, s, World(s.img, s.ds + [d]))
  {
    SavesIsNotInert(d);
    assert Mark(s, World(s.img, s.ds + [d]), d);
  }

  /** The store may rewrite whatever it owns and does not use for saved data. */
  lemma HousekeepIsStep(env: Env, s: World, img: Image)
    requires |img| == |s.img|
    requires forall q: nat | q < |img| && (q !in env.area || !Free(s.ds, q)) :: img[q] == s.img[q]
    ensures Next(env, s, World(img, s.ds))
  {
    forall q: nat | q < |img| && (q !in env.area || Held(s.ds, q)) ensures img[q] == s.img[q] {
      FreeIsNotHeld(s.ds, q);
    }
    assert Housekeep(env, s, World(img, s.ds));
  }

  // ---------- The runs they make ----------

  /** Runs start at the snapshot. */
  lemma StartIsReachable(env: Env)
    ensures Reachable(env, World(env.snap, []))
  {
    assert IsRun(env, [World(env.snap, [])]);
  }

  /** Every step can be taken at the end of every run. */
  lemma StepIsReachable(env: Env, a: World, b: World)
    requires Reachable(env, a) && Next(env, a, b)
    ensures Reachable(env, b)
  {
    var run :| IsRun(env, run) && run[|run| - 1] == a;
    var longer := run + [b];
    forall k | 0 <= k < |longer| - 1 ensures Next(env, longer[k], longer[k + 1]) {
      if k + 1 < |run| {
        assert Next(env, run[k], run[k + 1]);
      }
    }
    assert IsRun(env, longer) && longer[|longer| - 1] == b;
  }

  /**
   The law of every run: wherever it has come to, if the descriptors appended so far and the bitmap
   of the snapshot are what the store has on disk, every byte of a guarded block reads as it was.
   */
  lemma EveryRunKeepsTheSnapshot(
    env: Env, s: World, d: StoreDescriptor, header: u64, bitmapAt: u64, base: nat, x: nat)
    requires Reachable(env, s)
    requires d.storeHeaderOffset == Some(header) && d.storeBitmapOffset == Some(bitmapAt)
    requires ListOf(s.img, header) == s.ds && StoreBitmap(s.img, bitmapAt) == env.bitmap
    requires Guarded(env, base) && x < 16384
    ensures base + x <= MAX_U64 && SnapshotByte(s.img, d, base + x) == env.snap[base + x]
  {
    ListStart(s.img, d, header);
    GuardedIsProtected(env, base);
    SnapshotByteIsOriginal(env, s, d, base, x);
  }

  /**
   Whatever state a run has come to, once the store writes its descriptors and bitmap out to the
   addresses it owns, every guarded block of the snapshot reads as it was when it was taken.
   */
  lemma WrittenOutSnapshotIsOriginal(
    env: Env, s: World, img: Image, d: StoreDescriptor, header: u64, bitmapAt: u64, base: nat)
    requires Reachable(env, s) && |img| == |s.img|
    requires forall q: nat | q < |img| && (q !in env.area || !Free(s.ds, q)) :: img[q] == s.img[q]
    requires d.storeHeaderOffset == Some(header) && d.storeBitmapOffset == Some(bitmapAt)
    requires StoreWritten(img, header, bitmapAt, s.ds, env.bitmap)
    requires Guarded(env, base)
    ensures base + 16384 <= MAX_U64 + 1 && SnapshotBlock(img, d, base) == env.snap[base..base + 16384]
  {
    var t := World(img, s.ds);
    HousekeepIsStep(env, s, img);
    StepIsReachable(env, s, t);
    WrittenStoreReads(img, d, header, bitmapAt, s.ds, env.bitmap);
    GuardedIsProtected(env, base);
    BlockIsOriginal(env, t, d, base);
  }
}
