/**
 The copy-on-write environment the reader relies on, as a state machine over the volume's bytes
 and the descriptor list, and the theorem that makes the reader useful: whatever is written
 after the snapshot, reconstruction returns the bytes of the moment it was taken.
 */
module CopyOnWrite {
  import opened BlockMaps
  import opened Bitmaps
  import opened Bytes
  import opened Chains
  import opened Descriptors
  import opened Pairing
  import opened Views
  import opened Volumes
  import opened Wrappers

  /** Fixed for a snapshot: the volume when it was taken, its bitmap, the addresses the store owns. */
  datatype Env = Env(snap: Image, bitmap: seq<byte>, area: set<nat>)

  /** The volume now, and the descriptors appended so far. */
  datatype World = World(img: Image, ds: seq<BlockDescriptor>)

  /** `d` saves sub-block `i` of the block at `base`. */
  predicate OverlaySaves(d: BlockDescriptor, base: u64, i: nat) {
    d.originalOffset == base && d.IsActiveOverlay() && Bit(d.allocationBitmap, i)
  }

  predicate OverlaySaved(ds: seq<BlockDescriptor>, base: u64, i: nat) {
    exists k | 0 <= k < |ds| :: OverlaySaves(ds[k], base, i)
  }

  predicate PlainSaved(ds: seq<BlockDescriptor>, base: u64) {
    exists k | 0 <= k < |ds| :: PlainAt(ds[k], base)
  }

  predicate Saved(ds: seq<BlockDescriptor>, base: u64, i: nat) {
    OverlaySaved(ds, base, i) || PlainSaved(ds, base)
  }

  /** Address `q` lies in the store block of `d`. */
  predicate InStoreBlock(d: BlockDescriptor, q: nat) {
    d.storeOffset <= q < d.storeOffset + BLOCK_SIZE
  }

  /** Address `q` holds saved data. */
  predicate Held(ds: seq<BlockDescriptor>, q: nat) {
    exists k | 0 <= k < |ds| :: !ds[k].IsInert() && InStoreBlock(ds[k], q)
  }

  /** A full block of the volume, outside the store, in use when the snapshot was taken. */
  ghost predicate Protected(env: Env, base: u64) {
    && base % BLOCK_SIZE == 0 && InVolume(|env.snap|, base)
    && !IsUnallocated(env.bitmap, base / BLOCK_SIZE)
    && forall q: nat | base <= q < base + BLOCK_SIZE :: q !in env.area
  }

  // ---------- Steps ----------

  /** One byte outside the store changes; in a protected block its sub-block has been saved before. */
  ghost predicate Write(env: Env, a: World, b: World, q: u64, v: byte) {
    && q < |a.img| && q !in env.area
    && (Protected(env, BaseOf(q)) ==> Saved(a.ds, BaseOf(q), (q - BaseOf(q)) / SUB_BLOCK_SIZE))
    && b == World(a.img[q := v], a.ds)
  }

  /** The store block of `d` is inside the store and holds nothing yet. */
  ghost predicate Fresh(env: Env, a: World, d: BlockDescriptor) {
    InVolume(|a.img|, d.storeOffset)
    && forall q: nat | InStoreBlock(d, q) :: q in env.area && !Held(a.ds, q)
  }

  /** `d` saves nothing of a protected block a second time: no sub-block twice, no second plain. */
  ghost predicate FirstSave(a: World, d: BlockDescriptor) {
    if d.IsPlain() then !PlainSaved(a.ds, d.originalOffset)
    else forall i | 0 <= i < SUB_BLOCK_COUNT && Bit(d.allocationBitmap, i) :: !Saved(a.ds, d.originalOffset, i)
  }

  /** Byte `w` of the block, if `d` covers it, is copied to the store. */
  ghost predicate CopiesByte(a: World, b: World, d: BlockDescriptor, w: nat)
    requires |b.img| == |a.img| && InVolume(|a.img|, d.storeOffset) && InVolume(|a.img|, d.originalOffset)
    requires w < BLOCK_SIZE
  {
    d.IsPlain() || Bit(d.allocationBitmap, w / SUB_BLOCK_SIZE) ==>
      b.img[d.storeOffset + w] == a.img[d.originalOffset + w]
  }

  ghost predicate Copies(a: World, b: World, d: BlockDescriptor)
    requires |b.img| == |a.img| && InVolume(|a.img|, d.storeOffset) && InVolume(|a.img|, d.originalOffset)
  {
    forall w | 0 <= w < BLOCK_SIZE :: CopiesByte(a, b, d, w)
  }

  /** A block or some of its sub-blocks are saved to a fresh store block and `d` is appended. */
  ghost predicate Save(env: Env, a: World, b: World, d: BlockDescriptor) {
    && !d.IsInert() && Fresh(env, a, d)
    && |b.img| == |a.img| && b.ds == a.ds + [d]
    && (forall q: nat | q < |a.img| && !InStoreBlock(d, q) :: b.img[q] == a.img[q])
    && (Protected(env, d.originalOffset) && InVolume(|a.img|, d.originalOffset) ==> FirstSave(a, d) && Copies(a, b, d))
  }

  /** A not-used or forwarder-only descriptor is appended, for any block. */
  ghost predicate Mark(a: World, b: World, d: BlockDescriptor) {
    d.IsInert() && b == World(a.img, a.ds + [d])
  }

  /** The store rewrites its own metadata: any address it owns that holds no saved data. */
  ghost predicate Housekeep(env: Env, a: World, b: World) {
    && |b.img| == |a.img| && b.ds == a.ds
    && forall q: nat | q < |a.img| && (q !in env.area || Held(a.ds, q)) :: b.img[q] == a.img[q]
  }

  ghost predicate Next(env: Env, a: World, b: World) {
    || (exists q: u64, v: byte :: Write(env, a, b, q, v))
    || (exists d :: Save(env, a, b, d))
    || (exists d :: Mark(a, b, d))
    || Housekeep(env, a, b)
  }

  /** A run of any length from the moment the snapshot is taken. */
  ghost predicate IsRun(env: Env, run: seq<World>) {
    && run != [] && run[0] == World(env.snap, [])
    && forall i | 0 <= i < |run| - 1 :: Next(env, run[i], run[i + 1])
  }

  // ---------- The invariant ----------

  /** Every store block in use lies in the volume and in the store. */
  ghost predicate Placed(env: Env, s: World) {
    && |s.img| == |env.snap|
    && forall k | 0 <= k < |s.ds| && !s.ds[k].IsInert() ::
         InVolume(|s.img|, s.ds[k].storeOffset) && forall q: nat | InStoreBlock(s.ds[k], q) :: q in env.area
  }

  /** Every overlay's copy of byte `x` is the snapshot's. */
  ghost predicate OverlaysKept(env: Env, s: World, base: u64, x: nat)
    requires Placed(env, s) && InVolume(|env.snap|, base) && x < BLOCK_SIZE
  {
    forall k | 0 <= k < |s.ds| && OverlaySaves(s.ds[k], base, x / SUB_BLOCK_SIZE) ::
      s.img[s.ds[k].storeOffset + x] == env.snap[base + x]
  }

  /** Every plain copy of byte `x` is the snapshot's. */
  ghost predicate PlainsKept(env: Env, s: World, base: u64, x: nat)
    requires Placed(env, s) && InVolume(|env.snap|, base) && x < BLOCK_SIZE
  {
    forall k | 0 <= k < |s.ds| && PlainAt(s.ds[k], base) ::
      s.img[s.ds[k].storeOffset + x] == env.snap[base + x]
  }

  /** Byte `x` of the block at `base` is where reconstruction will look for it. */
  ghost predicate Kept(env: Env, s: World, base: u64, x: nat)
    requires Placed(env, s) && InVolume(|env.snap|, base) && x < BLOCK_SIZE
  {
    && OverlaysKept(env, s, base, x)
    && (!OverlaySaved(s.ds, base, x / SUB_BLOCK_SIZE) ==> PlainsKept(env, s, base, x))
    && (!Saved(s.ds, base, x / SUB_BLOCK_SIZE) ==> s.img[base + x] == env.snap[base + x])
  }

  ghost predicate Inv(env: Env, s: World) {
    && Placed(env, s)
    && forall base: u64, x: nat | Protected(env, base) && x < BLOCK_SIZE :: Kept(env, s, base, x)
  }

  /** Nothing a protected byte depends on changes when no store block in use and no byte of the block does. */
  lemma KeptWhenUntouched(env: Env, a: World, b: World, base: u64, x: nat)
    requires Placed(env, a) && Placed(env, b) && a.ds == b.ds
    requires InVolume(|env.snap|, base) && x < BLOCK_SIZE && Kept(env, a, base, x)
    requires forall q: nat | q < |a.img| && Held(a.ds, q) :: b.img[q] == a.img[q]
    requires Saved(a.ds, base, x / SUB_BLOCK_SIZE) || b.img[base + x] == a.img[base + x]
    ensures Kept(env, b, base, x)
  {
    forall k | 0 <= k < |a.ds| && !a.ds[k].IsInert()
      ensures b.img[a.ds[k].storeOffset + x] == a.img[a.ds[k].storeOffset + x]
    {
      assert InStoreBlock(a.ds[k], a.ds[k].storeOffset + x);
    }
  }

  lemma WriteKeeps(env: Env, a: World, b: World, q: u64, v: byte)
    requires Inv(env, a) && Write(env, a, b, q, v)
    ensures Inv(env, b)
  {
    forall base: u64, x: nat | Protected(env, base) && x < BLOCK_SIZE ensures Kept(env, b, base, x) {
      assert Kept(env, a, base, x);
      if base + x == q {
        BaseOfSum(base, x);
      }
      forall r: nat | r < |a.img| && Held(a.ds, r) ensures b.img[r] == a.img[r] {
        HeldInArea(env, a, r);
      }
      KeptWhenUntouched(env, a, b, base, x);
    }
  }

  lemma HeldInArea(env: Env, s: World, q: nat)
    requires Placed(env, s) && Held(s.ds, q)
    ensures q in env.area
  {
    var k :| 0 <= k < |s.ds| && !s.ds[k].IsInert() && InStoreBlock(s.ds[k], q);
  }

  lemma HousekeepKeeps(env: Env, a: World, b: World)
    requires Inv(env, a) && Housekeep(env, a, b)
    ensures Inv(env, b)
  {
    forall base: u64, x: nat | Protected(env, base) && x < BLOCK_SIZE ensures Kept(env, b, base, x) {
      assert Kept(env, a, base, x);
      KeptWhenUntouched(env, a, b, base, x);
    }
  }

  lemma SavedByAppend(ds: seq<BlockDescriptor>, d: BlockDescriptor, base: u64, i: nat)
    ensures OverlaySaved(ds + [d], base, i) <==> OverlaySaved(ds, base, i) || OverlaySaves(d, base, i)
    ensures PlainSaved(ds + [d], base) <==> PlainSaved(ds, base) || PlainAt(d, base)
  {
    var all := ds + [d];
    assert all[|ds|] == d && forall k | 0 <= k < |ds| :: all[k] == ds[k];
    if OverlaySaved(ds, base, i) {
      var k :| 0 <= k < |ds| && OverlaySaves(ds[k], base, i);
      assert OverlaySaves(all[k], base, i);
    }
    if PlainSaved(ds, base) {
      var k :| 0 <= k < |ds| && PlainAt(ds[k], base);
      assert PlainAt(all[k], base);
    }
  }

  lemma MarkKeeps(env: Env, a: World, b: World, d: BlockDescriptor)
    requires Inv(env, a) && Mark(a, b, d)
    ensures Inv(env, b)
  {
    forall base: u64, x: nat | Protected(env, base) && x < BLOCK_SIZE ensures Kept(env, b, base, x) {
      assert Kept(env, a, base, x);
      SavedByAppend(a.ds, d, base, x / SUB_BLOCK_SIZE);
    }
  }

  /** The new descriptor's copy of byte `x`, if it covers it, is the snapshot's. */
  lemma NewCopyIsSnapshot(env: Env, a: World, b: World, d: BlockDescriptor, x: nat)
    requires Placed(env, a) && |b.img| == |a.img| && x < BLOCK_SIZE
    requires InVolume(|a.img|, d.storeOffset) && InVolume(|a.img|, d.originalOffset)
    requires FirstSave(a, d) && CopiesByte(a, b, d, x) && Kept(env, a, d.originalOffset, x)
    requires d.IsPlain() || Bit(d.allocationBitmap, x / SUB_BLOCK_SIZE)
    requires d.IsPlain() ==> !OverlaySaved(a.ds, d.originalOffset, x / SUB_BLOCK_SIZE)
    ensures b.img[d.storeOffset + x] == env.snap[d.originalOffset + x]
  {
    var i := x / SUB_BLOCK_SIZE;
    assert 0 <= i < SUB_BLOCK_COUNT;
    assert !Saved(a.ds, d.originalOffset, i);
  }

  lemma SaveLeavesOldData(env: Env, a: World, b: World, d: BlockDescriptor, base: u64, x: nat)
    requires Placed(env, a) && Save(env, a, b, d) && Protected(env, base) && x < BLOCK_SIZE
    ensures b.img[base + x] == a.img[base + x]
    ensures forall k | 0 <= k < |a.ds| && !a.ds[k].IsInert() ::
      b.img[a.ds[k].storeOffset + x] == a.img[a.ds[k].storeOffset + x]
  {
    forall k | 0 <= k < |a.ds| && !a.ds[k].IsInert()
      ensures b.img[a.ds[k].storeOffset + x] == a.img[a.ds[k].storeOffset + x]
    {
      var q := a.ds[k].storeOffset + x;
      assert InStoreBlock(a.ds[k], q);
      assert Held(a.ds, q);
    }
    var q := base + x;
    assert q !in env.area;
  }

  /** Whichever descriptor covers byte `x` after a save, its copy of the byte is the snapshot's. */
  lemma CopyAfterSave(env: Env, a: World, b: World, d: BlockDescriptor, base: u64, x: nat, k: nat)
    requires Placed(env, a) && Placed(env, b) && Save(env, a, b, d)
    requires Protected(env, base) && x < BLOCK_SIZE && Kept(env, a, base, x)
    requires k < |b.ds| && (OverlaySaves(b.ds[k], base, x / SUB_BLOCK_SIZE)
      || (PlainAt(b.ds[k], base) && !OverlaySaved(a.ds, base, x / SUB_BLOCK_SIZE)))
    ensures b.img[b.ds[k].storeOffset + x] == env.snap[base + x]
  {
    if k == |a.ds| {
      assert b.ds[k] == d;
      assert CopiesByte(a, b, d, x);
      NewCopyIsSnapshot(env, a, b, d, x);
    } else {
      assert b.ds[k] == a.ds[k];
      SaveLeavesOldData(env, a, b, d, base, x);
    }
  }

  lemma SaveKeepsOverlayCopies(env: Env, a: World, b: World, d: BlockDescriptor, base: u64, x: nat)
    requires Placed(env, a) && Placed(env, b) && Save(env, a, b, d)
    requires Protected(env, base) && x < BLOCK_SIZE && Kept(env, a, base, x)
    ensures OverlaysKept(env, b, base, x)
  {
    forall k | 0 <= k < |b.ds| && OverlaySaves(b.ds[k], base, x / SUB_BLOCK_SIZE)
      ensures b.img[b.ds[k].storeOffset + x] == env.snap[base + x]
    {
      CopyAfterSave(env, a, b, d, base, x, k);
    }
  }

  lemma SaveKeepsPlainCopies(env: Env, a: World, b: World, d: BlockDescriptor, base: u64, x: nat)
    requires Placed(env, a) && Placed(env, b) && Save(env, a, b, d)
    requires Protected(env, base) && x < BLOCK_SIZE && Kept(env, a, base, x)
    requires !OverlaySaved(a.ds, base, x / SUB_BLOCK_SIZE)
    ensures PlainsKept(env, b, base, x)
  {
    forall k | 0 <= k < |b.ds| && PlainAt(b.ds[k], base)
      ensures b.img[b.ds[k].storeOffset + x] == env.snap[base + x]
    {
      CopyAfterSave(env, a, b, d, base, x, k);
    }
  }

  lemma SaveKeepsByte(env: Env, a: World, b: World, d: BlockDescriptor, base: u64, x: nat)
    requires Placed(env, a) && Placed(env, b) && Save(env, a, b, d)
    requires Protected(env, base) && x < BLOCK_SIZE && Kept(env, a, base, x)
    ensures Kept(env, b, base, x)
  {
    SavedByAppend(a.ds, d, base, x / SUB_BLOCK_SIZE);
    SaveKeepsOverlayCopies(env, a, b, d, base, x);
    if !OverlaySaved(a.ds, base, x / SUB_BLOCK_SIZE) {
      SaveKeepsPlainCopies(env, a, b, d, base, x);
    }
    SaveLeavesOldData(env, a, b, d, base, x);
  }

  lemma SaveKeeps(env: Env, a: World, b: World, d: BlockDescriptor)
    requires Inv(env, a) && Save(env, a, b, d)
    ensures Inv(env, b)
  {
    assert Placed(env, b);
    forall base: u64, x: nat | Protected(env, base) && x < BLOCK_SIZE ensures Kept(env, b, base, x) {
      assert Kept(env, a, base, x);
      SaveKeepsByte(env, a, b, d, base, x);
    }
  }

  lemma NextKeeps(env: Env, a: World, b: World)
    requires Inv(env, a) && Next(env, a, b)
    ensures Inv(env, b)
  {
    if q: u64, v: byte :| Write(env, a, b, q, v) {
      WriteKeeps(env, a, b, q, v);
    } else if d :| Save(env, a, b, d) {
      SaveKeeps(env, a, b, d);
    } else if d :| Mark(a, b, d) {
      MarkKeeps(env, a, b, d);
    } else {
      HousekeepKeeps(env, a, b);
    }
  }

  lemma {:induction false} RunKeeps(env: Env, run: seq<World>)
    requires IsRun(env, run)
    ensures Inv(env, run[|run| - 1])
    decreases |run|
  {
    if |run| > 1 {
      var n := |run| - 1;
      var init := run[..n];
      forall i | 0 <= i < n - 1 ensures Next(env, init[i], init[i + 1]) {
        assert Next(env, run[i], run[i + 1]);
      }
      RunKeeps(env, init);
      assert Next(env, run[n - 1], run[n - 1 + 1]);
      NextKeeps(env, run[n - 1], run[n]);
    }
  }

  // ---------- Reconstruction returns the snapshot ----------

  lemma {:induction false} LastPatchPosition(ds: seq<BlockDescriptor>, size: nat, base: u64, w: nat)
    ensures match LastPatch(ds, size, base, w)
      case Some(d) => exists k | 0 <= k < |ds| :: ds[k] == d
      case None => forall k | 0 <= k < |ds| :: !Patches(ds[k], size, base, w)
  {
    if ds != [] && !Patches(ds[|ds| - 1], size, base, w) {
      LastPatchPosition(ds[..|ds| - 1], size, base, w);
    }
  }

  lemma {:induction false} LastPlainPosition(ds: seq<BlockDescriptor>, base: u64)
    ensures match LastPlain(ds, base)
      case Some(d) => exists k | 0 <= k < |ds| :: ds[k] == d
      case None => !PlainSaved(ds, base)
  {
    if ds != [] && !PlainAt(ds[|ds| - 1], base) {
      LastPlainPosition(ds[..|ds| - 1], base);
    }
  }

  lemma PatchedByteIsSnapshot(env: Env, s: World, base: u64, x: nat)
    requires Placed(env, s) && InVolume(|env.snap|, base) && x < BLOCK_SIZE && Kept(env, s, base, x)
    requires LastPatch(s.ds, |s.img|, base, x).Some?
    ensures s.img[LastPatch(s.ds, |s.img|, base, x).value.storeOffset + x] == env.snap[base + x]
  {
    LastPatchPosition(s.ds, |s.img|, base, x);
    var k :| 0 <= k < |s.ds| && s.ds[k] == LastPatch(s.ds, |s.img|, base, x).value;
    assert OverlaySaves(s.ds[k], base, x / SUB_BLOCK_SIZE);
  }

  lemma UnpatchedMeansUnsaved(env: Env, s: World, base: u64, x: nat)
    requires Placed(env, s) && x < BLOCK_SIZE && LastPatch(s.ds, |s.img|, base, x) == None
    ensures !OverlaySaved(s.ds, base, x / SUB_BLOCK_SIZE)
  {
    LastPatchPosition(s.ds, |s.img|, base, x);
    forall k | 0 <= k < |s.ds| ensures !OverlaySaves(s.ds[k], base, x / SUB_BLOCK_SIZE) {
      assert !Patches(s.ds[k], |s.img|, base, x);
    }
  }

  lemma UnpatchedByteIsSnapshot(env: Env, s: World, base: u64, x: nat)
    requires Placed(env, s) && InVolume(|env.snap|, base) && x < BLOCK_SIZE && Kept(env, s, base, x)
    requires LastPatch(s.ds, |s.img|, base, x) == None
    ensures Source(s.img, BaseSource(s.ds, base), x) == env.snap[base + x]
  {
    UnpatchedMeansUnsaved(env, s, base, x);
    LastPlainPosition(s.ds, base);
    if LastPlain(s.ds, base).Some? {
      var k :| 0 <= k < |s.ds| && s.ds[k] == LastPlain(s.ds, base).value;
      assert PlainAt(s.ds[k], base);
    }
  }

  lemma UndescribedHasNoPlain(ds: seq<BlockDescriptor>, base: u64)
    requires Select(ds, base) == []
    ensures BaseSource(ds, base) == base
  {
    SelectEmpty(ds, base);
    NoPlain(ds, base);
  }

  lemma InvShowsSnapshot(env: Env, s: World, base: u64, x: nat)
    requires Inv(env, s) && Protected(env, base) && x < BLOCK_SIZE && base + x <= MAX_U64
    ensures View(s.img, s.ds, env.bitmap, base + x) == env.snap[base + x]
  {
    assert Kept(env, s, base, x);
    BaseOfSum(base, x);
    if LastPatch(s.ds, |s.img|, base, x).Some? {
      PatchedByteIsSnapshot(env, s, base, x);
    } else {
      UnpatchedByteIsSnapshot(env, s, base, x);
      if Select(s.ds, base) == [] {
        UndescribedHasNoPlain(s.ds, base);
      }
    }
  }

  /** After every run of writes, every byte of every protected block reads as it was when the snapshot was taken. */
  lemma SnapshotSurvivesWrites(env: Env, run: seq<World>, base: u64, x: nat)
    requires IsRun(env, run) && Protected(env, base) && x < BLOCK_SIZE && base + x <= MAX_U64
    ensures var now := run[|run| - 1];
      View(now.img, now.ds, env.bitmap, base + x) == env.snap[base + x]
  {
    RunKeeps(env, run);
    InvShowsSnapshot(env, run[|run| - 1], base, x);
  }

  /**
   The writer's rule is exact: overwriting a protected byte leaves the snapshot intact iff its
   sub-block was saved before, or the byte does not differ from the snapshot's.
   */
  lemma WriteRuleIsExact(env: Env, s: World, base: u64, x: nat, v: byte)
    requires Inv(env, s) && Protected(env, base) && x < BLOCK_SIZE && base + x <= MAX_U64
    ensures View(s.img[base + x := v], s.ds, env.bitmap, base + x) == env.snap[base + x]
      <==> Saved(s.ds, base, x / SUB_BLOCK_SIZE) || v == env.snap[base + x]
  {
    var t := World(s.img[base + x := v], s.ds);
    BaseOfSum(base, x);
    if Saved(s.ds, base, x / SUB_BLOCK_SIZE) {
      WriteKeeps(env, s, t, base + x, v);
      InvShowsSnapshot(env, t, base, x);
    } else {
      NoPlain(s.ds, base);
      NothingSaved(t, base, x);
    }
  }

  lemma NothingSaved(t: World, base: u64, x: nat)
    requires x < BLOCK_SIZE && !OverlaySaved(t.ds, base, x / SUB_BLOCK_SIZE)
    ensures LastPatch(t.ds, |t.img|, base, x) == None
  {
    forall k | 0 <= k < |t.ds| ensures !Patches(t.ds[k], |t.img|, base, x) {
      assert !OverlaySaves(t.ds[k], base, x / SUB_BLOCK_SIZE);
    }
    NoPatch(t.ds, |t.img|, base, x);
  }

  lemma SaveWholeBlock(env: Env, s: World, d: BlockDescriptor) returns (saved: World)
    requires d.IsPlain() && Fresh(env, s, d) && InVolume(|s.img|, d.originalOffset)
    requires !PlainSaved(s.ds, d.originalOffset)
    ensures Save(env, s, saved, d)
    ensures saved.ds == s.ds + [d]
  {
    var img := seq<byte>(|s.img|, q requires 0 <= q < |s.img| =>
      if d.storeOffset <= q < d.storeOffset + BLOCK_SIZE
      then s.img[d.originalOffset + (q - d.storeOffset)] else s.img[q]);
    saved := World(img, s.ds + [d]);
    forall w | 0 <= w < BLOCK_SIZE ensures CopiesByte(s, saved, d, w) {
    }
  }

  /** The rule never stops a writer that has a fresh store block: any write can be made, after at most one save. */
  lemma EveryWriteCanBeMade(env: Env, s: World, base: u64, x: nat, v: byte, store: u64)
    returns (saved: World, written: World)
    requires Inv(env, s) && Protected(env, base) && x < BLOCK_SIZE && base + x <= MAX_U64
    requires !Saved(s.ds, base, x / SUB_BLOCK_SIZE)
    requires Fresh(env, s, BlockDescriptor(base, 0, store, 0, 0))
    ensures Next(env, s, saved) && Next(env, saved, written)
    ensures written.img[base + x] == v
  {
    var d := BlockDescriptor(base, 0, store, 0, 0);
    saved := SaveWholeBlock(env, s, d);
    SavedByAppend(s.ds, d, base, x / SUB_BLOCK_SIZE);
    BaseOfSum(base, x);
    written := World(saved.img[base + x := v], saved.ds);
    assert Write(env, saved, written, base + x, v);
  }

  /** The store's chains on disk hold the descriptors and the bitmap of the run. */
  ghost predicate Recorded(env: Env, s: World, d: StoreDescriptor) {
    && d.storeHeaderOffset.Some? && d.storeBitmapOffset.Some?
    && DescriptorList(s.img, DiffAreaStart(d)) == s.ds
    && StoreBitmap(s.img, d.storeBitmapOffset.value) == env.bitmap
  }

  /** `s` is where some run has come to. */
  ghost predicate Reachable(env: Env, s: World) {
    exists run :: IsRun(env, run) && run[|run| - 1] == s
  }

  /**
   What a read of the snapshot serves for a protected byte, in every state any run can reach, is the
   byte of the moment it was taken.
   */
  lemma SnapshotByteIsOriginal(env: Env, s: World, d: StoreDescriptor, base: u64, x: nat)
    requires Reachable(env, s) && Recorded(env, s, d)
    requires Protected(env, base) && x < BLOCK_SIZE && base + x <= MAX_U64
    ensures SnapshotByte(s.img, d, base + x) == env.snap[base + x]
  {
    var run :| IsRun(env, run) && run[|run| - 1] == s;
    RunKeeps(env, run);
    SnapshotByteOf(s.img, d, s.ds, env.bitmap, base + x);
    InvShowsSnapshot(env, s, base, x);
  }

  lemma BytesAreOriginal(env: Env, s: World, d: StoreDescriptor, base: u64, block: Block)
    requires Reachable(env, s) && Recorded(env, s, d) && Protected(env, base) && base + BLOCK_SIZE <= MAX_U64 + 1
    requires forall w | 0 <= w < BLOCK_SIZE :: block[w] == SnapshotByte(s.img, d, base + w)
    ensures block == env.snap[base..base + BLOCK_SIZE]
  {
    forall w | 0 <= w < BLOCK_SIZE ensures block[w] == env.snap[base + w] {
      SnapshotByteIsOriginal(env, s, d, base, w);
    }
  }

  lemma BlockIsOriginal(env: Env, s: World, d: StoreDescriptor, base: u64)
    requires Reachable(env, s) && Recorded(env, s, d) && Protected(env, base) && base + BLOCK_SIZE <= MAX_U64 + 1
    ensures SnapshotBlock(s.img, d, base) == env.snap[base..base + BLOCK_SIZE]
  {
    BytesAreOriginal(env, s, d, base, SnapshotBlock(s.img, d, base));
  }

  /** The block reader on the volume as it is now returns the block as it was then. */
  method ReadProtectedBlock(ghost env: Env, ghost now: World, snapshot: Snapshot, offset: u64)
    returns (out: array<byte>)
    requires snapshot.Valid() && snapshot.reader.data == now.img
    requires Reachable(env, now) && Recorded(env, now, snapshot.store) && Protected(env, BaseOf(offset))
    modifies snapshot.reader
    ensures fresh(out) && out[..] == env.snap[BaseOf(offset)..BaseOf(offset) + BLOCK_SIZE]
  {
    out := snapshot.ReadBlock(offset);
    BlockIsOriginal(env, now, snapshot.store, BaseOf(offset));
  }
}
