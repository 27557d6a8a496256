/**
 The snapshot's view of the volume, byte by byte, evaluated on the flat descriptor list and the
 bitmap. This is the documented rule: no index, no block buffer and no merge order appear in it.
 */
module Views {
  import opened Bitmaps
  import opened BlockMaps
  import opened Bytes
  import opened Chains
  import opened Descriptors
  import opened Wrappers

  const SUB_BLOCK_COUNT: nat := 32
  const SUB_BLOCK_SIZE: nat := 512

  function BaseOf(p: u64): (base: u64)
    ensures base <= p < base + BLOCK_SIZE && base % BLOCK_SIZE == 0
    ensures base + BLOCK_SIZE <= MAX_U64 + 1
  {
    p / BLOCK_SIZE * BLOCK_SIZE
  }

  lemma BaseOfBase(p: u64)
    ensures BaseOf(BaseOf(p)) == BaseOf(p)
  {
  }

  lemma BaseOfSum(base: u64, w: nat)
    requires base % BLOCK_SIZE == 0 && w < BLOCK_SIZE && base + w <= MAX_U64
    ensures BaseOf(base + w) == base && (base + w) / BLOCK_SIZE == base / BLOCK_SIZE
  {
  }

  /** Byte `w` of the block at `o`; a block that does not fit in the volume reads as zeros. */
  function Source(img: Image, o: u64, w: nat): byte
    requires w < BLOCK_SIZE
  {
    if InVolume(|img|, o) then img[o + w] else 0
  }

  /** `d` supplies byte `w` of the block at `base` from its store block. */
  predicate Patches(d: BlockDescriptor, size: nat, base: u64, w: nat) {
    && d.originalOffset == base
    && d.IsActiveOverlay()
    && InVolume(size, d.storeOffset)
    && Bit(d.allocationBitmap, w / SUB_BLOCK_SIZE)
  }

  predicate PlainAt(d: BlockDescriptor, base: u64) {
    d.originalOffset == base && d.IsPlain()
  }

  function LastPatch(ds: seq<BlockDescriptor>, size: nat, base: u64, w: nat): (r: Option<BlockDescriptor>)
    ensures r.Some? ==> Patches(r.value, size, base, w)
  {
    if ds == [] then None
    else if Patches(ds[|ds| - 1], size, base, w) then Some(ds[|ds| - 1])
    else LastPatch(ds[..|ds| - 1], size, base, w)
  }

  function LastPlain(ds: seq<BlockDescriptor>, base: u64): (r: Option<BlockDescriptor>)
    ensures r.Some? ==> PlainAt(r.value, base)
  {
    if ds == [] then None
    else if PlainAt(ds[|ds| - 1], base) then Some(ds[|ds| - 1])
    else LastPlain(ds[..|ds| - 1], base)
  }

  /** Where the unpatched bytes of a described block come from. */
  function BaseSource(ds: seq<BlockDescriptor>, base: u64): u64 {
    match LastPlain(ds, base)
    case Some(d) => d.storeOffset
    case None => base
  }

  /** Byte `p` of the volume as it stood when the snapshot was taken. */
  function View(img: Image, ds: seq<BlockDescriptor>, bitmap: seq<byte>, p: u64): byte {
    var base := BaseOf(p);
    match LastPatch(ds, |img|, base, p - base)
    case Some(d) => img[d.storeOffset + (p - base)]
    case None =>
      if Select(ds, base) != [] then Source(img, BaseSource(ds, base), p - base)
      else if IsUnallocated(bitmap, p / BLOCK_SIZE) then 0
      else Source(img, base, p - base)
  }

  function ViewBlock(img: Image, ds: seq<BlockDescriptor>, bitmap: seq<byte>, base: u64): (b: seq<byte>)
    requires base + BLOCK_SIZE <= MAX_U64 + 1
    ensures |b| == BLOCK_SIZE
    ensures forall w | 0 <= w < BLOCK_SIZE :: b[w] == View(img, ds, bitmap, base + w)
  {
    seq<byte>(BLOCK_SIZE, w requires 0 <= w < BLOCK_SIZE => View(img, ds, bitmap, base + w))
  }

  // ---------- Last writer wins ----------

  lemma {:induction false} LastPatchIsLast(ds: seq<BlockDescriptor>, size: nat, base: u64, w: nat, i: nat)
    requires i < |ds| && Patches(ds[i], size, base, w)
    requires forall j | i < j < |ds| :: !Patches(ds[j], size, base, w)
    ensures LastPatch(ds, size, base, w) == Some(ds[i])
  {
    if i < |ds| - 1 {
      LastPatchIsLast(ds[..|ds| - 1], size, base, w, i);
    }
  }

  lemma {:induction false} NoPatch(ds: seq<BlockDescriptor>, size: nat, base: u64, w: nat)
    requires forall j | 0 <= j < |ds| :: !Patches(ds[j], size, base, w)
    ensures LastPatch(ds, size, base, w) == None
  {
    if ds != [] {
      NoPatch(ds[..|ds| - 1], size, base, w);
    }
  }

  lemma {:induction false} LastPlainIsLast(ds: seq<BlockDescriptor>, base: u64, i: nat)
    requires i < |ds| && PlainAt(ds[i], base)
    requires forall j | i < j < |ds| :: !PlainAt(ds[j], base)
    ensures LastPlain(ds, base) == Some(ds[i])
  {
    if i < |ds| - 1 {
      LastPlainIsLast(ds[..|ds| - 1], base, i);
    }
  }

  lemma {:induction false} NoPlain(ds: seq<BlockDescriptor>, base: u64)
    requires forall j | 0 <= j < |ds| :: !PlainAt(ds[j], base)
    ensures LastPlain(ds, base) == None
  {
    if ds != [] {
      NoPlain(ds[..|ds| - 1], base);
    }
  }

  // What a byte of the view is, in terms of positions in the descriptor list. The three cases
  // below are exhaustive: there is a last patch, or no patch but a last plain, or neither.

  lemma LastOverlayWins(img: Image, ds: seq<BlockDescriptor>, bitmap: seq<byte>, p: u64, i: nat)
    requires i < |ds| && Patches(ds[i], |img|, BaseOf(p), p - BaseOf(p))
    requires forall j | i < j < |ds| :: !Patches(ds[j], |img|, BaseOf(p), p - BaseOf(p))
    ensures View(img, ds, bitmap, p) == img[ds[i].storeOffset + (p - BaseOf(p))]
  {
    LastPatchIsLast(ds, |img|, BaseOf(p), p - BaseOf(p), i);
  }

  lemma LastPlainWins(img: Image, ds: seq<BlockDescriptor>, bitmap: seq<byte>, p: u64, i: nat)
    requires forall j | 0 <= j < |ds| :: !Patches(ds[j], |img|, BaseOf(p), p - BaseOf(p))
    requires i < |ds| && PlainAt(ds[i], BaseOf(p))
    requires forall j | i < j < |ds| :: !PlainAt(ds[j], BaseOf(p))
    ensures View(img, ds, bitmap, p) == Source(img, ds[i].storeOffset, p - BaseOf(p))
  {
    NoPatch(ds, |img|, BaseOf(p), p - BaseOf(p));
    LastPlainIsLast(ds, BaseOf(p), i);
    SelectEmpty(ds, BaseOf(p));
  }

  lemma LiveOrZero(img: Image, ds: seq<BlockDescriptor>, bitmap: seq<byte>, p: u64)
    requires forall j | 0 <= j < |ds| :: !Patches(ds[j], |img|, BaseOf(p), p - BaseOf(p)) && !PlainAt(ds[j], BaseOf(p))
    ensures View(img, ds, bitmap, p) ==
      if !Described(ds, BaseOf(p)) && IsUnallocated(bitmap, p / BLOCK_SIZE) then 0
      else Source(img, BaseOf(p), p - BaseOf(p))
  {
    NoPatch(ds, |img|, BaseOf(p), p - BaseOf(p));
    NoPlain(ds, BaseOf(p));
    SelectEmpty(ds, BaseOf(p));
  }

  // ---------- Only the index entry of a block matters ----------

  lemma LastOfAppend(s: seq<BlockDescriptor>, d: BlockDescriptor, size: nat, base: u64, w: nat)
    ensures LastPatch(s + [d], size, base, w)
         == if Patches(d, size, base, w) then Some(d) else LastPatch(s, size, base, w)
    ensures LastPlain(s + [d], base) == if PlainAt(d, base) then Some(d) else LastPlain(s, base)
    ensures Select(s + [d], base) == if d.originalOffset == base then Select(s, base) + [d] else Select(s, base)
    ensures Overlays(s + [d], base)
         == if d.originalOffset == base && d.IsActiveOverlay() then Overlays(s, base) + [d] else Overlays(s, base)
  {
    assert (s + [d])[..|s|] == s;
  }

  lemma {:induction false} SelectKeepsLast(ds: seq<BlockDescriptor>, size: nat, base: u64, w: nat)
    ensures LastPatch(Select(ds, base), size, base, w) == LastPatch(ds, size, base, w)
    ensures LastPlain(Select(ds, base), base) == LastPlain(ds, base)
    ensures Select(Select(ds, base), base) == Select(ds, base)
  {
    if ds != [] {
      var init, d := ds[..|ds| - 1], ds[|ds| - 1];
      assert ds == init + [d];
      SelectKeepsLast(init, size, base, w);
      LastOfAppend(init, d, size, base, w);
      LastOfAppend(Select(init, base), d, size, base, w);
    }
  }

  lemma ViewOfSelect(img: Image, ds: seq<BlockDescriptor>, bitmap: seq<byte>, p: u64)
    ensures View(img, Select(ds, BaseOf(p)), bitmap, p) == View(img, ds, bitmap, p)
  {
    SelectKeepsLast(ds, |img|, BaseOf(p), p - BaseOf(p));
  }

  // ---------- What the view does not depend on ----------

  /** The active overlays of a block, in list order. */
  function Overlays(ds: seq<BlockDescriptor>, base: u64): seq<BlockDescriptor> {
    if ds == [] then []
    else
      var d := ds[|ds| - 1];
      Overlays(ds[..|ds| - 1], base) + if d.originalOffset == base && d.IsActiveOverlay() then [d] else []
  }

  lemma {:induction false} LastPatchOfOverlays(ds: seq<BlockDescriptor>, size: nat, base: u64, w: nat)
    ensures LastPatch(Overlays(ds, base), size, base, w) == LastPatch(ds, size, base, w)
  {
    if ds != [] {
      var init, d := ds[..|ds| - 1], ds[|ds| - 1];
      assert ds == init + [d];
      LastPatchOfOverlays(init, size, base, w);
      LastOfAppend(init, d, size, base, w);
      LastOfAppend(Overlays(init, base), d, size, base, w);
    }
  }

  /** The view depends on the last plain and the ordered overlays of the block, and on nothing else in the list. */
  lemma ViewDependsOnEssence(img: Image, a: seq<BlockDescriptor>, b: seq<BlockDescriptor>, bitmap: seq<byte>, p: u64)
    requires var base := BaseOf(p);
      && Overlays(a, base) == Overlays(b, base)
      && LastPlain(a, base) == LastPlain(b, base)
      && (Described(a, base) <==> Described(b, base))
    ensures View(img, a, bitmap, p) == View(img, b, bitmap, p)
  {
    var base := BaseOf(p);
    LastPatchOfOverlays(a, |img|, base, p - base);
    LastPatchOfOverlays(b, |img|, base, p - base);
    SelectEmpty(a, base);
    SelectEmpty(b, base);
  }

  lemma {:induction false} Appended(a: seq<BlockDescriptor>, b: seq<BlockDescriptor>, size: nat, base: u64, w: nat)
    ensures LastPatch(a + b, size, base, w)
         == (if LastPatch(b, size, base, w).Some? then LastPatch(b, size, base, w) else LastPatch(a, size, base, w))
    ensures LastPlain(a + b, base) == if LastPlain(b, base).Some? then LastPlain(b, base) else LastPlain(a, base)
  {
    if b == [] {
      assert a + b == a;
    } else {
      var n := |b| - 1;
      Appended(a, b[..n], size, base, w);
      assert (a + b)[..|a| + n] == a + b[..n];
    }
  }

  /** Two neighbours may swap places unless both are plain, or both are overlays that share a sub-block. */
  predicate Independent(c: BlockDescriptor, d: BlockDescriptor) {
    && !(c.IsPlain() && d.IsPlain())
    && !(c.IsActiveOverlay() && d.IsActiveOverlay()
         && exists i | 0 <= i < SUB_BLOCK_COUNT :: Bit(c.allocationBitmap, i) && Bit(d.allocationBitmap, i))
  }

  /** Moving a plain past an overlay, or two overlays with disjoint allocations past each other, changes no byte. */
  lemma IndependentNeighboursCommute(
    img: Image, a: seq<BlockDescriptor>, c: BlockDescriptor, d: BlockDescriptor, b: seq<BlockDescriptor>,
    bitmap: seq<byte>, p: u64)
    requires Independent(c, d)
    ensures View(img, a + [c, d] + b, bitmap, p) == View(img, a + [d, c] + b, bitmap, p)
  {
    var base := BaseOf(p);
    var w := p - base;
    assert 0 <= w / SUB_BLOCK_SIZE < SUB_BLOCK_COUNT;
    SameTail(a, [c, d], [d, c], b, |img|, base, w) by {
      PairLast(c, d, |img|, base, w);
      PairLast(d, c, |img|, base, w);
    }
  }

  lemma PairLast(c: BlockDescriptor, d: BlockDescriptor, size: nat, base: u64, w: nat)
    ensures LastPatch([c, d], size, base, w) == if Patches(d, size, base, w) then Some(d)
      else if Patches(c, size, base, w) then Some(c) else None
    ensures LastPlain([c, d], base) == if PlainAt(d, base) then Some(d) else if PlainAt(c, base) then Some(c) else None
    ensures Select([c, d], base) != [] <==> c.originalOffset == base || d.originalOffset == base
  {
    assert [c, d][..1] == [c] && [c][..0] == [];
    assert LastPatch([c], size, base, w) == if Patches(c, size, base, w) then Some(c) else LastPatch([], size, base, w);
    assert LastPlain([c], base) == if PlainAt(c, base) then Some(c) else LastPlain([], base);
    assert Select([c], base) == Select([], base) + if c.originalOffset == base then [c] else [];
  }

  lemma SameTail(
    a: seq<BlockDescriptor>, m: seq<BlockDescriptor>, m': seq<BlockDescriptor>, b: seq<BlockDescriptor>,
    size: nat, base: u64, w: nat)
    requires LastPatch(m, size, base, w) == LastPatch(m', size, base, w)
    requires LastPlain(m, base) == LastPlain(m', base)
    requires Select(m, base) != [] <==> Select(m', base) != []
    ensures LastPatch(a + m + b, size, base, w) == LastPatch(a + m' + b, size, base, w)
    ensures LastPlain(a + m + b, base) == LastPlain(a + m' + b, base)
    ensures Select(a + m + b, base) != [] <==> Select(a + m' + b, base) != []
  {
    Appended(a, m, size, base, w);
    Appended(a, m', size, base, w);
    Appended(a + m, b, size, base, w);
    Appended(a + m', b, size, base, w);
    SelectAppend(a, m, base);
    SelectAppend(a, m', base);
    SelectAppend(a + m, b, base);
    SelectAppend(a + m', b, base);
  }

  /**
   Deleting a descriptor that contributes no data changes a byte of its block exactly when it
   was the block's only descriptor, the block is marked unallocated and the live byte is not zero:
   an inert descriptor still turns the bitmap path off.
   */
  lemma InertDescriptorOnlyHidesBitmap(
    img: Image, a: seq<BlockDescriptor>, d: BlockDescriptor, b: seq<BlockDescriptor>, bitmap: seq<byte>, p: u64)
    requires d.IsInert()
    ensures View(img, a + [d] + b, bitmap, p) == View(img, a + b, bitmap, p) <==>
      !(d.originalOffset == BaseOf(p) && !Described(a + b, BaseOf(p))
        && IsUnallocated(bitmap, p / BLOCK_SIZE) && Source(img, BaseOf(p), p - BaseOf(p)) != 0)
  {
    var base := BaseOf(p);
    var w := p - base;
    Appended(a, [d], |img|, base, w);
    Appended(a + [d], b, |img|, base, w);
    Appended(a, b, |img|, base, w);
    SelectAppend(a, [d], base);
    SelectAppend(a + [d], b, base);
    SelectAppend(a, b, base);
    SelectEmpty(a + b, base);
    assert [d][..0] == [];
    if !Described(a + b, base) {
      Undescribed(a + b, |img|, base, w);
    }
  }

  lemma {:induction false} Undescribed(ds: seq<BlockDescriptor>, size: nat, base: u64, w: nat)
    requires !Described(ds, base)
    ensures LastPatch(ds, size, base, w) == None && LastPlain(ds, base) == None
  {
    NoPatch(ds, size, base, w);
    NoPlain(ds, base);
  }

  // ---------- Blocks that do not fit in the volume ----------

  /**
   The index supplies byte `p` from address `q`: from the last overlay that patches it or, when none
   does, from the block's last plain descriptor if that one's store block fits.
   */
  ghost predicate SuppliedFrom(ds: seq<BlockDescriptor>, size: nat, p: u64, q: nat) {
    q < size && exists i | 0 <= i < |ds| ::
      SuppliedBy(ds, size, BaseOf(p), p - BaseOf(p), i) && q == ds[i].storeOffset + (p - BaseOf(p))
  }

  predicate SuppliedBy(ds: seq<BlockDescriptor>, size: nat, base: u64, w: nat, i: nat)
    requires i < |ds|
  {
    if Patches(ds[i], size, base, w) then forall j | i < j < |ds| :: !Patches(ds[j], size, base, w)
    else
      && PlainAt(ds[i], base) && InVolume(size, ds[i].storeOffset)
      && (forall j | 0 <= j < |ds| :: !Patches(ds[j], size, base, w))
      && (forall j | i < j < |ds| :: !PlainAt(ds[j], base))
  }

  lemma SuppliedByIsRead(img: Image, ds: seq<BlockDescriptor>, bitmap: seq<byte>, p: u64, i: nat)
    requires i < |ds| && SuppliedBy(ds, |img|, BaseOf(p), p - BaseOf(p), i)
    ensures View(img, ds, bitmap, p) == img[ds[i].storeOffset + (p - BaseOf(p))]
  {
    if Patches(ds[i], |img|, BaseOf(p), p - BaseOf(p)) {
      LastOverlayWins(img, ds, bitmap, p, i);
    } else {
      LastPlainWins(img, ds, bitmap, p, i);
    }
  }

  /** The byte supplied is what is read, in whatever block. */
  lemma SuppliedByteIsRead(img: Image, ds: seq<BlockDescriptor>, bitmap: seq<byte>, p: u64, q: nat)
    requires SuppliedFrom(ds, |img|, p, q)
    ensures View(img, ds, bitmap, p) == img[q]
  {
    var i :| 0 <= i < |ds| &&
      SuppliedBy(ds, |img|, BaseOf(p), p - BaseOf(p), i) && q == ds[i].storeOffset + (p - BaseOf(p));
    SuppliedByIsRead(img, ds, bitmap, p, i);
  }

  lemma {:induction false} LastPatcher(ds: seq<BlockDescriptor>, size: nat, base: u64, w: nat) returns (i: nat)
    requires exists j | 0 <= j < |ds| :: Patches(ds[j], size, base, w)
    ensures i < |ds| && Patches(ds[i], size, base, w)
    ensures forall j | i < j < |ds| :: !Patches(ds[j], size, base, w)
  {
    i := |ds| - 1;
    if !Patches(ds[i], size, base, w) {
      i := LastPatcher(ds[..i], size, base, w);
    }
  }

  lemma {:induction false} LastPlainer(ds: seq<BlockDescriptor>, base: u64) returns (i: nat)
    requires exists j | 0 <= j < |ds| :: PlainAt(ds[j], base)
    ensures i < |ds| && PlainAt(ds[i], base)
    ensures forall j | i < j < |ds| :: !PlainAt(ds[j], base)
  {
    i := |ds| - 1;
    if !PlainAt(ds[i], base) {
      i := LastPlainer(ds[..i], base);
    }
  }

  /** Nothing supplied, in a block that does not fit: the byte reads as zero. */
  lemma UnsuppliedByteIsZero(img: Image, ds: seq<BlockDescriptor>, bitmap: seq<byte>, p: u64)
    requires !InVolume(|img|, BaseOf(p))
    requires forall q: nat :: !SuppliedFrom(ds, |img|, p, q)
    ensures View(img, ds, bitmap, p) == 0
  {
    var base, w := BaseOf(p), p - BaseOf(p);
    if exists j | 0 <= j < |ds| :: Patches(ds[j], |img|, base, w) {
      var i := LastPatcher(ds, |img|, base, w);
      assert SuppliedBy(ds, |img|, base, w, i);
      assert SuppliedFrom(ds, |img|, p, ds[i].storeOffset + w);
    } else if exists j | 0 <= j < |ds| :: PlainAt(ds[j], base) {
      var i := LastPlainer(ds, base);
      LastPlainWins(img, ds, bitmap, p, i);
      if InVolume(|img|, ds[i].storeOffset) {
        assert SuppliedBy(ds, |img|, base, w, i);
        assert SuppliedFrom(ds, |img|, p, ds[i].storeOffset + w);
      }
    } else {
      LiveOrZero(img, ds, bitmap, p);
    }
  }

  /**
   The reader promises zeros past the end of the volume. A byte of a block that does not wholly fit
   reads as zero exactly when nothing keyed at the block supplies it, or what supplies it is zero: the
   index lookup is not range-checked.
   */
  lemma PastEndReadsZero(img: Image, ds: seq<BlockDescriptor>, bitmap: seq<byte>, p: u64)
    requires !InVolume(|img|, BaseOf(p))
    ensures View(img, ds, bitmap, p) == 0 <==> forall q: nat | SuppliedFrom(ds, |img|, p, q) :: img[q] == 0
  {
    if q: nat :| SuppliedFrom(ds, |img|, p, q) {
      SuppliedByteIsRead(img, ds, bitmap, p, q);
      forall q': nat | SuppliedFrom(ds, |img|, p, q') ensures img[q'] == View(img, ds, bitmap, p) {
        SuppliedByteIsRead(img, ds, bitmap, p, q');
      }
    } else {
      UnsuppliedByteIsZero(img, ds, bitmap, p);
    }
  }

  /**
   The documentation promises that an undescribed block in use is passed through live. Its bytes are,
   exactly when the whole block fits in the volume or the byte is zero anyway: a partial last
   block reads as zeros.
   */
  lemma PassthroughNeedsFullBlock(img: Image, ds: seq<BlockDescriptor>, bitmap: seq<byte>, p: u64)
    requires p < |img| && !Described(ds, BaseOf(p)) && !IsUnallocated(bitmap, p / BLOCK_SIZE)
    ensures View(img, ds, bitmap, p) == img[p] <==> InVolume(|img|, BaseOf(p)) || img[p] == 0
  {
    Undescribed(ds, |img|, BaseOf(p), p - BaseOf(p));
    SelectEmpty(ds, BaseOf(p));
  }
}
