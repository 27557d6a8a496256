/** Diff-area block descriptors: one 32-byte record, and the list one block holds. */
module Descriptors {
  import opened Bytes

  const BLOCK_SIZE: nat := 16384
  const STORE_BLOCK_HEADER_LEN: nat := 128
  const BLOCK_DESCRIPTOR_LEN: nat := 32

  type Block = b: seq<byte> | |b| == BLOCK_SIZE witness Zeros(BLOCK_SIZE)

  function Zeros(n: nat): seq<byte> {
    seq(n, _ => 0)
  }

  /** Maps an original volume block to the copy saved in the store. */
  datatype BlockDescriptor = BlockDescriptor(
    originalOffset: u64,
    relativeStoreOffset: u64,
    storeOffset: u64,
    flags: u32,
    allocationBitmap: u32)
  {
    predicate IsForwarder() { Bit(flags, 0) }
    predicate IsOverlay() { Bit(flags, 1) }
    predicate IsNotUsed() { Bit(flags, 2) }

    /** Saves a whole block. */
    predicate IsPlain() { !IsForwarder() && !IsOverlay() && !IsNotUsed() }

    /** Saves the sub-blocks its allocation bitmap selects; the forwarder bit does not matter. */
    predicate IsActiveOverlay() { IsOverlay() && !IsNotUsed() }

    /** Contributes no data. */
    predicate IsInert() { !IsPlain() && !IsActiveOverlay() }
  }

  const ZERO_DESCRIPTOR := BlockDescriptor(0, 0, 0, 0, 0)

  function Parse(buf: seq<byte>): BlockDescriptor {
    BlockDescriptor(LeU64(buf, 0), LeU64(buf, 8), LeU64(buf, 16), LeU32(buf, 24), LeU32(buf, 28))
  }

  function EncodeDescriptor(d: BlockDescriptor): (b: seq<byte>)
    ensures |b| == BLOCK_DESCRIPTOR_LEN
  {
    Encode(d.originalOffset, 8) + Encode(d.relativeStoreOffset, 8) + Encode(d.storeOffset, 8)
    + Encode(d.flags, 4) + Encode(d.allocationBitmap, 4)
  }

  lemma PowersOf256()
    ensures Pow256(2) == 0x1_0000
    ensures Pow256(4) == 0x1_0000_0000
    ensures Pow256(8) == 0x1_0000_0000_0000_0000
  {
  }

  lemma ParseOfEncode(d: BlockDescriptor)
    ensures Parse(EncodeDescriptor(d)) == d
  {
    PowersOf256();
    var b := EncodeDescriptor(d);
    var e0, e1, e2 := Encode(d.originalOffset, 8), Encode(d.relativeStoreOffset, 8), Encode(d.storeOffset, 8);
    var e3, e4 := Encode(d.flags, 4), Encode(d.allocationBitmap, 4);
    assert b == [] + e0 + (e1 + e2 + e3 + e4);
    FieldOfEncode([], d.originalOffset, 8, e1 + e2 + e3 + e4);
    assert b == e0 + e1 + (e2 + e3 + e4);
    FieldOfEncode(e0, d.relativeStoreOffset, 8, e2 + e3 + e4);
    assert b == (e0 + e1) + e2 + (e3 + e4);
    FieldOfEncode(e0 + e1, d.storeOffset, 8, e3 + e4);
    FieldOfEncode(e0 + e1 + e2, d.flags, 4, e4);
    assert b == (e0 + e1 + e2 + e3) + e4 + [];
    FieldOfEncode(e0 + e1 + e2 + e3, d.allocationBitmap, 4, []);
  }

  lemma EncodeOfParse(buf: seq<byte>)
    requires |buf| == BLOCK_DESCRIPTOR_LEN
    ensures EncodeDescriptor(Parse(buf)) == buf
  {
    EncodeOfValue(buf[0..8]);
    EncodeOfValue(buf[8..16]);
    EncodeOfValue(buf[16..24]);
    EncodeOfValue(buf[24..28]);
    EncodeOfValue(buf[28..32]);
    JoinSlices(buf);
  }

  lemma JoinSlices(buf: seq<byte>)
    requires |buf| == BLOCK_DESCRIPTOR_LEN
    ensures buf[0..8] + buf[8..16] + buf[16..24] + buf[24..28] + buf[28..32] == buf
  {
  }

  predicate AllZero(b: seq<byte>) {
    forall i | 0 <= i < |b| :: b[i] == 0
  }

  lemma {:induction false} ValueOfZeros(b: seq<byte>)
    requires AllZero(b)
    ensures Value(b) == 0
  {
    if b != [] {
      ValueOfZeros(b[1..]);
    }
  }

  lemma {:induction false} EncodeOfZero(width: nat)
    ensures AllZero(Encode(0, width))
  {
    if width > 0 {
      EncodeOfZero(width - 1);
    }
  }

  /** The terminator test on raw bytes stops at the all-zero descriptor and at no other. */
  lemma TerminatorIsZeroDescriptor(buf: seq<byte>)
    requires |buf| == BLOCK_DESCRIPTOR_LEN
    ensures AllZero(buf) <==> Parse(buf) == ZERO_DESCRIPTOR
  {
    if AllZero(buf) {
      ValueOfZeros(buf[0..8]);
      ValueOfZeros(buf[8..16]);
      ValueOfZeros(buf[16..24]);
      ValueOfZeros(buf[24..28]);
      ValueOfZeros(buf[28..32]);
    }
    if Parse(buf) == ZERO_DESCRIPTOR {
      EncodeOfParse(buf);
      EncodeOfZero(8);
      EncodeOfZero(4);
    }
  }

  /** The descriptors of one diff-area block from byte `off` on: up to the first all-zero record. */
  function Scan(block: Block, off: nat): seq<BlockDescriptor>
    decreases BLOCK_SIZE - off
  {
    if off + BLOCK_DESCRIPTOR_LEN > BLOCK_SIZE || AllZero(block[off..off + BLOCK_DESCRIPTOR_LEN]) then []
    else [Parse(block[off..off + BLOCK_DESCRIPTOR_LEN])] + Scan(block, off + BLOCK_DESCRIPTOR_LEN)
  }

  function EncodeAll(ds: seq<BlockDescriptor>): (b: seq<byte>)
    ensures |b| == BLOCK_DESCRIPTOR_LEN * |ds|
  {
    if ds == [] then [] else EncodeDescriptor(ds[0]) + EncodeAll(ds[1..])
  }

  lemma Regroup(a: seq<byte>, b: seq<byte>, c: seq<byte>, d: seq<byte>)
    ensures a + (b + c) + d == (a + b) + c + d
    ensures (a + (b + c) + d)[|a|..|a| + |b|] == b
  {
  }

  /** What may follow the last descriptor of a block: an all-zero record and then anything, or too little for one. */
  predicate EndsList(rest: seq<byte>) {
    |rest| < BLOCK_DESCRIPTOR_LEN || AllZero(rest[..BLOCK_DESCRIPTOR_LEN])
  }

  /** Any list of non-zero descriptors that fits in a block survives being written and scanned back. */
  lemma {:induction false} ScanOfEncodeAll(before: seq<byte>, ds: seq<BlockDescriptor>, rest: seq<byte>)
    requires |before| + BLOCK_DESCRIPTOR_LEN * |ds| + |rest| == BLOCK_SIZE && EndsList(rest)
    requires ZERO_DESCRIPTOR !in ds
    ensures Scan(before + EncodeAll(ds) + rest, |before|) == ds
    decreases |ds|
  {
    var block := before + EncodeAll(ds) + rest;
    var off := |before|;
    if ds == [] {
      if off + BLOCK_DESCRIPTOR_LEN <= BLOCK_SIZE {
        assert block[off..off + BLOCK_DESCRIPTOR_LEN] == rest[..BLOCK_DESCRIPTOR_LEN];
      }
    } else {
      var first, others := EncodeDescriptor(ds[0]), EncodeAll(ds[1..]);
      assert ds[0] in ds;
      Regroup(before, first, others, rest);
      ParseOfEncode(ds[0]);
      TerminatorIsZeroDescriptor(first);
      ScanOfEncodeAll(before + first, ds[1..], rest);
    }
  }
}
