/**
 Fields as plain arithmetic: every number on disk is the sum of its bytes times powers of two, and
 every flag is a remainder. The records are stated here by byte position and by value alone, so that
 no reader or parser is its own specification.
 */
module Numbers {
  import opened Bytes
  import opened Descriptors
  import opened Pairing
  import opened Wrappers
  import StoreInfos

  function Pow2(k: nat): (p: nat)
    ensures p > 0
  {
    if k == 0 then 1 else 2 * Pow2(k - 1)
  }

  /** The sum of `b[i] * 2^(8i)`. */
  function Number(b: seq<byte>): nat {
    if b == [] then 0 else Number(b[..|b| - 1]) + b[|b| - 1] * Pow2(8 * (|b| - 1))
  }

  /** The number in the `width` bytes at `at`; 0 when they are not all there. */
  function NumberAt(b: seq<byte>, at: nat, width: nat): nat {
    if at + width <= |b| then Number(b[at..at + width]) else 0
  }

  // ---------- Division by powers of two ----------

  lemma Quotient(n: nat, d: nat, q: nat, r: nat)
    requires n == q * d + r && r < d
    ensures n / d == q
  {
    if n / d < q {
      Times(n / d + 1, q, d);
    } else if n / d > q {
      Times(q + 1, n / d, d);
    }
  }

  lemma Times(a: nat, b: nat, d: nat)
    requires a <= b
    ensures a * d <= b * d
  {
  }

  lemma HalfFirst(n: nat, p: nat)
    requires p > 0
    ensures n / 2 / p == n / (2 * p)
  {
    var q, r := n / 2 / p, n / 2 % p;
    assert n / 2 == q * p + r;
    assert n == q * (2 * p) + (2 * r + n % 2);
    Quotient(n, 2 * p, q, 2 * r + n % 2);
  }

  /** Bit `i` of `n` is the remainder of `n / 2^i` by 2. */
  lemma {:induction false} BitIsRemainder(n: nat, i: nat)
    ensures Bit(n, i) <==> n / Pow2(i) % 2 == 1
  {
    if i > 0 {
      BitIsRemainder(n / 2, i - 1);
      HalfFirst(n, Pow2(i - 1));
    }
  }

  lemma LowBits(n: nat)
    ensures Bit(n, 0) <==> n % 2 == 1
    ensures Bit(n, 1) <==> n / 2 % 2 == 1
    ensures Bit(n, 2) <==> n / 4 % 2 == 1
  {
    HalfFirst(n, 2);
    assert Bit(n, 1) <==> Bit(n / 2, 0);
    assert Bit(n, 2) <==> Bit(n / 2, 1);
    assert Bit(n / 2, 1) <==> Bit(n / 2 / 2, 0);
  }

  /** The flags of a block descriptor, and the three kinds they make of it. */
  lemma FlagsAreRemainders(d: BlockDescriptor)
    ensures d.IsForwarder() <==> d.flags % 2 == 1
    ensures d.IsOverlay() <==> d.flags / 2 % 2 == 1
    ensures d.IsNotUsed() <==> d.flags / 4 % 2 == 1
    ensures d.IsPlain() <==> d.flags % 2 == 0 && d.flags / 2 % 2 == 0 && d.flags / 4 % 2 == 0
    ensures d.IsActiveOverlay() <==> d.flags / 2 % 2 == 1 && d.flags / 4 % 2 == 0
  {
    LowBits(d.flags);
  }

  // ---------- Little-endian fields ----------

  lemma {:induction false} PowersAgree(k: nat)
    ensures Pow256(k) == Pow2(8 * k)
  {
    if k > 0 {
      PowersAgree(k - 1);
      EightDoublings(8 * (k - 1));
    }
  }

  lemma EightDoublings(k: nat)
    ensures Pow2(k + 8) == 256 * Pow2(k)
  {
    assert Pow2(k + 2) == 4 * Pow2(k);
    assert Pow2(k + 4) == 16 * Pow2(k);
    assert Pow2(k + 6) == 64 * Pow2(k);
  }

  lemma {:induction false} ValueAppend(b: seq<byte>, x: byte)
    ensures Value(b + [x]) == Value(b) + x * Pow256(|b|)
  {
    if b == [] {
      assert [x][1..] == [];
      assert Value([x]) == x + 256 * Value([]);
    } else {
      ValueAppend(b[1..], x);
      assert (b + [x])[1..] == b[1..] + [x];
      Carry(x, Pow256(|b| - 1));
    }
  }

  lemma Carry(x: nat, p: nat)
    ensures 256 * (x * p) == x * (256 * p)
  {
  }

  lemma {:induction false} ValueIsNumber(b: seq<byte>)
    ensures Value(b) == Number(b)
  {
    if b != [] {
      var n := |b| - 1;
      ValueIsNumber(b[..n]);
      ValueAppend(b[..n], b[n]);
      PowersAgree(n);
      assert b == b[..n] + [b[n]];
    }
  }

  lemma FieldIsNumber(b: seq<byte>, at: nat, width: nat)
    ensures Field(b, at, width) == NumberAt(b, at, width)
  {
    if at + width <= |b| {
      ValueIsNumber(b[at..at + width]);
    }
  }

  /** A field of a slice is a field of the whole. */
  lemma NumberInSlice(b: seq<byte>, lo: nat, hi: nat, at: nat, width: nat)
    requires lo <= hi <= |b| && at + width <= hi - lo
    ensures NumberAt(b[lo..hi], at, width) == NumberAt(b, lo + at, width)
  {
    SliceOfSlice(b, lo, hi, at, at + width);
  }

  lemma SliceOfSlice<T>(s: seq<T>, lo: nat, hi: nat, i: nat, j: nat)
    requires lo <= hi <= |s| && i <= j <= hi - lo
    ensures s[lo..hi][i..j] == s[lo + i..lo + j]
  {
    forall k | 0 <= k < j - i ensures s[lo..hi][i..j][k] == s[lo + i..lo + j][k] {
      assert s[lo..hi][i..j][k] == s[lo..hi][i + k];
    }
  }

  lemma FieldInSlice(b: seq<byte>, lo: nat, hi: nat, at: nat, width: nat)
    requires lo <= hi <= |b| && at + width <= hi - lo
    ensures Field(b[lo..hi], at, width) == NumberAt(b, lo + at, width)
  {
    FieldIsNumber(b[lo..hi], at, width);
    NumberInSlice(b, lo, hi, at, width);
  }

  // ---------- Records ----------

  /** The 32 bytes at `at` are the record `d`. */
  predicate RecordAt(b: seq<byte>, at: nat, d: BlockDescriptor) {
    && at + 32 <= |b|
    && d.originalOffset == NumberAt(b, at, 8)
    && d.relativeStoreOffset == NumberAt(b, at + 8, 8)
    && d.storeOffset == NumberAt(b, at + 16, 8)
    && d.flags == NumberAt(b, at + 24, 4)
    && d.allocationBitmap == NumberAt(b, at + 28, 4)
  }

  lemma ParseInNumbers(b: seq<byte>, at: nat)
    requires at + 32 <= |b|
    ensures RecordAt(b, at, Parse(b[at..at + 32]))
  {
    FieldInSlice(b, at, at + 32, 0, 8);
    FieldInSlice(b, at, at + 32, 8, 8);
    FieldInSlice(b, at, at + 32, 16, 8);
    FieldInSlice(b, at, at + 32, 24, 4);
    FieldInSlice(b, at, at + 32, 28, 4);
  }

  /** The 128 bytes at `at` are the catalog entry `e`. */
  predicate EntryAt(b: seq<byte>, at: nat, e: CatalogEntry) {
    at + 128 <= |b| &&
    var kind := NumberAt(b, at, 8);
    match e
    case Empty => kind == 0
    case Snapshot(d) =>
      && kind == 2
      && d.volumeSize == NumberAt(b, at + 8, 8) && d.storeId == b[at + 16..at + 32]
      && d.sequence == NumberAt(b, at + 32, 8) && d.flags == NumberAt(b, at + 40, 8)
      && d.creationTime == NumberAt(b, at + 48, 8)
      && d.storeHeaderOffset == None && d.storeBitmapOffset == None
    case StorePointer(id, header, bitmap) =>
      && kind == 3 && id == b[at + 16..at + 32]
      && header == NumberAt(b, at + 32, 8) && bitmap == NumberAt(b, at + 48, 8)
    case Other => kind != 0 && kind != 2 && kind != 3
  }

  lemma ParseEntryInNumbers(b: seq<byte>, at: nat)
    requires at + 128 <= |b|
    ensures EntryAt(b, at, ParseEntry(b[at..at + 128]))
  {
    WordInSlice(b, at, at + 128, 0);
    WordInSlice(b, at, at + 128, 8);
    WordInSlice(b, at, at + 128, 32);
    WordInSlice(b, at, at + 128, 40);
    WordInSlice(b, at, at + 128, 48);
    SliceOfSlice(b, at, at + 128, 16, 32);
  }

  lemma WordInSlice(b: seq<byte>, lo: nat, hi: nat, at: nat)
    requires lo <= hi <= |b| && at + 8 <= hi - lo
    ensures LeU64(b[lo..hi], at) == NumberAt(b, lo + at, 8)
  {
    FieldInSlice(b, lo, hi, at, 8);
  }

  /** The code units of the `len` bytes at `at`, or none when they are not all there; a last odd byte is dropped. */
  predicate UnitsAt(b: seq<byte>, at: nat, len: nat, u: seq<u16>) {
    if at + len <= |b|
    then |u| == len / 2 && forall k | 0 <= k < len / 2 :: u[k] == NumberAt(b, at + 2 * k, 2)
    else u == []
  }

  /** What store information says of the bytes it is read from; the second string follows the first. */
  predicate InfoIn(b: seq<byte>, info: StoreInfos.StoreInfo) {
    var first := NumberAt(b, 64, 2);
    && info.shadowCopyId == (if 32 <= |b| then b[16..32] else seq(16, _ => 0))
    && info.shadowCopySetId == (if 48 <= |b| then b[32..48] else seq(16, _ => 0))
    && info.snapshotContext == NumberAt(b, 48, 4)
    && info.attributes == NumberAt(b, 56, 4)
    && UnitsAt(b, 66, first, info.operatingMachine)
    && UnitsAt(b, 68 + first, NumberAt(b, 66 + first, 2), info.serviceMachine)
  }

  lemma {:induction false} UnitsInNumbers(b: seq<byte>, k: nat)
    requires k < |b| / 2
    ensures |StoreInfos.Units(b)| == |b| / 2 && StoreInfos.Units(b)[k] == NumberAt(b, 2 * k, 2)
  {
    UnitsLength(b);
    if k == 0 {
      FieldIsNumber(b, 0, 2);
    } else {
      UnitsInNumbers(b[2..], k - 1);
      NumberInSlice(b, 2, |b|, 2 * (k - 1), 2);
      assert b[2..|b|] == b[2..];
    }
  }

  lemma {:induction false} UnitsLength(b: seq<byte>)
    ensures |StoreInfos.Units(b)| == |b| / 2
  {
    if |b| >= 2 {
      UnitsLength(b[2..]);
    }
  }

  lemma ReadStringInNumbers(b: seq<byte>, at: nat, len: nat)
    ensures UnitsAt(b, at, len, StoreInfos.ReadString(b, at, len))
  {
    if at + len <= |b| {
      var s := b[at..at + len];
      UnitsLength(s);
      forall k | 0 <= k < len / 2 ensures StoreInfos.Units(s)[k] == NumberAt(b, at + 2 * k, 2) {
        UnitsInNumbers(s, k);
        NumberInSlice(b, at, at + len, 2 * k, 2);
      }
    }
  }

  lemma ParseInfoInNumbers(b: seq<byte>)
    ensures InfoIn(b, StoreInfos.Parse(b))
  {
    FieldIsNumber(b, 48, 4);
    FieldIsNumber(b, 56, 4);
    FieldIsNumber(b, 64, 2);
    var first: nat := LeU16(b, 64);
    FieldIsNumber(b, 66 + first, 2);
    ReadStringInNumbers(b, 66, first);
    ReadStringInNumbers(b, 68 + first, LeU16(b, 66 + first));
  }

  /** A store is persistent iff its attributes are odd. */
  lemma PersistentIsOdd(info: StoreInfos.StoreInfo)
    ensures info.IsPersistent() <==> info.attributes % 2 == 1
  {
    BitIsRemainder(info.attributes, 0);
  }
}
