/** The store information record: fixed fields, then two length-prefixed UTF-16LE runs. */
module StoreInfos {
  import opened Bytes
  import opened Descriptors

  /** Machine strings are kept as 16-bit code units. */
  datatype StoreInfo = StoreInfo(
    shadowCopyId: Guid,
    shadowCopySetId: Guid,
    snapshotContext: u32,
    attributes: u32,
    operatingMachine: seq<u16>,
    serviceMachine: seq<u16>)
  {
    predicate IsPersistent() { Bit(attributes, 0) }
  }

  /** The code units of a byte run; a trailing odd byte is ignored. */
  function Units(b: seq<byte>): seq<u16> {
    if |b| < 2 then [] else [LeU16(b, 0)] + Units(b[2..])
  }

  function EncodeUnits(u: seq<u16>): (b: seq<byte>)
    ensures |b| == 2 * |u|
  {
    if u == [] then [] else Encode(u[0], 2) + EncodeUnits(u[1..])
  }

  lemma {:induction false} UnitsOfEncode(u: seq<u16>)
    ensures Units(EncodeUnits(u)) == u
  {
    if u != [] {
      UnitsOfEncode(u[1..]);
      PowersOf256();
      FieldOfEncode([], u[0], 2, EncodeUnits(u[1..]));
      assert [] + Encode(u[0], 2) + EncodeUnits(u[1..]) == EncodeUnits(u);
      assert EncodeUnits(u)[2..] == EncodeUnits(u[1..]);
    }
  }

  /** The run of `len` bytes at `off`, or nothing when it does not lie wholly in the buffer. */
  function ReadString(buf: seq<byte>, off: nat, len: nat): seq<u16> {
    if off + len <= |buf| then Units(buf[off..off + len]) else []
  }

  function Parse(buf: seq<byte>): StoreInfo {
    var opSize := LeU16(buf, 64);
    var svcSizeOff := 66 + opSize;
    var svcSize := LeU16(buf, svcSizeOff);
    StoreInfo(
      ReadGuid(buf, 16), ReadGuid(buf, 32), LeU32(buf, 48), LeU32(buf, 56),
      ReadString(buf, 66, opSize), ReadString(buf, svcSizeOff + 2, svcSize))
  }

  /** The documented layout; the bytes a reader skips are arbitrary. */
  datatype Record = Record(
    lead: Guid, id: Guid, setId: Guid, context: u32, skip1: u32, attributes: u32, skip2: u32,
    op: seq<byte>, svc: seq<byte>)

  predicate Writable(r: Record) {
    |r.op| < 0x1_0000 && |r.svc| < 0x1_0000
  }

  function Fixed(r: Record): (b: seq<byte>)
    ensures |b| == 64
  {
    r.lead + r.id + r.setId + Encode(r.context, 4) + Encode(r.skip1, 4) + Encode(r.attributes, 4) + Encode(r.skip2, 4)
  }

  function Serialize(r: Record): (b: seq<byte>)
    ensures |b| == 68 + |r.op| + |r.svc|
  {
    Fixed(r) + Encode(|r.op|, 2) + r.op + Encode(|r.svc|, 2) + r.svc
  }

  lemma FixedFields(r: Record)
    ensures var b := Fixed(r);
      b[16..32] == r.id && b[32..48] == r.setId && Field(b, 48, 4) == r.context && Field(b, 56, 4) == r.attributes
  {
    PowersOf256();
    var guids := r.lead + r.id + r.setId;
    var context, skip1 := Encode(r.context, 4), Encode(r.skip1, 4);
    var attributes, skip2 := Encode(r.attributes, 4), Encode(r.skip2, 4);
    FieldOfEncode(guids, r.context, 4, skip1 + attributes + skip2);
    assert Fixed(r) == guids + context + (skip1 + attributes + skip2);
    FieldOfEncode(guids + context + skip1, r.attributes, 4, skip2);
    assert guids[16..32] == r.id && guids[32..48] == r.setId;
  }

  /** A field of a truncated buffer is the whole buffer's, or 0 once it is cut. */
  lemma FieldOfPrefix(b: seq<byte>, n: nat, off: nat, width: nat)
    requires n <= |b|
    ensures Field(b[..n], off, width) == if off + width <= n then Field(b, off, width) else 0
  {
    if off + width <= n {
      assert b[..n][off..off + width] == b[off..off + width];
    }
  }

  lemma SizeFields(r: Record)
    requires Writable(r)
    ensures var b := Serialize(r);
      Field(b, 64, 2) == |r.op| && b[66..66 + |r.op|] == r.op
      && Field(b, 66 + |r.op|, 2) == |r.svc| && b[68 + |r.op|..68 + |r.op| + |r.svc|] == r.svc
  {
    PowersOf256();
    var b := Serialize(r);
    var head, opSize, svcSize := Fixed(r), Encode(|r.op|, 2), Encode(|r.svc|, 2);
    FieldOfEncode(head, |r.op|, 2, r.op + svcSize + r.svc);
    assert b == head + opSize + (r.op + svcSize + r.svc);
    FieldOfEncode(head + opSize + r.op, |r.svc|, 2, r.svc);
    assert b == (head + opSize + r.op) + svcSize + r.svc;
  }

  /** What a buffer that starts like a record holds at the offsets a reader looks at. */
  predicate Holds(b: seq<byte>, r: Record) {
    && |b| == 68 + |r.op| + |r.svc|
    && b[16..32] == r.id && b[32..48] == r.setId && Field(b, 48, 4) == r.context && Field(b, 56, 4) == r.attributes
    && Field(b, 64, 2) == |r.op| && b[66..66 + |r.op|] == r.op
    && Field(b, 66 + |r.op|, 2) == |r.svc| && b[68 + |r.op|..68 + |r.op| + |r.svc|] == r.svc
  }

  lemma SerializedHolds(r: Record)
    requires Writable(r)
    ensures Holds(Serialize(r), r)
  {
    var b, fixed := Serialize(r), Fixed(r);
    FixedFields(r);
    SizeFields(r);
    assert b[..64] == fixed;
    assert b[16..32] == fixed[16..32] && b[32..48] == fixed[32..48];
    FieldOfPrefix(b, 64, 48, 4);
    FieldOfPrefix(b, 64, 56, 4);
  }

  /** A string of a truncated buffer is the whole buffer's, or empty once it is cut. */
  lemma StringOfPrefix(b: seq<byte>, n: nat, off: nat, s: seq<byte>)
    requires n <= |b| && off + |s| <= |b| && b[off..off + |s|] == s
    ensures ReadString(b[..n], off, |s|) == if off + |s| <= n then Units(s) else []
  {
    if off + |s| <= n {
      assert b[..n][off..off + |s|] == s;
    }
  }

  lemma GuidOfPrefix(b: seq<byte>, n: nat, off: nat)
    requires n <= |b| && off + 16 <= |b|
    ensures ReadGuid(b[..n], off) == if off + 16 <= n then b[off..off + 16] else seq(16, _ => 0)
  {
    if off + 16 <= n {
      assert b[..n][off..off + 16] == b[off..off + 16];
    }
  }

  lemma SizesOfPrefix(b: seq<byte>, n: nat, op: nat, svc: nat)
    requires n <= |b| && Field(b, 64, 2) == op && Field(b, 66 + op, 2) == svc
    ensures LeU16(b[..n], 64) == if 66 <= n then op else 0
    ensures 66 <= n ==> LeU16(b[..n], 66 + op) == if 68 + op <= n then svc else 0
    ensures n < 66 ==> LeU16(b[..n], 66) == 0
  {
    FieldOfPrefix(b, n, 64, 2);
    FieldOfPrefix(b, n, 66 + op, 2);
    FieldOfPrefix(b, n, 66, 2);
  }

  lemma StringsAre(c: seq<byte>, op: nat, svc: nat)
    requires LeU16(c, 64) == op && LeU16(c, 66 + op) == svc
    ensures Parse(c).operatingMachine == ReadString(c, 66, op)
    ensures Parse(c).serviceMachine == ReadString(c, 68 + op, svc)
  {
  }

  lemma StringsOfPrefix(b: seq<byte>, n: nat, op: nat, svc: nat)
    requires n <= |b| == 68 + op + svc && Field(b, 64, 2) == op && Field(b, 66 + op, 2) == svc
    ensures Parse(b[..n]).operatingMachine == ReadString(b[..n], 66, op)
    ensures Parse(b[..n]).serviceMachine == ReadString(b[..n], 68 + op, svc)
  {
    SizesOfPrefix(b, n, op, svc);
    if 68 + op <= n {
      StringsAre(b[..n], op, svc);
    } else if 66 <= n {
      StringsAre(b[..n], op, 0);
    } else {
      StringsAre(b[..n], 0, 0);
    }
  }

  lemma FixedOfPrefix(b: seq<byte>, n: nat)
    requires n <= |b| && 64 <= |b|
    ensures var x := Parse(b[..n]); var zero: Guid := seq(16, _ => 0);
      && x.shadowCopyId == (if 32 <= n then b[16..32] else zero)
      && x.shadowCopySetId == (if 48 <= n then b[32..48] else zero)
      && x.snapshotContext == (if 52 <= n then Field(b, 48, 4) else 0)
      && x.attributes == (if 60 <= n then Field(b, 56, 4) else 0)
  {
    GuidOfPrefix(b, n, 16);
    GuidOfPrefix(b, n, 32);
    FieldOfPrefix(b, n, 48, 4);
    FieldOfPrefix(b, n, 56, 4);
  }

  lemma MachinesOfPrefix(b: seq<byte>, n: nat, op: seq<byte>, svc: seq<byte>)
    requires n <= |b| == 68 + |op| + |svc| && b[66..66 + |op|] == op && b[68 + |op|..68 + |op| + |svc|] == svc
    requires Field(b, 64, 2) == |op| && Field(b, 66 + |op|, 2) == |svc|
    ensures Parse(b[..n]).operatingMachine == if 66 + |op| <= n then Units(op) else []
    ensures Parse(b[..n]).serviceMachine == if 68 + |op| + |svc| <= n then Units(svc) else []
  {
    StringsOfPrefix(b, n, |op|, |svc|);
    StringOfPrefix(b, n, 66, op);
    StringOfPrefix(b, n, 68 + |op|, svc);
  }

  /** The record cut after `n` bytes: each field and string that is wholly there, and an empty value otherwise. */
  function Truncated(r: Record, n: nat): StoreInfo {
    var zero: Guid := seq(16, _ => 0);
    StoreInfo(
      if 32 <= n then r.id else zero,
      if 48 <= n then r.setId else zero,
      if 52 <= n then r.context else 0,
      if 60 <= n then r.attributes else 0,
      if 66 + |r.op| <= n then Units(r.op) else [],
      if 68 + |r.op| + |r.svc| <= n then Units(r.svc) else [])
  }

  /** Cut anywhere, a written record yields what is wholly there. */
  lemma ParseOfTruncated(r: Record, n: nat)
    requires Writable(r) && n <= |Serialize(r)|
    ensures Parse(Serialize(r)[..n]) == Truncated(r, n)
  {
    SerializedHolds(r);
    FixedOfPrefix(Serialize(r), n);
    MachinesOfPrefix(Serialize(r), n, r.op, r.svc);
  }

  /** Parsing inverts writing, for machine strings of any byte length up to 65535. */
  lemma ParseOfSerialize(r: Record)
    requires Writable(r)
    ensures Parse(Serialize(r)) == StoreInfo(r.id, r.setId, r.context, r.attributes, Units(r.op), Units(r.svc))
  {
    ParseOfTruncated(r, |Serialize(r)|);
    assert Serialize(r)[..|Serialize(r)|] == Serialize(r);
  }
}
