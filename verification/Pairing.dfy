/**
 Catalog entries and the pairing of store pointers with snapshot descriptors. A type-0x03
 entry is attached to the latest descriptor of its GUID that has none yet; the lemmas show this
 reverse search is bracket matching, one bracket language per GUID.
 */
module Pairing {
  import opened Bytes
  import opened Descriptors
  import opened Wrappers

  const CATALOG_BLOCK_HEADER_LEN: nat := 128
  const CATALOG_ENTRY_LEN: nat := 128

  datatype StoreDescriptor = StoreDescriptor(
    storeId: Guid,
    volumeSize: u64,
    sequence: u64,
    flags: u64,
    creationTime: u64,
    storeHeaderOffset: Option<u64>,
    storeBitmapOffset: Option<u64>)

  datatype CatalogEntry =
    | Empty
    | Snapshot(descriptor: StoreDescriptor)
    | StorePointer(storeId: Guid, storeHeaderOffset: u64, storeBitmapOffset: u64)
    | Other
  {
    /** Opens a bracket of `g`. */
    predicate Opens(g: Guid) { Snapshot? && descriptor.storeId == g }

    /** Closes a bracket of `g`. */
    predicate Closes(g: Guid) { StorePointer? && storeId == g }
  }

  function ParseEntry(buf: seq<byte>): CatalogEntry {
    var kind := LeU64(buf, 0);
    if kind == 0x02 then
      Snapshot(StoreDescriptor(
        ReadGuid(buf, 16), LeU64(buf, 8), LeU64(buf, 32), LeU64(buf, 40), LeU64(buf, 48), None, None))
    else if kind == 0x03 then StorePointer(ReadGuid(buf, 16), LeU64(buf, 32), LeU64(buf, 48))
    else if kind == 0x00 then Empty
    else Other
  }

  /** The entries of one catalog block from byte `off` on; the whole block has 127. */
  function EntriesFrom(block: Block, off: nat): (es: seq<CatalogEntry>)
    ensures off <= BLOCK_SIZE ==> |es| == (BLOCK_SIZE - off) / CATALOG_ENTRY_LEN
    decreases BLOCK_SIZE - off
  {
    if off + CATALOG_ENTRY_LEN > BLOCK_SIZE then []
    else [ParseEntry(block[off..off + CATALOG_ENTRY_LEN])] + EntriesFrom(block, off + CATALOG_ENTRY_LEN)
  }

  // ---------- What the walk does with each entry ----------

  predicate Unpaired(d: StoreDescriptor, g: Guid) {
    d.storeId == g && d.storeHeaderOffset == None
  }

  function Attach(d: StoreDescriptor, e: CatalogEntry): StoreDescriptor
    requires e.StorePointer?
  {
    d.(storeHeaderOffset := Some(e.storeHeaderOffset), storeBitmapOffset := Some(e.storeBitmapOffset))
  }

  /** Attaches the pointer `e` to the latest unpaired descriptor of its GUID; without one, drops it. */
  function Close(stores: seq<StoreDescriptor>, e: CatalogEntry): (r: seq<StoreDescriptor>)
    requires e.StorePointer?
    ensures |r| == |stores|
  {
    if stores == [] then []
    else
      var n := |stores| - 1;
      if Unpaired(stores[n], e.storeId) then stores[..n] + [Attach(stores[n], e)]
      else Close(stores[..n], e) + [stores[n]]
  }

  function Step(stores: seq<StoreDescriptor>, e: CatalogEntry): seq<StoreDescriptor> {
    match e
    case Snapshot(d) => stores + [d]
    case StorePointer(_, _, _) => Close(stores, e)
    case _ => stores
  }

  function Run(stores: seq<StoreDescriptor>, es: seq<CatalogEntry>): seq<StoreDescriptor>
    decreases |es|
  {
    if es == [] then stores else Run(Step(stores, es[0]), es[1..])
  }

  lemma {:induction false} RunAppend(stores: seq<StoreDescriptor>, a: seq<CatalogEntry>, b: seq<CatalogEntry>)
    ensures Run(stores, a + b) == Run(Run(stores, a), b)
    decreases |a|
  {
    if a == [] {
      assert a + b == b;
    } else {
      RunAppend(Step(stores, a[0]), a[1..], b);
      assert (a + b)[1..] == a[1..] + b;
    }
  }

  // ---------- Bracket matching ----------

  /** How many descriptors of `g` still wait for their pointer. */
  function Waiting(stores: seq<StoreDescriptor>, g: Guid): nat {
    if stores == [] then 0
    else Waiting(stores[..|stores| - 1], g) + if Unpaired(stores[|stores| - 1], g) then 1 else 0
  }

  /**
   The bracket matcher: the entry that closes an open bracket of `g` with `depth` brackets of `g`
   open inside it, found by counting depth forward. It knows nothing of the stores.
   */
  function Closer(es: seq<CatalogEntry>, g: Guid, depth: nat): (r: Option<CatalogEntry>)
    ensures r.Some? ==> r.value in es && r.value.Closes(g)
  {
    if es == [] then None
    else if es[0].Opens(g) then Closer(es[1..], g, depth + 1)
    else if es[0].Closes(g) then if depth == 0 then Some(es[0]) else Closer(es[1..], g, depth - 1)
    else Closer(es[1..], g, depth)
  }

  /** Descriptors come from the catalog without offsets. */
  predicate Raw(es: seq<CatalogEntry>) {
    forall i | 0 <= i < |es| && es[i].Snapshot? ::
      es[i].descriptor.storeHeaderOffset == None && es[i].descriptor.storeBitmapOffset == None
  }

  function Paired(d: StoreDescriptor, closer: Option<CatalogEntry>): StoreDescriptor
    requires closer.Some? ==> closer.value.StorePointer?
  {
    if closer.Some? then Attach(d, closer.value) else d
  }

  lemma {:induction false} CloseAtDepth(stores: seq<StoreDescriptor>, e: CatalogEntry, s: nat)
    requires e.StorePointer? && s < |stores|
    ensures var g := e.storeId; var depth := Waiting(stores[s + 1..], g); var r := Close(stores, e);
      && r[s] == (if depth == 0 && Unpaired(stores[s], g) then Attach(stores[s], e) else stores[s])
      && Waiting(r[s + 1..], g) == if depth == 0 then 0 else depth - 1
  {
    var g, r, n := e.storeId, Close(stores, e), |stores| - 1;
    if s < n {
      TakeOfDrop(stores, s + 1, n);
      TakeOfDrop(r, s + 1, n);
      if Unpaired(stores[n], g) {
        assert r[s + 1..n] == stores[s + 1..n];
      } else {
        CloseAtDepth(stores[..n], e, s);
        assert stores[..n][s + 1..] == stores[s + 1..n];
        assert Close(stores[..n], e)[s + 1..] == r[s + 1..n];
      }
    } else if !Unpaired(stores[n], g) {
      assert r[n] == stores[n];
    }
  }

  lemma {:induction false} CloseKeepsOthers(stores: seq<StoreDescriptor>, e: CatalogEntry, g: Guid)
    requires e.StorePointer? && e.storeId != g
    ensures Waiting(Close(stores, e), g) == Waiting(stores, g)
  {
    if stores != [] {
      var n := |stores| - 1;
      if !Unpaired(stores[n], e.storeId) {
        CloseKeepsOthers(stores[..n], e, g);
      }
      assert Close(stores, e)[..n] == if Unpaired(stores[n], e.storeId) then stores[..n] else Close(stores[..n], e);
    }
  }

  lemma {:induction false} CloseSuffix(stores: seq<StoreDescriptor>, e: CatalogEntry, g: Guid, s: nat)
    requires e.StorePointer? && e.storeId != g && s <= |stores|
    ensures Waiting(Close(stores, e)[s..], g) == Waiting(stores[s..], g)
    ensures s > 0 && stores[s - 1].storeId == g ==> Close(stores, e)[s - 1] == stores[s - 1]
  {
    var n := |stores| - 1;
    var r := Close(stores, e);
    if s <= n {
      TakeOfDrop(stores, s, n);
      TakeOfDrop(r, s, n);
      if Unpaired(stores[n], e.storeId) {
        assert r[..n] == stores[..n];
      } else {
        CloseSuffix(stores[..n], e, g, s);
        assert r[..n] == Close(stores[..n], e);
      }
    }
  }

  lemma OpenBehind(stores: seq<StoreDescriptor>, d: StoreDescriptor, s: nat)
    requires s < |stores|
    ensures (stores + [d])[s] == stores[s]
    ensures forall g: Guid ::
      Waiting((stores + [d])[s + 1..], g) == Waiting(stores[s + 1..], g) + (if Unpaired(d, g) then 1 else 0)
  {
    var behind := stores[s + 1..];
    assert (stores + [d])[s + 1..] == behind + [d];
    assert (behind + [d])[..|behind|] == behind;
  }

  /** What one entry does to the descriptor at `s` and to the brackets open behind it. */
  lemma StepAtDepth(stores: seq<StoreDescriptor>, e: CatalogEntry, s: nat)
    requires s < |stores| && Raw([e]) && stores[s].storeHeaderOffset == None
    ensures var g := stores[s].storeId; var depth := Waiting(stores[s + 1..], g); var next := Step(stores, e);
      && s < |next|
      && next[s] == (if e.Closes(g) && depth == 0 then Attach(stores[s], e) else stores[s])
      && Waiting(next[s + 1..], g)
         == depth + if e.Opens(g) then 1 else if e.Closes(g) && depth > 0 then -1 else 0
  {
    match e {
      case Snapshot(d) =>
        assert [e][0].descriptor.storeHeaderOffset == None;
        OpenBehind(stores, d, s);
      case StorePointer(id, _, _) =>
        if id == stores[s].storeId {
          CloseAtDepth(stores, e, s);
        } else {
          CloseSuffix(stores, e, stores[s].storeId, s + 1);
        }
      case _ =>
    }
  }

  /** From any point on, a waiting descriptor gets the pointer the bracket matcher finds at its depth. */
  lemma {:induction false} MatchFrom(stores: seq<StoreDescriptor>, es: seq<CatalogEntry>, s: nat)
    requires s < |stores| && Raw(es) && stores[s].storeHeaderOffset == None
    ensures var g := stores[s].storeId; var r := Run(stores, es);
      s < |r| && r[s] == Paired(stores[s], Closer(es, g, Waiting(stores[s + 1..], g)))
    decreases |es|
  {
    if es != [] {
      assert Raw([es[0]]) && Raw(es[1..]);
      StepAtDepth(stores, es[0], s);
      if Step(stores, es[0])[s].storeHeaderOffset == None {
        MatchFrom(Step(stores, es[0]), es[1..], s);
      } else {
        PairedStays(Step(stores, es[0]), es[1..], s);
      }
    }
  }

  lemma {:induction false} PairedStays(stores: seq<StoreDescriptor>, es: seq<CatalogEntry>, s: nat)
    requires s < |stores| && stores[s].storeHeaderOffset.Some?
    ensures s < |Run(stores, es)| && Run(stores, es)[s] == stores[s]
    decreases |es|
  {
    if es != [] {
      if es[0].StorePointer? {
        CloseAtDepth(stores, es[0], s);
      }
      PairedStays(Step(stores, es[0]), es[1..], s);
    }
  }

  function Snapshots(es: seq<CatalogEntry>): seq<StoreDescriptor> {
    if es == [] then []
    else Snapshots(es[..|es| - 1]) + if es[|es| - 1].Snapshot? then [es[|es| - 1].descriptor] else []
  }

  lemma {:induction false} RunLength(stores: seq<StoreDescriptor>, es: seq<CatalogEntry>)
    ensures |Run(stores, es)| == |stores| + |Snapshots(es)|
    decreases |es|
  {
    if es == [] {
    } else {
      var n := |es| - 1;
      RunLength(stores, es[..n]);
      RunAppend(stores, es[..n], [es[n]]);
      assert es == es[..n] + [es[n]];
      assert [es[n]][1..] == [];
      assert Run(Run(stores, es[..n]), [es[n]]) == Run(Step(Run(stores, es[..n]), es[n]), []);
    }
  }

  lemma RunCons(stores: seq<StoreDescriptor>, e: CatalogEntry, rest: seq<CatalogEntry>)
    ensures Run(stores, [e] + rest) == Run(Step(stores, e), rest)
  {
    assert ([e] + rest)[1..] == rest;
  }

  lemma RunThrough(es: seq<CatalogEntry>, i: nat)
    requires i < |es|
    ensures Run([], es) == Run(Step(Run([], es[..i]), es[i]), es[i + 1..])
  {
    var tail := [es[i]] + es[i + 1..];
    assert es == es[..i] + tail;
    RunAppend([], es[..i], tail);
    RunCons(Run([], es[..i]), es[i], es[i + 1..]);
  }

  /**
   The store made by the type-0x02 entry at `i` has the offsets of the type-0x03 entry that closes
   that bracket, and no offsets when nothing closes it.
   */
  lemma PairingIsBracketMatching(es: seq<CatalogEntry>, i: nat)
    requires Raw(es) && i < |es| && es[i].Snapshot?
    ensures var s := |Snapshots(es[..i])|; var d := es[i].descriptor;
      s < |Run([], es)| && Run([], es)[s] == Paired(d, Closer(es[i + 1..], d.storeId, 0))
  {
    var d, before := es[i].descriptor, Run([], es[..i]);
    RunLength([], es[..i]);
    RunThrough(es, i);
    assert d.storeHeaderOffset == None;
    MatchFrom(before + [d], es[i + 1..], |before|);
    assert (before + [d])[|before| + 1..] == [];
  }

  // ---------- Dropped pointers ----------

  /** The pointers of `g` that find no descriptor waiting. */
  function Dropped(stores: seq<StoreDescriptor>, es: seq<CatalogEntry>, g: Guid): nat
    decreases |es|
  {
    if es == [] then 0
    else (if es[0].Closes(g) && Waiting(stores, g) == 0 then 1 else 0) + Dropped(Step(stores, es[0]), es[1..], g)
  }

  /** Type-0x03 entries of `g` minus type-0x02 entries of `g`. */
  function Excess(es: seq<CatalogEntry>, g: Guid): int {
    if es == [] then 0
    else (if es[0].Closes(g) then 1 else if es[0].Opens(g) then -1 else 0) + Excess(es[1..], g)
  }

  lemma StepWaiting(stores: seq<StoreDescriptor>, e: CatalogEntry, g: Guid)
    requires e.Snapshot? ==> e.descriptor.storeHeaderOffset == None
    ensures Waiting(Step(stores, e), g) == Waiting(stores, g)
      + if e.Opens(g) then 1 else if e.Closes(g) && Waiting(stores, g) > 0 then -1 else 0
  {
    match e {
      case Snapshot(d) =>
        assert (stores + [d])[..|stores|] == stores;
      case StorePointer(id, _, _) =>
        if id == g {
          CloseWaiting(stores, e);
        } else {
          CloseKeepsOthers(stores, e, g);
        }
      case _ =>
    }
  }

  lemma {:induction false} CloseWaiting(stores: seq<StoreDescriptor>, e: CatalogEntry)
    requires e.StorePointer?
    ensures var before := Waiting(stores, e.storeId);
      Waiting(Close(stores, e), e.storeId) == if before == 0 then 0 else before - 1
  {
    if stores != [] {
      var n := |stores| - 1;
      if !Unpaired(stores[n], e.storeId) {
        CloseWaiting(stores[..n], e);
      }
      assert Close(stores, e)[..n] == if Unpaired(stores[n], e.storeId) then stores[..n] else Close(stores[..n], e);
    }
  }

  lemma ExcessOfPrefix(es: seq<CatalogEntry>, g: Guid, k: nat)
    requires 0 < k <= |es|
    ensures Excess(es[..k], g) == Excess([es[0]], g) + Excess(es[1..][..k - 1], g)
  {
    assert es[..k][1..] == es[1..][..k - 1];
    assert [es[0]][1..] == [];
  }

  lemma {:induction false} DroppedFrom(stores: seq<StoreDescriptor>, es: seq<CatalogEntry>, g: Guid) returns (k: nat)
    requires Raw(es)
    ensures forall m | 0 <= m <= |es| :: Excess(es[..m], g) - Waiting(stores, g) <= Dropped(stores, es, g)
    ensures k <= |es|
    ensures Dropped(stores, es, g) == 0 || Excess(es[..k], g) - Waiting(stores, g) == Dropped(stores, es, g)
    decreases |es|
  {
    k := 0;
    if es != [] {
      var rest := es[1..];
      StepWaiting(stores, es[0], g);
      var k' := DroppedFrom(Step(stores, es[0]), rest, g);
      assert [es[0]][1..] == [];
      forall m | 0 <= m <= |es| ensures Excess(es[..m], g) - Waiting(stores, g) <= Dropped(stores, es, g) {
        if m > 0 {
          ExcessOfPrefix(es, g, m);
        }
      }
      ExcessOfPrefix(es, g, k' + 1);
      ExcessOfPrefix(es, g, 1);
      k := if Dropped(Step(stores, es[0]), rest, g) == 0 then 1 else k' + 1;
    }
  }

  /**
   The number of dropped pointers of a GUID is the largest excess of type-0x03 over type-0x02
   entries over all prefixes; the empty prefix floors it at 0.
   */
  lemma DroppedIsLargestExcess(es: seq<CatalogEntry>, g: Guid)
    requires Raw(es)
    ensures forall m | 0 <= m <= |es| :: Excess(es[..m], g) <= Dropped([], es, g)
    ensures exists m | 0 <= m <= |es| :: Excess(es[..m], g) == Dropped([], es, g)
  {
    var k := DroppedFrom([], es, g);
    if Dropped([], es, g) == 0 {
      assert Excess(es[..0], g) == 0;
    } else {
      assert Excess(es[..k], g) == Dropped([], es, g);
    }
  }

  // ---------- One GUID does not disturb another ----------

  function StoresOf(stores: seq<StoreDescriptor>, g: Guid): seq<StoreDescriptor> {
    if stores == [] then []
    else StoresOf(stores[..|stores| - 1], g) + if stores[|stores| - 1].storeId == g then [stores[|stores| - 1]] else []
  }

  function EntriesOf(es: seq<CatalogEntry>, g: Guid): seq<CatalogEntry> {
    if es == [] then []
    else (if es[0].Opens(g) || es[0].Closes(g) then [es[0]] else []) + EntriesOf(es[1..], g)
  }

  lemma StoresOfAppend(stores: seq<StoreDescriptor>, d: StoreDescriptor, g: Guid)
    ensures StoresOf(stores + [d], g) == StoresOf(stores, g) + if d.storeId == g then [d] else []
  {
    assert (stores + [d])[..|stores|] == stores;
  }

  lemma CloseAppend(stores: seq<StoreDescriptor>, d: StoreDescriptor, e: CatalogEntry)
    requires e.StorePointer?
    ensures Close(stores + [d], e)
         == if Unpaired(d, e.storeId) then stores + [Attach(d, e)] else Close(stores, e) + [d]
  {
    assert (stores + [d])[..|stores|] == stores;
  }

  lemma {:induction false} CloseOfProjection(stores: seq<StoreDescriptor>, e: CatalogEntry, g: Guid)
    requires e.StorePointer?
    ensures StoresOf(Close(stores, e), g)
         == if e.storeId == g then Close(StoresOf(stores, g), e) else StoresOf(stores, g)
  {
    if stores != [] {
      var init, last := stores[..|stores| - 1], stores[|stores| - 1];
      CloseOfProjection(init, e, g);
      CloseAppend(StoresOf(init, g), last, e);
      StoresOfAppend(init, Attach(last, e), g);
      StoresOfAppend(Close(init, e), last, g);
      assert StoresOf(init, g) + [] == StoresOf(init, g);
    }
  }

  /** The stores of a GUID are what the entries of that GUID alone give. */
  lemma {:induction false} PairingIsPerGuid(stores: seq<StoreDescriptor>, es: seq<CatalogEntry>, g: Guid)
    ensures StoresOf(Run(stores, es), g) == Run(StoresOf(stores, g), EntriesOf(es, g))
    decreases |es|
  {
    if es != [] {
      var e := es[0];
      PairingIsPerGuid(Step(stores, e), es[1..], g);
      match e {
        case Snapshot(d) =>
          assert (stores + [d])[..|stores|] == stores;
        case StorePointer(_, _, _) =>
          CloseOfProjection(stores, e, g);
        case _ =>
      }
      assert StoresOf(stores, g) + [] == StoresOf(stores, g);
      if e.Opens(g) || e.Closes(g) {
        assert EntriesOf(es, g)[1..] == EntriesOf(es[1..], g);
      } else {
        assert EntriesOf(es, g) == EntriesOf(es[1..], g);
      }
    }
  }

  // ---------- Conservation ----------

  /** A descriptor as the catalog stated it, before any pointer was attached. */
  function Stated(d: StoreDescriptor): StoreDescriptor {
    d.(storeHeaderOffset := None, storeBitmapOffset := None)
  }

  function StatedAll(stores: seq<StoreDescriptor>): seq<StoreDescriptor> {
    if stores == [] then [] else StatedAll(stores[..|stores| - 1]) + [Stated(stores[|stores| - 1])]
  }

  predicate BothOrNeither(d: StoreDescriptor) {
    d.storeHeaderOffset.Some? <==> d.storeBitmapOffset.Some?
  }

  lemma {:induction false} CloseConserves(stores: seq<StoreDescriptor>, e: CatalogEntry)
    requires e.StorePointer? && forall i | 0 <= i < |stores| :: BothOrNeither(stores[i])
    ensures StatedAll(Close(stores, e)) == StatedAll(stores)
    ensures forall i | 0 <= i < |stores| :: BothOrNeither(Close(stores, e)[i])
  {
    if stores != [] {
      var n := |stores| - 1;
      CloseConserves(stores[..n], e);
      assert Close(stores, e)[..n] == if Unpaired(stores[n], e.storeId) then stores[..n] else Close(stores[..n], e);
    }
  }

  /**
   The stores are exactly the type-0x02 entries, in order and with their fields intact, and a
   store has a header offset iff it has a bitmap offset.
   */
  lemma {:induction false} StoresAreSnapshotEntries(es: seq<CatalogEntry>)
    requires Raw(es)
    ensures StatedAll(Run([], es)) == Snapshots(es)
    ensures forall i | 0 <= i < |Run([], es)| :: BothOrNeither(Run([], es)[i])
    decreases |es|
  {
    if es != [] {
      var n := |es| - 1;
      var init, e := es[..n], es[n];
      var before := Run([], init);
      StoresAreSnapshotEntries(init);
      assert es == init + [e] && [e][1..] == [];
      RunAppend([], init, [e]);
      assert Run(before, [e]) == Run(Step(before, e), []);
      match e {
        case Snapshot(d) =>
          assert (before + [d])[..|before|] == before;
          assert d.storeHeaderOffset == None && d.storeBitmapOffset == None;
        case StorePointer(_, _, _) =>
          CloseConserves(before, e);
        case _ =>
      }
    }
  }
}
