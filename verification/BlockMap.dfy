/** The diff area: the flat descriptor list of a store, and the index built over it. */
module BlockMaps {
  import opened Bytes
  import opened Chains
  import opened Descriptors
  import opened Readers
  import opened Wrappers

  type BlockMap = map<u64, seq<BlockDescriptor>>

  /** The descriptors of the blocks of a chain, in chain order. */
  function Flatten(img: Image, chain: seq<u64>): seq<BlockDescriptor> {
    if chain == [] then []
    else
      var n := |chain| - 1;
      Flatten(img, chain[..n])
      + if InVolume(|img|, chain[n]) then Scan(BlockAt(img, chain[n]), STORE_BLOCK_HEADER_LEN) else []
  }

  lemma FlattenAppend(img: Image, chain: seq<u64>, o: u64)
    requires InVolume(|img|, o)
    ensures Flatten(img, chain + [o]) == Flatten(img, chain) + Scan(BlockAt(img, o), STORE_BLOCK_HEADER_LEN)
  {
    assert (chain + [o])[..|chain|] == chain;
  }

  /** Every descriptor of the diff area whose first block is at `first`. */
  function DescriptorList(img: Image, first: u64): seq<BlockDescriptor> {
    Flatten(img, Visits(img, DiffAreaChain, first))
  }

  /** The descriptors for the volume block at `key`, in list order. */
  function Select(ds: seq<BlockDescriptor>, key: u64): seq<BlockDescriptor> {
    if ds == [] then []
    else
      var n := |ds| - 1;
      Select(ds[..n], key) + if ds[n].originalOffset == key then [ds[n]] else []
  }

  predicate Described(ds: seq<BlockDescriptor>, key: u64) {
    exists i | 0 <= i < |ds| :: ds[i].originalOffset == key
  }

  /** `m` files every descriptor of `ds` under its key, in list order, and has no empty entry. */
  ghost predicate IsIndex(m: BlockMap, ds: seq<BlockDescriptor>) {
    && (forall key: u64 :: key in m <==> Described(ds, key))
    && (forall key: u64 | key in m :: m[key] == Select(ds, key))
  }

  lemma {:induction false} SelectEmpty(ds: seq<BlockDescriptor>, key: u64)
    ensures Select(ds, key) != [] <==> Described(ds, key)
  {
    if ds != [] {
      var n := |ds| - 1;
      SelectEmpty(ds[..n], key);
      assert forall i | 0 <= i < n :: ds[..n][i] == ds[i];
      assert Described(ds, key) <==> Described(ds[..n], key) || ds[n].originalOffset == key;
    }
  }

  lemma {:induction false} SelectAppend(a: seq<BlockDescriptor>, b: seq<BlockDescriptor>, key: u64)
    ensures Select(a + b, key) == Select(a, key) + Select(b, key)
  {
    if b == [] {
      assert a + b == a;
    } else {
      var n := |b| - 1;
      SelectAppend(a, b[..n], key);
      assert (a + b)[..|a| + n] == a + b[..n];
    }
  }

  function Push(m: BlockMap, d: BlockDescriptor): BlockMap {
    m[d.originalOffset := (if d.originalOffset in m then m[d.originalOffset] else []) + [d]]
  }

  lemma PushKeepsIndex(m: BlockMap, ds: seq<BlockDescriptor>, d: BlockDescriptor)
    requires IsIndex(m, ds)
    ensures IsIndex(Push(m, d), ds + [d])
  {
    var all := ds + [d];
    assert all[..|ds|] == ds;
    forall key: u64 ensures key in Push(m, d) <==> Described(all, key) {
      assert all[|ds|] == d;
      assert forall i | 0 <= i < |ds| :: all[i] == ds[i];
      if key in m {
        var i :| 0 <= i < |ds| && ds[i].originalOffset == key;
        assert all[i].originalOffset == key;
      }
    }
    SelectEmpty(ds, d.originalOffset);
  }

  // ---------- The index holds each record once ----------

  ghost function Records(m: BlockMap, keys: set<u64>): nat
    requires keys <= m.Keys
  {
    if keys == {} then 0 else
      var key :| key in keys;
      |m[key]| + Records(m, keys - {key})
  }

  lemma {:induction false} RecordsWithout(m: BlockMap, keys: set<u64>, key: u64)
    requires key in keys && keys <= m.Keys
    ensures Records(m, keys) == |m[key]| + Records(m, keys - {key})
  {
    var first: u64 :| first in keys && Records(m, keys) == |m[first]| + Records(m, keys - {first});
    if first != key {
      RecordsWithout(m, keys - {first}, key);
      RecordsWithout(m, keys - {key}, first);
      assert keys - {first} - {key} == keys - {key} - {first};
    }
  }

  lemma {:induction false} RecordsAgree(m: BlockMap, m': BlockMap, keys: set<u64>)
    requires keys <= m.Keys && keys <= m'.Keys
    requires forall key | key in keys :: |m[key]| == |m'[key]|
    ensures Records(m, keys) == Records(m', keys)
  {
    if keys != {} {
      var key :| key in keys;
      RecordsWithout(m, keys, key);
      RecordsWithout(m', keys, key);
      RecordsAgree(m, m', keys - {key});
    }
  }

  /** The list lengths of the index sum to the number of records scanned. */
  lemma {:induction false} IndexHoldsEveryRecordOnce(m: BlockMap, ds: seq<BlockDescriptor>)
    requires IsIndex(m, ds)
    ensures Records(m, m.Keys) == |ds|
    decreases |ds|
  {
    if ds == [] {
      assert m.Keys == {};
    } else {
      var n := |ds| - 1;
      var key := ds[n].originalOffset;
      assert Described(ds, key);
      var rest := if Select(ds[..n], key) == [] then m - {key} else m[key := Select(ds[..n], key)];
      DropLastKeepsIndex(m, ds, rest);
      IndexHoldsEveryRecordOnce(rest, ds[..n]);
      RecordsWithout(m, m.Keys, key);
      RecordsAgree(m, rest, m.Keys - {key});
      if key in rest {
        RecordsWithout(rest, rest.Keys, key);
      }
      assert rest.Keys - {key} == m.Keys - {key};
    }
  }

  lemma DropLastKeepsIndex(m: BlockMap, ds: seq<BlockDescriptor>, rest: BlockMap)
    requires ds != [] && IsIndex(m, ds)
    requires var n := |ds| - 1; var key := ds[n].originalOffset;
      rest == if Select(ds[..n], key) == [] then m - {key} else m[key := Select(ds[..n], key)]
    ensures IsIndex(rest, ds[..|ds| - 1])
  {
    var n := |ds| - 1;
    var key := ds[n].originalOffset;
    forall k: u64 ensures k in rest <==> Described(ds[..n], k) {
      SelectEmpty(ds[..n], k);
      SelectEmpty(ds, k);
    }
  }

  // ---------- build_block_map ----------

  /** Files the descriptors of one block. */
  method FileDescriptors(block: array<byte>, m: BlockMap, ghost before: seq<BlockDescriptor>) returns (r: BlockMap)
    requires block.Length == BLOCK_SIZE && IsIndex(m, before)
    ensures IsIndex(r, before + Scan(block[..], STORE_BLOCK_HEADER_LEN))
  {
    r := m;
    var off := STORE_BLOCK_HEADER_LEN;
    ghost var filed := before;
    while off + BLOCK_DESCRIPTOR_LEN <= BLOCK_SIZE
      invariant filed + Scan(block[..], off) == before + Scan(block[..], STORE_BLOCK_HEADER_LEN)
      invariant IsIndex(r, filed)
    {
      ScanStep(block[..], off, filed);
      var record := block[off..off + BLOCK_DESCRIPTOR_LEN];
      assert record == block[..][off..off + BLOCK_DESCRIPTOR_LEN];
      if AllZero(record) {
        break;
      }
      var descriptor := Parse(record);
      PushKeepsIndex(r, filed, descriptor);
      r := Push(r, descriptor);
      filed := filed + [descriptor];
      off := off + BLOCK_DESCRIPTOR_LEN;
    }
    assert filed + [] == filed;
  }

  lemma ScanStep(block: Block, off: nat, filed: seq<BlockDescriptor>)
    requires off + BLOCK_DESCRIPTOR_LEN <= BLOCK_SIZE
    ensures var record := block[off..off + BLOCK_DESCRIPTOR_LEN];
      if AllZero(record) then Scan(block, off) == []
      else filed + Scan(block, off) == (filed + [Parse(record)]) + Scan(block, off + BLOCK_DESCRIPTOR_LEN)
  {
  }

  /** Walks the diff-area chain from `first`: the result indexes exactly the descriptor list on disk. */
  method BuildBlockMap(reader: Reader, first: u64, volumeSize: u64) returns (m: BlockMap)
    requires volumeSize == |reader.data|
    modifies reader
    ensures IsIndex(m, DescriptorList(reader.data, first))
  {
    ghost var img := reader.data;
    m := map[];
    var visited: set<u64> := {};
    var next: u64 := first;
    var blocks := 0;
    ghost var chain: seq<u64> := [];
    PendingStart(img, DiffAreaChain, first);
    while next != 0 && blocks < MAX_STORE_BLOCKS
      invariant blocks <= MAX_STORE_BLOCKS
      invariant Pending(img, DiffAreaChain, first, chain, next, visited, MAX_STORE_BLOCKS - blocks)
      invariant IsIndex(m, Flatten(img, chain))
      decreases Unvisited(volumeSize, visited)
    {
      PendingStep(img, DiffAreaChain, first, chain, next, visited, MAX_STORE_BLOCKS - blocks);
      if next in visited {
        break;
      }
      visited := visited + {next};
      var loaded := LoadUsable(reader, DiffAreaChain, next, volumeSize);
      if loaded.None? {
        break;
      }
      var block := loaded.value;
      m := FileDescriptors(block, m, Flatten(img, chain));
      FlattenAppend(img, chain, next);
      chain := chain + [next];
      blocks := blocks + 1;
      next := LeU64(block[..], 40);
    }
    if blocks == MAX_STORE_BLOCKS || next == 0 {
      PendingStep(img, DiffAreaChain, first, chain, next, visited, MAX_STORE_BLOCKS - blocks);
    }
  }
}
