/** The store bitmap: the payloads of the 0x0006 chain, put in `relative_offset` order. */
module Bitmaps {
  import opened Bytes
  import opened Chains
  import opened Descriptors
  import opened Readers
  import opened Wrappers
  import opened Sorting

  const PAYLOAD_LEN: nat := 16256

  /** One bitmap block: where its payload belongs, and the payload. */
  type Payload = b: seq<byte> | |b| == PAYLOAD_LEN witness Zeros(PAYLOAD_LEN)
  datatype Piece = Piece(relativeOffset: u64, payload: Payload)

  function PieceOf(block: Block): Piece {
    Piece(LeU64(block, 24), block[STORE_BLOCK_HEADER_LEN..])
  }

  /** The pieces of the blocks of a chain, in chain order. */
  function Pieces(img: Image, chain: seq<u64>): seq<Piece> {
    if chain == [] then []
    else
      var n := |chain| - 1;
      Pieces(img, chain[..n]) + if InVolume(|img|, chain[n]) then [PieceOf(BlockAt(img, chain[n]))] else []
  }

  lemma PiecesAppend(img: Image, chain: seq<u64>, o: u64)
    requires InVolume(|img|, o)
    ensures Pieces(img, chain + [o]) == Pieces(img, chain) + [PieceOf(BlockAt(img, o))]
  {
    assert (chain + [o])[..|chain|] == chain;
  }

  function Concat(pieces: seq<Piece>): (b: seq<byte>)
    ensures |b| == PAYLOAD_LEN * |pieces|
  {
    if pieces == [] then [] else Concat(pieces[..|pieces| - 1]) + pieces[|pieces| - 1].payload
  }

  function InOrder(pieces: seq<Piece>): seq<Piece> {
    SortBy(pieces, (p: Piece) => p.relativeOffset)
  }

  /** The bitmap of the store whose bitmap chain starts at `first`. */
  function StoreBitmap(img: Image, first: u64): seq<byte> {
    Concat(InOrder(Pieces(img, Visits(img, BitmapChain, first))))
  }

  /** Bit `n`, least significant first; past the end every block reads as allocated. */
  predicate IsUnallocated(bitmap: seq<byte>, n: u64) {
    n / 8 < |bitmap| && Bit(bitmap[n / 8], n % 8)
  }

  // ---------- What bit n means in terms of the pieces on disk ----------

  lemma {:induction false} ConcatAt(pieces: seq<Piece>, j: nat)
    requires j < PAYLOAD_LEN * |pieces|
    ensures j / PAYLOAD_LEN < |pieces|
    ensures Concat(pieces)[j] == pieces[j / PAYLOAD_LEN].payload[j % PAYLOAD_LEN]
  {
    var n := |pieces| - 1;
    if j < PAYLOAD_LEN * n {
      ConcatAt(pieces[..n], j);
    }
  }

  lemma PieceNumber(j: nat, count: nat)
    ensures j < PAYLOAD_LEN * count <==> j / PAYLOAD_LEN < count
  {
  }

  /** Block `n` is unallocated iff bit n%8 of byte (n/8)%16256 of the (n/8)/16256-th sorted piece is set. */
  lemma BitOfSortedPiece(pieces: seq<Piece>, n: u64)
    ensures var sorted := InOrder(pieces); var j := n / 8;
      IsUnallocated(Concat(sorted), n) <==>
      j / PAYLOAD_LEN < |sorted| && Bit(sorted[j / PAYLOAD_LEN].payload[j % PAYLOAD_LEN], n % 8)
  {
    var sorted := InOrder(pieces);
    PieceNumber(n / 8, |sorted|);
    if n / 8 < PAYLOAD_LEN * |sorted| {
      ConcatAt(sorted, n / 8);
    }
  }

  /** The pieces are kept: the sort permutes them, and keeps chain order among equal offsets. */
  lemma InOrderIsStableSort(pieces: seq<Piece>)
    ensures var sorted := InOrder(pieces); var key := (p: Piece) => p.relativeOffset;
      && (forall i, j | 0 <= i < j < |sorted| :: sorted[i].relativeOffset <= sorted[j].relativeOffset)
      && multiset(sorted) == multiset(pieces) && |sorted| == |pieces|
      && forall k: u64 :: WithKey(sorted, key, k) == WithKey(pieces, key, k)
  {
    var key := (p: Piece) => p.relativeOffset;
    SortByProperties(pieces, key);
    assert |multiset(InOrder(pieces))| == |InOrder(pieces)|;
    assert |multiset(pieces)| == |pieces|;
  }

  /** With distinct relative offsets, the order in which the chain links its blocks does not matter. */
  lemma ChainOrderIrrelevant(p: seq<Piece>, q: seq<Piece>, n: u64)
    requires forall i, j | 0 <= i < j < |p| :: p[i].relativeOffset != p[j].relativeOffset
    requires forall i, j | 0 <= i < j < |q| :: q[i].relativeOffset != q[j].relativeOffset
    requires forall x :: x in p <==> x in q
    ensures IsUnallocated(Concat(InOrder(p)), n) == IsUnallocated(Concat(InOrder(q)), n)
  {
    SortIgnoresOrder(p, q, (x: Piece) => x.relativeOffset);
  }

  // ---------- build_bitmap ----------

  /** Walks the bitmap chain from `first` and concatenates its payloads in order. */
  method BuildBitmap(reader: Reader, first: u64, volumeSize: u64) returns (bitmap: seq<byte>)
    requires volumeSize == |reader.data|
    modifies reader
    ensures bitmap == StoreBitmap(reader.data, first)
  {
    var pieces := CollectPieces(reader, first, volumeSize);
    bitmap := Concatenate(InOrder(pieces));
  }

  /** The walk: the piece of every block visited, in chain order. */
  method CollectPieces(reader: Reader, first: u64, volumeSize: u64) returns (pieces: seq<Piece>)
    requires volumeSize == |reader.data|
    modifies reader
    ensures pieces == Pieces(reader.data, Visits(reader.data, BitmapChain, first))
  {
    ghost var img := reader.data;
    pieces := [];
    var visited: set<u64> := {};
    var next: u64 := first;
    var blocks := 0;
    ghost var chain: seq<u64> := [];
    PendingStart(img, BitmapChain, first);
    while next != 0 && blocks < MAX_STORE_BLOCKS
      invariant blocks <= MAX_STORE_BLOCKS
      invariant Pending(img, BitmapChain, first, chain, next, visited, MAX_STORE_BLOCKS - blocks)
      invariant pieces == Pieces(img, chain)
      decreases Unvisited(volumeSize, visited)
    {
      PendingStep(img, BitmapChain, first, chain, next, visited, MAX_STORE_BLOCKS - blocks);
      if next in visited {
        break;
      }
      visited := visited + {next};
      var loaded := LoadUsable(reader, BitmapChain, next, volumeSize);
      if loaded.None? {
        break;
      }
      var block := loaded.value;
      pieces := pieces + [PieceOf(block[..])];
      PiecesAppend(img, chain, next);
      chain := chain + [next];
      blocks := blocks + 1;
      next := LeU64(block[..], 40);
    }
    if blocks == MAX_STORE_BLOCKS || next == 0 {
      PendingStep(img, BitmapChain, first, chain, next, visited, MAX_STORE_BLOCKS - blocks);
    }
  }

  method Concatenate(pieces: seq<Piece>) returns (bitmap: seq<byte>)
    ensures bitmap == Concat(pieces)
  {
    bitmap := [];
    for i := 0 to |pieces|
      invariant bitmap == Concat(pieces[..i])
    {
      bitmap := bitmap + pieces[i].payload;
      assert pieces[..i + 1][..i] == pieces[..i];
    }
    assert pieces[..|pieces|] == pieces;
  }
}
