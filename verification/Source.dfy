/** A reconstructed snapshot as a positioned byte source: reads stop at the end of the volume. */
module Sources {
  import opened Bytes
  import opened Pairing
  import opened Readers
  import opened Reconstruct
  import opened Volumes
  import opened Wrappers

  /** How many bytes a read of `len` bytes at `offset` serves. */
  function Served(size: u64, offset: nat, len: nat): nat {
    if offset >= size then 0 else Min(len, size - offset)
  }

  /** The bytes it serves. */
  function ServedBytes(img: Image, st: SnapshotState, offset: nat, len: nat): seq<byte> {
    seq<byte>(Served(|img|, offset, len), i requires 0 <= i < Served(|img|, offset, len) => ViewOf(img, st, offset + i))
  }

  /** Splitting a range into two consecutive reads serves the same bytes as one read. */
  lemma SplitReads(img: Image, st: SnapshotState, offset: nat, a: nat, b: nat)
    ensures ServedBytes(img, st, offset, a + b) == ServedBytes(img, st, offset, a) + ServedBytes(img, st, offset + a, b)
  {
  }

  /** They are the bytes of the snapshot the state was built for. */
  lemma ServedBytesAreSnapshot(img: Image, st: SnapshotState, d: StoreDescriptor, offset: nat, len: nat, i: nat)
    requires StateOf(st, img, d) && i < Served(|img|, offset, len)
    ensures ServedBytes(img, st, offset, len)[i] == SnapshotByte(img, d, offset + i)
  {
    StateShowsSnapshot(st, img, d);
  }

  class VssSnapshotSource {
    const reader: Reader
    const state: SnapshotState
    const volumeSize: u64
    ghost const store: StoreDescriptor

    ghost predicate Valid() {
      volumeSize == |reader.data| && StateOf(state, reader.data, store)
    }

    constructor (reader: Reader, state: SnapshotState, volumeSize: u64, ghost store: StoreDescriptor)
      ensures this.reader == reader && this.state == state && this.volumeSize == volumeSize && this.store == store
    {
      this.reader := reader;
      this.state := state;
      this.volumeSize := volumeSize;
      this.store := store;
    }

    /** Opens shadow copy `index` of the volume behind `reader`. */
    static method Open(reader: Reader, index: nat) returns (r: Result<VssSnapshotSource, VssError>)
      modifies reader
      ensures match SnapshotError(StoresIn(reader.data), index)
        case Some(e) => r == Err(e)
        case None =>
          && r.Ok? && fresh(r.value) && r.value.Valid()
          && r.value.reader == reader && r.value.store == StoresIn(reader.data)[index]
    {
      var volume := new VssVolume.Open(reader);
      var state := volume.GetSnapshotState(index);
      if state.Err? {
        return Err(state.error);
      }
      var source := new VssSnapshotSource(reader, state.value, volume.volumeSize, volume.stores[index]);
      r := Ok(source);
    }

    /** Serves the available prefix of the range; the rest of `buf` keeps its bytes. */
    method ReadAt(offset: u64, buf: array<byte>) returns (n: nat)
      requires Valid()
      modifies reader, buf
      ensures n == Served(volumeSize, offset, buf.Length)
      ensures offset >= |reader.data| ==> n == 0
      ensures offset < |reader.data| ==>
        n <= buf.Length && offset + n <= |reader.data| && (n == buf.Length || offset + n == |reader.data|)
      ensures forall i | 0 <= i < n :: buf[i] == SnapshotByte(reader.data, store, offset + i)
      ensures forall i | n <= i < buf.Length :: buf[i] == old(buf[i])
      ensures reader.log == PerformRead(old(reader.log), state, offset, n, 0)
    {
      if offset > volumeSize {
        return 0;
      }
      var want := Min(volumeSize - offset, buf.Length);
      if want == 0 {
        return 0;
      }
      StateShowsSnapshot(state, reader.data, store);
      Reconstruct.ReadAt(state, reader, offset, buf, want);
      n := want;
    }
  }

  /**
   End to end: on every image, for every store whose snapshot opens, every offset and every buffer,
   the bytes come from the documented rule evaluated on the descriptor list and bitmap on disk.
   */
  method ReadSnapshot(reader: Reader, index: nat, offset: u64, buf: array<byte>) returns (r: Result<nat, VssError>)
    modifies reader, buf
    ensures match SnapshotError(StoresIn(reader.data), index)
      case Some(e) => r == Err(e) && buf[..] == old(buf[..])
      case None =>
        && r == Ok(Served(|reader.data|, offset, buf.Length))
        && (forall i | 0 <= i < r.value ::
             buf[i] == SnapshotByte(reader.data, StoresIn(reader.data)[index], offset + i))
        && (forall i | r.value <= i < buf.Length :: buf[i] == old(buf[i]))
        && (offset >= |reader.data| ==> r.value == 0)
        && (offset < |reader.data| ==>
             && r.value <= buf.Length && offset + r.value <= |reader.data|
             && (r.value == buf.Length || offset + r.value == |reader.data|))
  {
    var source := VssSnapshotSource.Open(reader, index);
    if source.Err? {
      return Err(source.error);
    }
    var n := source.value.ReadAt(offset, buf);
    r := Ok(n);
  }
}
