/** The positioned byte source under every read: immutable bytes and one mutable cursor. */
module Readers {
  import opened Bytes
  import opened Chains
  import opened Descriptors
  import opened Wrappers

  /** What happens at the cursor: a seek, or a read of `length` bytes there. */
  datatype Access = Seek(offset: nat) | Read(offset: nat, length: nat)

  class Reader {
    const data: Image
    var pos: u64
    ghost var log: seq<Access>

    constructor (data: Image)
      ensures this.data == data && pos == 0 && log == []
    {
      this.data := data;
      pos := 0;
      log := [];
    }

    method SeekEnd() returns (size: u64)
      modifies this
      ensures size == pos == |data|
      ensures log == old(log) + [Seek(|data|)]
    {
      pos := |data|;
      log := log + [Seek(pos)];
      size := pos;
    }

    method SeekStart(offset: u64)
      modifies this
      ensures pos == offset
      ensures log == old(log) + [Seek(offset)]
    {
      pos := offset;
      log := log + [Seek(offset)];
    }

    /** Fills `buf` from the cursor. The bytes must be there: a caller proves that no read fails. */
    method ReadExact(buf: array<byte>)
      requires pos + buf.Length <= |data|
      modifies this, buf
      ensures pos == old(pos) + buf.Length
      ensures buf[..] == data[old(pos)..old(pos) + buf.Length]
      ensures log == old(log) + [Read(old(pos), buf.Length)]
    {
      forall i | 0 <= i < buf.Length {
        buf[i] := data[pos + i];
      }
      log := log + [Read(pos, buf.Length)];
      pos := pos + buf.Length;
    }
  }

  /** The seek and exact read at the head of every chain loop. */
  method LoadBlock(reader: Reader, o: u64) returns (block: array<byte>)
    requires InVolume(|reader.data|, o)
    modifies reader
    ensures fresh(block) && block.Length == BLOCK_SIZE
    ensures block[..] == BlockAt(reader.data, o)
  {
    reader.SeekStart(o);
    block := new byte[BLOCK_SIZE](_ => 0);
    reader.ReadExact(block);
  }

  /**
   The tests each chain loop makes before it processes a block, in the loops' order: the block's end
   must not overflow or pass the end of the volume, and then its header must be of the chain's type.
   */
  method LoadUsable(reader: Reader, kind: ChainKind, o: u64, volumeSize: u64) returns (block: Option<array<byte>>)
    requires volumeSize == |reader.data| && o != 0
    modifies reader
    ensures block.Some? <==> Usable(reader.data, kind, o)
    ensures block.Some? ==>
      && fresh(block.value) && block.value.Length == BLOCK_SIZE
      && block.value[..] == BlockAt(reader.data, o)
  {
    if o > MAX_U64 - BLOCK_SIZE || o + BLOCK_SIZE > volumeSize {
      return None;
    }
    var buf := LoadBlock(reader, o);
    block := if Accepts(kind, buf[..]) then Some(buf) else None;
  }
}
