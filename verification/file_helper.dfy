/**
 * The table-driven CRC-32 of a stream (class `CRC32`) and the file checksum
 * built on it.  The class is proved against the reference definitions of
 * `Crc32Spec`: its table holds exactly the bitwise division results, and the
 * checksum it returns is `Crc32` of the bytes it read, however the stream
 * chose to split them between reads.
 */
module FileHelper {
  import opened Crc32Spec
  import opened Streams

  /** Size of the read buffer. */
  const BufferSize := 1024

  class CRC32 {
    /** The 256 precomputed division results, indexed by byte value. */
    const crc32Table: array<bv32>

    ghost predicate Valid()
      reads crc32Table
    {
      crc32Table.Length == 256 &&
      forall i :: 0 <= i < 256 ==> crc32Table[i] == TableEntry(i as bv32)
    }

    /** Fills the table, each entry by eight division steps. */
    constructor ()
      ensures Valid() && fresh(crc32Table)
    {
      var table := new bv32[256];
      var i := 0;
      while i < 256
        invariant 0 <= i <= 256
        invariant forall k :: 0 <= k < i ==> table[k] == TableEntry(k as bv32)
      {
        var dwCrc: bv32 := i as bv32;
        var j := 8;
        while j > 0
          invariant 0 <= j <= 8
          invariant dwCrc == Rounds(i as bv32, 8 - j)
        {
          if dwCrc & 1 == 1 {
            dwCrc := (dwCrc >> 1) ^ Polynomial;
          } else {
            dwCrc := dwCrc >> 1;
          }
          j := j - 1;
        }
        table[i] := dwCrc;
        i := i + 1;
      }
      crc32Table := table;
    }

    /**
     * The inner loop of `GetCrc32`: folds the first `count` bytes of the
     * buffer into the register by table lookup, which is the bytewise fold.
     */
    method UpdateWithBuffer(crc: bv32, buffer: array<bv8>, count: int) returns (r: bv32)
      requires Valid() && 0 <= count <= buffer.Length
      ensures r == Fold(crc, buffer[..], 0, count)
    {
      ghost var bytes := buffer[..];
      r := crc;
      for i := 0 to count
        invariant r == Fold(crc, bytes, 0, i)
      {
        var index := TableIndex(r, buffer[i]);
        TableIndexInRange(r, buffer[i]);
        IndexRoundTrip(index);
        var entry := crc32Table[index];
        assert (r >> 8) ^ entry == Update(r, bytes[i]);
        FoldStep(crc, r, bytes, 0, i);
        r := (r >> 8) ^ entry;
      }
    }

    /**
     * Reads `stream` to its end, folding every byte into the register, and
     * returns the complemented register: the CRC-32 of the unread bytes.
     */
    method GetCrc32(stream: ByteStream) returns (r: bv32)
      requires Valid() && stream.Valid()
      modifies stream
      ensures stream.Valid() && stream.position == |stream.data|
      ensures r == Crc32(stream.data[old(stream.position)..])
    {
      ghost var start := stream.position;
      ghost var input := stream.data;
      var crc32Result: bv32 := Preset;
      var buffer := new bv8[BufferSize];
      var count := stream.Read(buffer, 0, BufferSize);
      ghost var done := start;
      while count > 0
        invariant stream.data == input
        invariant stream.Valid() && buffer.Length == BufferSize && 0 <= count <= BufferSize
        invariant start <= done && done + count == stream.position
        invariant count == 0 ==> stream.position == |input|
        invariant forall k :: 0 <= k < count ==> buffer[k] == input[done + k]
        invariant crc32Result == Fold(Preset, input, start, done)
        decreases |input| - done
      {
        crc32Result := UpdateWithBuffer(crc32Result, buffer, count);
        FoldNextChunk(crc32Result, buffer[..], input, start, done, count);
        done := done + count;
        count := stream.Read(buffer, 0, BufferSize);
      }
      FoldOfSuffix(input, start, crc32Result);
      r := !crc32Result;
    }
  }

  /** The register after folding `input` from `start` to its end is the register of the suffix. */
  lemma FoldOfSuffix(input: seq<bv8>, start: nat, crc: bv32)
    requires start <= |input| && crc == Fold(Preset, input, start, |input|)
    ensures !crc == Crc32(input[start..])
  {
    var rest := input[start..];
    assert start + |rest| == |input|;
    assert forall k :: start <= k < start + |rest| ==> input[k] == rest[k - start + 0];
    FoldSameBytes(Preset, input, start, rest, 0, |rest|);
  }

  /** A table index below 256 survives the conversion to an array position. */
  lemma IndexRoundTrip(i: bv32)
    requires i < 256
    ensures (i as int) < 256 && (i as int) as bv32 == i
  {
  }

  /**
   * The checksum of an opened file, widened to a signed 64-bit value: it is
   * never negative and is the CRC-32 of the file's bytes.
   */
  method GetCrcFile(file: ByteStream) returns (r: int)
    requires file.Valid() && file.position == 0
    modifies file
    ensures 0 <= r < 0x1_0000_0000
    ensures r == Crc32(file.data) as int
  {
    var crcFile := new CRC32();
    var c := crcFile.GetCrc32(file);
    r := c as int;
  }
}
