/**
 * A readable byte stream, as the checksum code sees one: a fixed content and a
 * read position.  `Read` follows the contract every stream honours: it copies
 * at most the requested number of bytes from the current position into the
 * caller's buffer, returns how many it copied, and returns zero only when it
 * was asked for nothing or the end has been reached.  How many bytes one call
 * delivers is otherwise the stream's choice; callers may rely only on that
 * contract.
 */
module Streams {

  class ByteStream {
    /** The bytes the stream delivers, first to last. */
    const data: seq<bv8>
    /** How many of them have been read. */
    var position: nat

    ghost predicate Valid()
      reads this
    {
      position <= |data|
    }

    /** The bytes not read yet. */
    ghost function Remaining(): seq<bv8>
      reads this
      requires Valid()
    {
      data[position..]
    }

    constructor (content: seq<bv8>)
      ensures Valid() && data == content && position == 0
    {
      data := content;
      position := 0;
    }

    /** Reads up to `count` bytes into `buffer[offset..]`. */
    method Read(buffer: array<bv8>, offset: nat, count: nat) returns (n: nat)
      requires Valid() && offset + count <= buffer.Length
      modifies this, buffer
      ensures Valid()
      ensures n <= count && position == old(position) + n
      ensures n == 0 <==> count == 0 || old(position) == |data|
      ensures forall k :: offset <= k < offset + n ==> buffer[k] == data[old(position) + k - offset]
      ensures forall k :: 0 <= k < buffer.Length && !(offset <= k < offset + n) ==> buffer[k] == old(buffer[k])
    {
      n := if count < |data| - position then count else |data| - position;
      var k := 0;
      while k < n
        invariant 0 <= k <= n && position == old(position)
        invariant position + n <= |data|
        invariant forall m :: offset <= m < offset + k ==> buffer[m] == data[position + m - offset]
        invariant forall m :: 0 <= m < buffer.Length && !(offset <= m < offset + k) ==> buffer[m] == old(buffer[m])
      {
        buffer[offset + k] := data[position + k];
        k := k + 1;
      }
      position := position + n;
    }
  }
}
