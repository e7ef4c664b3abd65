/** unpack's read cursor over the data string: the pointer *data (an
    offset into the buffer here) and the count *size of bytes left. */
module Cursor {
  import opened Bytes
  import opened Lua

  class Cursor {
    const buffer: seq<byte>
    var offset: nat
    var size: nat

    ghost predicate Valid()
      reads this
    {
      offset + size == |buffer|
    }

    /** The bytes that are still to be read. */
    function Remaining(): (r: seq<byte>)
      reads this
      requires Valid()
      ensures |r| == size
    {
      buffer[offset..]
    }

    constructor (data: seq<byte>)
      ensures Valid() && buffer == data
      ensures offset == 0 && size == |data| && Remaining() == data
    {
      buffer := data;
      offset := 0;
      size := |data|;
    }

    /** avail: fails when fewer than needed bytes are left; otherwise
        returns the current position and moves past needed bytes. */
    method Avail(needed: nat) returns (r: Result<nat>)
      requires Valid()
      modifies this
      ensures Valid()
      ensures old(size) < needed ==>
        r == Err(MoreBytesNeeded(needed)) && offset == old(offset) && size == old(size)
      ensures needed <= old(size) ==>
        r == Ok(old(offset)) && offset == old(offset) + needed && size == old(size) - needed
      ensures r.Ok? ==> buffer[r.value..r.value + needed] == old(Remaining())[..needed]
      ensures r.Ok? ==> Remaining() == old(Remaining())[needed..]
    {
      var ptr := offset;
      if size < needed {
        return Err(MoreBytesNeeded(needed));
      }
      offset := offset + needed;
      size := size - needed;
      return Ok(ptr);
    }
  }
}
