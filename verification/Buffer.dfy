/** The sector buffers of the write-back cache. */
module Buffers {
  import opened Bytes

  // Tag of a buffer that holds no sector.
  const INVALID: nat := 0xFFFF_FFFF

  class Buffer {
    var sector: nat
    var dirty: bool
    const data: array<byte>

    constructor (sectorSize: nat)
      ensures sector == INVALID && !dirty
      ensures data.Length == sectorSize && fresh(data)
    {
      sector, dirty := INVALID, false;
      data := new byte[sectorSize](_ => 0);
    }

    method Invalidate()
      modifies this
      ensures sector == INVALID && !dirty
    {
      sector, dirty := INVALID, false;
    }

    /** The buffer takes the sector's number and new bytes for part of it. */
    method Put(number: nat, offset: nat, src: seq<byte>)
      requires offset + |src| <= data.Length
      modifies this, data
      ensures sector == number && dirty && data[..] == Patch(old(data[..]), offset, src)
    {
      sector, dirty := number, true;
      StoreBytes(data, offset, src);
    }

    method Clear()
      modifies this`dirty, data
      ensures !dirty && data[..] == Zeros(data.Length)
    {
      forall j | 0 <= j < data.Length {
        data[j] := 0;
      }
      dirty := false;
      assert data[..] == Zeros(data.Length);
    }
  }
}
