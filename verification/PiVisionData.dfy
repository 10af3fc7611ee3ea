/** The bounded byte buffer of C++/inc/pivision_events.h (class PiVisionData). */
module PiVisionBuffers {
  import opened Bytes

  class PiVisionData {
    const buf: array<Byte>
    const capacity: nat
    var size: nat

    ghost predicate Valid()
      reads this
    {
      size <= capacity == buf.Length < U32
    }

    ghost function Contents(): seq<Byte>
      reads this, buf
      requires Valid()
    {
      buf[..size]
    }

    constructor (capacity: nat)
      requires capacity < U32
      ensures Valid() && fresh(buf) && Contents() == [] && this.capacity == capacity
    {
      this.capacity := capacity;
      buf := new Byte[capacity](_ => 0);
      size := 0;
    }

    /** All or nothing: data that does not fit is refused whole. */
    method Append(data: array<Byte>, dataSize: nat) returns (retVal: nat)
      requires Valid() && dataSize <= data.Length && data != buf
      requires size + dataSize < U32 // the source adds in 32 bits
      modifies this`size, buf
      ensures Valid()
      ensures old(size) + dataSize <= capacity ==>
        Contents() == old(Contents()) + data[..dataSize] && retVal == size
      ensures old(size) + dataSize > capacity ==> Contents() == old(Contents()) && retVal == 0
    {
      retVal := 0;
      if size + dataSize <= capacity {
        forall i | 0 <= i < dataSize {
          buf[size + i] := data[i];
        }
        size := size + dataSize;
        retVal := size;
      }
    }

    /** Reading past the end yields 0. */
    function GetElementAt(index: nat): (b: Byte)
      reads this, buf
      requires Valid()
      ensures b == ElementAt(Contents(), index)
      ensures b == if index < |Contents()| then Contents()[index] else 0
    {
      if index < size then buf[index] else 0
    }
  }

  function ElementAt(s: seq<Byte>, index: nat): Byte {
    if index < |s| then s[index] else 0
  }
}
