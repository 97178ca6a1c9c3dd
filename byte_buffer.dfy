// A read cursor over a memory-mapped file: the part of `java.nio.ByteBuffer`
// the FPS readers use (relative `get()` and `position()`).

module ByteBuffers {
  import opened Wrappers
  import opened Words

  class ByteBuffer {
    const data: seq<Byte>
    var position: nat

    ghost predicate Valid()
      reads this
    {
      position <= |data|
    }

    constructor (data: seq<Byte>)
      ensures Valid() && this.data == data && position == 0
    {
      this.data := data;
      position := 0;
    }

    function Remaining(): (n: nat)
      reads this
      requires Valid()
      ensures n == 0 <==> position == |data|
    {
      |data| - position
    }

    /** `get()`: the byte at the cursor, advancing it; `BufferUnderflowException` at the end. */
    method Get() returns (r: Result<Byte, Exception>)
      requires Valid()
      modifies this`position
      ensures Valid()
      ensures old(position) < |data| ==> r == Ok(data[old(position)]) && position == old(position) + 1
      ensures old(position) == |data| ==> r == Err(BufferUnderflow) && position == old(position)
    {
      if position < |data| {
        r := Ok(data[position]);
        position := position + 1;
      } else {
        r := Err(BufferUnderflow);
      }
    }
  }
}
