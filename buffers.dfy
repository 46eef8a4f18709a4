/** The two buffer capabilities the transfer loops use: a destination that
    accepts appended bytes up to a fixed capacity (the `BufMut` side) and a
    source whose unconsumed bytes are consumed through a cursor (the `Buf`
    side). */
module Buffers {
  import opened Outcome

  /** A destination buffer: the bytes written so far and a fixed capacity. */
  class OutBuf {
    var contents: seq<byte>
    const capacity: nat

    ghost predicate Valid()
      reads this
    {
      |contents| <= capacity
    }

    constructor (initial: seq<byte>, capacity: nat)
      requires |initial| <= capacity
      ensures Valid()
      ensures contents == initial && this.capacity == capacity
    {
      contents := initial;
      this.capacity := capacity;
    }

    /** How many more bytes can be appended. */
    function RemainingMut(): (n: nat)
      reads this
      requires Valid()
      ensures n + |contents| == capacity
    {
      capacity - |contents|
    }

    /** Appends `s`, which must fit in the remaining capacity. */
    method PutSlice(s: seq<byte>)
      requires Valid()
      requires |s| <= RemainingMut()
      modifies this
      ensures Valid()
      ensures contents == old(contents) + s
      ensures RemainingMut() == old(RemainingMut()) - |s|
    {
      contents := contents + s;
    }
  }

  /** A source buffer: fixed data and a cursor to the first unconsumed byte. */
  class InBuf {
    const data: seq<byte>
    var pos: nat

    ghost predicate Valid()
      reads this
    {
      pos <= |data|
    }

    constructor (data: seq<byte>)
      ensures Valid()
      ensures this.data == data && pos == 0
    {
      this.data := data;
      pos := 0;
    }

    /** How many bytes are still unconsumed. */
    function Remaining(): (n: nat)
      reads this
      requires Valid()
      ensures n == |Bytes()|
    {
      |data| - pos
    }

    /** Whether any byte is still unconsumed. */
    function HasRemaining(): (b: bool)
      reads this
      requires Valid()
      ensures b <==> Remaining() != 0
    {
      pos < |data|
    }

    /** The unconsumed bytes, in order, offered as one contiguous chunk. */
    function Bytes(): (s: seq<byte>)
      reads this
      requires Valid()
      ensures data == data[..pos] + s
    {
      data[pos..]
    }

    /** Consumes the next `n` bytes. */
    method Advance(n: nat)
      requires Valid()
      requires n <= Remaining()
      modifies this
      ensures Valid()
      ensures pos == old(pos) + n
      ensures Bytes() == old(Bytes())[n..]
    {
      pos := pos + n;
    }
  }
}
