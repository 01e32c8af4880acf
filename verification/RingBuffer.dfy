/** The lock-light ring buffer (LUFA/Drivers/Misc/RingBuffer.h), called from one
    thread: each operation runs to completion. */
module RingBuffer {
  import opened Bytes

  /** Position p steps after position `from` in a ring of n places. */
  function Wrap(from: nat, p: nat, n: nat): (r: nat)
    requires from < n && p <= n
    ensures r < n
  {
    if from + p < n then from + p else from + p - n
  }

  class RingBuffer {
    const storage: array<byte>
    /** The number of places, cut to eight bits. */
    const size: byte
    var inp: nat
    var outp: nat
    var count: word

    /** What every call keeps, checked or not. */
    ghost predicate Shaped()
      reads this
    {
      && 0 < storage.Length < 0x1_0000
      && size == storage.Length % 0x100
      && inp < storage.Length && outp < storage.Length
    }

    /** The count and the two pointers describe a queue. */
    ghost predicate Valid()
      reads this
    {
      Shaped() && count <= storage.Length && inp == Wrap(outp, count, storage.Length)
    }

    /** The queued bytes, oldest first. */
    ghost function Contents(): (s: seq<byte>)
      requires Valid()
      reads this, storage
      ensures |s| == count
    {
      seq<byte>(count, i requires 0 <= i < count reads this, storage requires Valid() =>
                         storage[Wrap(outp, i, storage.Length)])
    }

    constructor InitBuffer(data: array<byte>)
      requires 0 < data.Length < 0x1_0000
      ensures Valid() && storage == data && Contents() == []
    {
      storage := data;
      size := data.Length % 0x100;
      inp, outp, count := 0, 0, 0;
    }

    method GetCount() returns (n: word)
      requires Valid()
      ensures n == |Contents()|
    {
      n := count;
    }

    /** The size is cut to eight bits: the answer is right for up to 255 places, and
        never for more. */
    method GetFreeCount() returns (n: word)
      requires Valid()
      ensures n + |Contents()| == storage.Length <==> storage.Length <= 0xFF
      ensures n + |Contents()| == storage.Length % 0x100 || n + |Contents()| == storage.Length % 0x100 + 0x1_0000
    {
      var c := GetCount();
      n := Sub16(size, c);
    }

    method IsEmpty() returns (b: bool)
      requires Valid()
      ensures b == (Contents() == [])
    {
      var c := GetCount();
      b := c == 0;
    }

    /** The comparison is with an eight-bit size, so it is right for up to 255 places only. */
    method IsFull() returns (b: bool)
      requires Valid()
      ensures b == ReportsFull(storage.Length, |Contents()|)
      ensures storage.Length <= 0xFF ==> b == (|Contents()| == storage.Length)
    {
      var c := GetCount();
      b := c == size;
    }

    /** There is no test for a full buffer: the buffer stays a queue exactly if a
        place was free, and on a full one the oldest byte is written over. */
    method Insert(b: byte)
      requires Shaped()
      modifies this, storage
      ensures Shaped() && storage[old(inp)] == b && outp == old(outp) && count == Add16(old(count), 1)
      ensures forall i :: 0 <= i < storage.Length && i != old(inp) ==> storage[i] == old(storage[i])
      ensures old(Valid()) ==> (Valid() <==> old(count) < storage.Length)
      ensures old(Valid()) && old(count) < storage.Length ==> Contents() == old(Contents()) + [b]
      ensures old(Valid()) && old(count) == storage.Length ==> storage[outp] == b
    {
      storage[inp] := b;
      inp := inp + 1;
      if inp == storage.Length {
        inp := 0;
      }
      count := Add16(count, 1);
    }

    /** There is no test for an empty buffer: the buffer stays a queue exactly if it
        held a byte. */
    method Remove() returns (b: byte)
      requires Shaped()
      modifies this`outp, this`count
      ensures Shaped() && b == storage[old(outp)] && count == Sub16(old(count), 1)
      ensures old(Valid()) ==> (Valid() <==> old(count) > 0)
      ensures old(Valid()) && old(count) > 0 ==> [b] + Contents() == old(Contents())
    {
      b := storage[outp];
      outp := outp + 1;
      if outp == storage.Length {
        outp := 0;
      }
      count := Sub16(count, 1);
    }

    /** The oldest byte, or for an empty buffer whatever lies where the next byte
        will be stored. */
    method Peek() returns (b: byte)
      requires Shaped()
      ensures b == storage[outp]
      ensures Valid() ==> b == if Contents() != [] then Contents()[0] else storage[inp]
    {
      b := storage[outp];
    }
  }

  /** What IsFull answers for a buffer of the given capacity. */
  predicate ReportsFull(capacity: nat, count: nat) {
    count == capacity % 0x100
  }

  /** IsFull tells the truth at every fill level exactly for buffers of up to 255
      bytes; a 256-byte buffer is reported full when it is empty. */
  lemma FullTestExact(capacity: nat)
    requires capacity > 0
    ensures (forall count :: 0 <= count <= capacity ==> (ReportsFull(capacity, count) <==> count == capacity))
       <==> capacity <= 0xFF
  {
    if capacity > 0xFF {
      assert ReportsFull(capacity, capacity % 0x100);
    }
  }
}
