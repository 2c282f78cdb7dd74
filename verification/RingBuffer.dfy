/**
 The fixed-capacity byte queue of src/protocol/byte_ring_buffer.h. Contents() is the
 queue a caller sees, oldest byte first; every operation is specified on it, whatever the
 position of the read index and however often it has wrapped around.
 */
module RingBuffer {
  import opened Words

  /** An index below twice the capacity wraps around at most once. */
  lemma Wrap(x: nat, capacity: nat)
    requires 0 < capacity && x < 2 * capacity
    ensures x % capacity == if x < capacity then x else x - capacity
  {
    if x >= capacity {
      assert x == capacity * 1 + (x - capacity);
    }
  }

  class ByteRingBuffer {
    const storage: array<Byte>
    var head: nat
    var size: nat

    ghost predicate Valid()
      reads this
    {
      0 < storage.Length && head < storage.Length && size <= storage.Length
    }

    /** Where the byte at a queue index lives. */
    ghost function Slot(i: nat): (s: nat)
      requires Valid() && i <= storage.Length
      reads this
      ensures s < storage.Length
    {
      if head + i < storage.Length then head + i else head + i - storage.Length
    }

    ghost function Contents(): (c: seq<Byte>)
      requires Valid()
      reads this, storage
      ensures |c| == size && forall i :: 0 <= i < size ==> c[i] == storage[Slot(i)]
    {
      seq(size, i requires 0 <= i < size && Valid() reads this, storage => storage[Slot(i)])
    }

    constructor (capacity: nat)
      requires capacity > 0
      ensures Valid() && fresh(storage) && storage.Length == capacity && Contents() == []
    {
      storage := new Byte[capacity](i => 0);
      head, size := 0, 0;
    }

    method Push(byte: Byte) returns (accepted: bool)
      requires Valid()
      modifies this`size, storage
      ensures Valid()
      ensures accepted == (old(size) < storage.Length)
      ensures Contents() == if accepted then old(Contents()) + [byte] else old(Contents())
    {
      if size == storage.Length {
        return false;
      }
      Wrap(head + size, storage.Length);
      var tail := (head + size) % storage.Length;
      storage[tail] := byte;
      size := size + 1;
      return true;
    }

    /** Bulk push: as many bytes as fit, in order. */
    method PushAll(data: seq<Byte>) returns (accepted: nat)
      requires Valid()
      modifies this`size, storage
      ensures Valid()
      ensures accepted == if |data| <= storage.Length - old(size) then |data| else storage.Length - old(size)
      ensures Contents() == old(Contents()) + data[..accepted]
    {
      accepted := 0;
      while accepted < |data|
        invariant Valid() && accepted <= |data| && size == old(size) + accepted
        invariant Contents() == old(Contents()) + data[..accepted]
      {
        assert data[..accepted + 1] == data[..accepted] + [data[accepted]];
        var ok := Push(data[accepted]);
        if !ok {
          return;
        }
        accepted := accepted + 1;
      }
    }

    method Consume(count: nat)
      requires Valid()
      modifies this`head, this`size
      ensures Valid()
      ensures Contents() == old(Contents())[if count < old(size) then count else old(size)..]
    {
      var consumed := if count < size then count else size;
      Wrap(head + consumed, storage.Length);
      head := (head + consumed) % storage.Length;
      size := size - consumed;
    }

    /** The byte at an index, or none where the source throws. */
    function At(index: nat): (r: Option<Byte>)
      requires Valid()
      reads this, storage
      ensures r == if index < size then Some(Contents()[index]) else None
    {
      if index >= size then None
      else
        Wrap(head + index, storage.Length);
        Some(storage[(head + index) % storage.Length])
    }

    /** A stretch of the queue, or none where the source throws. */
    method Copy(offset: nat, length: nat) returns (r: Option<seq<Byte>>)
      requires Valid()
      ensures r.Some? <==> offset + length <= size
      ensures r.Some? ==> r.value == Contents()[offset..offset + length]
    {
      if offset > size || length > size - offset {
        return None;
      }
      var result := [];
      for index := 0 to length
        invariant result == Contents()[offset..offset + index]
      {
        result := result + [At(offset + index).value];
      }
      return Some(result);
    }

    method Clear()
      requires Valid()
      modifies this`head, this`size
      ensures Valid() && Contents() == []
    {
      head, size := 0, 0;
    }
  }
}
