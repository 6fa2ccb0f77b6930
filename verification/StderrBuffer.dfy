/** The ring buffer that keeps the most recent bytes of a Field's standard error. */
module StderrBuffer {
  import opened Counters
  import opened Utf8

  function LastBytes(bytes: Bytes, n: nat): Bytes {
    if |bytes| <= n then bytes else bytes[|bytes| - n..]
  }

  /** What a capture holds after `pushed`: with no room at all, every byte is counted as dropped twice. */
  function DroppedFor(capacity: nat, pushed: nat): nat {
    var lost := if capacity == 0 then 2 * pushed else if pushed > capacity then pushed - capacity else 0;
    if lost > U64_MAX then U64_MAX else lost
  }

  /** One more byte: appended, pushing the oldest out of a full buffer, or counted twice when there is no room. */
  lemma PushOne(capacity: nat, pushed: Bytes, b: Byte)
    ensures var kept := LastBytes(pushed, capacity);
            var full := |kept| == capacity;
            LastBytes(pushed + [b], capacity)
            == (if capacity == 0 then [] else (if full then kept[1..] else kept) + [b])
            && (capacity == 0 ==> kept == [])
            && DroppedFor(capacity, |pushed| + 1)
               == if capacity == 0 then SaturatingAdd(SaturatingAdd(DroppedFor(capacity, |pushed|), 1), 1)
                  else if full then SaturatingAdd(DroppedFor(capacity, |pushed|), 1)
                  else DroppedFor(capacity, |pushed|)
  {
    if capacity > 0 && |pushed| >= capacity {
      assert pushed[|pushed| - capacity..][1..] + [b] == (pushed + [b])[|pushed| + 1 - capacity..];
    }
  }

  /** The kept tail and the counter of a capture, spelled out. */
  lemma TailAndCount(capacity: nat, pushed: Bytes)
    ensures var kept, dropped := LastBytes(pushed, capacity), DroppedFor(capacity, |pushed|);
            |kept| == (if |pushed| < capacity then |pushed| else capacity)
            && kept == pushed[|pushed| - |kept|..]
            && dropped == SaturatingAdd(if capacity == 0 then |pushed| else 0, |pushed| - |kept|)
  {
  }

  class StderrCapture {
    const capacity: nat
    var buffer: Bytes
    var dropped: nat
    ghost var pushed: Bytes

    /** The buffer is the tail of everything pushed, and the counter what its length makes it. */
    ghost predicate Valid()
      reads this
    {
      buffer == LastBytes(pushed, capacity) && dropped == DroppedFor(capacity, |pushed|)
    }

    constructor (capacity: nat)
      ensures Valid() && pushed == [] && this.capacity == capacity
    {
      this.capacity := capacity;
      buffer, dropped, pushed := [], 0, [];
    }

    /** Takes each byte in turn, making room for it at the front of a full buffer. */
    method Push(bytes: Bytes)
      requires Valid()
      modifies this
      ensures Valid() && pushed == old(pushed) + bytes
    {
      hide LastBytes, DroppedFor;
      for i := 0 to |bytes|
        invariant Valid() && pushed == old(pushed) + bytes[..i]
      {
        PushOne(capacity, pushed, bytes[i]);
        if |buffer| == capacity {
          buffer := if buffer == [] then [] else buffer[1..];
          dropped := SaturatingAdd(dropped, 1);
        }
        if capacity > 0 {
          buffer := buffer + [bytes[i]];
        } else {
          dropped := SaturatingAdd(dropped, 1);
        }
        pushed := pushed + [bytes[i]];
        assert bytes[..i + 1] == bytes[..i] + [bytes[i]];
      }
      assert bytes[..|bytes|] == bytes;
    }
  }

  /**
   * Kept and dropped bytes add up to the pushed ones exactly when the capture has room for a byte and
   * its counter has not saturated, when nothing was pushed, or when the double count of a capture
   * without room saturates at just the true number.
   */
  lemma NothingLostUncounted(capacity: nat, pushed: Bytes)
    ensures |LastBytes(pushed, capacity)| + DroppedFor(capacity, |pushed|) == |pushed|
            <==> (capacity > 0 && |pushed| - |LastBytes(pushed, capacity)| <= U64_MAX)
                 || pushed == [] || (capacity == 0 && |pushed| == U64_MAX)
  {
    assert |LastBytes(pushed, capacity)| == if |pushed| <= capacity then |pushed| else capacity;
  }
}
