/** The byte ring cursor of common/ring_cursor.c as a view of an endless byte stream. */
module RingCursor {
  import opened Bytes
  import opened DmaCounter
  import opened Modular

  /** The ring holds the last bytes of everything written so far. */
  ghost predicate Holds(ring: seq<byte>, stream: seq<byte>) {
    |ring| > 0 && forall i: nat :: i < |stream| <= i + |ring| ==> ring[i % |ring|] == stream[i]
  }

  /** How far behind the write position an overrun recovers to. */
  function Margin(capacity: nat): nat { if capacity / 4 == 0 then 1 else capacity / 4 }

  class Cursor {
    const capacity: nat
    var lastHead: nat
    var totalWritten: nat
    var totalRead: nat
    var tail: nat
    var overruns: nat

    ghost predicate Valid()
      reads this
    {
      capacity > 0 && lastHead == totalWritten % capacity && tail == totalRead % capacity && totalRead <= totalWritten
    }

    /** ring_cursor_init. */
    constructor (capacity: nat)
      requires capacity > 0
      ensures Valid() && this.capacity == capacity && totalWritten == totalRead == overruns == 0
    {
      this.capacity := capacity;
      lastHead, totalWritten, totalRead, tail, overruns := 0, 0, 0, 0, 0;
    }

    /** ring_cursor_update_head: from the write position alone, exact as long as fewer than capacity
        bytes arrive between updates; an overrun moves the tail to exactly the newest quarter. */
    method UpdateHead(head: nat, ghost now: nat) returns (unread: nat)
      requires Valid() && totalWritten <= now < totalWritten + capacity && head == now % capacity
      modifies this
      ensures Valid() && totalWritten == now && unread == totalWritten - totalRead <= capacity
      ensures if now - old(totalRead) > capacity
              then totalRead == now - (if capacity < 4 then 1 else capacity / 4) && overruns == old(overruns) + 1
              else totalRead == old(totalRead) && overruns == old(overruns)
    {
      var delta := if head >= lastHead then head - lastHead else capacity - lastHead + head;
      HeadDelta(totalWritten, now, capacity);
      lastHead := head;
      totalWritten := totalWritten + delta;
      unread := totalWritten - totalRead;
      if unread > capacity {
        overruns := overruns + 1;
        var margin := capacity / 4;
        if margin == 0 { margin := 1; }
        BehindHead(totalWritten, margin, capacity);
        tail := if head >= margin then head - margin else capacity + head - margin;
        totalRead := totalWritten - margin;
        unread := margin;
      }
    }

    /** ring_cursor_available. */
    method Available() returns (n: nat)
      requires Valid()
      ensures n == if totalWritten - totalRead > capacity then capacity else totalWritten - totalRead
    {
      var unread := totalWritten - totalRead;
      n := if unread > capacity then capacity else unread;
    }

    /** ring_cursor_advance. */
    method Advance(bytes: nat)
      requires Valid() && totalWritten - totalRead <= capacity
      modifies `tail, `totalRead
      ensures Valid()
      ensures totalRead == if bytes > totalWritten - old(totalRead) then totalWritten else old(totalRead) + bytes
    {
      if bytes == 0 { return; }
      var n := bytes;
      var avail := Available();
      if n > avail { n := avail; }
      SamePlace(totalRead, n, capacity);
      tail := (tail + n) % capacity;
      totalRead := totalRead + n;
    }

    /** ring_cursor_peek: the next unread bytes, across the wrap. */
    method Peek(ring: array<byte>, max: nat, ghost stream: seq<byte>) returns (bytes: seq<byte>)
      requires Valid() && ring.Length == capacity && Holds(ring[..], stream)
      requires |stream| == totalWritten && totalWritten - totalRead <= capacity
      ensures bytes == stream[totalRead..totalRead + if max > totalWritten - totalRead then totalWritten - totalRead
              else max]
    {
      var n := max;
      var avail := Available();
      if n > avail { n := avail; }
      bytes := [];
      while |bytes| < n
        invariant |bytes| <= n && bytes == stream[totalRead..totalRead + |bytes|]
      {
        SamePlace(totalRead, |bytes|, capacity);
        assert ring[..][(totalRead + |bytes|) % capacity] == stream[totalRead + |bytes|];
        bytes := bytes + [ring[(tail + |bytes|) % capacity]];
      }
    }

    /** ring_cursor_read. */
    method Read(ring: array<byte>, max: nat, ghost stream: seq<byte>) returns (bytes: seq<byte>)
      requires Valid() && ring.Length == capacity && Holds(ring[..], stream)
      requires |stream| == totalWritten && totalWritten - totalRead <= capacity
      modifies `tail, `totalRead
      ensures Valid()
      ensures totalRead == if max > totalWritten - old(totalRead) then totalWritten else old(totalRead) + max
      ensures bytes == stream[old(totalRead)..totalRead]
    {
      bytes := Peek(ring, max, stream);
      if |bytes| > 0 { Advance(|bytes|); }
    }
  }

  lemma HeadDelta(was: nat, now: nat, capacity: nat)
    requires capacity > 0 && was <= now < was + capacity
    ensures var head, last := now % capacity, was % capacity;
            now == was + if head >= last then head - last else capacity - last + head
  {
    Division(was, capacity);
    LapNear(was / capacity, was % capacity, now, now - was, capacity);
  }

  lemma BehindHead(written: nat, margin: nat, capacity: nat)
    requires 0 < margin <= capacity <= written
    ensures var head := written % capacity;
            (if head >= margin then head - margin else capacity + head - margin) == (written - margin) % capacity
            || margin == capacity
  {
    var head, laps := written % capacity, written / capacity;
    Division(written, capacity);
    if head >= margin {
      ModUnique(written - margin, capacity, laps, head - margin);
    } else if margin < capacity {
      Distributes(laps, 1, capacity);
      AtLeastLap(laps, capacity, head, written);
      ModUnique(written - margin, capacity, laps - 1, capacity + head - margin);
    }
  }

  lemma AtLeastLap(laps: nat, capacity: nat, head: nat, written: nat)
    requires capacity > 0 && head < capacity <= written && written == laps * capacity + head
    ensures laps >= 1
  {
  }
}
