/** The byte-wise resynchronising parser of uart/uart_driver.c against a reference parse. */
module UartReceiver {
  import opened Bytes
  import opened Framing
  import opened FrameReceiver
  import R = RingCursor

  const RING: nat := 1024
  const ENTRY: nat := 7

  /** From byte p on: a bad length or CRC moves on by one byte, a frame by its length. */
  function RefByte(stream: seq<byte>, p: nat): (r: Step)
    ensures r.More? ==> p < r.next <= |stream|
  {
    if p >= |stream| then Wait
    else
      var len := Val(stream[p]);
      if !ValidLen(len) then More(BadLen, p + 1)
      else if p + TotalBytes(len) > |stream| then Wait
      else
        match Decode(stream[p..p + TotalBytes(len)])
        case Accepted(_, m) => More(Frame(m), p + TotalBytes(len))
        case _ => More(BadCrc, p + 1)
  }

  function RefBytes(stream: seq<byte>, p: nat): seq<Item>
    decreases |stream| - p
  {
    var r := RefByte(stream, p);
    if r.Wait? then [] else [r.item] + RefBytes(stream, r.next)
  }

  lemma RefByteExtends(a: seq<byte>, t: seq<byte>, p: nat)
    requires RefByte(a, p).More?
    ensures RefByte(a + t, p) == RefByte(a, p)
  {
    hide Decode, Val, TotalBytes;
    var len := Val(a[p]);
    if ValidLen(len) { assert (a + t)[p..p + TotalBytes(len)] == a[p..p + TotalBytes(len)]; }
  }

  /** One poll when n bytes have arrived and `read` are consumed: nothing below the entry length. */
  function PollBytes(stream: seq<byte>, read: nat): (r: (nat, seq<Item>))
    requires read <= |stream|
    ensures read <= r.0 <= |stream|
  {
    if |stream| - read < ENTRY then (read, [])
    else
      var r := RefByte(stream, read);
      if r.Wait? then (read, []) else (r.next, [r.item])
  }

  datatype Received = Packet(m: Message) | Nothing

  class Port {
    const ring: array<byte>
    const cursor: R.Cursor
    var packets: nat
    var lenErrors: nat
    var crcErrors: nat

    ghost predicate Valid()
      reads this, cursor
    {
      cursor.Valid() && cursor.capacity == RING == ring.Length && cursor.totalWritten - cursor.totalRead <= RING
    }

    constructor ()
      ensures Valid() && fresh(ring) && fresh(cursor) && packets == lenErrors == crcErrors == 0
      ensures cursor.totalWritten == cursor.totalRead == cursor.overruns == 0
    {
      ring := new byte[RING];
      cursor := new R.Cursor(RING);
      packets, lenErrors, crcErrors := 0, 0, 0;
    }

    /** uart_rx_poll_packet. */
    method Poll(head: nat, ghost stream: seq<byte>) returns (r: Received, ghost items: seq<Item>)
      requires Valid() && R.Holds(ring[..], stream)
      requires cursor.totalWritten <= |stream| < cursor.totalWritten + RING && head == |stream| % RING
      modifies this, cursor
      ensures Valid() && cursor.totalWritten == |stream|
      ensures var from := if |stream| - old(cursor.totalRead) > RING then |stream| - R.Margin(RING)
              else old(cursor.totalRead);
              from <= |stream| && (cursor.totalRead, items) == PollBytes(stream, from)
      ensures r == (if items != [] && items[0].Frame? then Packet(items[0].m) else Nothing)
      ensures packets == old(packets) + (if items != [] && items[0].Frame? then 1 else 0)
      ensures lenErrors == old(lenErrors) + (if items == [BadLen] then 1 else 0)
      ensures crcErrors == old(crcErrors) + (if items == [BadCrc] then 1 else 0)
    {
      hide R.Holds, Decode, Val, TotalBytes;
      var avail := cursor.UpdateHead(head, |stream|);
      ghost var from := cursor.totalRead;
      if avail < HEADER + MIN_PAYLOAD + CRC_BYTES { return Nothing, []; }
      var first := cursor.Peek(ring, 1, stream);
      assert first[0] == stream[from];
      var len := Val(first[0]);
      if len < MIN_PAYLOAD || len > MAX_PAYLOAD {
        lenErrors := lenErrors + 1;
        cursor.Advance(1);
        return Nothing, [BadLen];
      }
      var total := TotalBytes(len);
      if avail < total { return Nothing, []; }
      var frame := cursor.Peek(ring, total, stream);
      var decoded := DecodeFrame(frame);
      if decoded.Accepted? {
        cursor.Advance(total);
        packets := packets + 1;
        return Packet(decoded.m), [Frame(decoded.m)];
      }
      FullFrameDecode(frame, len);
      crcErrors := crcErrors + 1;
      cursor.Advance(1);
      return Nothing, [BadCrc];
    }
  }

  /** With the length checked and all bytes there, the CRC is all that can fail. */
  lemma FullFrameDecode(frame: seq<byte>, len: nat)
    requires |frame| == TotalBytes(len) && ValidLen(len) && Val(frame[0]) == len
    ensures Decode(frame).Accepted? || Decode(frame) == CrcMismatch
  {
    hide Val, TotalBytes;
  }

  // ---- schedules --------------------------------------------------------------------------------------

  lemma PollKeeps(stream: seq<byte>, n: nat, read: nat)
    requires read <= n <= |stream|
    ensures var (next, found) := PollBytes(stream[..n], read);
            found + RefBytes(stream, next) == RefBytes(stream, read)
  {
    hide RefByte;
    var now := stream[..n];
    assert now + stream[n..] == stream;
    if n - read >= ENTRY && RefByte(now, read).More? {
      RefByteExtends(now, stream[n..], read);
    } else {
      assert [] + RefBytes(stream, read) == RefBytes(stream, read);
    }
  }

  ghost predicate Growing(stream: seq<byte>, lengths: seq<nat>) {
    && (forall i :: 0 <= i < |lengths| ==> lengths[i] <= |stream|)
    && (forall i, j :: 0 <= i < j < |lengths| ==> lengths[i] <= lengths[j])
  }

  /** Where the first k polls have got to, and all they have found, while nothing is overrun. */
  ghost function Progress(stream: seq<byte>, lengths: seq<nat>, k: nat): (r: (nat, seq<Item>))
    requires Growing(stream, lengths) && k <= |lengths|
    ensures r.0 <= |stream| && (k > 0 ==> r.0 <= lengths[k - 1]) && (k == 0 ==> r.0 == 0)
  {
    if k == 0 then (0, [])
    else
      var (read, items) := Progress(stream, lengths, k - 1);
      var (next, found) := PollBytes(stream[..lengths[k - 1]], read);
      (next, items + found)
  }

  /** Whatever the poll schedule, the items found are a prefix of the reference parse of the stream. */
  lemma {:induction false} ScheduleIndependent(stream: seq<byte>, lengths: seq<nat>, k: nat)
    requires Growing(stream, lengths) && k <= |lengths|
    ensures var (read, items) := Progress(stream, lengths, k);
            items + RefBytes(stream, read) == RefBytes(stream, 0)
  {
    hide PollBytes, RefBytes;
    if k > 0 {
      ScheduleIndependent(stream, lengths, k - 1);
      var (read, items) := Progress(stream, lengths, k - 1);
      PollKeeps(stream, lengths[k - 1], read);
      var (next, found) := PollBytes(stream[..lengths[k - 1]], read);
      assert (items + found) + RefBytes(stream, next) == items + (found + RefBytes(stream, next));
    } else {
      assert [] + RefBytes(stream, 0) == RefBytes(stream, 0);
    }
  }

  /** A poll that finds nothing in the whole stream has left no frame behind: fewer bytes than the
      entry length, though they may still hold bad lengths, hold no frame. */
  lemma {:induction false} NothingLeft(stream: seq<byte>, read: nat)
    requires read <= |stream| && PollBytes(stream, read).1 == []
    ensures Frames(RefBytes(stream, read)) == []
  {
    hide Decode, TotalBytes;
    if |stream| - read < ENTRY { TooFewBytes(stream, read); }
  }

  lemma {:induction false} TooFewBytes(stream: seq<byte>, p: nat)
    requires p <= |stream| && |stream| - p < ENTRY
    ensures Frames(RefBytes(stream, p)) == []
    decreases |stream| - p
  {
    hide Decode, Val;
    var r := RefByte(stream, p);
    if r.More? {
      assert !r.item.Frame?;
      TooFewBytes(stream, r.next);
      assert RefBytes(stream, p)[1..] == RefBytes(stream, r.next);
    }
  }

  /** The byte-wise parser in its own words: it looks at the very next byte. A length that is none, and a frame
      that does not decode, cost one byte; a frame that decodes costs its length; anything else waits. */
  lemma RefByteMeans(stream: seq<byte>, p: nat)
    ensures p >= |stream| ==> RefByte(stream, p).Wait?
    ensures p < |stream| ==>
              var n := Val(stream[p]);
              if !(1 <= n <= 128) then RefByte(stream, p) == More(BadLen, p + 1)
              else if |stream| < p + TotalBytes(n) then RefByte(stream, p).Wait?
              else
                var d := Decode(stream[p..p + TotalBytes(n)]);
                RefByte(stream, p) == if d.Accepted? then More(Frame(d.m), p + TotalBytes(n)) else More(BadCrc, p + 1)
  {
    hide Decode, Val, TotalBytes;
  }

  function BadLengths(n: nat): seq<Item> { seq(n, i => BadLen) }

  lemma NoBadLength(rest: seq<Item>)
    ensures BadLengths(0) + rest == rest
  {
  }

  lemma OneBadLength(k: nat, rest: seq<Item>)
    requires k > 0
    ensures [BadLen] + (BadLengths(k - 1) + rest) == BadLengths(k) + rest
  {
  }

  /** The parser finds its way back: bytes that cannot be lengths are passed over one by one, and every frame
      after them is found. */
  lemma {:induction false} Resynchronises(stream: seq<byte>, p: nat, k: nat, ms: seq<Message>)
    requires AllValid(ms) && p + k <= |stream| && stream[p + k..] == SentBytes(ms)
    requires forall i :: p <= i < p + k ==> !ValidLen(Val(stream[i]))
    ensures RefBytes(stream, p) == BadLengths(k) + AsItems(ms)
    decreases k
  {
    hide RefByte, Val, AsItems, Decode, TotalBytes, SentBytes, BadLengths;
    if k == 0 {
      SentParses(stream, p, ms);
      NoBadLength(AsItems(ms));
    } else {
      Resynchronises(stream, p + 1, k - 1, ms);
      RefByteMeans(stream, p);
      OneBadLength(k, AsItems(ms));
    }
  }

  // ---- frames sent back to back --------------------------------------------------------------------------

  /** The frames as the UART sends them: from the length byte on, without preamble and sync word. */
  ghost function SentBytes(ms: seq<Message>): seq<byte>
    requires AllValid(ms)
  {
    if ms == [] then [] else Wire(ms[0])[4..] + SentBytes(ms[1..])
  }

  lemma FrameAt(m: Message, stream: seq<byte>, p: nat, rest: seq<byte>)
    requires ValidLen(|m.payload|) && p <= |stream| && stream[p..] == Wire(m)[4..] + rest
    ensures RefByte(stream, p) == More(Frame(m), p + TotalBytes(|m.payload|))
    ensures stream[p + TotalBytes(|m.payload|)..] == rest
  {
    hide Wire, Decode, Val, TotalBytes, ByteOf;
    var n := TotalBytes(|m.payload|);
    WireStarts(m);
    ValOf(|m.payload|);
    assert stream[p] == stream[p..][0] == Wire(m)[4];
    assert stream[p..p + n] == stream[p..][..n] == Wire(m)[4..];
    assert stream[p + n..] == stream[p..][n..];
    DecodeInverts(m);
  }

  /** Frames sent back to back from the start of the stream parse to exactly the messages sent. */
  lemma {:induction false} SentParses(stream: seq<byte>, p: nat, ms: seq<Message>)
    requires AllValid(ms) && p <= |stream| && stream[p..] == SentBytes(ms)
    ensures RefBytes(stream, p) == AsItems(ms)
    decreases |ms|
  {
    hide RefByte, Wire, TotalBytes;
    if ms == [] {
      AtEnd(stream, p);
    } else {
      FrameAt(ms[0], stream, p, SentBytes(ms[1..]));
      SentParses(stream, p + TotalBytes(|ms[0].payload|), ms[1..]);
      FirstItem(ms);
    }
  }

  lemma AtEnd(stream: seq<byte>, p: nat)
    requires p <= |stream| && stream[p..] == []
    ensures RefByte(stream, p).Wait?
  {
  }
}
