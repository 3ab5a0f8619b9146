/** ota/ota_sender.c as an object updated in place: each method does to the fields what the
    specification in OtaSender does to the abstract state. */
module SenderMachine {
  import opened Bytes
  import opened OtaProtocol
  import opened OtaBitmap
  import Crc32
  import Tx = OtaSender

  class Sender {
    const image: seq<byte>
    const imageCrc: bv32
    var state: Tx.State
    var totalWindows: nat
    var sendWin: nat
    var commitWin: nat
    var chunk: nat
    var total: nat
    var winBytes: nat
    var winCrc: bv32
    var credits: int
    var retries: nat
    const bitmap: array<byte>
    var nextChunk: nat
    var remaining: nat

    ghost predicate Valid()
      reads this, bitmap
    {
      bitmap.Length == BITMAP_BYTES && total <= MAX_CHUNKS
    }

    ghost function Abs(): Tx.Tx
      reads this, bitmap
    {
      Tx.Tx(image, imageCrc, state, totalWindows, sendWin, commitWin, chunk, total, winBytes, winCrc, credits, retries,
            Unpacked(bitmap[..]), nextChunk, remaining)
    }

    /** ota_sender_init. */
    constructor (image: seq<byte>, imageCrc: bv32)
      ensures Valid() && fresh(bitmap) && this.image == image && this.imageCrc == imageCrc && state == Tx.Idle
      ensures totalWindows == sendWin == commitWin == chunk == total == winBytes == retries == nextChunk == remaining
              == 0
      ensures credits == 0 && winCrc == 0 && Unpacked(bitmap[..]) == NoBits()
    {
      this.image, this.imageCrc, state := image, imageCrc, Tx.Idle;
      totalWindows, sendWin, commitWin, chunk, total, winBytes := 0, 0, 0, 0, 0, 0;
      winCrc, credits, retries, nextChunk, remaining := 0, 0, 0, 0, 0;
      bitmap := new byte[BITMAP_BYTES];
      new;
      Wipe(bitmap);
    }

    /** The data reader: n image bytes from an offset. */
    method Read(offset: nat, n: nat) returns (data: seq<byte>)
      requires n > 0 ==> offset + n <= |image|
      ensures data == if n > 0 then image[offset..offset + n] else []
    {
      data := if n > 0 then image[offset..offset + n] else [];
    }

    /** The loop of setup_window: the CRC accumulated over reads of at most one chunk equals the CRC
        of the whole window. */
    method WindowCrc(w: nat, bytes: nat) returns (crc: bv32)
      requires bytes == |Tx.WindowData(image, w)|
      ensures crc == Crc32.Of(Tx.WindowData(image, w))
    {
      hide Crc32.Update;
      crc := Crc32.INIT;
      var cur, left := w * WINDOW, bytes;
      ghost var window := Tx.WindowData(image, w);
      assert window[..0] == [];
      CrcOfNothing();
      while left > 0
        invariant 0 <= left <= bytes && cur == w * WINDOW + (bytes - left)
        invariant crc == Crc32.Update(Crc32.INIT, window[..bytes - left])
      {
        var n := if left > CHUNK then CHUNK else left;
        ghost var done := bytes - left;
        assert window == image[w * WINDOW..w * WINDOW + bytes];
        SliceOfSlice(image, w * WINDOW, bytes, done, n);
        var temp := Read(cur, n);
        assert temp == window[done..done + n];
        assert window[..done + n] == window[..done] + temp;
        Crc32.UpdateConcat(Crc32.INIT, window[..done], temp);
        crc := Crc32.TableUpdate(crc, temp);
        cur, left := cur + n, left - n;
      }
      assert window[..bytes] == window;
      crc := Crc32.Finish(crc);
    }

    /** setup_window. */
    method SetupWindow(w: nat)
      requires Valid()
      modifies this
      ensures Valid() && Abs() == Tx.SetupWindow(old(Abs()), w)
    {
      hide Unpacked, Crc32.Of, ChunkCount;
      var offset := w * WINDOW;
      var rest := if |image| > offset then |image| - offset else 0;
      winBytes := if rest > WINDOW then WINDOW else rest;
      total := ChunkCount(winBytes);
      ChunksFit(winBytes);
      chunk := 0;
      var crc := WindowCrc(w, winBytes);
      winCrc := crc;
    }

    /** ota_sender_start. */
    method Start() returns (sent: seq<Request>, result: bool)
      requires Valid()
      modifies this
      ensures Valid() && Tx.Outcome(Abs(), sent, result) == Tx.Begin(old(Abs()))
    {
      hide Unpacked, WindowCount;
      if |image| == 0 { return [], false; }
      totalWindows := WindowCount(|image|);
      sendWin, commitWin, credits, retries := 0, 0, 0, 0;
      state := Tx.Starting;
      return [OtaProtocol.Start(MAGIC, |image|, imageCrc, totalWindows)], true;
    }

    method OnStartAck(p: Reply) returns (sent: seq<Request>, result: bool)
      requires Valid() && p.StartAck?
      modifies this
      ensures Valid() && Tx.Outcome(Abs(), sent, result) == Tx.Handle(old(Abs()), p)
    {
      hide Unpacked, Tx.SetupWindow;
      if state != Tx.Starting { return [], false; }
      if p.status != Ok {
        state := Tx.Failed;
        return [], true;
      }
      credits, retries := Tx.Int16(p.credit), 0;
      SetupWindow(sendWin);
      state := Tx.SendWindow;
      return [], true;
    }

    /** wire holds the bitmap bytes of the packet. */
    method OnQueryResp(p: Reply, wire: seq<byte>) returns (sent: seq<Request>, result: bool)
      requires Valid() && p.QueryResp? && |wire| <= BITMAP_BYTES && p.bitmap == Unpacked(wire)
      modifies this, bitmap
      ensures Valid() && Tx.Outcome(Abs(), sent, result) == Tx.OnQueryResp(old(Abs()), p)
    {
      hide LowBit, Tx.SetupWindow;
      if state != Tx.Querying || p.win != sendWin { return [], false; }
      if p.missing > 0 {
        CopyBitmap(wire);
        remaining, nextChunk, state := p.missing, 0, Tx.Retransmit;
        return [], true;
      }
      credits := Tx.Int16(credits - 1);
      sendWin := (sendWin + 1) % 0x1_0000;
      retries := 0;
      if sendWin < totalWindows && credits > 0 {
        SetupWindow(sendWin);
        state := Tx.SendWindow;
      } else {
        state := Tx.WaitReady;
      }
      return [], true;
    }

    /** memcpy of the reply's bitmap bytes. */
    method CopyBitmap(wire: seq<byte>)
      requires Valid() && |wire| <= BITMAP_BYTES
      modifies bitmap
      ensures Unpacked(bitmap[..]) == Unpacked(wire) + old(Unpacked(bitmap[..]))[8 * |wire|..]
    {
      hide LowBit;
      for i := 0 to |wire|
        invariant forall k :: 0 <= k < bitmap.Length ==> bitmap[k] == if k < i then wire[k] else old(bitmap[k])
      {
        bitmap[i] := wire[i];
      }
    }

    method OnReady(p: Reply) returns (sent: seq<Request>, result: bool)
      requires Valid() && p.Ready?
      modifies this
      ensures Valid() && Tx.Outcome(Abs(), sent, result) == Tx.OnReady(old(Abs()), p)
    {
      hide Unpacked, Tx.SetupWindow;
      if p.status != Ok {
        state := Tx.Failed;
        return [], true;
      }
      credits := Tx.Int16(credits + p.credit);
      commitWin := (p.win + 1) % 0x1_0000;
      if commitWin == totalWindows {
        state, retries := Tx.Finalizing, 0;
        return [Finalize(imageCrc)], true;
      } else if state == Tx.WaitReady {
        if sendWin < totalWindows {
          SetupWindow(sendWin);
          state := Tx.SendWindow;
        }
      }
      return [], true;
    }

    method OnReport(p: Reply) returns (sent: seq<Request>, result: bool)
      requires Valid() && p.Report?
      modifies this
      ensures Valid() && Tx.Outcome(Abs(), sent, result) == Tx.Handle(old(Abs()), p)
    {
      hide Unpacked;
      if state != Tx.Finalizing { return [], false; }
      state := if p.status == Ok && p.stagedCrc == imageCrc then Tx.Complete else Tx.Failed;
      return [], true;
    }

    /** ota_sender_handle_response. */
    method HandleResponse(p: Reply, wire: seq<byte>) returns (sent: seq<Request>, result: bool)
      requires Valid() && (p.QueryResp? ==> |wire| <= BITMAP_BYTES && p.bitmap == Unpacked(wire))
      modifies this, bitmap
      ensures Valid() && Tx.Outcome(Abs(), sent, result) == Tx.Handle(old(Abs()), p)
    {
      hide Unpacked, Tx.OnQueryResp, Tx.OnReady, Tx.SetupWindow;
      match p {
        case StartAck(_, _) => sent, result := OnStartAck(p);
        case QueryResp(_, _, _) => sent, result := OnQueryResp(p, wire);
        case Ready(_, _, _) => sent, result := OnReady(p);
        case Report(_, _) => sent, result := OnReport(p);
        case Aborted =>
          state := Tx.Failed;
          return [], true;
      }
    }

    /** The DATA packet for chunk c of the current window. */
    method ReadChunk(c: nat) returns (p: Request)
      requires Valid()
      ensures p == Tx.DataPacket(Abs(), c)
    {
      hide Unpacked;
      var offset := sendWin * WINDOW + c * CHUNK;
      var left := if |image| > offset then |image| - offset else 0;
      var n := if left > CHUNK then CHUNK else left;
      var data := Read(offset, n);
      p := Data(sendWin % 256, c, data);
    }

    /** Up to 32 chunks of a fresh window. */
    method SendBatch() returns (sent: seq<Request>)
      requires Valid()
      modifies `chunk
      ensures Valid() && (Abs(), sent) == Tx.SendChunks(old(Abs()), Tx.BATCH)
    {
      hide Unpacked, Tx.DataPacket, Tx.SendChunks;
      sent := [];
      var batch := 0;
      PrefixedNothing();
      while batch < Tx.BATCH && chunk < total
        invariant batch <= Tx.BATCH
        invariant Tx.SendChunks(old(Abs()), Tx.BATCH) == Prefixed(sent, Tx.SendChunks(Abs(), Tx.BATCH - batch))
      {
        ghost var before := Abs();
        var p := ReadChunk(chunk);
        SendMore(before, Tx.BATCH - batch, sent);
        sent := sent + [p];
        chunk := chunk + 1;
        assert Abs() == before.(chunk := before.chunk + 1);
        batch := batch + 1;
      }
      SendDone(Abs(), Tx.BATCH - batch, sent);
    }

    /** Up to 32 of the chunks the peer reported missing. */
    method ResendBatch() returns (sent: seq<Request>)
      requires Valid()
      modifies bitmap, `nextChunk, `remaining
      ensures Valid() && (Abs(), sent) == Tx.ResendChunks(old(Abs()), Tx.BATCH)
    {
      hide LowBit, Unpacked, Tx.DataPacket, NextMissing, Tx.ResendChunks;
      sent := [];
      var batch := 0;
      PrefixedNothing();
      while batch < Tx.BATCH && remaining > 0
        invariant batch <= Tx.BATCH
        invariant Tx.ResendChunks(old(Abs()), Tx.BATCH) == Prefixed(sent, Tx.ResendChunks(Abs(), Tx.BATCH - batch))
      {
        ghost var before := Abs();
        NextMissingFirst(before.bitmap, nextChunk, total);
        ResendMore(before, Tx.BATCH - batch, sent);
        var c := FindNextMissing(bitmap, nextChunk, total);
        if c >= total {
          remaining := 0;
          break;
        }
        var p := ReadChunk(c);
        sent := sent + [p];
        OtaBitmap.Set(bitmap, c);
        nextChunk := c + 1;
        remaining := remaining - 1;
        assert Abs() == before.(bitmap := before.bitmap[c := true], nextChunk := c + 1,
          remaining := before.remaining - 1);
        batch := batch + 1;
      }
      if remaining == 0 || batch == Tx.BATCH { ResendDone(Abs(), Tx.BATCH - batch, sent); }
    }

    method Query() returns (p: Request)
      requires Valid()
      ensures p == Tx.QueryPacket(Abs())
    {
      p := OtaProtocol.Query(sendWin % 256, winCrc, winBytes);
    }

    /** ota_sender_step after the incoming packets have been handled. */
    method Step(expired: bool) returns (sent: seq<Request>, result: bool)
      requires Valid()
      modifies this, bitmap
      ensures Valid() && Tx.Outcome(Abs(), sent, result) == Tx.Step(old(Abs()), expired)
    {
      hide Unpacked, Tx.SendChunks, Tx.ResendChunks;
      match state {
        case SendWindow =>
          sent := SendBatch();
          if chunk >= total { sent := AskAgain(sent); }
          return sent, true;
        case Retransmit =>
          sent := ResendBatch();
          if remaining == 0 { sent := AskAgain(sent); }
          return sent, true;
        case Querying =>
          var p := Query();
          sent, result := Timeout(expired, p);
        case Starting => sent, result := Timeout(expired, OtaProtocol.Start(MAGIC, |image|, imageCrc, totalWindows));
        case Finalizing => sent, result := Timeout(expired, Finalize(imageCrc));
        case WaitReady =>
          if expired {
            state := Tx.Failed;
            return [], false;
          }
          return [], true;
        case _ => return [], false;
      }
    }

    /** The round is over: query the window. */
    method AskAgain(sent: seq<Request>) returns (all: seq<Request>)
      requires Valid()
      modifies `state, `retries
      ensures Valid() && Abs() == old(Abs()).(state := Tx.Querying, retries := 0)
      ensures all == sent + [Tx.QueryPacket(old(Abs()))]
    {
      hide Unpacked;
      var p := Query();
      all := sent + [p];
      state, retries := Tx.Querying, 0;
    }

    method Timeout(expired: bool, p: Request) returns (sent: seq<Request>, result: bool)
      requires Valid()
      modifies `state, `retries
      ensures Valid()
      ensures Tx.Outcome(Abs(), sent, result) == if expired then Tx.Retry(old(Abs()), p)
              else Tx.Outcome(old(Abs()), [], true)
    {
      hide Unpacked;
      if !expired { return [], true; }
      retries := (retries + 1) % 256;
      if retries > Tx.MAX_TIMEOUT_RETRIES {
        state := Tx.Failed;
        return [], false;
      }
      return [p], true;
    }
  }

  lemma SliceOfSlice(s: seq<byte>, base: nat, size: nat, at: nat, n: nat)
    requires base + size <= |s| && at + n <= size
    ensures s[base..base + size][at..at + n] == s[base + at..base + at + n]
  {
    var a, b := s[base..base + size][at..at + n], s[base + at..base + at + n];
    forall i | 0 <= i < n ensures a[i] == b[i] {
      assert a[i] == s[base..base + size][at + i];
    }
    assert a == b;
  }

  // ---- the batches, unrolled from the front -------------------------------------------------------

  /** A batch whose first packets have been sent already. */
  ghost function Prefixed(sent: seq<Request>, rest: (Tx.Tx, seq<Request>)): (Tx.Tx, seq<Request>) {
    (rest.0, sent + rest.1)
  }

  lemma PrefixedNothing()
    ensures forall rest :: Prefixed([], rest) == rest
  {
    forall rest ensures Prefixed([], rest) == rest { assert [] + rest.1 == rest.1; }
  }

  lemma SendMore(tx: Tx.Tx, n: nat, sent: seq<Request>)
    requires n > 0 && tx.chunk < tx.total
    ensures Prefixed(sent, Tx.SendChunks(tx, n))
            == Prefixed(sent + [Tx.DataPacket(tx, tx.chunk)], Tx.SendChunks(tx.(chunk := tx.chunk + 1), n - 1))
  {
    hide Tx.DataPacket;
    var rest := Tx.SendChunks(tx.(chunk := tx.chunk + 1), n - 1).1;
    assert Tx.SendChunks(tx, n).1 == [Tx.DataPacket(tx, tx.chunk)] + rest;
    assert sent + ([Tx.DataPacket(tx, tx.chunk)] + rest) == (sent + [Tx.DataPacket(tx, tx.chunk)]) + rest;
  }

  lemma SendDone(tx: Tx.Tx, n: nat, sent: seq<Request>)
    requires n == 0 || tx.chunk >= tx.total
    ensures Prefixed(sent, Tx.SendChunks(tx, n)) == (tx, sent)
  {
    assert sent + [] == sent;
  }

  lemma ResendMore(tx: Tx.Tx, n: nat, sent: seq<Request>)
    requires |tx.bitmap| == BITMAP_BITS && tx.total <= MAX_CHUNKS && n > 0 && tx.remaining > 0
    ensures var c := NextMissing(tx.bitmap, tx.nextChunk, tx.total);
            Prefixed(sent, Tx.ResendChunks(tx, n))
            == if c >= tx.total then (tx.(remaining := 0), sent)
               else Prefixed(sent + [Tx.DataPacket(tx, c)],
                             Tx.ResendChunks(tx.(bitmap := tx.bitmap[c := true], nextChunk := c + 1,
                               remaining := tx.remaining - 1), n - 1))
  {
    hide Tx.DataPacket, NextMissing;
    var c := NextMissing(tx.bitmap, tx.nextChunk, tx.total);
    if c >= tx.total {
      assert sent + [] == sent;
    } else {
      var rest := Tx.ResendChunks(tx.(bitmap := tx.bitmap[c := true], nextChunk := c + 1,
        remaining := tx.remaining - 1), n - 1).1;
      assert Tx.ResendChunks(tx, n).1 == [Tx.DataPacket(tx, c)] + rest;
      assert sent + ([Tx.DataPacket(tx, c)] + rest) == (sent + [Tx.DataPacket(tx, c)]) + rest;
    }
  }

  lemma ResendDone(tx: Tx.Tx, n: nat, sent: seq<Request>)
    requires |tx.bitmap| == BITMAP_BITS && tx.total <= MAX_CHUNKS && (n == 0 || tx.remaining == 0)
    ensures Prefixed(sent, Tx.ResendChunks(tx, n)) == (tx, sent)
  {
    assert sent + [] == sent;
  }

  lemma CrcOfNothing()
    ensures Crc32.Update(Crc32.INIT, []) == Crc32.INIT
  {
  }
}
