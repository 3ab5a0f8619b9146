/** Frame extraction of common/packet.c against a reference parser of the whole bit stream. */
module FrameReceiver {
  import opened Bytes
  import opened BitSearch
  import opened Framing

  /** The linear window holds at most 384 bytes. */
  const WINDOW_BITS: nat := 3072
  /** Sync word and shortest frame. */
  const MIN_BITS: nat := 80

  /** The statuses of bmc_rx_extract_frame_from_ring, each with the bits to advance. */
  datatype Extraction =
    | Incomplete(advance: nat)
    | SyncNotFound(advance: nat)
    | InvalidLength(advance: nat)
    | CrcError(advance: nat)
    | FrameOk(advance: nat, m: Message)

  function LengthAt(bits: seq<bool>, at: nat): nat
    requires at + 8 <= |bits|
  {
    Val(FromBits(bits[at..at + 8]))
  }

  /** What lies after a sync word: nothing yet, a bad length, or a frame. */
  datatype After = NotYet | BadLength | Body(bits: nat, decoding: Decoding)

  function AfterSync(bits: seq<bool>, post: nat): After {
    if post + 8 > |bits| then NotYet
    else
      var len := LengthAt(bits, post);
      if !ValidLen(len) then BadLength
      else
        var needed := 8 * TotalBytes(len);
        if post + needed > |bits| then NotYet
        else After.Body(needed, Decode(Packed(bits[post..post + needed])))
  }

  function Back(s: nat, skip: nat): nat { if s > skip then s - skip else 0 }

  /** Extraction on the bits from the byte that holds the tail, the first `skip` of which are before it. */
  function Extract(bits: seq<bool>, skip: nat, unread: nat): Extraction
    requires skip < 8 && skip + unread <= |bits|
  {
    if unread < MIN_BITS then Incomplete(0)
    else
      var avail := if skip + unread > WINDOW_BITS then WINDOW_BITS else skip + unread;
      var window := bits[..avail];
      var s := FirstSync(window, 0, avail - 16);
      if s < 0 then SyncNotFound(Back(avail - 15, skip))
      else
        FirstSyncIs(window, 0, avail - 16);
        match AfterSync(window, s + 16)
        case NotYet => Incomplete(Back(s, skip))
        case BadLength => InvalidLength(s + 16 - skip)
        case Body(needed, decoding) =>
          if decoding.Accepted? then FrameOk(s + 16 + needed - skip, decoding.m) else CrcError(s + 16 - skip)
  }

  // ---- an encoded frame after its sync word ---------------------------------------------------------

  /** The bits encode put after the sync word. */
  function FrameBits(m: Message): (r: seq<bool>)
    requires ValidLen(|m.payload|)
    ensures |r| == 8 * TotalBytes(|m.payload|)
  {
    Bits(Wire(m)[4..])
  }

  lemma FrameLength(m: Message, bits: seq<bool>, post: nat)
    requires ValidLen(|m.payload|) && post + 8 <= |bits| && bits[post..post + 8] == FrameBits(m)[..8]
    ensures LengthAt(bits, post) == |m.payload|
  {
    hide BitOf, Bits, Val, ByteOf, FromBits, Wire, ByteBits, TotalBytes;
    WireStarts(m);
    var frame := Wire(m)[4..];
    forall k: nat | k < 8 ensures FrameBits(m)[k] == ByteBits(frame[0])[k] { BitInByte(frame, 0, k); }
    assert bits[post..post + 8] == ByteBits(frame[0]);
    FromByteBits(frame[0]);
    ValOf(|m.payload|);
  }

  lemma WholeFrame(m: Message, bits: seq<bool>, post: nat)
    requires ValidLen(|m.payload|) && post + |FrameBits(m)| <= |bits|
             && bits[post..post + |FrameBits(m)|] == FrameBits(m)
    ensures AfterSync(bits, post) == After.Body(|FrameBits(m)|, Accepted(TotalBytes(|m.payload|), m))
  {
    hide Bits, Val, FromBits, Wire, TotalBytes, Decode, Packed, LengthAt;
    assert bits[post..post + 8] == bits[post..post + |FrameBits(m)|][..8];
    FrameLength(m, bits, post);
    DecodeInverts(m);
    PackedBits(Wire(m)[4..]);
  }

  lemma PartOfFrame(m: Message, bits: seq<bool>, post: nat)
    requires ValidLen(|m.payload|) && post <= |bits| < post + |FrameBits(m)| && bits[post..] <= FrameBits(m)
    ensures AfterSync(bits, post).NotYet?
  {
    hide FrameBits, TotalBytes, LengthAt;
    if post + 8 <= |bits| {
      assert bits[post..post + 8] == bits[post..][..8] == FrameBits(m)[..8];
      FrameLength(m, bits, post);
    }
  }

  // ---- the reference parser -----------------------------------------------------------------------

  datatype Item = Frame(m: Message) | BadLen | BadCrc

  ghost predicate AllValid(ms: seq<Message>) { forall i :: 0 <= i < |ms| ==> ValidLen(|ms[i].payload|) }

  function AsItems(ms: seq<Message>): seq<Item> { seq(|ms|, i requires 0 <= i < |ms| => Frame(ms[i])) }

  lemma NoItems()
    ensures AsItems([]) == []
  {
  }

  lemma FirstItem(ms: seq<Message>)
    requires ms != []
    ensures AsItems(ms) == [Frame(ms[0])] + AsItems(ms[1..])
  {
  }

  datatype Step = More(item: Item, next: nat) | Wait

  function Floor(p: nat): nat { p - p % 8 }

  /** Look for the earliest sync word from the byte that holds p; a bad length or CRC restarts right
      after the sync word, a frame restarts after the frame. */
  function RefStep(stream: seq<bool>, p: nat): (r: Step)
    ensures r.More? ==> p < r.next <= |stream|
  {
    var s := FirstSync(stream, Floor(p), |stream| - 16);
    if s < 0 then Wait
    else
      FirstSyncIs(stream, Floor(p), |stream| - 16);
      match AfterSync(stream, s + 16)
      case NotYet => Wait
      case BadLength => More(BadLen, s + 16)
      case Body(needed, decoding) =>
        if decoding.Accepted? then More(Frame(decoding.m), s + 16 + needed) else More(BadCrc, s + 16)
  }

  /** Everything the reference parser finds from p on. */
  function RefParse(stream: seq<bool>, p: nat): seq<Item>
    decreases |stream| - p
  {
    var r := RefStep(stream, p);
    if r.Wait? then [] else [r.item] + RefParse(stream, r.next)
  }

  lemma ParseStep(stream: seq<bool>, p: nat)
    requires RefStep(stream, p).More?
    ensures RefParse(stream, p) == [RefStep(stream, p).item] + RefParse(stream, RefStep(stream, p).next)
  {
    hide RefStep;
  }

  lemma ParseEnds(stream: seq<bool>, p: nat)
    requires RefStep(stream, p).Wait?
    ensures RefParse(stream, p) == []
  {
    hide RefStep;
  }

  /** The earliest sync word from a position on. */
  ghost predicate EarliestSync(stream: seq<bool>, from: nat, s: nat) {
    from <= s && SyncAt(stream, s) && NoSync(stream, from, s)
  }

  /** The bits of the frame whose length byte is at a position. */
  function FrameSize(stream: seq<bool>, at: nat): (r: nat)
    requires at + 8 <= |stream|
    ensures r % 8 == 0
  {
    8 * TotalBytes(LengthAt(stream, at))
  }

  predicate LengthOk(stream: seq<bool>, at: nat) { at + 8 <= |stream| && 1 <= LengthAt(stream, at) <= 128 }

  predicate FrameThere(stream: seq<bool>, at: nat) {
    LengthOk(stream, at) && at + FrameSize(stream, at) <= |stream|
  }

  function Verdict(stream: seq<bool>, at: nat): Decoding
    requires FrameThere(stream, at)
  {
    Decode(Packed(stream[at..at + FrameSize(stream, at)]))
  }

  /** The reference parser in its own words. It waits if there is no sync word from the byte of p on, or if the
      frame after the earliest is not complete. A bad length and a frame that does not decode restart right after
      the sync word, a frame that decodes restarts after its last byte. */
  lemma RefStepMeans(stream: seq<bool>, p: nat) returns (s: nat)
    ensures match RefStep(stream, p)
            case Wait =>
              || NoSync(stream, p - p % 8, |stream| - 15)
              || (&& EarliestSync(stream, p - p % 8, s)
                  && (|stream| < s + 24 || (LengthOk(stream, s + 16) && !FrameThere(stream, s + 16))))
            case More(BadLen, next) =>
              && EarliestSync(stream, p - p % 8, s) && s + 24 <= |stream| && !LengthOk(stream, s + 16) && next == s + 16
            case More(BadCrc, next) =>
              && EarliestSync(stream, p - p % 8, s) && FrameThere(stream, s + 16) && next == s + 16
              && !Verdict(stream, s + 16).Accepted?
            case More(Frame(m), next) =>
              && EarliestSync(stream, p - p % 8, s) && FrameThere(stream, s + 16)
              && next == s + 16 + FrameSize(stream, s + 16)
              && Verdict(stream, s + 16).Accepted? && Verdict(stream, s + 16).m == m
  {
    hide FirstSync, SyncAt, Decode, LengthAt, TotalBytes;
    FirstSyncIs(stream, p - p % 8, |stream| - 16);
    var first := FirstSync(stream, p - p % 8, |stream| - 16);
    s := if first < 0 then 0 else first;
  }

  // ---- prefixes -----------------------------------------------------------------------------------

  lemma SyncInPrefix(a: seq<bool>, t: seq<bool>, s: nat)
    requires s + 16 <= |a|
    ensures SyncAt(a + t, s) == SyncAt(a, s)
  {
    assert (a + t)[s..s + 16] == a[s..s + 16];
  }

  lemma {:induction false} FirstSyncExtends(a: seq<bool>, t: seq<bool>, from: nat, last: int, last': int)
    requires last + 16 <= |a| && last <= last'
    ensures FirstSync(a, from, last) >= 0 ==> FirstSync(a + t, from, last') == FirstSync(a, from, last)
    ensures FirstSync(a, from, last) < 0 && from <= last + 1
            ==> FirstSync(a + t, from, last') == FirstSync(a + t, last + 1, last')
    decreases last - from
  {
    if from <= last {
      SyncInPrefix(a, t, from);
      if !SyncAt(a, from) { FirstSyncExtends(a, t, from + 1, last, last'); }
    }
  }

  lemma AfterSyncExtends(a: seq<bool>, t: seq<bool>, post: nat)
    requires !AfterSync(a, post).NotYet?
    ensures AfterSync(a + t, post) == AfterSync(a, post)
  {
    hide Decode, Val, TotalBytes, FromBits, Packed;
    assert (a + t)[post..post + 8] == a[post..post + 8];
    var len := LengthAt(a, post);
    if ValidLen(len) {
      var needed := 8 * TotalBytes(len);
      assert (a + t)[post..post + needed] == a[post..post + needed];
    }
  }

  /** What the reference parser has found it keeps finding when more bits arrive. */
  lemma RefStepExtends(a: seq<bool>, t: seq<bool>, p: nat)
    requires RefStep(a, p).More?
    ensures RefStep(a + t, p) == RefStep(a, p)
  {
    hide AfterSync, FirstSync;
    FirstSyncIs(a, Floor(p), |a| - 16);
    FirstSyncExtends(a, t, Floor(p), |a| - 16, |a + t| - 16);
    AfterSyncExtends(a, t, FirstSync(a, Floor(p), |a| - 16) + 16);
  }

  lemma {:induction false} RefParsePrefix(a: seq<bool>, t: seq<bool>, p: nat)
    ensures RefParse(a, p) <= RefParse(a + t, p)
    decreases |a| - p
  {
    hide RefStep;
    var r := RefStep(a, p);
    if r.More? {
      RefStepExtends(a, t, p);
      RefParsePrefix(a, t, r.next);
    }
  }

  // ---- extraction is one step of the reference parser ------------------------------------------------

  /** What a status says about the stream: an item, unless it is Incomplete or SyncNotFound. */
  predicate Exhausted(r: Extraction) { r.Incomplete? || r.SyncNotFound? }

  function ItemOf(r: Extraction): Item
    requires !Exhausted(r)
  {
    match r
    case FrameOk(_, m) => Frame(m)
    case InvalidLength(_) => BadLen
    case CrcError(_) => BadCrc
  }

  /** Extraction at absolute position p of a stream whose end is the end of the unread bits. */
  function ExtractAt(stream: seq<bool>, p: nat): Extraction
    requires p <= |stream|
  {
    Extract(stream[Floor(p)..], p % 8, |stream| - p)
  }

  lemma {:induction false} FirstSyncShift(bits: seq<bool>, f: nat, from: nat, last: int)
    requires f <= |bits|
    ensures FirstSync(bits[f..], from, last) == if FirstSync(bits, f + from, f + last) < 0 then -1
            else FirstSync(bits, f + from, f + last) - f
    decreases last - from
  {
    if from <= last {
      SyncShift(bits, f, from);
      if SyncAt(bits, f + from) {
      } else {
        FirstSyncShift(bits, f, from + 1, last);
        FirstSyncIs(bits, f + from + 1, f + last);
      }
    }
  }

  lemma SyncShift(bits: seq<bool>, f: nat, s: nat)
    requires f <= |bits|
    ensures SyncAt(bits[f..], s) == SyncAt(bits, f + s)
  {
    if f + s + 16 <= |bits| { assert bits[f..][s..s + 16] == bits[f + s..f + s + 16]; }
  }

  lemma AfterSyncShift(bits: seq<bool>, f: nat, post: nat)
    requires f <= |bits|
    ensures AfterSync(bits[f..], post) == AfterSync(bits, f + post)
  {
    hide Decode, Val, TotalBytes, FromBits, Packed;
    if f + post + 8 <= |bits| {
      assert bits[f..][post..post + 8] == bits[f + post..f + post + 8];
      var len := LengthAt(bits, f + post);
      if ValidLen(len) && f + post + 8 * TotalBytes(len) <= |bits| {
        assert bits[f..][post..post + 8 * TotalBytes(len)] == bits[f + post..f + post + 8 * TotalBytes(len)];
      }
    }
  }

  /** The part of the stream one extraction looks at. */
  function Seen(stream: seq<bool>, p: nat): seq<bool>
    requires p <= |stream|
  {
    if |stream| - Floor(p) > WINDOW_BITS then stream[..Floor(p) + WINDOW_BITS] else stream
  }

  /** The status in terms of the stream it was taken from. */
  lemma ExtractSeen(stream: seq<bool>, p: nat)
    requires p <= |stream| && |stream| - p >= MIN_BITS
    ensures var a, r := Seen(stream, p), ExtractAt(stream, p);
            var s := FirstSync(a, Floor(p), |a| - 16);
            if s < 0 then r == SyncNotFound(Back(|a| - Floor(p) - 15, p % 8))
            else
              s >= Floor(p) &&
              match AfterSync(a, s + 16)
              case NotYet => r == Incomplete(Back(s - Floor(p), p % 8))
              case BadLength => r == InvalidLength(s + 16 - p)
              case Body(needed, decoding) =>
                r == if decoding.Accepted? then FrameOk(s + 16 + needed - p, decoding.m) else CrcError(s + 16 - p)
  {
    hide AfterSync, FirstSync;
    var f, a := Floor(p), Seen(stream, p);
    var avail := |a| - f;
    assert stream[f..][..avail] == a[f..];
    FirstSyncShift(a, f, 0, avail - 16);
    FirstSyncIs(a, f, |a| - 16);
    var s := FirstSync(a, f, |a| - 16);
    if s >= 0 { AfterSyncShift(a, f, s - f + 16); }
  }

  /** An extraction that found something is exactly the reference parser's next step. */
  lemma ExtractFinds(stream: seq<bool>, p: nat)
    requires p <= |stream|
    ensures var r := ExtractAt(stream, p);
            !Exhausted(r) ==> RefStep(stream, p) == More(ItemOf(r), p + r.advance)
  {
    hide AfterSync, FirstSync, Extract;
    var r, a := ExtractAt(stream, p), Seen(stream, p);
    if |stream| - p >= MIN_BITS {
      ExtractSeen(stream, p);
      if !Exhausted(r) {
        assert RefStep(a, p) == More(ItemOf(r), p + r.advance);
        RefStepExtends(a, stream[|a|..], p);
        assert a + stream[|a|..] == stream;
      }
    } else {
      TooFewBits(stream, p);
    }
  }

  lemma TooFewBits(stream: seq<bool>, p: nat)
    requires p <= |stream| && |stream| - p < MIN_BITS
    ensures ExtractAt(stream, p) == Incomplete(0)
  {
  }

  /** An extraction that found nothing skips only bits in which the reference parser, however the
      stream goes on, finds nothing either. */
  lemma ExtractSkips(stream: seq<bool>, t: seq<bool>, p: nat)
    requires p <= |stream|
    ensures var r := ExtractAt(stream, p);
            Exhausted(r) ==> p + r.advance <= |stream| && RefStep(stream + t, p) == RefStep(stream + t, p + r.advance)
  {
    hide AfterSync, FirstSync, Extract;
    var r, a := ExtractAt(stream, p), Seen(stream, p);
    if |stream| - p < MIN_BITS {
      TooFewBits(stream, p);
    } else {
      ExtractSeen(stream, p);
      if Exhausted(r) {
        var more := stream[|a|..] + t;
        assert a + more == stream + t;
        FloorMonotone(p, p + r.advance);
        FirstSyncIs(a, Floor(p), |a| - 16);
        SameFirstSync(a, more, Floor(p), p + r.advance);
      }
    }
  }

  lemma {:induction false} LaterStart(bits: seq<bool>, from: nat, mid: nat, last: int)
    requires from <= mid && NoSync(bits, from, mid)
    ensures FirstSync(bits, from, last) == FirstSync(bits, mid, last)
    decreases mid - from
  {
    if from < mid {
      if from <= last { assert !SyncAt(bits, from); }
      LaterStart(bits, from + 1, mid, last);
    }
  }

  /** Starting the search later finds the same sync word when none lies between. */
  lemma SameFirstSync(a: seq<bool>, t: seq<bool>, from: nat, p: nat)
    requires from <= Floor(p) && p <= |a|
    requires var s := FirstSync(a, from, |a| - 16);
             Floor(p) == from || (if s < 0 then p <= |a| - 15 else p <= s)
    ensures FirstSync(a + t, from, |a + t| - 16) == FirstSync(a + t, Floor(p), |a + t| - 16)
  {
    hide FirstSync, SyncAt;
    FirstSyncIs(a, from, |a| - 16);
    forall s: nat | from <= s < Floor(p) ensures !SyncAt(a + t, s) { SyncInPrefix(a, t, s); }
    LaterStart(a + t, from, Floor(p), |a + t| - 16);
  }

  lemma FloorMonotone(p: nat, q: nat)
    requires p <= q
    ensures Floor(p) <= Floor(q) && Floor(p) % 8 == 0
  {
    assert p / 8 <= q / 8;
    assert Floor(p) == 8 * (p / 8) && Floor(q) == 8 * (q / 8);
  }

  // ---- when nothing is left -------------------------------------------------------------------------

  /** With the whole rest of the stream in the window, finding nothing means there is nothing. */
  lemma UnclampedWaits(stream: seq<bool>, p: nat)
    requires p <= |stream| && MIN_BITS <= |stream| - p && |stream| - Floor(p) <= WINDOW_BITS
    ensures Exhausted(ExtractAt(stream, p)) <==> RefStep(stream, p).Wait?
  {
    hide AfterSync, FirstSync, Extract;
    ExtractSeen(stream, p);
  }

  function Frames(items: seq<Item>): seq<Message> {
    if items == [] then [] else (if items[0].Frame? then [items[0].m] else []) + Frames(items[1..])
  }

  /** Fewer bits than a sync word and the shortest frame hold no frame. */
  lemma {:induction false} TooShortForFrame(stream: seq<bool>, p: nat)
    requires |stream| < Floor(p) + MIN_BITS
    ensures Frames(RefParse(stream, p)) == []
    decreases |stream| - p
  {
    hide FirstSync;
    var r := RefStep(stream, p);
    FirstSyncIs(stream, Floor(p), |stream| - 16);
    if r.More? {
      assert !r.item.Frame?;
      FloorMonotone(p, r.next);
      TooShortForFrame(stream, r.next);
      assert RefParse(stream, p)[1..] == RefParse(stream, r.next);
    }
  }

  /** The tail moves over no sync word: none starts in the byte of the tail before it, if none did before. */
  lemma ClearStays(stream: seq<bool>, t: seq<bool>, p: nat)
    requires p <= |stream| && NoSync(stream + t, Floor(p), p)
    ensures var r := ExtractAt(stream, p);
            Exhausted(r) ==> NoSync(stream + t, Floor(p + r.advance), p + r.advance)
  {
    hide AfterSync, FirstSync, Extract, SyncAt;
    var r, a := ExtractAt(stream, p), Seen(stream, p);
    if |stream| - p < MIN_BITS {
      TooFewBits(stream, p);
    } else if Exhausted(r) && r.advance > 0 {
      ExtractSeen(stream, p);
      var more, q := stream[|a|..] + t, p + r.advance;
      assert a + more == stream + t;
      FloorMonotone(p, q);
      FirstSyncIs(a, Floor(p), |a| - 16);
      forall s: nat | Floor(q) <= s < q ensures !SyncAt(stream + t, s) { SyncInPrefix(a, more, s); }
    }
  }

  /** Nor do fewer unread bits than that, unless a sync word starts in the bits before the tail. */
  lemma ShortRestQuiet(stream: seq<bool>, p: nat)
    requires |stream| < p + MIN_BITS && NoSync(stream, Floor(p), p)
    ensures Frames(RefParse(stream, p)) == []
  {
    hide FirstSync, SyncAt;
    var r := RefStep(stream, p);
    FirstSyncIs(stream, Floor(p), |stream| - 16);
    if r.More? {
      assert !r.item.Frame?;
      TooShortForFrame(stream, r.next);
      assert RefParse(stream, p)[1..] == RefParse(stream, r.next);
    }
  }

  /** Where a fruitless extraction leaves the tail: it gives up all it has seen but the last fifteen bits if there
      was no sync word, and stops at the sync word if its frame is not complete; below the entry guard it stays. */
  lemma FruitlessAdvance(stream: seq<bool>, p: nat) returns (s: nat)
    requires p <= |stream|
    ensures var r, end := ExtractAt(stream, p), if |stream| - (p - p % 8) > 3072 then p - p % 8 + 3072 else |stream|;
            var q := p + r.advance;
            && (|stream| - p < 80 ==> r == Incomplete(0))
            && (r.SyncNotFound? ==> q == end - 15 && |stream| - p >= 80 && NoSync(stream, p - p % 8, end - 15))
            && (r.Incomplete? && |stream| - p >= 80 ==>
                  && EarliestSync(stream, p - p % 8, s) && q == (if s > p then s else p)
                  && !FrameThere(stream[..end], s + 16))
  {
    hide FirstSync, Extract, SyncAt, Decode, LengthAt, TotalBytes;
    s := 0;
    if |stream| - p < MIN_BITS {
      TooFewBits(stream, p);
    } else {
      ExtractSeen(stream, p);
      var a := Seen(stream, p);
      FirstSyncIs(a, Floor(p), |a| - 16);
      var first := FirstSync(a, Floor(p), |a| - 16);
      assert a + stream[|a|..] == stream;
      forall k: nat | k + 16 <= |a| ensures SyncAt(stream, k) == SyncAt(a, k) { SyncInPrefix(a, stream[|a|..], k); }
      if ExtractAt(stream, p).Incomplete? {
        assert stream[..|a|] == a;
        s := first;
      }
    }
  }

  /** So a port never sits on much: after a fruitless extraction that saw everything at most 1103 bits are left. */
  lemma LittleIsLeft(stream: seq<bool>, p: nat)
    requires p <= |stream| && |stream| - (p - p % 8) <= 3072 && Exhausted(ExtractAt(stream, p))
    ensures |stream| - (p + ExtractAt(stream, p).advance) <= 1103
  {
    hide Extract, SyncAt, Decode, NoSync;
    var s := FruitlessAdvance(stream, p);
    assert stream[..|stream|] == stream;
    var r := ExtractAt(stream, p);
    if r.Incomplete? && |stream| - p >= 80 { NotThereYet(stream, p, s); }
  }

  /** A frame that an extraction waits for has a valid length or none yet. */
  lemma NotThereYet(stream: seq<bool>, p: nat, s: nat)
    requires p <= |stream| && |stream| - (p - p % 8) <= 3072 && |stream| - p >= 80
    requires ExtractAt(stream, p).Incomplete? && EarliestSync(stream, p - p % 8, s) && !FrameThere(stream, s + 16)
    ensures |stream| - s <= 1103
  {
    hide Extract, SyncAt, Decode, FirstSync, LengthAt;
    ExtractSeen(stream, p);
    FirstSyncIs(stream, Floor(p), |stream| - 16);
    SyncFits(stream, s);
  }

  lemma SyncFits(stream: seq<bool>, s: nat)
    requires SyncAt(stream, s)
    ensures s + 16 <= |stream|
  {
  }

  lemma AfterSyncCut(a: seq<bool>, t: seq<bool>, post: nat)
    requires AfterSync(a + t, post).Body? && post + AfterSync(a + t, post).bits <= |a|
    ensures AfterSync(a, post) == AfterSync(a + t, post)
    ensures AfterSync(a + t, post).bits >= MIN_BITS - 16
  {
    hide Decode, Val, FromBits, Packed;
    assert (a + t)[post..post + 8] == a[post..post + 8];
    var needed := AfterSync(a + t, post).bits;
    assert (a + t)[post..post + needed] == a[post..post + needed];
  }

  /** A frame that ends in the window is found, unless its sync word starts before the tail. */
  lemma FrameInWindow(stream: seq<bool>, p: nat)
    requires p <= |stream| && NoSync(stream, Floor(p), p)
    requires var r := RefStep(stream, p); r.More? && r.item.Frame? && r.next <= Floor(p) + WINDOW_BITS
    ensures !Exhausted(ExtractAt(stream, p))
  {
    hide AfterSync, FirstSync, Extract, SyncAt;
    var a := Seen(stream, p);
    var t := stream[|a|..];
    assert a + t == stream;
    FirstSyncIs(stream, Floor(p), |stream| - 16);
    var s := FirstSync(stream, Floor(p), |stream| - 16);
    AfterSyncCut(a, t, s + 16);
    FirstSyncIs(a, Floor(p), |a| - 16);
    SyncInPrefix(a, t, s);
    forall k: nat | Floor(p) <= k < s ensures !SyncAt(a, k) { SyncInPrefix(a, t, k); }
    ExtractSeen(stream, p);
  }

  // ---- the skip cache ---------------------------------------------------------------------------------

  /** Transparent below the clamp: when the last extraction found nothing in a window that held all
      unread bits, extracting again at the advanced tail finds nothing and counts no error. */
  lemma SkipTransparent(stream: seq<bool>, p: nat)
    requires p <= |stream| && |stream| - Floor(p) <= WINDOW_BITS
    requires Exhausted(ExtractAt(stream, p))
    ensures var q := p + ExtractAt(stream, p).advance;
            q <= |stream| && Exhausted(ExtractAt(stream, q))
  {
    hide AfterSync, FirstSync, Extract, RefStep;
    var r := ExtractAt(stream, p);
    assert stream + [] == stream;
    ExtractSkips(stream, [], p);
    if |stream| - p < MIN_BITS {
      TooFewBits(stream, p);
    } else {
      UnclampedWaits(stream, p);
      ExtractFinds(stream, p + r.advance);
    }
  }

  /** The shortest frame: one zero byte of payload, every field zero. */
  function Shortest(): Message { Message(0, 0, [0]) }

  /** Zeros, then a sync word and the shortest frame whose last bit is one past the window. */
  ghost function Straddling(n: nat): seq<bool>
    requires n > WINDOW_BITS
  {
    Rep(false, WINDOW_BITS + 1 - MIN_BITS) + (SYNC + (FrameBits(Shortest()) + Rep(false, n - WINDOW_BITS - 1)))
  }

  lemma StraddlingShape(n: nat)
    requires n > WINDOW_BITS
    ensures var bits := Straddling(n);
            && |bits| == n
            && bits[WINDOW_BITS + 1 - MIN_BITS..WINDOW_BITS + 17 - MIN_BITS] == SYNC
            && bits[WINDOW_BITS + 17 - MIN_BITS..WINDOW_BITS + 1] == FrameBits(Shortest())
            && forall s: nat :: s < WINDOW_BITS + 1 - MIN_BITS ==> !bits[s]
  {
    hide Wire, Bits;
    var frame := FrameBits(Shortest());
    assert |frame| == MIN_BITS - 16;
    var zeros, rest := Rep(false, WINDOW_BITS + 1 - MIN_BITS), Rep(false, n - WINDOW_BITS - 1);
    var bits := Straddling(n);
    assert bits[WINDOW_BITS + 1 - MIN_BITS..] == SYNC + (frame + rest);
    assert (SYNC + (frame + rest))[..16] == SYNC;
    assert (SYNC + (frame + rest))[16..MIN_BITS] == frame;
    assert bits[WINDOW_BITS + 17 - MIN_BITS..WINDOW_BITS + 1] == bits[WINDOW_BITS + 1 - MIN_BITS..][16..MIN_BITS];
  }

  /** Beyond the clamp it is not: for every tail phase and every longer stretch of unread bits there
      are contents for which the driver reports nothing new although a whole valid frame is waiting. */
  lemma SkipHidesFrame(skip: nat, n: nat)
    requires skip < 8 && n > WINDOW_BITS
    ensures var r := ExtractAt(Straddling(n), skip);
            |Straddling(n)| == n && Exhausted(r) && skip + r.advance <= n
            && ExtractAt(Straddling(n), skip + r.advance) == FrameOk(MIN_BITS, Shortest())
  {
    hide AfterSync, FirstSync, Extract, Straddling, SyncAt, Wire, Bits;
    StraddlingShape(n);
    var bits, s := Straddling(n), WINDOW_BITS + 1 - MIN_BITS;
    var a := Seen(bits, skip);
    StraddlingFirst(bits, a, 0);
    ExtractSeen(bits, skip);
    assert a[s + 16..] == FrameBits(Shortest())[..MIN_BITS - 17];
    PartOfFrame(Shortest(), a, s + 16);
    var b := Seen(bits, s);
    StraddlingFirst(bits, b, Floor(s));
    ExtractSeen(bits, s);
    assert b[s + 16..WINDOW_BITS + 1] == bits[s + 16..WINDOW_BITS + 1];
    WholeFrame(Shortest(), b, s + 16);
  }

  lemma SyncStartsHigh(bits: seq<bool>, s: nat)
    ensures SyncAt(bits, s) ==> bits[s]
  {
    if SyncAt(bits, s) { assert bits[s..s + 16][0] == SYNC[0]; }
  }

  /** The only sync word in reach is the planted one. */
  lemma StraddlingFirst(bits: seq<bool>, a: seq<bool>, from: nat)
    requires a <= bits && WINDOW_BITS <= |a| && from <= WINDOW_BITS + 1 - MIN_BITS
    requires bits[..|a|][WINDOW_BITS + 1 - MIN_BITS..WINDOW_BITS + 17 - MIN_BITS] == SYNC
    requires forall s: nat :: s < WINDOW_BITS + 1 - MIN_BITS ==> !bits[s]
    ensures FirstSync(a, from, |a| - 16) == WINDOW_BITS + 1 - MIN_BITS
  {
    hide FirstSync;
    var s := WINDOW_BITS + 1 - MIN_BITS;
    assert SyncAt(a, s);
    FirstSyncIs(a, from, |a| - 16);
    forall k: nat | from <= k < s ensures !SyncAt(a, k) { SyncStartsHigh(a, k); }
  }

  /** Skipping the poll hides nothing: after an extraction that found nothing another one at the
      advanced tail finds nothing either. */
  ghost predicate SkipHarmless(stream: seq<bool>, p: nat)
    requires p <= |stream|
  {
    var r := ExtractAt(stream, p);
    Exhausted(r) ==> p + r.advance <= |stream| && Exhausted(ExtractAt(stream, p + r.advance))
  }

  /** The skip cache is transparent for all contents exactly when the window holds all the bits: n bits
      from the byte of the tail on, `skip` of them before the tail. */
  lemma SkipTransparentIff(skip: nat, n: nat)
    requires skip < 8 && skip <= n
    ensures (forall bits: seq<bool> :: |bits| == n ==> SkipHarmless(bits, skip)) <==> n <= WINDOW_BITS
  {
    hide ExtractAt, Straddling;
    if n <= WINDOW_BITS {
      forall bits: seq<bool> | |bits| == n ensures SkipHarmless(bits, skip) {
        if Exhausted(ExtractAt(bits, skip)) { SkipTransparent(bits, skip); }
      }
    } else {
      SkipHidesFrame(skip, n);
      assert |Straddling(n)| == n && !SkipHarmless(Straddling(n), skip);
    }
  }

  // ---- when silence means that nothing is there -------------------------------------------------------

  /** Tail phase and bits from the byte of the tail on for which no frame can escape an extraction: all
      in the window, and either too few for a frame or enough to pass the entry guard. */
  predicate Covered(skip: nat, n: nat) { n <= WINDOW_BITS && (n < MIN_BITS || MIN_BITS + skip <= n) }

  /** If extraction finds nothing, the reference parser finds no frame. */
  ghost predicate Quiet(stream: seq<bool>, p: nat)
    requires p <= |stream|
  {
    Exhausted(ExtractAt(stream, p)) ==> Frames(RefParse(stream, p)) == []
  }

  lemma CoveredQuiet(stream: seq<bool>, p: nat)
    requires p <= |stream| && Covered(p % 8, |stream| - Floor(p))
    ensures Quiet(stream, p)
  {
    hide ExtractAt, RefStep;
    if |stream| - Floor(p) < MIN_BITS { TooShortForFrame(stream, p); } else { UnclampedWaits(stream, p); }
  }

  lemma SyncHere(bits: seq<bool>, s: nat)
    requires s + 16 <= |bits| && bits[s..s + 16] == SYNC
    ensures SyncAt(bits, s)
  {
  }

  /** A sync word and the shortest frame at the very start. */
  ghost function Early(n: nat): (r: seq<bool>)
    requires n >= MIN_BITS
    ensures |r| == n
  {
    SYNC + FrameBits(Shortest()) + Rep(false, n - MIN_BITS)
  }

  /** The entry guard holds back a whole frame that begins in the byte of the tail before the tail. */
  lemma GuardHidesFrame(skip: nat, n: nat)
    requires skip < 8 && MIN_BITS <= n < MIN_BITS + skip
    ensures ExtractAt(Early(n), skip) == Incomplete(0) && RefStep(Early(n), skip) == More(Frame(Shortest()), MIN_BITS)
  {
    hide AfterSync, FirstSync, SyncAt, Wire, Bits;
    var bits := Early(n);
    TooFewBits(bits, skip);
    assert bits[0..16] == SYNC;
    SyncHere(bits, 0);
    FirstSyncIs(bits, 0, n - 16);
    assert bits[16..MIN_BITS] == FrameBits(Shortest());
    WholeFrame(Shortest(), bits, 16);
  }

  /** Early, so that a port which began at the start of a stream comes to meet it: a sync word and the
      shortest frame up to its last padding bits, which decode does not look at. */
  ghost function Overlapped(skip: nat, n: nat): (r: seq<bool>)
    requires 0 < skip < 8 && n >= MIN_BITS
    ensures |r| == MIN_BITS + n
  {
    Rep(false, skip) + SYNC + FrameBits(Shortest())[..64 - skip] + Early(n)
  }

  lemma OverlappedShape(skip: nat, n: nat)
    requires 0 < skip < 8 && n >= MIN_BITS
    ensures var bits := Overlapped(skip, n);
            && (forall i: nat :: i < skip ==> !bits[i])
            && bits[skip..skip + 16] == SYNC && bits[skip + 16..80] == FrameBits(Shortest())[..64 - skip]
            && bits[80..] == Early(n) && bits[80..96] == SYNC && bits[96..160] == FrameBits(Shortest())
  {
    hide Wire, Bits;
    var bits, early := Overlapped(skip, n), Early(n);
    var head := Rep(false, skip) + SYNC + FrameBits(Shortest())[..64 - skip];
    assert bits == head + early;
    assert bits[80..] == early;
    assert bits[80..96] == early[..16];
    assert bits[96..160] == early[16..80];
  }

  /** The bytes decode looks at are those up to the CRC. */
  lemma PaddingIgnored(m: Message, bits: seq<bool>, post: nat)
    requires ValidLen(|m.payload|) && post + |FrameBits(m)| <= |bits|
    requires var n := 8 * (HEADER + |m.payload| + CRC_BYTES);
             n <= |FrameBits(m)| && bits[post..post + n] == FrameBits(m)[..n]
    ensures AfterSync(bits, post) == After.Body(|FrameBits(m)|, Accepted(TotalBytes(|m.payload|), m))
  {
    hide Bits, Val, FromBits, Wire, TotalBytes, Decode, LengthAt;
    var n := HEADER + |m.payload| + CRC_BYTES;
    assert bits[post..post + 8] == bits[post..post + 8 * n][..8];
    assert FrameBits(m)[..8] == FrameBits(m)[..8 * n][..8];
    FrameLength(m, bits, post);
    DecodeInverts(m);
    PackedBits(Wire(m)[4..]);
    var f, g := Wire(m)[4..], Packed(bits[post..post + |FrameBits(m)|]);
    assert 8 * n <= |FrameBits(m)|;
    forall i | 0 <= i < n ensures f[i] == g[i] {
      assert 8 * i + 8 <= 8 * n;
      SubRange(bits, post, |FrameBits(m)|, 8 * i);
      SubRange(bits, post, 8 * n, 8 * i);
      SubRange(FrameBits(m), 0, 8 * n, 8 * i);
    }
    assert f[..n] == g[..n];
    FirstByteLength(m);
    DecodePrefix(f, g, |m.payload|);
  }

  lemma SubRange(bits: seq<bool>, from: nat, n: nat, at: nat)
    requires at + 8 <= n && from + n <= |bits|
    ensures bits[from..from + n][at..at + 8] == bits[from + at..from + at + 8]
  {
    var a := bits[from..from + n][at..at + 8];
    forall k | 0 <= k < 8 ensures a[k] == bits[from + at + k] { assert a[k] == bits[from..from + n][at + k]; }
    assert a == bits[from + at..from + at + 8];
  }

  lemma FirstByteLength(m: Message)
    requires ValidLen(|m.payload|)
    ensures Val(Wire(m)[4..][0]) == |m.payload|
  {
    hide Val, Wire, ByteOf;
    WireStarts(m);
    ValOf(|m.payload|);
  }

  /** The port that starts on such a stream takes the first frame and stops in the byte of the second. */
  lemma OverlappedFirst(skip: nat, n: nat)
    requires 0 < skip < 8 && MIN_BITS <= n < MIN_BITS + skip
    ensures var bits := Overlapped(skip, n);
            && ExtractAt(bits, 0) == FrameOk(80 + skip, Shortest())
            && ExtractAt(bits, 80 + skip) == Incomplete(0)
            && RefStep(bits, 80 + skip) == More(Frame(Shortest()), 160)
  {
    hide AfterSync, FirstSync, Extract, SyncAt, Overlapped, Early, Wire, Bits;
    var bits, m := Overlapped(skip, n), Shortest();
    OverlappedShape(skip, n);
    assert |FrameBits(m)| == 64;
    SyncHere(bits, skip);
    forall k: nat | k < skip ensures !SyncAt(bits, k) { SyncStartsHigh(bits, k); }
    FirstSyncIs(bits, 0, |bits| - 16);
    assert bits[skip + 16..skip + 72] == bits[skip + 16..80][..56];
    PaddingIgnored(m, bits, skip + 16);
    ExtractSeen(bits, 0);
    TooFewBits(bits, 80 + skip);
    SyncHere(bits, 80);
    assert Floor(80 + skip) == 80;
    FirstSyncIs(bits, 80, |bits| - 16);
    WholeFrame(m, bits, 96);
  }

  /** No frame escapes, whatever the contents, exactly when the phase and the number of bits are covered. */
  lemma QuietIff(skip: nat, n: nat)
    requires skip < 8 && skip <= n
    ensures (forall bits: seq<bool> :: |bits| == n ==> Quiet(bits, skip)) <==> Covered(skip, n)
  {
    hide ExtractAt, Straddling, Early, RefStep;
    if Covered(skip, n) {
      forall bits: seq<bool> | |bits| == n ensures Quiet(bits, skip) { CoveredQuiet(bits, skip); }
    } else if n <= WINDOW_BITS {
      GuardHidesFrame(skip, n);
      assert |Early(n)| == n && !Quiet(Early(n), skip);
    } else {
      SkipHidesFrame(skip, n);
      var bits := Straddling(n);
      assert bits + [] == bits;
      ExtractSkips(bits, [], skip);
      ExtractFinds(bits, skip + ExtractAt(bits, skip).advance);
      assert |bits| == n && !Quiet(bits, skip);
    }
  }
}
