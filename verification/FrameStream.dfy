/** Encoded frames as the receiver meets them: one frame at any tail position, and whole streams. */
module FrameStream {
  import opened Bytes
  import opened BitSearch
  import opened Framing
  import opened FrameReceiver

  /** The transmitted bits of a frame up to the end of its padding. */
  function WireBits(m: Message): (r: seq<bool>)
    requires ValidLen(|m.payload|)
    ensures |r| == 32 + |FrameBits(m)|
  {
    Bits(Wire(m))
  }

  /** Preamble 1010..., then the sync word. */
  lemma HeadBits(m: Message)
    requires ValidLen(|m.payload|)
    ensures forall i: nat :: i < 16 ==> WireBits(m)[i] == (i % 2 == 0)
    ensures WireBits(m)[16..32] == SYNC && WireBits(m)[32..] == FrameBits(m)
  {
    hide Wire, Bits;
    WireStarts(m);
    assert Wire(m) == Head() + Wire(m)[4..];
    BitsConcat(Head(), Wire(m)[4..]);
    HeadOnly();
    var h := Bits(Head());
    assert WireBits(m) == h + FrameBits(m);
    assert WireBits(m)[16..32] == h[16..32];
  }

  lemma HeadOnly()
    ensures |Bits(Head())| == 32
    ensures forall i: nat :: i < 16 ==> Bits(Head())[i] == (i % 2 == 0)
    ensures Bits(Head())[16..32] == SYNC
  {
    hide Bits, Head, ByteBits;
    var h := Bits(Head());
    forall i: nat | i < 16 ensures h[i] == (i % 2 == 0) && h[16 + i] == SYNC[i] { HeadBitAt(i); }
    assert h[16..32] == SYNC;
  }

  lemma HeadBitAt(i: nat)
    requires i < 16
    ensures Bits(Head())[i] == (i % 2 == 0) && Bits(Head())[16 + i] == SYNC[i]
  {
    hide Bits, Head, ByteBits;
    HeadBit(i % 8);
    BitInByte(Head(), i / 8, i % 8);
    BitInByte(Head(), 2 + i / 8, i % 8);
  }

  lemma HeadBit(k: nat)
    requires k < 8
    ensures ByteBits(Head()[0])[k] == ByteBits(Head()[1])[k] == (k % 2 == 0)
    ensures ByteBits(Head()[2])[k] == SYNC[k] && ByteBits(Head()[3])[k] == SYNC[8 + k]
  {
    if k == 0 {} else if k == 1 {} else if k == 2 {} else if k == 3 {} else if k == 4 {} else if k == 5 {}
      else if k == 6 {} else {}
  }

  // ---- no false sync in the preamble ------------------------------------------------------------------

  /** Bits that a sync word cannot start in: alternating, up to a one. */
  ghost predicate Alternating(bits: seq<bool>, p: nat) {
    p + 17 <= |bits| && (forall i: nat :: i < 16 ==> bits[p + i] == (i % 2 == 0)) && bits[p + 16]
  }

  lemma Neighbours(bits: seq<bool>, p: nat, i: nat)
    requires Alternating(bits, p) && i < 15
    ensures bits[p + i] == (i % 2 == 0) && bits[p + i + 1] == (i % 2 == 1)
  {
    assert bits[p + (i + 1)] == ((i + 1) % 2 == 0);
  }

  lemma SyncParts(bits: seq<bool>, s: nat)
    requires SyncAt(bits, s)
    ensures !bits[s + 1] && !bits[s + 2] && bits[s + 7] && bits[s + 8]
  {
    var w := bits[s..s + 16];
    assert w[1] == bits[s + 1] && w[2] == bits[s + 2] && w[7] == bits[s + 7] && w[8] == bits[s + 8];
  }

  /** Neither in the preamble nor overlapping it from up to seven arbitrary bits before. */
  lemma NoSyncInPreamble(bits: seq<bool>, p: nat, s: nat)
    requires Alternating(bits, p) && s < p + 16 && p <= s + 7
    ensures !SyncAt(bits, s)
  {
    hide SyncAt;
    if SyncAt(bits, s) {
      SyncParts(bits, s);
      if s < p { Neighbours(bits, p, s + 7 - p); }
      else if s < p + 14 { Neighbours(bits, p, s + 1 - p); }
    }
  }

  /** Nor in a run of ones before the preamble. */
  lemma NoSyncInIdle(bits: seq<bool>, p: nat, n: nat, s: nat)
    requires (forall i :: p <= i < p + n ==> i < |bits| && bits[i]) && Alternating(bits, p + n)
    requires p <= s < p + n + 16
    ensures !SyncAt(bits, s)
  {
    hide SyncAt;
    if s < p + n {
      if SyncAt(bits, s) {
        SyncParts(bits, s);
        Neighbours(bits, p + n, 0);
      }
    } else {
      NoSyncInPreamble(bits, p + n, s);
    }
  }

  // ---- one frame ----------------------------------------------------------------------------------------

  lemma FrameHere(m: Message, bits: seq<bool>, p: nat)
    requires ValidLen(|m.payload|) && p + |WireBits(m)| <= |bits| && bits[p..p + |WireBits(m)|] == WireBits(m)
    ensures Alternating(bits, p) && SyncAt(bits, p + 16)
    ensures AfterSync(bits, p + 32) == After.Body(|FrameBits(m)|, Accepted(TotalBytes(|m.payload|), m))
  {
    hide AfterSync, WireBits, FrameBits, TotalBytes, Wire;
    HeadBits(m);
    var w := WireBits(m);
    forall i: nat | i < |w| ensures bits[p + i] == w[i] { assert bits[p..p + |w|][i] == w[i]; }
    assert bits[p + 16..p + 32] == w[16..32];
    assert w[16..32][0] == SYNC[0];
    SyncHere(bits, p + 16);
    assert bits[p + 32..p + |w|] == w[32..];
    WholeFrame(m, bits, p + 32);
  }

  /** Full link round trip: wherever the tail is, whatever the bits before it, the frame comes back
      with the same fields and the tail moves by exactly its wire bits. */
  lemma RoundTrip(m: Message, before: seq<bool>, after: seq<bool>)
    requires ValidLen(|m.payload|)
    ensures ExtractAt(before + WireBits(m) + after, |before|) == FrameOk(|WireBits(m)|, m)
  {
    hide AfterSync, FirstSync, Extract, WireBits, SyncAt, FrameBits, Wire;
    var bits, p := before + WireBits(m) + after, |before|;
    var a := Seen(bits, p);
    WireSize(m);
    assert bits[p..p + |WireBits(m)|] == WireBits(m);
    assert a[p..p + |WireBits(m)|] == bits[p..p + |WireBits(m)|];
    FrameHere(m, a, p);
    FirstIs(a, p);
    ExtractSeen(bits, p);
  }

  lemma WireSize(m: Message)
    requires ValidLen(|m.payload|)
    ensures MIN_BITS <= |WireBits(m)| <= 1136 && |WireBits(m)| + 7 <= WINDOW_BITS
    ensures |WireBits(m)| == 32 + 8 * TotalBytes(|m.payload|) && |WireBits(m)| % 32 == 0
  {
    hide Wire;
  }

  /** The first sync word from the byte of a preamble on is the one after it. */
  lemma FirstIs(bits: seq<bool>, p: nat)
    requires Alternating(bits, p) && SyncAt(bits, p + 16)
    ensures FirstSync(bits, Floor(p), |bits| - 16) == p + 16
  {
    forall s: nat | Floor(p) <= s < p + 16 ensures !SyncAt(bits, s) { NoSyncInPreamble(bits, p, s); }
    FirstFrom(bits, Floor(p), p + 16);
  }

  /** As long as a single bit of the frame is missing nothing is accepted and nothing is counted as an
      error. */
  lemma OneBitShort(m: Message, before: seq<bool>, n: nat)
    requires ValidLen(|m.payload|) && n < |WireBits(m)|
    ensures Exhausted(ExtractAt(before + WireBits(m)[..n], |before|))
  {
    hide AfterSync, FirstSync, Extract, WireBits, SyncAt, FrameBits, Wire;
    var bits, p := before + WireBits(m)[..n], |before|;
    if n < MIN_BITS {
      TooFewBits(bits, p);
    } else {
      WireSize(m);
      HeadBits(m);
      var w := WireBits(m);
      forall i: nat | i < n ensures bits[p + i] == w[i] {}
      assert bits[p + 16..p + 32] == w[16..32];
      assert w[16..32][0] == SYNC[0];
      assert SyncAt(bits, p + 16) by { SyncHere(bits, p + 16); }
      FirstIs(bits, p);
      assert bits[p + 32..] == w[32..][..n - 32];
      PartOfFrame(m, bits, p + 32);
      ExtractSeen(bits, p);
    }
  }

  // ---- whole streams ------------------------------------------------------------------------------------

  /** The bits of the packets of a sequence of messages, back to back. */
  ghost function StreamBits(ms: seq<Message>): seq<bool>
    requires AllValid(ms)
  {
    if ms == [] then [] else Bits(Sent(ms[0])) + StreamBits(ms[1..])
  }

  function Ones(n: nat): seq<bool> { Rep(true, n) }

  lemma SentBits(m: Message)
    requires ValidLen(|m.payload|)
    ensures Bits(Sent(m)) == WireBits(m) + Ones(32)
  {
    hide Bits, Wire, BitOf;
    BitsConcat(Wire(m), Postamble());
    forall i | 0 <= i < 32 ensures Bits(Postamble())[i] {
      BitInByte(Postamble(), i / 8, i % 8);
      BitOfByte(0xFF, i % 8);
      AllOnes(i % 8);
    }
    assert Bits(Postamble()) == Ones(32);
  }

  lemma AllOnes(k: nat)
    requires k < 8
    ensures BitOf(0xFF, k)
  {
  }

  /** The bits from the end of one frame on: its postamble, if any, and the packets that follow. */
  ghost predicate Follows(bits: seq<bool>, p: nat, n: nat, ms: seq<Message>)
    requires AllValid(ms)
  {
    p % 8 == 0 && p <= |bits| && bits[p..] == Ones(n) + StreamBits(ms)
  }

  lemma OneMore(bits: seq<bool>, p: nat, n: nat, ms: seq<Message>)
    requires AllValid(ms) && ms != [] && Follows(bits, p, n, ms)
    ensures RefStep(bits, p) == More(Frame(ms[0]), p + n + |WireBits(ms[0])|)
    ensures Follows(bits, p + n + |WireBits(ms[0])|, 32, ms[1..]) || n % 8 != 0
  {
    hide AfterSync, FirstSync, WireBits, SyncAt, FrameBits, Wire, Bits, StreamBits;
    var m, w := ms[0], WireBits(ms[0]);
    SentBits(m);
    WireSize(m);
    StreamStarts(ms);
    var rest := Ones(32) + StreamBits(ms[1..]);
    assert bits[p..] == Ones(n) + (w + rest);
    var q := p + n;
    assert bits[q..] == w + rest;
    assert bits[q..q + |w|] == w;
    FrameHere(m, bits, q);
    forall i | p <= i < q ensures bits[i] { assert bits[i] == bits[p..][i - p]; }
    forall s: nat | p <= s < q + 16 ensures !SyncAt(bits, s) { NoSyncInIdle(bits, p, n, s); }
    FirstFrom(bits, p, q + 16);
    assert bits[q + |w|..] == rest;
  }

  lemma StreamStarts(ms: seq<Message>)
    requires AllValid(ms) && ms != []
    ensures AllValid(ms[1..]) && StreamBits(ms) == Bits(Sent(ms[0])) + StreamBits(ms[1..])
  {
  }

  lemma FirstFrom(bits: seq<bool>, p: nat, s: nat)
    requires p <= s && SyncAt(bits, s) && NoSync(bits, p, s)
    ensures FirstSync(bits, p, |bits| - 16) == s
  {
    FirstSyncIs(bits, p, |bits| - 16);
  }

  lemma IdleWaits(bits: seq<bool>, p: nat, n: nat)
    requires Follows(bits, p, n, [])
    ensures RefStep(bits, p).Wait?
  {
    hide AfterSync, SyncAt;
    FirstSyncIs(bits, p, |bits| - 16);
    var s := FirstSync(bits, p, |bits| - 16);
    if s >= 0 {
      assert bits[s + 1] == bits[p..][s + 1 - p];
      SyncHasZero(bits, s);
    }
  }

  lemma SyncHasZero(bits: seq<bool>, s: nat)
    ensures SyncAt(bits, s) ==> !bits[s + 1]
  {
    if SyncAt(bits, s) { assert bits[s..s + 16][1] == SYNC[1]; }
  }

  lemma {:induction false} StreamParses(bits: seq<bool>, p: nat, n: nat, ms: seq<Message>)
    requires AllValid(ms) && Follows(bits, p, n, ms) && n % 8 == 0
    ensures RefParse(bits, p) == AsItems(ms)
    decreases |ms|
  {
    hide RefStep, Follows, StreamBits, AsItems, WireBits, RefParse;
    if ms == [] {
      IdleWaits(bits, p, n);
      ParseEnds(bits, p);
      NoItems();
    } else {
      OneMore(bits, p, n, ms);
      ParseStep(bits, p);
      StreamParses(bits, p + n + |WireBits(ms[0])|, 32, ms[1..]);
      FirstItem(ms);
    }
  }

  lemma Beginning(ms: seq<Message>)
    requires AllValid(ms)
    ensures Follows(StreamBits(ms), 0, 0, ms)
  {
    assert StreamBits(ms)[0..] == Ones(0) + StreamBits(ms);
  }

  /** Sent packets, back to back, parse to exactly the messages sent: every frame, in order, no more. */
  lemma SentIsReceived(ms: seq<Message>)
    requires AllValid(ms)
    ensures RefParse(StreamBits(ms), 0) == AsItems(ms)
  {
    Beginning(ms);
    StreamParses(StreamBits(ms), 0, 0, ms);
  }
}
