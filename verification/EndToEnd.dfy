/** The chain from messages to messages: encoder, FIFO, line, autopushed words, ring, polls. */
module EndToEnd {
  import opened Bytes
  import opened Framing
  import opened FrameReceiver
  import opened FrameStream
  import opened Pio
  import opened PioLink
  import Port = RxPort

  /** Word i of a DMA buffer as the FIFO gets it, byte-swapped: the first byte is the most significant. */
  function WordBits(bytes: seq<byte>, i: nat): (r: seq<bool>)
    requires 4 * i + 4 <= |bytes|
    ensures |r| == 32
  {
    Bits(bytes[4 * i..4 * i + 4])
  }

  function DataWords(bytes: seq<byte>): seq<seq<bool>> {
    seq(|bytes| / 4, i requires 0 <= i < |bytes| / 4 => WordBits(bytes, i))
  }

  /** The FIFO gets the encoded packets of the messages in order, with any pauses. */
  ghost predicate Loaded(todo: seq<Entry>, ms: seq<Message>)
    requires AllValid(ms)
    decreases |ms|
  {
    if ms == [] then todo == []
    else
      var image := DmaImage(ms[0]);
      var k := |image| / 4;
      && k <= |todo| && (forall i :: 0 <= i < k ==> todo[i].word == WordBits(image, i))
      && Loaded(todo[k..], ms[1..])
  }

  function PacketsOf(ms: seq<Message>): seq<seq<seq<bool>>>
    requires AllValid(ms)
  {
    seq(|ms|, i requires 0 <= i < |ms| => DataWords(Sent(ms[i])))
  }

  // ---- the count word ---------------------------------------------------------------------------------

  lemma {:induction false} NatOfStep(bits: seq<bool>, b: bool)
    ensures NatOf(bits + [b]) == 2 * NatOf(bits) + if b then 1 else 0
  {
    assert (bits + [b])[..|bits|] == bits;
  }

  lemma {:induction false} LeadingZeros(n: nat, bits: seq<bool>)
    ensures NatOf(Hold(false, n) + bits) == NatOf(bits)
    decreases n + |bits|
  {
    if bits == [] {
      assert Hold(false, n) + bits == Hold(false, n);
      if n > 0 {
        assert Hold(false, n) == Hold(false, n - 1) + [false];
        NatOfStep(Hold(false, n - 1), false);
        assert Hold(false, n - 1) + [] == Hold(false, n - 1);
        LeadingZeros(n - 1, []);
      } else {
        assert Hold(false, 0) == [];
      }
    } else {
      var k := |bits| - 1;
      assert Hold(false, n) + bits == (Hold(false, n) + bits[..k]) + [bits[k]];
      NatOfStep(Hold(false, n) + bits[..k], bits[k]);
      assert bits == bits[..k] + [bits[k]];
      NatOfStep(bits[..k], bits[k]);
      LeadingZeros(n, bits[..k]);
    }
  }

  lemma NatOfByte(b: byte)
    ensures NatOf(ByteBits(b)) == Val(b)
  {
    hide BitOf, ByteBits, NatOf;
    var s := ByteBits(b);
    forall k: nat | k < 8 ensures s[k] == BitOf(b, k) { BitOfByte(b, k); }
    forall k: nat | k < 8 ensures NatOf(s[..k + 1]) == 2 * NatOf(s[..k]) + if s[k] then 1 else 0 {
      assert s[..k + 1] == s[..k] + [s[k]];
      NatOfStep(s[..k], s[k]);
    }
    assert s[..0] == [] && s[..8] == s;
    EmptyNat();
    assert NatOf(s[..0 + 1]) == if s[0] then 1 else 0;
    assert NatOf(s[..1 + 1]) == 2 * NatOf(s[..1]) + if s[1] then 1 else 0;
    assert NatOf(s[..2 + 1]) == 2 * NatOf(s[..2]) + if s[2] then 1 else 0;
    assert NatOf(s[..3 + 1]) == 2 * NatOf(s[..3]) + if s[3] then 1 else 0;
    assert NatOf(s[..4 + 1]) == 2 * NatOf(s[..4]) + if s[4] then 1 else 0;
    assert NatOf(s[..5 + 1]) == 2 * NatOf(s[..5]) + if s[5] then 1 else 0;
    assert NatOf(s[..6 + 1]) == 2 * NatOf(s[..6]) + if s[6] then 1 else 0;
    assert NatOf(s[..7 + 1]) == 2 * NatOf(s[..7]) + if s[7] then 1 else 0;
  }

  lemma EmptyNat()
    ensures NatOf([]) == 0
  {
  }

  /** The count word of the buffer, as a number. */
  lemma CountWord(n: nat, bytes: seq<byte>)
    requires n < 256 && |bytes| >= 4 && bytes[..4] == [0, 0, 0, ByteOf(n)]
    ensures NatOf(WordBits(bytes, 0)) == n
  {
    hide Bits, ByteOf, NatOf, BitOf, ByteBits;
    var low := ByteBits(ByteOf(n));
    BitsConcat([0, 0, 0], [ByteOf(n)]);
    OneByte(ByteOf(n));
    assert [0, 0, 0] + [ByteOf(n)] == bytes[0..4];
    ZeroBytes();
    LeadingZeros(24, low);
    NatOfByte(ByteOf(n));
    ValOf(n);
  }

  lemma ZeroBytes()
    ensures Bits([0, 0, 0]) == Hold(false, 24)
  {
    hide Bits, BitOf;
    forall i | 0 <= i < 24 ensures !Bits([0, 0, 0])[i] {
      BitInByte([0, 0, 0], i / 8, i % 8);
      BitOfByte(0, i % 8);
      AllZeros(i % 8);
    }
  }

  lemma AllZeros(k: nat)
    requires k < 8
    ensures !BitOf(0, k)
  {
  }

  // ---- words and bytes ---------------------------------------------------------------------------------

  lemma {:induction false} WordsAreBits(todo: seq<Entry>, bytes: seq<byte>, k: nat)
    requires k <= |todo| && |bytes| == 4 * k && forall i :: 0 <= i < k ==> todo[i].word == WordBits(bytes, i)
    ensures Words(todo, k) == Bits(bytes)
    decreases k
  {
    hide Bits, BitOf;
    if k == 0 {
      assert bytes == [] && Bits(bytes) == [];
    } else {
      var rest := bytes[4..];
      forall i | 0 <= i < k - 1 ensures todo[1..][i].word == WordBits(rest, i) {
        assert rest[4 * i..4 * i + 4] == bytes[4 * (i + 1)..4 * (i + 1) + 4];
        assert todo[i + 1].word == WordBits(bytes, i + 1);
      }
      WordsAreBits(todo[1..], rest, k - 1);
      assert bytes == bytes[0..4] + rest;
      BitsConcat(bytes[0..4], rest);
    }
  }

  lemma {:induction false} FlatWords(bytes: seq<byte>)
    requires |bytes| % 4 == 0
    ensures Flat(DataWords(bytes)) == Bits(bytes)
    decreases |bytes|
  {
    hide Bits, BitOf;
    if bytes == [] {
      assert DataWords(bytes) == [] && Bits(bytes) == [];
    } else {
      var n := |bytes| - 4;
      FlatWords(bytes[..n]);
      forall i | 0 <= i < n / 4 ensures DataWords(bytes)[i] == DataWords(bytes[..n])[i] {
        assert bytes[4 * i..4 * i + 4] == bytes[..n][4 * i..4 * i + 4];
      }
      assert DataWords(bytes)[..n / 4] == DataWords(bytes[..n]);
      assert DataWords(bytes)[n / 4] == Bits(bytes[n..n + 4]);
      assert bytes == bytes[..n] + bytes[n..n + 4];
      BitsConcat(bytes[..n], bytes[n..n + 4]);
    }
  }

  lemma {:induction false} FlatConcat(a: seq<seq<bool>>, b: seq<seq<bool>>)
    ensures Flat(a + b) == Flat(a) + Flat(b)
    decreases |b|
  {
    if b == [] {
      assert a + b == a;
    } else {
      var n := |b| - 1;
      assert (a + b)[..|a + b| - 1] == a + b[..n];
      FlatConcat(a, b[..n]);
      assert Flat(a) + (Flat(b[..n]) + b[n]) == (Flat(a) + Flat(b[..n])) + b[n];
    }
  }

  lemma SentWords(m: Message)
    requires ValidLen(|m.payload|)
    ensures |Sent(m)| % 4 == 0 && |DmaImage(m)| == |Sent(m)| + 4 && 2 < |Sent(m)| / 4 <= 36
  {
    hide Wire, ByteOf;
  }

  /** An encoded packet in the FIFO is a packet for the TX program, with an even number of zeros. */
  lemma ImageIsPacket(todo: seq<Entry>, m: Message)
    requires ValidLen(|m.payload|) && |DmaImage(m)| / 4 <= |todo|
    requires forall i :: 0 <= i < |DmaImage(m)| / 4 ==> todo[i].word == WordBits(DmaImage(m), i)
    ensures var k := |Sent(m)| / 4;
            && PacketAhead(todo, k) && k <= |todo[1..]| && WordList(todo[1..], k) == DataWords(Sent(m))
            && Zeros(Words(todo[1..], k)) % 2 == 0
  {
    hide Bits, Sent, ByteOf, Zeros, NatOf, Words;
    SentWords(m);
    var image, k := DmaImage(m), |Sent(m)| / 4;
    assert image[..4] == [0, 0, 0, ByteOf(k - 1)] && image[4..] == Sent(m);
    CountWord(k - 1, image);
    assert todo[0].word == WordBits(image, 0);
    forall i | 0 <= i < k ensures todo[1..][i].word == WordBits(Sent(m), i) {
      assert Sent(m)[4 * i..4 * i + 4] == image[4 * (i + 1)..4 * (i + 1) + 4];
      assert todo[i + 1].word == WordBits(image, i + 1);
    }
    WordsAreBits(todo[1..], Sent(m), k);
    EvenZeros(m);
  }

  lemma {:induction false} LoadedFeeds(todo: seq<Entry>, ms: seq<Message>)
    requires AllValid(ms) && Loaded(todo, ms)
    ensures Feeds(todo, PacketsOf(ms))
    decreases |ms|
  {
    hide DmaImage, Sent, PacketAhead, Zeros;
    if ms != [] {
      SentWords(ms[0]);
      ImageIsPacket(todo, ms[0]);
      var k := |Sent(ms[0])| / 4;
      LoadedFeeds(todo[k + 1..], ms[1..]);
      assert PacketsOf(ms)[0] == DataWords(Sent(ms[0]));
      assert PacketsOf(ms)[1..] == PacketsOf(ms[1..]);
    }
  }

  lemma {:induction false} PacketsAreStream(ms: seq<Message>)
    requires AllValid(ms)
    ensures Flat(Concat(PacketsOf(ms))) == StreamBits(ms)
    decreases |ms|
  {
    hide Sent, Bits;
    if ms != [] {
      PacketsAreStream(ms[1..]);
      assert PacketsOf(ms)[1..] == PacketsOf(ms[1..]);
      SentWords(ms[0]);
      FlatWords(Sent(ms[0]));
      FlatConcat(DataWords(Sent(ms[0])), Concat(PacketsOf(ms[1..])));
    }
  }

  // ---- messages to messages --------------------------------------------------------------------------------

  /** The bits of the words the receiver has pushed, that is, written to the ring, by a given cycle. */
  ghost function InRing(r: Rate, s: Pair, cycle: nat): seq<bool> { Flat(Together(r, s, cycle).rx.pushed) }

  /** At every cycle the ring has got a prefix of the bits of the packets sent, and from some cycle on
      all of them. */
  lemma RingGetsStream(r: Rate, s: Pair, ms: seq<Message>) returns (n: nat)
    requires r == STD || r == MID12 || r == MID10 || r == FAST
    requires AllValid(ms) && Start(s) && Loaded(s.tx.todo, ms)
    ensures forall cycle: nat :: InRing(r, s, cycle) <= StreamBits(ms)
    ensures forall cycle: nat :: cycle >= n ==> InRing(r, s, cycle) == StreamBits(ms)
  {
    hide Together, Start, Loaded, StreamBits;
    LoadedFeeds(s.tx.todo, ms);
    PacketsAreStream(ms);
    n := DecodesExactly(r, s, PacketsOf(ms));
    forall cycle: nat ensures InRing(r, s, cycle) <= StreamBits(ms) {
      var t := Together(r, s, cycle).rx;
      assert Received(t) <= StreamBits(ms);
      PushedFirst(t);
    }
  }

  lemma PushedFirst(s: Machine)
    ensures Flat(s.pushed) <= Received(s)
  {
  }

  lemma RingGrows(r: Rate, s: Pair, m: nat, n: nat)
    requires m <= n
    ensures |InRing(r, s, m)| <= |InRing(r, s, n)|
  {
    hide Drive, Run;
    TogetherConcat(r, s, m, n - m);
    var t := Together(r, s, m);
    PushedGrows(Rx(r), t.rx, Drive(Tx(r), t.tx, n - m).1);
  }

  lemma {:induction false} PushedGrows(p: Program, s: Machine, line: seq<bool>)
    ensures |Flat(s.pushed)| <= |Flat(Run(p, s, line).pushed)|
    decreases |line|
  {
    hide Fetch;
    if line != [] {
      var t := Cycle(p, s, line[0]);
      if t.pushed != s.pushed { FlatLonger(s.pushed, t.pushed); }
      PushedGrows(p, t, line[1..]);
    }
  }

  lemma FlatLonger(a: seq<seq<bool>>, b: seq<seq<bool>>)
    requires |b| == |a| + 1 && b[..|a|] == a
    ensures |Flat(a)| <= |Flat(b)|
  {
  }

  /** What the ring holds at the cycles of the polls. */
  ghost function LengthsAt(r: Rate, s: Pair, cycles: seq<nat>): seq<nat> {
    seq(|cycles|, i requires 0 <= i < |cycles| => |InRing(r, s, cycles[i])|)
  }

  ghost predicate InTimeOrder(cycles: seq<nat>) { forall i, j :: 0 <= i < j < |cycles| ==> cycles[i] <= cycles[j] }

  /** Messages to messages, at every rate: packets encoded, driven onto the line with any pauses,
      decoded, autopushed and polled at any cycles. As long as the ring is not overrun the messages
      accepted are a prefix of the messages sent, nothing is ever reported as an error, and once a
      poll after the last bit has found nothing, or enough have followed it, all messages have arrived. */
  lemma MessagesArrive(r: Rate, s: Pair, ms: seq<Message>, cycles: seq<nat>, k: nat)
    requires r == STD || r == MID12 || r == MID10 || r == FAST
    requires AllValid(ms) && Start(s) && Loaded(s.tx.todo, ms) && InTimeOrder(cycles) && k <= |cycles|
    ensures var lengths := LengthsAt(r, s, cycles);
            Port.Growing(StreamBits(ms), lengths)
            && (Port.NoOverrun(StreamBits(ms), lengths) ==>
                  && Port.Progress(StreamBits(ms), lengths, k).1 <= AsItems(ms)
                  && (Port.Drained(StreamBits(ms), lengths) || Port.PollsSuffice(ms, lengths, k) ==>
                        Port.Progress(StreamBits(ms), lengths, |lengths|).1 == AsItems(ms)))
  {
    hide Together, Start, Loaded, StreamBits, Port.NoOverrun, Port.Drained, Port.PollsSuffice, Port.Progress, InRing;
    var lengths := LengthsAt(r, s, cycles);
    var n := RingGetsStream(r, s, ms);
    forall i, j | 0 <= i < j < |cycles| ensures lengths[i] <= lengths[j] { RingGrows(r, s, cycles[i], cycles[j]); }
    forall i | 0 <= i < |cycles|
      ensures lengths[i] <= |StreamBits(ms)|
    {
      assert InRing(r, s, cycles[i]) <= StreamBits(ms);
    }
    if Port.NoOverrun(StreamBits(ms), lengths) { Port.SentIsPolled(ms, lengths, k); }
  }
}
