/** OTA packets as frame payloads: the packed little-endian layouts of ota/ota_protocol.h, and their way
    over the link. */
module OtaWire {
  import opened Bytes
  import opened OtaProtocol
  import OtaBitmap
  import Framing
  import FrameStream
  import FrameReceiver
  import RxPort
  import Pio
  import PioLink
  import EndToEnd

  // ---- little-endian fields ------------------------------------------------------------------------------

  function Le16(n: nat): (r: seq<byte>)
    requires n < 0x1_0000
    ensures |r| == 2
  {
    [ByteOf(n % 256), ByteOf(n / 256)]
  }

  function Get16(s: seq<byte>, at: nat): nat
    requires at + 2 <= |s|
  {
    Val(s[at]) + 256 * Val(s[at + 1])
  }

  function Le32(n: nat): (r: seq<byte>)
    requires n < 0x1_0000_0000
    ensures |r| == 4
  {
    Le16(n % 0x1_0000) + Le16(n / 0x1_0000)
  }

  function Get32(s: seq<byte>, at: nat): nat
    requires at + 4 <= |s|
  {
    Get16(s, at) + 0x1_0000 * Get16(s, at + 2)
  }

  /** A CRC, least significant byte first. */
  function LeCrc(c: bv32): (r: seq<byte>)
    ensures |r| == 4
  {
    [(c & 0xFF) as byte, ((c >> 8) & 0xFF) as byte, ((c >> 16) & 0xFF) as byte, ((c >> 24) & 0xFF) as byte]
  }

  function GetCrc(s: seq<byte>, at: nat): bv32
    requires at + 4 <= |s|
  {
    Joined(s[at], s[at + 1], s[at + 2], s[at + 3])
  }

  function Joined(b0: byte, b1: byte, b2: byte, b3: byte): bv32 {
    (b0 as bv32) | ((b1 as bv32) << 8) | ((b2 as bv32) << 16) | ((b3 as bv32) << 24)
  }

  lemma Le16Back(n: nat, s: seq<byte>, at: nat)
    requires n < 0x1_0000 && at + 2 <= |s| && s[at..at + 2] == Le16(n)
    ensures Get16(s, at) == n
  {
    hide Val, ByteOf;
    ValOf(n % 256);
    ValOf(n / 256);
    assert s[at] == s[at..at + 2][0] && s[at + 1] == s[at..at + 2][1];
  }

  lemma Le32Back(n: nat, s: seq<byte>, at: nat)
    requires n < 0x1_0000_0000 && at + 4 <= |s| && s[at..at + 4] == Le32(n)
    ensures Get32(s, at) == n
  {
    hide Get16, Le16;
    assert s[at..at + 2] == s[at..at + 4][..2];
    assert s[at + 2..at + 4] == s[at..at + 4][2..];
    Le16Back(n % 0x1_0000, s, at);
    Le16Back(n / 0x1_0000, s, at + 2);
  }

  lemma LeCrcBack(c: bv32, s: seq<byte>, at: nat)
    requires at + 4 <= |s| && s[at..at + 4] == LeCrc(c)
    ensures GetCrc(s, at) == c
  {
    hide Joined;
    var t := s[at..at + 4];
    assert s[at] == t[0] && s[at + 1] == t[1] && s[at + 2] == t[2] && s[at + 3] == t[3];
    JoinedBack(c);
  }

  lemma JoinedBack(c: bv32)
    ensures Joined((c & 0xFF) as byte, ((c >> 8) & 0xFF) as byte, ((c >> 16) & 0xFF) as byte,
            ((c >> 24) & 0xFF) as byte) == c
  {
  }

  // ---- requests ------------------------------------------------------------------------------------------

  datatype Option<T> = Some(value: T) | None

  /** The fields fit their widths. */
  predicate RequestFits(p: Request) {
    match p
    case Start(magic, size, _, windows) => magic < 0x1_0000 && size < 0x1_0000_0000 && windows < 0x1_0000
    case Data(w, c, data) => w < 256 && c < 0x1_0000 && |data| <= CHUNK
    case Query(w, _, bytes) => w < 256 && bytes < 0x1_0000_0000
    case _ => true
  }

  function RequestBytes(p: Request): (r: seq<byte>)
    requires RequestFits(p)
    ensures 4 <= |r| <= Framing.MAX_PAYLOAD
  {
    match p
    case Start(magic, size, crc, windows) => [1, 0] + Le16(magic) + Le32(size) + LeCrc(crc) + Le16(windows)
      + Le16(CHUNK)
    case Data(w, c, data) => [3, ByteOf(w)] + Le16(c) + data
    case Query(w, crc, bytes) => [4, ByteOf(w), 0, 0] + LeCrc(crc) + Le32(bytes)
    case Finalize(crc) => [7, 0, 0, 0] + LeCrc(crc)
    case Abort => [9, 0, 0, 0]
  }

  /** What the receiver makes of a payload: the packet type, the length checks, the fields. */
  function ParseRequest(s: seq<byte>): Option<Request> {
    if |s| < 1 then None
    else if s[0] == 1 then
      if |s| < 16 then None else Some(Start(Get16(s, 2), Get32(s, 4), GetCrc(s, 8), Get16(s, 12)))
    else if s[0] == 3 then
      if |s| < 4 then None else Some(Data(Val(s[1]), Get16(s, 2), s[4..]))
    else if s[0] == 4 then
      if |s| < 12 then None else Some(Query(Val(s[1]), GetCrc(s, 4), Get32(s, 8)))
    else if s[0] == 7 then
      if |s| < 8 then None else Some(Finalize(GetCrc(s, 4)))
    else if s[0] == 9 then Some(Abort)
    else None
  }

  /** Every request, in the payload of one frame, parses back to itself. */
  lemma RequestRoundTrip(p: Request)
    requires RequestFits(p)
    ensures ParseRequest(RequestBytes(p)) == Some(p)
  {
    hide Val, ByteOf, Le16, Le32, LeCrc, Get16, Get32, GetCrc;
    var s := RequestBytes(p);
    match p {
      case Start(magic, size, crc, windows) =>
        assert s[2..4] == Le16(magic) && s[4..8] == Le32(size) && s[8..12] == LeCrc(crc) && s[12..14] == Le16(windows);
        Le16Back(magic, s, 2);
        Le32Back(size, s, 4);
        LeCrcBack(crc, s, 8);
        Le16Back(windows, s, 12);
      case Data(w, c, data) =>
        assert s[2..4] == Le16(c) && s[4..] == data;
        ValOf(w);
        Le16Back(c, s, 2);
      case Query(w, crc, bytes) =>
        assert s[4..8] == LeCrc(crc) && s[8..12] == Le32(bytes);
        ValOf(w);
        LeCrcBack(crc, s, 4);
        Le32Back(bytes, s, 8);
      case Finalize(crc) =>
        assert s[4..8] == LeCrc(crc);
        LeCrcBack(crc, s, 4);
      case Abort =>
    }
  }

  /** The value of two and of four bytes, least significant first. */
  function Small(s: seq<byte>, at: nat): nat
    requires at + 2 <= |s|
  {
    Val(s[at]) + 256 * Val(s[at + 1])
  }

  function Large(s: seq<byte>, at: nat): nat
    requires at + 4 <= |s|
  {
    Val(s[at]) + 256 * Val(s[at + 1]) + 65536 * Val(s[at + 2]) + 16777216 * Val(s[at + 3])
  }

  lemma LittleEndian(s: seq<byte>, at: nat)
    ensures at + 2 <= |s| ==> Get16(s, at) == Small(s, at)
    ensures at + 4 <= |s| ==> Get32(s, at) == Large(s, at)
  {
    hide Val;
  }

  /** The CRC in four bytes, least significant first. */
  predicate CrcHere(s: seq<byte>, at: nat, c: bv32)
    requires at + 4 <= |s|
  {
    && s[at] as bv32 == c & 0xFF && s[at + 1] as bv32 == (c >> 8) & 0xFF
    && s[at + 2] as bv32 == (c >> 16) & 0xFF && s[at + 3] as bv32 == (c >> 24) & 0xFF
  }

  lemma CrcLaid(c: bv32, s: seq<byte>, at: nat)
    requires at + 4 <= |s| && s[at..at + 4] == LeCrc(c)
    ensures CrcHere(s, at, c)
  {
    var t := s[at..at + 4];
    assert s[at] == t[0] && s[at + 1] == t[1] && s[at + 2] == t[2] && s[at + 3] == t[3];
  }

  /** Which byte of a request holds what. */
  lemma RequestLayout(p: Request)
    requires RequestFits(p)
    ensures var s := RequestBytes(p);
            match p
            case Start(magic, size, crc, windows) =>
              |s| == 16 && s[0] == 1 && s[1] == 0 && Small(s, 2) == magic && Large(s, 4) == size
              && CrcHere(s, 8, crc) && Small(s, 12) == windows && Small(s, 14) == 124
            case Data(w, c, data) => |s| == 4 + |data| && s[0] == 3 && Val(s[1]) == w && Small(s, 2) == c
              && s[4..] == data
            case Query(w, crc, bytes) =>
              |s| == 12 && s[0] == 4 && Val(s[1]) == w && s[2] == 0 && s[3] == 0 && CrcHere(s, 4, crc)
                && Large(s, 8) == bytes
            case Finalize(crc) => |s| == 8 && s[0] == 7 && s[1] == 0 && s[2] == 0 && s[3] == 0 && CrcHere(s, 4, crc)
            case Abort => s == [9, 0, 0, 0]
  {
    hide Val, ByteOf, Le16, Le32, LeCrc, Get16, Get32, GetCrc, Small, Large, CrcHere;
    var s := RequestBytes(p);
    match p {
      case Start(magic, size, crc, windows) =>
        assert s[2..4] == Le16(magic) && s[4..8] == Le32(size) && s[8..12] == LeCrc(crc);
        assert s[12..14] == Le16(windows) && s[14..16] == Le16(124);
        Le16Back(magic, s, 2);
        Le32Back(size, s, 4);
        CrcLaid(crc, s, 8);
        Le16Back(windows, s, 12);
        Le16Back(124, s, 14);
        LittleEndian(s, 2);
        LittleEndian(s, 4);
        LittleEndian(s, 12);
        LittleEndian(s, 14);
      case Data(w, c, data) =>
        assert s[2..4] == Le16(c) && s[4..] == data;
        ValOf(w);
        Le16Back(c, s, 2);
        LittleEndian(s, 2);
      case Query(w, crc, bytes) =>
        assert s[4..8] == LeCrc(crc) && s[8..12] == Le32(bytes);
        ValOf(w);
        CrcLaid(crc, s, 4);
        Le32Back(bytes, s, 8);
        LittleEndian(s, 8);
      case Finalize(crc) =>
        assert s[4..8] == LeCrc(crc);
        CrcLaid(crc, s, 4);
      case Abort =>
    }
  }

  /** Which payloads the receiver reads as packets: a known type, and at least the bytes of its fields. */
  lemma RequestsRead(s: seq<byte>)
    ensures ParseRequest(s).Some? <==>
              && |s| > 0
              && (|| (s[0] == 1 && |s| >= 16) || (s[0] == 3 && |s| >= 4) || (s[0] == 4 && |s| >= 12)
                  || (s[0] == 7 && |s| >= 8) || s[0] == 9)
    ensures ParseRequest(s).Some? ==>
              match ParseRequest(s).value
              case Start(magic, size, crc, windows) =>
                s[0] == 1 && |s| >= 16 && magic == Small(s, 2) && size == Large(s, 4) && crc == GetCrc(s, 8)
                && windows == Small(s, 12)
              case Data(w, c, data) => s[0] == 3 && |s| >= 4 && w == Val(s[1]) && c == Small(s, 2) && data == s[4..]
              case Query(w, crc, bytes) =>
                s[0] == 4 && |s| >= 12 && w == Val(s[1]) && crc == GetCrc(s, 4) && bytes == Large(s, 8)
              case Finalize(crc) => s[0] == 7 && |s| >= 8 && crc == GetCrc(s, 4)
              case Abort => s[0] == 9
  {
    hide Val, GetCrc, Get16, Get32, Small, Large;
    LittleEndian(s, 2);
    LittleEndian(s, 4);
    LittleEndian(s, 8);
    LittleEndian(s, 12);
  }

  /** Whatever an honest sender sends fits. */
  lemma HonestFits(image: seq<byte>, imageCrc: bv32, p: Request)
    requires Addressable(image) && Honest(image, imageCrc, p)
    ensures RequestFits(p)
  {
    hide WindowCount, ChunkCount;
    WindowCountFacts(|image|);
    match p {
      case Data(w, c, data) => WindowFacts(|image|, w);
      case Query(w, crc, bytes) => WindowFacts(|image|, w);
      case _ =>
    }
  }

  // ---- replies ---------------------------------------------------------------------------------------------

  function StatusCode(s: Status): byte {
    match s
    case Ok => 0 case ErrMagic => 1 case ErrSize => 2 case ErrCrcMismatch => 3
    case ErrErase => 4 case ErrProgram => 5 case ErrVerify => 6
  }

  function StatusOf(b: byte): Option<Status> {
    if b == 0 then Some(Ok) else if b == 1 then Some(ErrMagic) else if b == 2 then Some(ErrSize)
    else if b == 3 then Some(ErrCrcMismatch) else if b == 4 then Some(ErrErase) else if b == 5 then Some(ErrProgram)
    else if b == 6 then Some(ErrVerify) else None
  }

  /** The codes on the wire; zero is success. */
  lemma StatusCodes()
    ensures [StatusCode(Ok), StatusCode(ErrMagic), StatusCode(ErrSize), StatusCode(ErrCrcMismatch),
            StatusCode(ErrErase),
             StatusCode(ErrProgram), StatusCode(ErrVerify)] == [0, 1, 2, 3, 4, 5, 6]
    ensures forall s: Status :: StatusOf(StatusCode(s)) == Some(s) && (StatusCode(s) == 0 <==> s == Ok)
  {
  }

  /** Fields the sender never reads. */
  datatype Unread = Unread(stagingOffset: nat, totalChunks: nat, readback: bv32, stagedBytes: nat)

  predicate UnreadFits(u: Unread) {
    u.stagingOffset < 0x1_0000_0000 && u.totalChunks < 0x1_0000 && u.stagedBytes < 0x1_0000_0000
  }

  predicate ReplyFits(p: Reply) {
    match p
    case StartAck(_, credit) => credit < 0x1_0000
    case QueryResp(w, missing, bitmap) =>
      w < 256 && missing < 0x1_0000 && |bitmap| % 8 == 0 && |bitmap| <= 8 * OtaBitmap.BITMAP_BYTES
    case Ready(w, _, credit) => w < 256 && credit < 256
    case _ => true
  }

  /** Eight bits of the map as a byte, the first in the least significant place. */
  function LowByteOf(bits: seq<bool>): byte
    requires |bits| == 8
  {
    FromBits([bits[7], bits[6], bits[5], bits[4], bits[3], bits[2], bits[1], bits[0]])
  }

  function MapBytes(bits: seq<bool>): (r: seq<byte>)
    requires |bits| % 8 == 0
    ensures |r| == |bits| / 8
  {
    seq(|bits| / 8, i requires 0 <= i < |bits| / 8 => LowByteOf(bits[8 * i..8 * i + 8]))
  }

  lemma LowBitIs(b: byte, k: nat)
    requires k < 8
    ensures OtaBitmap.LowBit(b, k) == BitOf(b, 7 - k)
  {
    hide OtaBitmap.LowBit;
    OtaBitmap.MaskIsShift(b, k);
  }

  lemma MapBack(bits: seq<bool>)
    requires |bits| % 8 == 0
    ensures OtaBitmap.Unpacked(MapBytes(bits)) == bits
  {
    hide OtaBitmap.LowBit, LowByteOf;
    forall i | 0 <= i < |bits| ensures OtaBitmap.Unpacked(MapBytes(bits))[i] == bits[i] {
      LowByteBit(bits[8 * (i / 8)..8 * (i / 8) + 8], i % 8);
      assert bits[8 * (i / 8)..8 * (i / 8) + 8][i % 8] == bits[i];
    }
  }

  lemma LowByteBit(part: seq<bool>, k: nat)
    requires |part| == 8 && k < 8
    ensures OtaBitmap.LowBit(LowByteOf(part), k) == part[k]
  {
    hide OtaBitmap.LowBit, BitOf, FromBits;
    LowBitIs(LowByteOf(part), k);
    BitOfFromBits([part[7], part[6], part[5], part[4], part[3], part[2], part[1], part[0]], 7 - k);
  }

  function ReplyBytes(p: Reply, u: Unread): (r: seq<byte>)
    requires ReplyFits(p) && UnreadFits(u)
    ensures 4 <= |r| <= Framing.MAX_PAYLOAD
  {
    match p
    case StartAck(status, credit) => [2, StatusCode(status)] + Le16(credit) + Le32(u.stagingOffset)
    case QueryResp(w, missing, bitmap) =>
      [5, ByteOf(w)] + Le16(missing) + Le16(u.totalChunks) + Le16(|bitmap| / 8) + MapBytes(bitmap)
    case Ready(w, status, credit) => [6, ByteOf(w), StatusCode(status), ByteOf(credit)] + LeCrc(u.readback)
    case Report(status, crc) => [8, StatusCode(status), 0, 0] + Le32(u.stagedBytes) + LeCrc(crc)
    case Aborted => [9, 0, 0, 0]
  }

  /** What the sender makes of a payload; a bitmap is cut to the bytes announced, at most 67. */
  function ParseReply(s: seq<byte>): Option<Reply> {
    if |s| < 1 then None
    else if s[0] == 2 then
      if |s| < 8 then None
      else match StatusOf(s[1]) case None => None case Some(status) => Some(StartAck(status, Get16(s, 2)))
    else if s[0] == 5 then
      if |s| < 8 then None
      else
        var n := if Get16(s, 6) <= OtaBitmap.BITMAP_BYTES then Get16(s, 6) else OtaBitmap.BITMAP_BYTES;
        if |s| < 8 + n then None else Some(QueryResp(Val(s[1]), Get16(s, 2), OtaBitmap.Unpacked(s[8..8 + n])))
    else if s[0] == 6 then
      if |s| < 8 then None
      else match StatusOf(s[2]) case None => None case Some(status) => Some(Ready(Val(s[1]), status, Val(s[3])))
    else if s[0] == 8 then
      if |s| < 12 then None
      else match StatusOf(s[1]) case None => None case Some(status) => Some(Report(status, GetCrc(s, 8)))
    else if s[0] == 9 then Some(Aborted)
    else None
  }

  /** Every reply, in the payload of one frame, parses back to itself whatever the fields the sender ignores. */
  lemma ReplyRoundTrip(p: Reply, u: Unread)
    requires ReplyFits(p) && UnreadFits(u)
    ensures ParseReply(ReplyBytes(p, u)) == Some(p)
  {
    hide Val, ByteOf, Le16, Le32, LeCrc, Get16, Get32, GetCrc, MapBytes, OtaBitmap.Unpacked;
    var s := ReplyBytes(p, u);
    match p {
      case StartAck(status, credit) =>
        assert s[2..4] == Le16(credit);
        Le16Back(credit, s, 2);
      case QueryResp(w, missing, bitmap) =>
        assert s[2..4] == Le16(missing) && s[6..8] == Le16(|bitmap| / 8) && s[8..] == MapBytes(bitmap);
        ValOf(w);
        Le16Back(missing, s, 2);
        Le16Back(|bitmap| / 8, s, 6);
        assert s[8..8 + |bitmap| / 8] == s[8..];
        MapBack(bitmap);
      case Ready(w, status, credit) =>
        ValOf(w);
        ValOf(credit);
      case Report(status, crc) =>
        assert s[8..12] == LeCrc(crc);
        LeCrcBack(crc, s, 8);
      case Aborted =>
    }
  }

  /** Which byte of a reply holds what; bit k of the map is bit k % 8 of byte 8 + k / 8. */
  lemma ReplyLayout(p: Reply, u: Unread)
    requires ReplyFits(p) && UnreadFits(u)
    ensures var s := ReplyBytes(p, u);
            match p
            case StartAck(status, credit) =>
              |s| == 8 && s[0] == 2 && s[1] == StatusCode(status) && Small(s, 2) == credit
                && Large(s, 4) == u.stagingOffset
            case QueryResp(w, missing, bitmap) =>
              && |s| == 8 + |bitmap| / 8 && s[0] == 5 && Val(s[1]) == w && Small(s, 2) == missing
              && Small(s, 4) == u.totalChunks && Small(s, 6) == |bitmap| / 8
              && forall k :: 0 <= k < |bitmap| ==> bitmap[k] == OtaBitmap.LowBit(s[8 + k / 8], k % 8)
            case Ready(w, status, credit) =>
              |s| == 8 && s[0] == 6 && Val(s[1]) == w && s[2] == StatusCode(status) && Val(s[3]) == credit
              && CrcHere(s, 4, u.readback)
            case Report(status, crc) =>
              |s| == 12 && s[0] == 8 && s[1] == StatusCode(status) && s[2] == 0 && s[3] == 0
              && Large(s, 4) == u.stagedBytes && CrcHere(s, 8, crc)
            case Aborted => s == [9, 0, 0, 0]
  {
    hide Val, ByteOf, Le16, Le32, LeCrc, Get16, Get32, GetCrc, Small, Large, CrcHere, MapBytes, OtaBitmap.LowBit;
    var s := ReplyBytes(p, u);
    match p {
      case StartAck(status, credit) =>
        assert s[2..4] == Le16(credit) && s[4..8] == Le32(u.stagingOffset);
        Le16Back(credit, s, 2);
        Le32Back(u.stagingOffset, s, 4);
        LittleEndian(s, 2);
        LittleEndian(s, 4);
      case QueryResp(w, missing, bitmap) => AnswerLayout(p, u);
      case Ready(w, status, credit) =>
        assert s[4..8] == LeCrc(u.readback);
        ValOf(w);
        ValOf(credit);
        CrcLaid(u.readback, s, 4);
      case Report(status, crc) =>
        assert s[4..8] == Le32(u.stagedBytes) && s[8..12] == LeCrc(crc);
        Le32Back(u.stagedBytes, s, 4);
        LittleEndian(s, 4);
        CrcLaid(crc, s, 8);
      case Aborted =>
    }
  }

  lemma AnswerLayout(p: Reply, u: Unread)
    requires ReplyFits(p) && UnreadFits(u) && p.QueryResp?
    ensures var s := ReplyBytes(p, u);
            && |s| == 8 + |p.bitmap| / 8 && s[0] == 5 && Val(s[1]) == p.win && Small(s, 2) == p.missing
            && Small(s, 4) == u.totalChunks && Small(s, 6) == |p.bitmap| / 8
            && forall k :: 0 <= k < |p.bitmap| ==> p.bitmap[k] == OtaBitmap.LowBit(s[8 + k / 8], k % 8)
  {
    hide Val, ByteOf, Le16, Get16, Small, MapBytes, OtaBitmap.LowBit;
    var s := ReplyBytes(p, u);
    assert s[2..4] == Le16(p.missing) && s[4..6] == Le16(u.totalChunks) && s[6..8] == Le16(|p.bitmap| / 8);
    assert s[8..] == MapBytes(p.bitmap);
    ValOf(p.win);
    Le16Back(p.missing, s, 2);
    Le16Back(u.totalChunks, s, 4);
    Le16Back(|p.bitmap| / 8, s, 6);
    LittleEndian(s, 2);
    LittleEndian(s, 4);
    LittleEndian(s, 6);
    MapBack(p.bitmap);
    forall k | 0 <= k < |p.bitmap| ensures p.bitmap[k] == OtaBitmap.LowBit(s[8 + k / 8], k % 8) {
      assert s[8 + k / 8] == s[8..][k / 8];
      assert p.bitmap[k] == OtaBitmap.Unpacked(MapBytes(p.bitmap))[k];
    }
  }

  // ---- over the link -----------------------------------------------------------------------------------------

  /** The frame type of OTA packets. */
  const OTA_FRAME: byte := 0x50

  function RequestFrames(ps: seq<Request>, seqno: nat -> byte): (r: seq<Framing.Message>)
    requires forall i :: 0 <= i < |ps| ==> RequestFits(ps[i])
    ensures FrameReceiver.AllValid(r)
  {
    var frames := seq(|ps|, i requires 0 <= i < |ps| => Framing.Message(OTA_FRAME, seqno(i), RequestBytes(ps[i])));
    assert forall i :: 0 <= i < |ps| ==> frames[i].payload == RequestBytes(ps[i]);
    frames
  }

  function ReplyFrames(ps: seq<Reply>, u: nat -> Unread, seqno: nat -> byte): (r: seq<Framing.Message>)
    requires forall i :: 0 <= i < |ps| ==> ReplyFits(ps[i]) && UnreadFits(u(i))
    ensures FrameReceiver.AllValid(r)
  {
    var frames := seq(|ps|, i requires 0 <= i < |ps| => Framing.Message(OTA_FRAME, seqno(i), ReplyBytes(ps[i], u(i))));
    assert forall i :: 0 <= i < |ps| ==> frames[i].payload == ReplyBytes(ps[i], u(i));
    frames
  }

  /** The packets in what a port has found. */
  function Heard<T>(items: seq<FrameReceiver.Item>, parse: seq<byte> -> Option<T>): seq<T> {
    if items == [] then []
    else
      var n := |items| - 1;
      Heard(items[..n], parse)
      + (match items[n]
         case Frame(m) => if m.kind == OTA_FRAME && parse(m.payload).Some? then [parse(m.payload).value] else []
         case _ => [])
  }

  lemma {:induction false} HeardAll<T>(items: seq<FrameReceiver.Item>, ms: seq<Framing.Message>, ps: seq<T>,
    parse: seq<byte> -> Option<T>)
    requires items <= FrameReceiver.AsItems(ms) && |ps| == |ms|
    requires forall i :: 0 <= i < |ms| ==> ms[i].kind == OTA_FRAME && parse(ms[i].payload) == Some(ps[i])
    ensures Heard(items, parse) == ps[..|items|]
  {
    if items != [] {
      var n := |items| - 1;
      HeardAll(items[..n], ms, ps, parse);
      assert items[n] == FrameReceiver.AsItems(ms)[n];
      assert ps[..n] + [ps[n]] == ps[..n + 1];
    }
  }

  /** From machine to machine: the requests of the sender, encoded, framed, driven onto the line at any rate
      with any pauses, decoded and polled at any cycles, are heard in order, and in the end all of them. */
  lemma RequestsArrive(r: Pio.Rate, s: PioLink.Pair, ps: seq<Request>, seqno: nat -> byte, cycles: seq<nat>, k: nat)
    requires r == Pio.STD || r == Pio.MID12 || r == Pio.MID10 || r == Pio.FAST
    requires forall i :: 0 <= i < |ps| ==> RequestFits(ps[i])
    requires var ms := RequestFrames(ps, seqno);
             PioLink.Start(s) && EndToEnd.Loaded(s.tx.todo, ms)
    requires EndToEnd.InTimeOrder(cycles) && k <= |cycles|
    ensures var ms, lengths := RequestFrames(ps, seqno), EndToEnd.LengthsAt(r, s, cycles);
            var stream := FrameStream.StreamBits(ms);
            && RxPort.Growing(stream, lengths)
            && (RxPort.NoOverrun(stream, lengths) ==>
                  && Heard(RxPort.Progress(stream, lengths, k).1, ParseRequest) <= ps
                  && (RxPort.Drained(stream, lengths) || RxPort.PollsSuffice(ms, lengths, k) ==>
                        Heard(RxPort.Progress(stream, lengths, |lengths|).1, ParseRequest) == ps))
  {
    hide RxPort.Growing, RxPort.NoOverrun, RxPort.Progress, RxPort.Drained, RxPort.PollsSuffice, RequestBytes,
         ParseRequest, EndToEnd.Loaded, PioLink.Start, FrameStream.StreamBits, Heard;
    var ms, lengths := RequestFrames(ps, seqno), EndToEnd.LengthsAt(r, s, cycles);
    var stream := FrameStream.StreamBits(ms);
    EndToEnd.MessagesArrive(r, s, ms, cycles, k);
    forall i | 0 <= i < |ps| ensures ParseRequest(ms[i].payload) == Some(ps[i]) { RequestRoundTrip(ps[i]); }
    if RxPort.NoOverrun(stream, lengths) {
      HeardAll(RxPort.Progress(stream, lengths, k).1, ms, ps, ParseRequest);
      if RxPort.Drained(stream, lengths) || RxPort.PollsSuffice(ms, lengths, k) {
        HeardAll(RxPort.Progress(stream, lengths, |lengths|).1, ms, ps, ParseRequest);
      }
    }
  }

  /** The same for the replies of the receiver. */
  lemma RepliesArrive(r: Pio.Rate, s: PioLink.Pair, ps: seq<Reply>, u: nat -> Unread, seqno: nat -> byte,
    cycles: seq<nat>, k: nat)
    requires r == Pio.STD || r == Pio.MID12 || r == Pio.MID10 || r == Pio.FAST
    requires forall i :: 0 <= i < |ps| ==> ReplyFits(ps[i]) && UnreadFits(u(i))
    requires var ms := ReplyFrames(ps, u, seqno);
             PioLink.Start(s) && EndToEnd.Loaded(s.tx.todo, ms)
    requires EndToEnd.InTimeOrder(cycles) && k <= |cycles|
    ensures var ms, lengths := ReplyFrames(ps, u, seqno), EndToEnd.LengthsAt(r, s, cycles);
            var stream := FrameStream.StreamBits(ms);
            && RxPort.Growing(stream, lengths)
            && (RxPort.NoOverrun(stream, lengths) ==>
                  && Heard(RxPort.Progress(stream, lengths, k).1, ParseReply) <= ps
                  && (RxPort.Drained(stream, lengths) || RxPort.PollsSuffice(ms, lengths, k) ==>
                        Heard(RxPort.Progress(stream, lengths, |lengths|).1, ParseReply) == ps))
  {
    hide RxPort.Growing, RxPort.NoOverrun, RxPort.Progress, RxPort.Drained, RxPort.PollsSuffice, ReplyBytes,
         ParseReply, EndToEnd.Loaded, PioLink.Start, FrameStream.StreamBits, Heard;
    var ms, lengths := ReplyFrames(ps, u, seqno), EndToEnd.LengthsAt(r, s, cycles);
    var stream := FrameStream.StreamBits(ms);
    EndToEnd.MessagesArrive(r, s, ms, cycles, k);
    forall i | 0 <= i < |ps| ensures ParseReply(ms[i].payload) == Some(ps[i]) { ReplyRoundTrip(ps[i], u(i)); }
    if RxPort.NoOverrun(stream, lengths) {
      HeardAll(RxPort.Progress(stream, lengths, k).1, ms, ps, ParseReply);
      if RxPort.Drained(stream, lengths) || RxPort.PollsSuffice(ms, lengths, k) {
        HeardAll(RxPort.Progress(stream, lengths, |lengths|).1, ms, ps, ParseReply);
      }
    }
  }
}
