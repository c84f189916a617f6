/** Ethernet frames carrying TCP segments, as `send_tcp_frame` (net/tcp.c) builds them. */
module TcpFrame {
  import opened Bytes
  import opened InternetChecksum

  const FRAME: int := 1514
  const MSS: int := 1460
  const ETH: int := 14
  const IP: int := 20
  const TCP: int := 20

  type Mac = m: seq<Byte> | |m| == 6 witness [0, 0, 0, 0, 0, 0]

  datatype Connection = Connection(localMac: Mac, remoteMac: Mac, localIp: U32, remoteIp: U32,
                                   localPort: U16, remotePort: U16, seqNum: U32, ackNum: U32)

  /** `htonl`. */
  function Swap32(v: U32): U32 {
    v % 0x100 * 0x100_0000 + v / 0x100 % 0x100 * 0x1_0000 + v / 0x1_0000 % 0x100 * 0x100 + v / 0x100_0000
  }

  /** A field written with `htons`, and one written with `htonl`, as they lie in memory. */
  function Net16(v: U16): (b: seq<Byte>)
    ensures |b| == 2
  {
    LittleEndian(Swap16(v))
  }

  function Net32(v: U32): (b: seq<Byte>)
    ensures |b| == 4
  {
    Bytes32(Swap32(v))
  }

  // ---- headers with zero checksum fields ----

  function EthHeader(c: Connection): (h: seq<Byte>)
    ensures |h| == ETH
  {
    c.remoteMac + c.localMac + Net16(0x0800)
  }

  function IpHeader(c: Connection, id: U16, total: U16): (h: seq<Byte>)
    ensures |h| == IP
  {
    [0x45, 0] + Net16(total) + Net16(id) + Net16(0x4000) + [64, 6] + [0, 0] + Net32(c.localIp) + Net32(c.remoteIp)
  }

  function TcpHeader(c: Connection, flags: Byte): (h: seq<Byte>)
    ensures |h| == TCP
  {
    Net16(c.localPort) + Net16(c.remotePort) + Net32(c.seqNum) + Net32(c.ackNum)
    + [0x50, flags] + Net16(0xFFFF) + [0, 0] + [0, 0]
  }

  // ---- what a receiver sees ----

  function Big16(b: seq<Byte>): nat
    requires |b| == 2
  {
    var hi: int := b[0];
    256 * hi + b[1]
  }

  function Big32(b: seq<Byte>): nat
    requires |b| == 4
  {
    256 * (256 * (256 * Number(b[0]) + b[1]) + b[2]) + b[3]
  }

  function Number(b: Byte): int { b }

  lemma Net16IsBig(v: U16)
    ensures Big16(Net16(v)) == v
  {
  }

  lemma Digits(lo: int, rest: nat)
    requires 0 <= lo < 256
    ensures (lo + 256 * rest) % 256 == lo && (lo + 256 * rest) / 256 == rest
  {
  }

  lemma Nested(v: nat)
    ensures v / 0x1_0000 == v / 256 / 256 && v / 0x100_0000 == v / 256 / 256 / 256
  {
  }

  /** The four bytes of a number, lowest first. */
  lemma FourDigits(a: Byte, b: Byte, c: Byte, d: Byte, v: U32)
    requires v == a + 256 * (b + 256 * (c + 256 * Number(d)))
    ensures Bytes32(v) == [a, b, c, d]
  {
    Digits(a, b + 256 * (c + 256 * Number(d)));
    Digits(b, c + 256 * Number(d));
    Digits(c, d);
    Nested(v);
  }

  lemma Net32IsBig(v: U32)
    ensures Big32(Net32(v)) == v
  {
    var a, b, c, d := v % 256, v / 256 % 256, v / 256 / 256 % 256, v / 256 / 256 / 256;
    Nested(v);
    assert v == a + 256 * (b + 256 * (c + 256 * d));
    FourDigits(d, c, b, a, Swap32(v));
  }

  /** The three parts of a sent frame, checksums filled in. */
  function IpPart(c: Connection, id: U16, total: U16): (h: seq<Byte>)
    ensures |h| == IP
  {
    WithWord(IpHeader(c, id, total), 10, IpSum(IpHeader(c, id, total)))
  }

  function Segment(c: Connection, flags: Byte, data: seq<Byte>): (t: seq<Byte>)
    ensures |t| == TCP + |data|
  {
    TcpHeader(c, flags) + data
  }

  function Pseudo(c: Connection, len: nat): (h: seq<Byte>)
    ensures |h| == 12
  {
    PseudoHeader(Swap32(c.localIp), Swap32(c.remoteIp), len)
  }

  function TcpPart(c: Connection, flags: Byte, data: seq<Byte>): (t: seq<Byte>)
    ensures |t| == TCP + |data|
  {
    var blank := Segment(c, flags, data);
    WithWord(blank, 16, IpSum(Pseudo(c, |blank|) + blank))
  }

  // ---- verification at the receiver ----

  lemma IpPartVerifies(c: Connection, id: U16, total: U16)
    ensures IpSum(IpPart(c, id, total)) == 0
  {
    var h := IpHeader(c, id, total);
    assert h[10] == 0 && h[11] == 0;
    hide *;
    StoredVerifies(h, 10);
    IpPartIs(c, id, total);
  }

  lemma IpPartIs(c: Connection, id: U16, total: U16)
    ensures IpPart(c, id, total) == WithWord(IpHeader(c, id, total), 10, IpSum(IpHeader(c, id, total)))
  {
    hide IpSum, IpHeader, WithWord;
  }

  lemma StoreBehind(p: seq<Byte>, b: seq<Byte>, k: nat, w: U16)
    requires k + 2 <= |b|
    ensures WithWord(p + b, |p| + k, w) == p + WithWord(b, k, w)
  {
    hide LittleEndian;
  }

  lemma TcpPartVerifies(c: Connection, flags: Byte, data: seq<Byte>)
    requires |data| <= MSS
    ensures IpSum(Pseudo(c, TCP + |data|) + TcpPart(c, flags, data)) == 0
  {
    var blank := Segment(c, flags, data);
    var p := Pseudo(c, |blank|);
    assert blank[16] == 0 && blank[17] == 0;
    TcpPartIs(c, flags, data);
    hide *;
    StoredVerifies(p + blank, 28);
    StoreBehind(p, blank, 16, IpSum(p + blank));
  }

  lemma TcpPartIs(c: Connection, flags: Byte, data: seq<Byte>)
    ensures var blank := Segment(c, flags, data);
            TcpPart(c, flags, data) == WithWord(blank, 16, IpSum(Pseudo(c, |blank|) + blank))
  {
    hide IpSum, Pseudo, Segment, WithWord;
  }

  /** The pseudo-header a receiver rebuilds from the IP header it got. */
  function ReceivedPseudo(ip: seq<Byte>): (h: seq<Byte>)
    requires |ip| == IP && IP <= Big16(ip[2..4])
  {
    var len := Big16(ip[2..4]) - IP;
    ip[12..20] + [0, ip[9], len / 256 % 256, len % 256]
  }

  /** Both checksums verify, over the lengths and addresses in the frame itself. */
  ghost predicate ReceiverAccepts(frame: seq<Byte>) {
    && ETH + IP <= |frame|
    && var ip := frame[ETH..ETH + IP];
       var total := Big16(ip[2..4]);
       && IpSum(ip) == 0
       && IP + TCP <= total && ETH + total <= |frame|
       && IpSum(ReceivedPseudo(ip) + frame[ETH + IP..ETH + total]) == 0
  }

  /** Every header field but the checksums, and the payload, read back. */
  ghost predicate Carries(frame: seq<Byte>, c: Connection, id: U16, flags: Byte, data: seq<Byte>) {
    && 54 + |data| <= |frame|
    && frame[..6] == c.remoteMac && frame[6..12] == c.localMac && frame[12..14] == [0x08, 0x00]
    && frame[14..16] == [0x45, 0] && Big16(frame[16..18]) == 40 + |data| && Big16(frame[18..20]) == id
    && frame[20..24] == [0x40, 0x00, 64, 6]
    && Big32(frame[26..30]) == c.localIp && Big32(frame[30..34]) == c.remoteIp
    && Big16(frame[34..36]) == c.localPort && Big16(frame[36..38]) == c.remotePort
    && Big32(frame[38..42]) == c.seqNum && Big32(frame[42..46]) == c.ackNum
    && frame[46..50] == [0x50, flags, 0xFF, 0xFF] && frame[52..54] == [0, 0]
    && frame[54..54 + |data|] == data
  }

  lemma StoreKeeps(b: seq<Byte>, k: nat, w: U16, lo: nat, hi: nat)
    requires k + 2 <= |b| && lo <= hi <= |b| && (hi <= k || k + 2 <= lo)
    ensures WithWord(b, k, w)[lo..hi] == b[lo..hi]
  {
    hide LittleEndian;
  }

  lemma IpHeaderFields(c: Connection, id: U16, total: U16)
    ensures var h := IpHeader(c, id, total);
            && h[..2] == [0x45, 0] && h[2..4] == Net16(total) && h[4..6] == Net16(id) && h[6..10] == [0x40, 0, 64, 6]
            && h[12..16] == Net32(c.localIp) && h[16..20] == Net32(c.remoteIp)
  {
    FixedWords();
    hide Net16, Net32;
  }

  /** The EtherType, the fragment field and the window as they lie in memory. */
  lemma FixedWords()
    ensures Net16(0x0800) == [0x08, 0x00] && Net16(0x4000) == [0x40, 0x00] && Net16(0xFFFF) == [0xFF, 0xFF]
  {
  }

  lemma IpPartFields(c: Connection, id: U16, total: U16)
    ensures var ip := IpPart(c, id, total);
            && ip[..2] == [0x45, 0] && ip[2..4] == Net16(total) && ip[4..6] == Net16(id) && ip[6..10] == [0x40, 0, 64, 6]
            && ip[12..16] == Net32(c.localIp) && ip[16..20] == Net32(c.remoteIp) && ip[9] == 6
  {
    var h := IpHeader(c, id, total);
    IpHeaderFields(c, id, total);
    IpPartIs(c, id, total);
    assert |h| == 20;
    hide *;
    StoreKeeps(h, 10, IpSum(h), 0, 2);
    StoreKeeps(h, 10, IpSum(h), 2, 4);
    StoreKeeps(h, 10, IpSum(h), 4, 6);
    StoreKeeps(h, 10, IpSum(h), 6, 10);
    StoreKeeps(h, 10, IpSum(h), 12, 16);
    StoreKeeps(h, 10, IpSum(h), 16, 20);
    assert IpPart(c, id, total)[9] == IpPart(c, id, total)[6..10][3];
  }

  lemma SegmentFields(c: Connection, flags: Byte, data: seq<Byte>)
    ensures var t := Segment(c, flags, data);
            && t[..2] == Net16(c.localPort) && t[2..4] == Net16(c.remotePort)
            && t[4..8] == Net32(c.seqNum) && t[8..12] == Net32(c.ackNum)
            && t[12..16] == [0x50, flags, 0xFF, 0xFF] && t[18..20] == [0, 0] && t[20..] == data
  {
    FixedWords();
    hide Net16, Net32;
  }

  lemma TcpPartFields(c: Connection, flags: Byte, data: seq<Byte>)
    ensures var t := TcpPart(c, flags, data);
            && t[..2] == Net16(c.localPort) && t[2..4] == Net16(c.remotePort)
            && t[4..8] == Net32(c.seqNum) && t[8..12] == Net32(c.ackNum)
            && t[12..16] == [0x50, flags, 0xFF, 0xFF] && t[18..20] == [0, 0] && t[20..] == data
  {
    var blank := Segment(c, flags, data);
    var sum := IpSum(Pseudo(c, |blank|) + blank);
    SegmentFields(c, flags, data);
    TcpPartIs(c, flags, data);
    hide *;
    StoreKeeps(blank, 16, sum, 0, 2);
    StoreKeeps(blank, 16, sum, 2, 4);
    StoreKeeps(blank, 16, sum, 4, 8);
    StoreKeeps(blank, 16, sum, 8, 12);
    StoreKeeps(blank, 16, sum, 12, 16);
    StoreKeeps(blank, 16, sum, 18, 20);
    StoreKeeps(blank, 16, sum, 20, |blank|);
  }

  lemma PseudoReceived(c: Connection, id: U16, total: U16)
    requires IP <= total
    ensures Big16(IpPart(c, id, total)[2..4]) == total
    ensures ReceivedPseudo(IpPart(c, id, total)) == Pseudo(c, total - IP)
  {
    hide IpPart, Net16, Bytes32, Swap32;
    IpPartFields(c, id, total);
    Net16IsBig(total);
    var ip := IpPart(c, id, total);
    assert ip[12..20] == ip[12..16] + ip[16..20];
  }

  /** The frame put on the wire, before padding. */
  function Frame(c: Connection, id: U16, flags: Byte, data: seq<Byte>): (f: seq<Byte>)
    requires |data| <= MSS
    ensures |f| == ETH + IP + TCP + |data|
  {
    EthHeader(c) + IpPart(c, id, IP + TCP + |data|) + TcpPart(c, flags, data)
  }

  lemma FrameParts(c: Connection, id: U16, flags: Byte, data: seq<Byte>, frame: seq<Byte>)
    requires |data| <= MSS && Frame(c, id, flags, data) <= frame
    ensures frame[..ETH] == EthHeader(c)
    ensures frame[ETH..ETH + IP] == IpPart(c, id, IP + TCP + |data|)
    ensures frame[ETH + IP..ETH + IP + TCP + |data|] == TcpPart(c, flags, data)
  {
    hide EthHeader, IpPart, TcpPart;
    var f := Frame(c, id, flags, data);
    assert frame == f + frame[|f|..];
    assert frame[..ETH] == f[..ETH] && frame[ETH..ETH + IP] == f[ETH..ETH + IP];
    assert frame[ETH + IP..|f|] == f[ETH + IP..];
  }

  /** Every frame sent verifies at the receiver, whatever the payload and the padding. */
  lemma SentFrameAccepted(c: Connection, id: U16, flags: Byte, data: seq<Byte>, frame: seq<Byte>)
    requires |data| <= MSS && Frame(c, id, flags, data) <= frame
    ensures ReceiverAccepts(frame)
  {
    hide IpPart, TcpPart, EthHeader, Frame, IpSum, ReceivedPseudo, Pseudo;
    var total := IP + TCP + |data|;
    FrameParts(c, id, flags, data, frame);
    IpPartVerifies(c, id, total);
    PseudoReceived(c, id, total);
    TcpPartVerifies(c, flags, data);
  }

  lemma EthFields(c: Connection)
    ensures var e := EthHeader(c); e[..6] == c.remoteMac && e[6..12] == c.localMac && e[12..14] == [0x08, 0x00]
  {
    FixedWords();
    hide Net16;
  }

  /** Where the three parts lie in the frame. */
  lemma PartsInFrame(frame: seq<Byte>, n: nat)
    requires 54 + n <= |frame|
    ensures var e, ip, t := frame[..14], frame[14..34], frame[34..54 + n];
            && frame[..6] == e[..6] && frame[6..12] == e[6..12] && frame[12..14] == e[12..14]
            && frame[14..16] == ip[..2] && frame[16..18] == ip[2..4] && frame[18..20] == ip[4..6] && frame[20..24] == ip[6..10]
            && frame[26..30] == ip[12..16] && frame[30..34] == ip[16..20]
            && frame[34..36] == t[..2] && frame[36..38] == t[2..4] && frame[38..42] == t[4..8] && frame[42..46] == t[8..12]
            && frame[46..50] == t[12..16] && frame[52..54] == t[18..20] && frame[54..54 + n] == t[20..]
  {
    assert frame[34..54 + n][20..] == frame[34..54 + n][20..20 + n];
    SliceOfSlice(frame, 0, 14, 0, 6);
    SliceOfSlice(frame, 0, 14, 6, 12);
    SliceOfSlice(frame, 0, 14, 12, 14);
    SliceOfSlice(frame, 14, 20, 0, 2);
    SliceOfSlice(frame, 14, 20, 2, 4);
    SliceOfSlice(frame, 14, 20, 4, 6);
    SliceOfSlice(frame, 14, 20, 6, 10);
    SliceOfSlice(frame, 14, 20, 12, 16);
    SliceOfSlice(frame, 14, 20, 16, 20);
    SliceOfSlice(frame, 34, 20 + n, 0, 2);
    SliceOfSlice(frame, 34, 20 + n, 2, 4);
    SliceOfSlice(frame, 34, 20 + n, 4, 8);
    SliceOfSlice(frame, 34, 20 + n, 8, 12);
    SliceOfSlice(frame, 34, 20 + n, 12, 16);
    SliceOfSlice(frame, 34, 20 + n, 18, 20);
    SliceOfSlice(frame, 34, 20 + n, 20, 20 + n);
  }

  /** And the receiver reads back what was sent. */
  lemma SentFrameCarries(c: Connection, id: U16, flags: Byte, data: seq<Byte>, frame: seq<Byte>)
    requires |data| <= MSS && Frame(c, id, flags, data) <= frame
    ensures Carries(frame, c, id, flags, data)
  {
    var total := IP + TCP + |data|;
    FrameParts(c, id, flags, data, frame);
    EthFields(c);
    IpPartFields(c, id, total);
    TcpPartFields(c, flags, data);
    PartsInFrame(frame, |data|);
    Net16IsBig(total);
    Net16IsBig(id);
    Net16IsBig(c.localPort);
    Net16IsBig(c.remotePort);
    Net32IsBig(c.localIp);
    Net32IsBig(c.remoteIp);
    Net32IsBig(c.seqNum);
    Net32IsBig(c.ackNum);
    hide Net16, Net32, Big16, Big32, IpPart, TcpPart, EthHeader;
  }

  class Sender {
    var ipId: U16

    constructor () ensures ipId == 1 { ipId := 1; }

    /** Builds the frame in a zeroed buffer of maximum size and gives the length to transmit. */
    method Send(c: Connection, flags: Byte, data: seq<Byte>) returns (frame: array<Byte>, len: nat)
      requires |data| <= MSS
      modifies this
      ensures fresh(frame) && frame.Length == FRAME
      ensures Frame(c, old(ipId), flags, data) <= frame[..]
      ensures len == Max(60, ETH + IP + TCP + |data|) && forall i | ETH + IP + TCP + |data| <= i < FRAME :: frame[i] == 0
      ensures ReceiverAccepts(frame[..len]) && Carries(frame[..len], c, old(ipId), flags, data)
      ensures ipId == (old(ipId) + 1) % TWO_TO_16
    {
      hide EthHeader, IpPart, TcpPart, ReceiverAccepts, Carries;
      frame := new Byte[FRAME](_ => 0);
      var total := IP + TCP + |data|;
      FillIp(frame, c, ipId, total);
      ipId := (ipId + 1) % TWO_TO_16;
      FillTcp(frame, c, flags, data);
      assert frame[..ETH + IP] == EthHeader(c) + IpPart(c, old(ipId), total);
      assert frame[..ETH + total] == frame[..ETH + IP] + frame[ETH + IP..ETH + total];
      len := Max(60, ETH + total);
      assert Frame(c, old(ipId), flags, data) <= frame[..len];
      SentFrameAccepted(c, old(ipId), flags, data, frame[..len]);
      SentFrameCarries(c, old(ipId), flags, data, frame[..len]);
    }

    static method FillIp(frame: array<Byte>, c: Connection, id: U16, total: U16)
      requires frame.Length == FRAME
      modifies frame
      ensures frame[..ETH + IP] == EthHeader(c) + IpPart(c, id, total)
      ensures forall i | ETH + IP <= i < FRAME :: frame[i] == old(frame[i])
    {
      hide EthHeader, IpHeader, IpSum, LittleEndian;
      Put(frame, 0, EthHeader(c));
      Put(frame, ETH, IpHeader(c, id, total));
      assert frame[ETH..ETH + IP] == IpHeader(c, id, total);
      var sum := IpChecksum(frame[ETH..ETH + IP]);
      Put(frame, ETH + 10, LittleEndian(sum));
      assert frame[..ETH] == EthHeader(c);
      assert frame[ETH..ETH + IP] == IpPart(c, id, total);
    }

    static method FillTcp(frame: array<Byte>, c: Connection, flags: Byte, data: seq<Byte>)
      requires frame.Length == FRAME && |data| <= MSS
      modifies frame
      ensures frame[ETH + IP..ETH + IP + TCP + |data|] == TcpPart(c, flags, data)
      ensures forall i | 0 <= i < FRAME && !(ETH + IP <= i < ETH + IP + TCP + |data|) :: frame[i] == old(frame[i])
    {
      hide TcpHeader, IpSum, LittleEndian, PseudoHeader, Swap32;
      var end := ETH + IP + TCP + |data|;
      Put(frame, ETH + IP, TcpHeader(c, flags));
      Put(frame, ETH + IP + TCP, data);
      assert frame[ETH + IP..end] == Segment(c, flags, data);
      var sum := TcpChecksum(Swap32(c.localIp), Swap32(c.remoteIp), frame[ETH + IP..end]);
      Put(frame, ETH + IP + 16, LittleEndian(sum));
      assert frame[ETH + IP..end] == TcpPart(c, flags, data);
    }

    static method Put(frame: array<Byte>, at: nat, bytes: seq<Byte>)
      requires at + |bytes| <= frame.Length
      modifies frame
      ensures forall i | 0 <= i < frame.Length :: frame[i] == if at <= i < at + |bytes| then bytes[i - at] else old(frame[i])
    {
      forall i | at <= i < at + |bytes| {
        frame[i] := bytes[i - at];
      }
    }
  }
}
