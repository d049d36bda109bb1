/** The IGMPv3 join: an Ethernet frame with an IPv4 header and a membership report of section 4.2 of RFC 3376. */
module Igmp {
  import opened VideoFormat
  import opened RtpTime
  import opened Wire
  import opened Checksum
  import opened PacketBuffers

  const REPORT_DST: U32 := 0xe000_0016
  const ETH := 14
  const IP := 24
  const CHANGE_TO_INCLUDE: Byte := 3
  const CHANGE_TO_EXCLUDE: Byte := 4

  type Mac = m: seq<Byte> | |m| == 6 witness [0, 0, 0, 0, 0, 0]

  predicate IsMulticast(ip: U32) {
    ip / 0x1000_0000 == 14
  }

  /** Section 6.4 of RFC 1112: the low 23 bits of the group. */
  function MulticastMac(group: U32): Mac {
    [0x01, 0x00, 0x5e, group / 0x1_0000 % 128, group / 256 % 256, group % 256]
  }

  function Low23(group: U32): nat {
    group % 0x80_0000
  }

  /** Two groups share an address exactly when they agree in their low 23 bits, so 32 groups share each one. */
  lemma {:induction false} MacIsLow23(a: U32, b: U32)
    ensures MulticastMac(a) == MulticastMac(b) <==> Low23(a) == Low23(b)
  {
    var ma, mb := MulticastMac(a), MulticastMac(b);
    ThreeOctets(a, ma);
    ThreeOctets(b, mb);
    SameOctets(ma[3], ma[4], ma[5], mb[3], mb[4], mb[5]);
    assert ma == mb <==> ma[3] == mb[3] && ma[4] == mb[4] && ma[5] == mb[5];
  }

  lemma {:induction false} SameOctets(a: Byte, b: Byte, c: Byte, a': Byte, b': Byte, c': Byte)
    ensures (a as int) * 0x1_0000 + (b as int) * 256 + c == (a' as int) * 0x1_0000 + (b' as int) * 256 + c'
       <==> a == a' && b == b' && c == c'
  {
  }

  lemma {:induction false} ThreeOctets(a: U32, m: Mac)
    requires m == MulticastMac(a)
    ensures Low23(a) == (m[3] as int) * 0x1_0000 + (m[4] as int) * 256 + m[5]
  {
    LowOctet(a);
    NextOctet(a / 256);
    assert a / 256 / 256 == a / 0x1_0000;
  }

  lemma {:induction false} LowOctet(a: nat)
    ensures a % 0x80_0000 == a / 256 % 0x8000 * 256 + a % 256
  {
  }

  lemma {:induction false} NextOctet(b: nat)
    ensures b % 0x8000 == b / 256 % 128 * 256 + b % 256
  {
  }

  // ----- The frame -----

  function IgmpLen(source: U32): nat {
    if source != 0 then 20 else 16
  }

  /** An IPv4 header with the Router Alert option, its checksum still zero. */
  function IpHeader(len: U16, iface: U32): (d: seq<Byte>)
    ensures |d| == IP
  {
    [0x46, 0xc0] + Be16(len) + [0, 0, 0x40, 0, 1, 2, 0, 0] + Be32(iface) + Be32(REPORT_DST) + [0x94, 0x04, 0, 0]
  }

  /** A report with one record, its checksum still zero: include one source, or exclude none. */
  function Report(group: U32, source: U32): (d: seq<Byte>)
    ensures |d| == IgmpLen(source)
  {
    [0x22, 0, 0, 0, 0, 0, 0, 1, if source != 0 then CHANGE_TO_INCLUDE else CHANGE_TO_EXCLUDE, 0]
    + Be16(if source != 0 then 1 else 0) + Be32(group) + (if source != 0 then Be32(source) else [])
  }

  function Stamped(d: seq<Byte>, p: nat): (r: seq<Byte>)
    requires p + 2 <= |d|
    ensures |r| == |d|
  {
    WithField(d, p, ChecksumOf(d))
  }

  function EthernetHeader(src: Mac): (d: seq<Byte>)
    ensures |d| == ETH
  {
    MulticastMac(REPORT_DST) + src + Be16(0x0800)
  }

  function JoinFrame(src: Mac, iface: U32, group: U32, source: U32): (d: seq<Byte>)
    ensures |d| == ETH + IP + IgmpLen(source)
  {
    EthernetHeader(src) + Stamped(IpHeader(IP + IgmpLen(source), iface), 10) + Stamped(Report(group, source), 2)
  }

  /** Both checksums of every join verify, its length field counts what follows it, and it goes to every router. */
  lemma {:induction false} JoinVerifies(src: Mac, iface: U32, group: U32, source: U32)
    ensures var d := JoinFrame(src, iface, group, source);
            && ChecksumOf(d[ETH..ETH + IP]) == 0 && ChecksumOf(d[ETH + IP..]) == 0
            && FieldAt(d, ETH + 2) == |d| - ETH
            && d[..6] == MulticastMac(REPORT_DST) && IsMulticast(REPORT_DST)
  {
    var d := JoinFrame(src, iface, group, source);
    var ip, igmp := IpHeader(IP + IgmpLen(source), iface), Report(group, source);
    assert d[ETH..ETH + IP] == Stamped(ip, 10) && d[ETH + IP..] == Stamped(igmp, 2);
    SelfVerifies(ip, 10);
    SelfVerifies(igmp, 2);
    assert d[ETH + 2] == ip[2] && d[ETH + 3] == ip[3];
    LengthField(ip, IP + IgmpLen(source), iface);
  }

  lemma {:induction false} LengthField(ip: seq<Byte>, len: U16, iface: U32)
    requires ip == IpHeader(len, iface)
    ensures FieldAt(ip, 2) == len
  {
    assert ip[2] == Be16(len)[0] && ip[3] == Be16(len)[1];
  }

  // ----- The frame octet by octet -----

  /** The header for `len` octets in all, but for its checksum. */
  ghost predicate IpIs(h: seq<Byte>, len: nat, iface: U32) {
    && |h| == 24 && h[..2] == [0x46, 0xc0] && (h[2] as int) * 256 + h[3] == len && h[4..10] == [0, 0, 0x40, 0, 1, 2]
    && FourOctets(h, 12) == iface && h[16..] == [224, 0, 0, 22, 0x94, 0x04, 0, 0]
  }

  /** The report of one record, but for its checksum. */
  ghost predicate ReportIs(r: seq<Byte>, group: U32, source: U32) {
    && |r| == (if source != 0 then 20 else 16) && r[..8] == [0x22, 0, 0, 0, 0, 0, 0, 1] && FourOctets(r, 12) == group
    && (if source != 0 then r[8..12] == [3, 0, 0, 1] && FourOctets(r, 16) == source else r[8..12] == [4, 0, 0, 0])
  }

  lemma {:induction false} IpOctets(len: U16, iface: U32)
    ensures IpIs(IpHeader(len, iface), len, iface)
  {
    var h, front := IpHeader(len, iface), [0x46, 0xc0] + Be16(len) + [0, 0, 0x40, 0, 1, 2, 0, 0];
    var tail := Be32(REPORT_DST) + [0x94, 0x04, 0, 0];
    assert h == front + Be32(iface) + tail;
    ReadBe32(front, iface, tail);
    assert h[16..] == tail && h[..10] == front[..10];
  }

  lemma {:induction false} ReportOctets(group: U32, source: U32)
    ensures ReportIs(Report(group, source), group, source)
  {
    var r := Report(group, source);
    var front := [0x22, 0, 0, 0, 0, 0, 0, 1, if source != 0 then CHANGE_TO_INCLUDE else CHANGE_TO_EXCLUDE, 0]
                 + Be16(if source != 0 then 1 else 0);
    var tail := if source != 0 then Be32(source) else [];
    assert r == front + Be32(group) + tail && r[..12] == front;
    ReadBe32(front, group, tail);
    if source != 0 {
      assert r == front + Be32(group) + Be32(source) + [];
      ReadBe32(front + Be32(group), source, []);
    }
  }

  /** The octets of `a` stand in `d` from `at` on, but for a field of two octets at `p`. */
  ghost predicate StandsBut(d: seq<Byte>, at: nat, a: seq<Byte>, p: nat) {
    at + |a| <= |d| && forall k :: 0 <= k < |a| && k != p && k != p + 1 ==> d[at + k] == a[k]
  }

  lemma {:induction false} JoinParts(src: Mac, iface: U32, group: U32, source: U32)
    ensures var d := JoinFrame(src, iface, group, source);
            && |d| == 38 + IgmpLen(source) && d[..14] == EthernetHeader(src)
            && StandsBut(d, 14, IpHeader(24 + IgmpLen(source), iface), 10)
            && StandsBut(d, 38, Report(group, source), 2)
  {
  }

  /**
   The join in full: to the Ethernet address of 224.0.0.22; an IPv4 header of six words, not to be fragmented, time to
   live 1, protocol 2, with the Router Alert option; and a report of one record, which changes to include the source
   (type 3) if there is one, and to exclude none (type 4) if there is none.
   */
  lemma {:induction false} JoinOctets(src: Mac, iface: U32, group: U32, source: U32)
    ensures var d := JoinFrame(src, iface, group, source);
            && |d| == (if source != 0 then 58 else 54)
            && d[..6] == [0x01, 0x00, 0x5e, 0, 0, 22] && d[6..12] == src && d[12..14] == [0x08, 0x00]
            && d[14..24] == [0x46, 0xc0, 0, if source != 0 then 44 else 40, 0, 0, 0x40, 0, 1, 2]
            && FourOctets(d, 26) == iface && d[30..38] == [224, 0, 0, 22, 0x94, 0x04, 0, 0]
            && d[38..40] == [0x22, 0] && d[42..46] == [0, 0, 0, 1]
            && d[46..50] == (if source != 0 then [3, 0, 0, 1] else [4, 0, 0, 0])
            && FourOctets(d, 50) == group && (source != 0 ==> FourOctets(d, 54) == source)
  {
    var d, len := JoinFrame(src, iface, group, source), 24 + IgmpLen(source);
    JoinParts(src, iface, group, source);
    EthernetOctets(src);
    assert d[..14][..6] == d[..6] && d[..14][6..12] == d[6..12] && d[..14][12..] == d[12..14];
    IpOctets(len, iface);
    IpInFrame(d, IpHeader(len, iface), len, iface);
    ReportOctets(group, source);
    ReportInFrame(d, Report(group, source), group, source);
  }

  lemma {:induction false} IpInFrame(d: seq<Byte>, ip: seq<Byte>, len: nat, iface: U32)
    requires StandsBut(d, 14, ip, 10) && IpIs(ip, len, iface) && len < 256
    ensures d[14..24] == [0x46, 0xc0, 0, len as Byte, 0, 0, 0x40, 0, 1, 2]
    ensures FourOctets(d, 26) == iface && d[30..38] == [224, 0, 0, 22, 0x94, 0x04, 0, 0]
  {
    Standing(d, 14, ip, 10, 0, 10);
    Standing(d, 14, ip, 10, 12, 16);
    Standing(d, 14, ip, 10, 16, 24);
    assert ip[..10] == ip[..2] + [ip[2], ip[3]] + ip[4..10] && ip[16..24] == ip[16..];
    FourEqual(d, 26, ip, 12);
  }

  lemma {:induction false} ReportInFrame(d: seq<Byte>, r: seq<Byte>, group: U32, source: U32)
    requires StandsBut(d, 38, r, 2) && ReportIs(r, group, source)
    ensures d[38..40] == [0x22, 0] && d[42..46] == [0, 0, 0, 1]
    ensures d[46..50] == if source != 0 then [3, 0, 0, 1] else [4, 0, 0, 0]
    ensures FourOctets(d, 50) == group && (source != 0 ==> FourOctets(d, 54) == source)
  {
    Standing(d, 38, r, 2, 0, 2);
    Standing(d, 38, r, 2, 4, 8);
    Standing(d, 38, r, 2, 8, 12);
    Standing(d, 38, r, 2, 12, 16);
    assert r[0..2] == r[..8][..2] && r[4..8] == r[..8][4..];
    FourEqual(d, 50, r, 12);
    if source != 0 {
      Standing(d, 38, r, 2, 16, 20);
      FourEqual(d, 54, r, 16);
    }
  }

  lemma {:induction false} FourEqual(a: seq<Byte>, i: nat, b: seq<Byte>, j: nat)
    requires i + 4 <= |a| && j + 4 <= |b| && a[i..i + 4] == b[j..j + 4]
    ensures FourOctets(a, i) == FourOctets(b, j)
  {
    var x, y := a[i..i + 4], b[j..j + 4];
    assert a[i] == x[0] && a[i + 1] == x[1] && a[i + 2] == x[2] && a[i + 3] == x[3];
    assert b[j] == y[0] && b[j + 1] == y[1] && b[j + 2] == y[2] && b[j + 3] == y[3];
  }

  lemma {:induction false} EthernetOctets(src: Mac)
    ensures EthernetHeader(src)[..6] == [0x01, 0x00, 0x5e, 0, 0, 22]
    ensures EthernetHeader(src)[6..12] == src && EthernetHeader(src)[12..] == [0x08, 0x00]
  {
  }

  lemma {:induction false} Standing(d: seq<Byte>, at: nat, a: seq<Byte>, p: nat, from: nat, to: nat)
    requires StandsBut(d, at, a, p) && from <= to <= |a| && (to <= p || from >= p + 2)
    ensures d[at + from..at + to] == a[from..to]
  {
  }

  /** The multicast addresses are 224.0.0.0 to 239.255.255.255. */
  lemma {:induction false} MulticastRange(ip: U32)
    ensures IsMulticast(ip) <==> 0xe000_0000 <= ip <= 0xefff_ffff
  {
  }

  // ----- The builder -----

  /** Fill in the checksum of the octets `from..to`, in the zero field at `at`. */
  method Stamp(buf: array<Byte>, from: nat, to: nat, at: nat)
    requires from <= at && at + 2 <= to <= buf.Length
    modifies buf
    ensures buf[from..to] == Stamped(old(buf[from..to]), at - from)
    ensures SameOutside(buf[..], old(buf[..]), from, to)
  {
    var c := InetChecksum(buf, from, to - from);
    assert buf[from..from + (to - from)] == buf[from..to];
    ghost var before := buf[..];
    Put(buf, at, Be16(c));
    FieldPut(before, buf[..], from, to, at, c);
  }

  lemma {:induction false} FieldPut(before: seq<Byte>, after: seq<Byte>, from: nat, to: nat, at: nat, c: U16)
    requires from <= at && at + 2 <= to <= |before|
    requires SameOutside(after, before, at, at + 2) && after[at..at + 2] == Be16(c)
    ensures after[from..to] == WithField(before[from..to], at - from, c)
  {
    assert after[at] == after[at..at + 2][0] && after[at + 1] == after[at..at + 2][1];
    forall i | 0 <= i < to - from
      ensures after[from..to][i] == WithField(before[from..to], at - from, c)[i]
    {
    }
  }

  /** The header's fields in order, its checksum still zero. */
  method WriteIp(buf: array<Byte>, len: U16, iface: U32)
    requires ETH + IP <= buf.Length
    modifies buf
    ensures buf[ETH..ETH + IP] == IpHeader(len, iface)
    ensures SameOutside(buf[..], old(buf[..]), ETH, ETH + IP)
  {
    CopyPiece(buf, ETH, ETH, [0x46, 0xc0]);
    CopyPiece(buf, ETH, ETH + 2, Be16(len));
    CopyPiece(buf, ETH, ETH + 4, [0, 0, 0x40, 0, 1, 2, 0, 0]);
    CopyPiece(buf, ETH, ETH + 12, Be32(iface));
    CopyPiece(buf, ETH, ETH + 16, Be32(REPORT_DST));
    CopyPiece(buf, ETH, ETH + 20, [0x94, 0x04, 0, 0]);
    assert buf[ETH..ETH] == [];
  }

  method BuildIp(buf: array<Byte>, len: U16, iface: U32)
    requires ETH + IP <= buf.Length
    modifies buf
    ensures buf[ETH..ETH + IP] == Stamped(IpHeader(len, iface), 10)
    ensures SameOutside(buf[..], old(buf[..]), ETH, ETH + IP)
  {
    WriteIp(buf, len, iface);
    Stamp(buf, ETH, ETH + IP, ETH + 10);
  }

  method BuildReport(buf: array<Byte>, group: U32, source: U32)
    requires ETH + IP + IgmpLen(source) <= buf.Length
    modifies buf
    ensures buf[ETH + IP..ETH + IP + IgmpLen(source)] == Stamped(Report(group, source), 2)
    ensures SameOutside(buf[..], old(buf[..]), ETH + IP, ETH + IP + IgmpLen(source))
  {
    var ssm, at := source != 0, ETH + IP;
    CopyPiece(buf, at, at, [0x22, 0, 0, 0, 0, 0, 0, 1, if ssm then CHANGE_TO_INCLUDE else CHANGE_TO_EXCLUDE, 0]);
    CopyPiece(buf, at, at + 10, Be16(if ssm then 1 else 0));
    CopyPiece(buf, at, at + 12, Be32(group));
    if ssm { CopyPiece(buf, at, at + 16, Be32(source)); }
    assert buf[at..at + IgmpLen(source)] == Report(group, source);
    Stamp(buf, at, at + IgmpLen(source), at + 2);
  }

  /** Write the join into `buf` and say how long it is. */
  method BuildJoin(buf: array<Byte>, src: Mac, iface: U32, group: U32, source: U32) returns (len: nat)
    requires buf.Length >= 58
    modifies buf
    ensures len == |JoinFrame(src, iface, group, source)|
    ensures buf[..len] == JoinFrame(src, iface, group, source)
    ensures SameOutside(buf[..], old(buf[..]), 0, len)
  {
    CopyPiece(buf, 0, 0, MulticastMac(REPORT_DST));
    CopyPiece(buf, 0, 6, src);
    CopyPiece(buf, 0, 12, Be16(0x0800));
    assert buf[..ETH] == EthernetHeader(src);
    BuildIp(buf, IP + IgmpLen(source), iface);
    assert buf[..ETH] == EthernetHeader(src);
    ghost var before := buf[..];
    BuildReport(buf, group, source);
    len := ETH + IP + IgmpLen(source);
    assert buf[..ETH + IP] == before[..ETH + IP] == before[..ETH] + before[ETH..ETH + IP];
    assert buf[..len] == buf[..ETH + IP] + buf[ETH + IP..len];
  }
}
