/** Recognising a PFT datagram in IPv4 and Ethernet bytes (bbfedi2eti.cpp), with the Internet checksum of
    RFC 1071 and RFC 768. */
module Ipv4 {
  import opened Bits
  import opened Crc

  // ----- the Internet checksum -----

  /** The sum of big-endian words, an odd last byte padded with zero. */
  function WordSum(s: seq<byte>): nat {
    if s == [] then 0
    else if |s| == 1 then 256 * s[0] as nat
    else Read16(s) + WordSum(s[2..])
  }

  lemma {:induction false} WordSumBound(s: seq<byte>)
    ensures WordSum(s) <= 0xffff * ((|s| + 1) / 2)
  {
    if |s| >= 2 { WordSumBound(s[2..]); }
  }

  lemma {:induction false} WordSumConcat(a: seq<byte>, b: seq<byte>)
    requires |a| % 2 == 0
    ensures WordSum(a + b) == WordSum(a) + WordSum(b)
  {
    if a == [] {
      assert a + b == b;
    } else {
      assert (a + b)[2..] == a[2..] + b;
      WordSumConcat(a[2..], b);
    }
  }

  /** An odd last byte counts as if a zero byte followed. */
  lemma {:induction false} OddPadded(s: seq<byte>)
    requires |s| % 2 == 1
    ensures WordSum(s) == WordSum(s + [0])
  {
    if |s| == 1 {
      assert (s + [0])[2..] == [];
    } else {
      OddPadded(s[2..]);
      assert (s + [0])[2..] == s[2..] + [0];
    }
  }

  /** One's complement zero: the sum is a positive multiple of 65535. */
  predicate SumIsZero(sum: nat) {
    sum > 0 && sum % 0xffff == 0
  }

  lemma FoldStep(sum: nat)
    requires sum >= 0x1_0000
    ensures var next := sum % 0x1_0000 + sum / 0x1_0000;
            0 < next < sum && next % 0xffff == sum % 0xffff
  {
    var q, r := sum / 0x1_0000, sum % 0x1_0000;
    assert sum == 0xffff * q + (q + r);
  }

  /** The folding loop ends and accepts exactly the sums that are zero in one's complement. */
  method Fold(start: nat) returns (ok: bool)
    requires start < 0x1_0000_0000
    ensures ok == SumIsZero(start)
  {
    var sum := start;
    while sum >= 0x1_0000
      invariant sum <= start && sum % 0xffff == start % 0xffff && (sum > 0 <==> start > 0)
    {
      FoldStep(sum);
      sum := sum % 0x1_0000 + sum / 0x1_0000;
    }
    ok := sum == 0xffff;
  }

  /** The words from index i on; the loops may step one past an odd end. */
  ghost function SumFrom(data: seq<byte>, i: nat): nat {
    if i <= |data| then WordSum(data[i..]) else 0
  }

  lemma NextWord(data: seq<byte>, i: nat)
    requires i < |data|
    ensures SumFrom(data, i)
         == 256 * data[i] as nat + (if i + 1 < |data| then data[i + 1] as nat else 0) + SumFrom(data, i + 2)
  {
    if i + 2 <= |data| { assert data[i..][2..] == data[i + 2..]; }
  }

  method SumWords(data: seq<byte>, start: nat) returns (sum: nat)
    ensures sum == start + WordSum(data)
  {
    sum := start;
    var i := 0;
    assert data[0..] == data;
    while i < |data|
      invariant 0 <= i && sum + SumFrom(data, i) == start + WordSum(data)
    {
      NextWord(data, i);
      hide SumFrom, WordSum;
      sum := sum + 256 * data[i] as nat + if i + 1 < |data| then data[i + 1] as nat else 0;
      i := i + 2;
    }
  }

  /** hasValidChecksum; 65535 bytes cannot overflow the 32-bit accumulator. */
  method HasValidChecksum(data: seq<byte>) returns (ok: bool)
    requires |data| <= 0xffff
    ensures ok == SumIsZero(WordSum(data))
  {
    var sum := SumWords(data, 0);
    WordSumBound(data);
    ok := Fold(sum);
  }

  /** The pseudo-header and the datagram, as hasValidUdpChecksum adds them up. */
  function UdpSum(ip: seq<byte>, udp: seq<byte>): nat
    requires |ip| >= 20
  {
    WordSum(ip[12..20]) + ip[9] as nat + |udp| + WordSum(udp)
  }

  /** That is the sum of RFC 768: over source and destination address, a zero byte, the protocol, the UDP length and the
      datagram. */
  lemma PseudoHeader(ip: seq<byte>, udp: seq<byte>)
    requires |ip| >= 20 && |udp| <= 0xffff
    ensures UdpSum(ip, udp) == WordSum(ip[12..16] + ip[16..20] + [0, ip[9]] + Put16(|udp|) + udp)
  {
    hide Put16, WordSum;
    assert ip[12..16] + ip[16..20] == ip[12..20];
    FourSums(ip[12..20], [0, ip[9]], Put16(|udp|), udp);
    ShortSums(ip[9], |udp|);
  }

  lemma FourSums(a: seq<byte>, b: seq<byte>, c: seq<byte>, d: seq<byte>)
    requires |a| % 2 == |b| % 2 == |c| % 2 == 0
    ensures WordSum(a + b + c + d) == WordSum(a) + WordSum(b) + WordSum(c) + WordSum(d)
  {
    hide WordSum;
    WordSumConcat(a + b + c, d);
    WordSumConcat(a + b, c);
    WordSumConcat(a, b);
  }

  lemma ShortSums(b: byte, n: nat)
    requires n < 0x1_0000
    ensures WordSum([0, b]) == b as nat && WordSum(Put16(n)) == n
  {
    assert [0, b][2..] == [];
    OneWord(n, []);
    assert Put16(n) + [] == Put16(n);
  }

  ghost predicate UdpChecksumOk(ip: seq<byte>, udp: seq<byte>)
    requires |ip| >= 20 && |udp| >= 8
  {
    (udp[6] == 0 && udp[7] == 0) || SumIsZero(UdpSum(ip, udp))
  }

  method HasValidUdpChecksum(ip: seq<byte>, udp: seq<byte>) returns (ok: bool)
    requires |ip| >= 20 && 8 <= |udp| <= 0xffff
    ensures ok == UdpChecksumOk(ip, udp)
  {
    if udp[6] == 0 && udp[7] == 0 {
      return true;
    }
    var sum := SumWords(ip[12..20], 0);
    sum := SumWords(udp, sum + ip[9] as nat + |udp|);
    WordSumBound(ip[12..20]);
    WordSumBound(udp);
    ok := Fold(sum);
  }

  /** The residue that folding leaves: the sum modulo 65535, with 65535 for a positive multiple. */
  function Folded(sum: nat): (r: nat)
    ensures r <= 0xffff
  {
    if SumIsZero(sum) then 0xffff else sum % 0xffff
  }

  /** A checksum field filled in by the sender - the complement of the folded sum of everything else - makes the
      sum zero, so the packet is accepted. A UDP sender writes 0xffff where that complement is 0. */
  lemma SenderChecksumAccepted(rest: nat)
    ensures SumIsZero(rest + (0xffff - Folded(rest)))
    ensures Folded(rest) == 0xffff ==> SumIsZero(rest + 0xffff)
  {
  }

  /** The field at an even offset enters the sum as its value. */
  lemma FieldInSum(head: seq<byte>, field: nat, tail: seq<byte>)
    requires |head| % 2 == 0 && field < 0x1_0000
    ensures WordSum(head + Put16(field) + tail) == WordSum(head + Put16(0) + tail) + field
  {
    ConcatAssoc(head, Put16(field), tail);
    ConcatAssoc(head, Put16(0), tail);
    WordSumConcat(head, Put16(field) + tail);
    WordSumConcat(head, Put16(0) + tail);
    OneWord(field, tail);
    OneWord(0, tail);
  }

  lemma OneWord(field: nat, tail: seq<byte>)
    requires field < 0x1_0000
    ensures WordSum(Put16(field) + tail) == field + WordSum(tail)
  {
    var s := Put16(field) + tail;
    assert s[2..] == tail;
    assert s[0] == Put16(field)[0] && s[1] == Put16(field)[1];
  }

  /** End to end: a header with the checksum its sender computed passes. */
  lemma HeaderWithSenderChecksum(head: seq<byte>, tail: seq<byte>)
    requires |head| % 2 == 0
    ensures var rest := WordSum(head + Put16(0) + tail);
            SumIsZero(WordSum(head + Put16(0xffff - Folded(rest)) + tail))
  {
    var rest := WordSum(head + Put16(0) + tail);
    FieldInSum(head, 0xffff - Folded(rest), tail);
    SenderChecksumAccepted(rest);
  }

  /** What a UDP sender writes into the checksum field: the complement of everything else, and all ones where that is
      zero (RFC 768), because a zero field says that there is no checksum. */
  function UdpField(rest: nat): (c: nat)
    ensures 0 < c < 0x1_0000
  {
    if Folded(rest) == 0xffff then 0xffff else 0xffff - Folded(rest)
  }

  /** End to end: every datagram with the checksum its sender computed passes, and it passes by its sum, not because the
      field is zero. */
  lemma DatagramWithSenderChecksum(ip: seq<byte>, head: seq<byte>, tail: seq<byte>)
    requires |ip| >= 20 && |head| == 6 && |head| + 2 + |tail| <= 0xffff
    ensures var udp := head + Put16(UdpField(UdpSum(ip, head + Put16(0) + tail))) + tail;
            UdpChecksumOk(ip, udp) && !(udp[6] == 0 && udp[7] == 0) && SumIsZero(UdpSum(ip, udp))
  {
    var rest := UdpSum(ip, head + Put16(0) + tail);
    var field := UdpField(rest);
    FieldInSum(head, field, tail);
    SenderChecksumAccepted(rest);
    FieldNotZero(head, field, tail);
  }

  /** And no other field passes but zero: the receiver refuses a datagram whose checksum is not the sender's. */
  lemma ChecksumDecides(ip: seq<byte>, head: seq<byte>, field: nat, tail: seq<byte>)
    requires |ip| >= 20 && |head| == 6 && |head| + 2 + |tail| <= 0xffff && field < 0x1_0000
    ensures UdpChecksumOk(ip, head + Put16(field) + tail)
       <==> field == 0 || field == UdpField(UdpSum(ip, head + Put16(0) + tail))
  {
    hide WordSum, UdpField;
    var udp, rest := head + Put16(field) + tail, UdpSum(ip, head + Put16(0) + tail);
    FieldInSum(head, field, tail);
    assert udp[6] == Put16(field)[0] && udp[7] == Put16(field)[1];
    if field > 0 {
      FieldNotZero(head, field, tail);
      OnlyField(rest, field);
    }
  }

  lemma OnlyField(rest: nat, c: nat)
    requires 0 < c < 0x1_0000
    ensures SumIsZero(rest + c) <==> c == UdpField(rest)
  {
    var q, r := rest / 0xffff, rest % 0xffff;
    assert rest == 0xffff * q + r;
    assert (rest + c) % 0xffff == (r + c) % 0xffff;
  }

  lemma FieldNotZero(head: seq<byte>, field: nat, tail: seq<byte>)
    requires |head| == 6 && 0 < field < 0x1_0000
    ensures var udp := head + Put16(field) + tail; !(udp[6] == 0 && udp[7] == 0)
  {
    var udp := head + Put16(field) + tail;
    assert udp[6] == Put16(field)[0] && udp[7] == Put16(field)[1];
  }

  // ----- recognising packets -----

  /** isPftPacket: a plausible PFT fragment with a valid header CRC. */
  ghost predicate IsPft(p: seq<byte>) {
    && |p| >= 14 && p[0] == 'P' as int && p[1] == 'F' as int
    && var index, count := Read24(p[4..]), Read24(p[7..]);
       var size: nat := 256 * (p[10] as nat % 64) + p[11] as nat;
       var header := 14 + (if p[10] / 128 == 1 then 2 else 0) + (if p[10] / 64 % 2 == 1 then 4 else 0);
       index < count && size > 0 && count * size <= 16 * 1024 * 1024 && |p| >= header + size
       && CheckCrc(p[..header])
  }

  datatype Verdict = Invalid | Incomplete | Valid(ipOffset: nat, ipLength: nat, udpOffset: nat, udpLength: nat)

  /** inspectIpv4Packet on the bytes from the IP header on. */
  ghost function InspectIpv4(ip: seq<byte>): (v: Verdict)
    ensures v.Valid? ==> 28 <= v.ipLength <= |ip| && v.ipOffset == 0
    ensures v.Valid? ==> 20 <= v.udpOffset && 8 <= v.udpLength && v.udpOffset + v.udpLength <= v.ipLength
  {
    if |ip| < 20 || ip[0] / 16 != 4 then Invalid
    else
      var header: nat := 4 * (ip[0] as nat % 16);
      var length := Read16(ip[2..]);
      if header < 20 || length < header + 8 then Invalid
      else if |ip| < length then Incomplete
      else if ip[9] != 17 || !SumIsZero(WordSum(ip[..header])) then Invalid
      else if Read16(ip[6..]) % 0x4000 != 0 then Invalid
      else
        var udpLength := Read16(ip[header + 4..]);
        if udpLength < 8 || udpLength > length - header then Invalid
        else if !IsPft(ip[header + 8..header + udpLength]) then Invalid
        else Valid(0, length, header, udpLength)
  }

  /** Where the IP header of a stream packet starts: behind Ethernet, behind a VLAN tag, or at once. */
  function IpOffset(data: seq<byte>): Option<nat> {
    if |data| >= 14 && Read16(data[12..]) == 0x0800 && (|data| < 15 || data[14] / 16 == 4) then Some(14)
    else if |data| >= 18 && (Read16(data[12..]) == 0x8100 || Read16(data[12..]) == 0x88a8)
            && Read16(data[16..]) == 0x0800 then Some(18)
    else if |data| >= 1 && data[0] / 16 == 4 then Some(0)
    else None
  }

  /** inspectStreamPacket. */
  ghost function InspectStream(data: seq<byte>): (v: Verdict)
    ensures v.Valid? ==> 28 <= v.ipOffset + v.ipLength <= |data|
  {
    match IpOffset(data)
    case None => Invalid
    case Some(offset) =>
      if offset > |data| then Invalid
      else
        match InspectIpv4(data[offset..])
        case Valid(_, length, udpOffset, udpLength) => Valid(offset, length, udpOffset, udpLength)
        case v => v
  }

  lemma SameIpv4(a: seq<byte>, b: seq<byte>)
    requires a <= b && |a| >= 20 && !InspectIpv4(a).Incomplete?
    ensures InspectIpv4(b) == InspectIpv4(a)
  {
    hide IsPft, WordSum, SumIsZero, Read16;
    SameField(a, b, 2);
    SameField(a, b, 6);
    var header: nat := 4 * (a[0] as nat % 16);
    var length := Read16(a[2..]);
    if a[0] / 16 == 4 && header >= 20 && length >= header + 8 {
      assert a[..header] == b[..header];
      SameField(a, b, header + 4);
      var udpLength := Read16(a[header + 4..]);
      if 8 <= udpLength <= length - header {
        assert a[header + 8..header + udpLength] == b[header + 8..header + udpLength];
      }
    }
  }

  lemma SameField(a: seq<byte>, b: seq<byte>, i: nat)
    requires a <= b && i + 2 <= |a|
    ensures Read16(a[i..]) == Read16(b[i..])
  {
    assert a[i..][0] == a[i] == b[i] && a[i..][1] == a[i + 1] == b[i + 1];
  }

  lemma SameOffset(a: seq<byte>, b: seq<byte>)
    requires a <= b && |a| >= 42
    ensures IpOffset(a) == IpOffset(b)
  {
    SameField(a, b, 12);
    SameField(a, b, 16);
  }

  /** A verdict of Valid or Invalid on at least 42 bytes never changes when more bytes arrive. */
  lemma VerdictStable(a: seq<byte>, more: seq<byte>)
    requires |a| >= 42 && !InspectStream(a).Incomplete?
    ensures InspectStream(a + more) == InspectStream(a)
  {
    var b := a + more;
    SameOffset(a, b);
    if IpOffset(a).Some? {
      var offset := IpOffset(a).value;
      assert b[offset..] == a[offset..] + more;
      SameIpv4(a[offset..], b[offset..]);
    }
  }

  // ----- datagrams as they are sent -----

  /** A datagram in an IPv4 packet; `fragment` holds its More Fragments bit and fragment offset, and `summed` tells
      whether the sender fills in the UDP checksum. */
  datatype Datagram = Datagram(tos: byte, id: nat, flags: nat, fragment: nat, ttl: byte, protocol: byte,
    source: seq<byte>, dest: seq<byte>, options: seq<byte>, sourcePort: nat, destPort: nat, summed: bool,
    payload: seq<byte>)

  predicate Proper(d: Datagram) {
    && d.id < 0x1_0000 && d.flags < 4 && d.fragment < 0x4000 && |d.source| == |d.dest| == 4
    && |d.options| % 4 == 0 && |d.options| <= 40
    && d.sourcePort < 0x1_0000 && d.destPort < 0x1_0000
    && 28 + |d.options| + |d.payload| <= 0xffff
  }

  function IpStart(d: Datagram): (h: seq<byte>)
    requires Proper(d)
    ensures |h| == 10
  {
    [0x45 + |d.options| / 4, d.tos] + Put16(28 + |d.options| + |d.payload|) + Put16(d.id)
    + Put16(0x4000 * d.flags + d.fragment) + [d.ttl, d.protocol]
  }

  function IpTail(d: Datagram): seq<byte> {
    d.source + d.dest + d.options
  }

  /** The header with a checksum, and with the one its sender computes. */
  function HeaderWith(d: Datagram, checksum: nat): (h: seq<byte>)
    requires Proper(d) && checksum < 0x1_0000
    ensures |h| == 20 + |d.options|
  {
    IpStart(d) + Put16(checksum) + IpTail(d)
  }

  function HeaderChecksum(d: Datagram): (c: nat)
    requires Proper(d)
    ensures c < 0x1_0000
  {
    0xffff - Folded(WordSum(HeaderWith(d, 0)))
  }

  function IpHeader(d: Datagram): (h: seq<byte>)
    requires Proper(d)
    ensures |h| == 20 + |d.options|
  {
    HeaderWith(d, HeaderChecksum(d))
  }

  function UdpStart(d: Datagram): (h: seq<byte>)
    requires Proper(d)
    ensures |h| == 6
  {
    Put16(d.sourcePort) + Put16(d.destPort) + Put16(8 + |d.payload|)
  }

  /** The datagram with a checksum. */
  function UdpWith(d: Datagram, checksum: nat): (u: seq<byte>)
    requires Proper(d) && checksum < 0x1_0000
    ensures |u| == 8 + |d.payload|
  {
    UdpStart(d) + Put16(checksum) + d.payload
  }

  /** The checksum over the pseudo-header of RFC 768 and the datagram. */
  function UdpChecksum(d: Datagram): (c: nat)
    requires Proper(d)
    ensures 0 < c < 0x1_0000
  {
    UdpField(WordSum(d.source + d.dest + [0, d.protocol] + Put16(8 + |d.payload|) + UdpWith(d, 0)))
  }

  function UdpDatagram(d: Datagram): (u: seq<byte>)
    requires Proper(d)
    ensures |u| == 8 + |d.payload|
  {
    UdpWith(d, if d.summed then UdpChecksum(d) else 0)
  }

  function WriteIp(d: Datagram): (p: seq<byte>)
    requires Proper(d)
    ensures |p| == 28 + |d.options| + |d.payload|
  {
    IpHeader(d) + UdpDatagram(d)
  }

  /** What the receiver reads off a header that was written from these fields. */
  lemma IpFields(d: Datagram, ip: seq<byte>)
    requires Proper(d) && IpStart(d) <= ip && |ip| >= 20
    ensures ip[0] / 16 == 4 && 4 * (ip[0] as nat % 16) == 20 + |d.options| && ip[9] == d.protocol
    ensures Read16(ip[2..]) == 28 + |d.options| + |d.payload| && Read16(ip[6..]) % 0x4000 == d.fragment
  {
    hide Put16, Read16;
    var h, more, flags := IpStart(d), ip[10..], 0x4000 * d.flags + d.fragment;
    assert ip[..10] == h;
    assert h[0] as int == 0x45 + |d.options| / 4 && h[9] == d.protocol;
    assert ip[0] == ip[..10][0] && ip[9] == ip[..10][9];
    var x := Put16(flags) + ([d.ttl, d.protocol] + more);
    assert ip == h + more;
    assert ip[6..] == x;
    assert ip[2..] == Put16(28 + |d.options| + |d.payload|) + (Put16(d.id) + x);
    ReadPut16(ip[6..], flags, [d.ttl, d.protocol] + more);
    ReadPut16(ip[2..], 28 + |d.options| + |d.payload|, Put16(d.id) + x);
  }

  /** A header passes with the checksum its sender computes and with no other, but for 0 and 0xffff, which are the same
      number in one's complement. */
  lemma HeaderDecides(d: Datagram, checksum: nat)
    requires Proper(d) && checksum < 0x1_0000
    ensures SumIsZero(WordSum(HeaderWith(d, checksum))) <==> checksum % 0xffff == HeaderChecksum(d) % 0xffff
  {
    hide WordSum, IpStart;
    var rest := WordSum(HeaderWith(d, 0));
    FieldInSum(IpStart(d), checksum, IpTail(d));
    HeaderNotZero(d);
    OnlyChecksum(rest, checksum);
  }

  lemma OnlyChecksum(rest: nat, c: nat)
    requires rest > 0 && c < 0x1_0000
    ensures SumIsZero(rest + c) <==> c % 0xffff == (0xffff - Folded(rest)) % 0xffff
  {
    var q, r := rest / 0xffff, rest % 0xffff;
    assert rest == 0xffff * q + r;
    assert (rest + c) % 0xffff == (r + c) % 0xffff;
  }

  lemma HeaderNotZero(d: Datagram)
    requires Proper(d)
    ensures WordSum(HeaderWith(d, 0)) > 0
  {
    hide Put16;
    var h := HeaderWith(d, 0);
    assert h[0] == IpStart(d)[0];
  }

  /** Whatever its fields, a written datagram is recognised, in its own length and whatever follows it, exactly if it is
      UDP, no fragment, its header checksum is right, and it carries a PFT fragment; and the datagram is found. */
  lemma WrittenRecognised(d: Datagram, checksum: nat, udpChecksum: nat, more: seq<byte>)
    requires Proper(d) && checksum < 0x1_0000 && udpChecksum < 0x1_0000
    ensures var udp, n := UdpWith(d, udpChecksum), 20 + |d.options|;
            var ip := HeaderWith(d, checksum) + udp + more;
            && InspectIpv4(ip) ==
                 (if d.protocol == 17 && d.fragment == 0 && checksum % 0xffff == HeaderChecksum(d) % 0xffff
                     && IsPft(d.payload)
                  then Valid(0, n + |udp|, n, |udp|) else Invalid)
            && ip[n..n + |udp|] == udp
  {
    hide IsPft, WordSum, HeaderWith, UdpWith, SumIsZero, HeaderChecksum;
    var h, udp := HeaderWith(d, checksum), UdpWith(d, udpChecksum);
    var ip, n := h + udp + more, 20 + |d.options|;
    HeaderStart(d, checksum);
    assert ip[..n] == h;
    StartOfPrefix(IpStart(d), h, ip);
    IpFields(d, ip);
    HeaderDecides(d, checksum);
    UdpFields(d, udpChecksum, ip[n..], more);
    assert ip[n..] == udp + more;
    SameSlices(ip, n, 4, 8, 8 + |d.payload|);
  }

  /** The length in the UDP header decides how much of the IP payload is looked at: all of it or less, but not more. */
  lemma UdpLengthDecides(d: Datagram, udp: seq<byte>, more: seq<byte>)
    requires Proper(d) && d.protocol == 17 && d.fragment == 0 && |udp| == 8 + |d.payload|
    ensures var k, n := Read16(udp[4..]), 20 + |d.options|;
            InspectIpv4(IpHeader(d) + udp + more) ==
              if 8 <= k <= |udp| && IsPft(udp[8..k]) then Valid(0, n + |udp|, n, k) else Invalid
  {
    hide IsPft, WordSum, HeaderWith, SumIsZero, HeaderChecksum;
    var h, k, n := IpHeader(d), Read16(udp[4..]), 20 + |d.options|;
    var ip := h + udp + more;
    HeaderStart(d, HeaderChecksum(d));
    assert ip[..n] == h;
    StartOfPrefix(IpStart(d), h, ip);
    IpFields(d, ip);
    HeaderDecides(d, HeaderChecksum(d));
    assert ip[n..n + |udp|] == udp;
    SameSlices(ip, n, 4, 0, |udp|);
    assert ip[n + 4] == udp[4] && ip[n + 5] == udp[5];
    if 8 <= k <= |udp| { assert ip[n + 8..n + k] == udp[8..k]; }
  }

  lemma StartOfPrefix(a: seq<byte>, b: seq<byte>, s: seq<byte>)
    requires a <= b && b <= s
    ensures a <= s
  {
  }

  lemma SameSlices(s: seq<byte>, n: nat, i: nat, j: nat, k: nat)
    requires n + i <= |s| && j <= k && n + k <= |s|
    ensures s[n..][i..] == s[n + i..] && s[n..][j..k] == s[n + j..n + k]
  {
  }

  lemma HeaderStart(d: Datagram, checksum: nat)
    requires Proper(d) && checksum < 0x1_0000
    ensures var h := HeaderWith(d, checksum);
            IpStart(d) <= h && h[12..16] == d.source && h[16..20] == d.dest && h[9] == d.protocol
  {
    hide Put16;
  }

  lemma UdpFields(d: Datagram, checksum: nat, udp: seq<byte>, more: seq<byte>)
    requires Proper(d) && checksum < 0x1_0000 && udp == UdpWith(d, checksum) + more
    ensures Read16(udp) == d.sourcePort && Read16(udp[2..]) == d.destPort
    ensures Read16(udp[4..]) == 8 + |d.payload| && udp[8..8 + |d.payload|] == d.payload
  {
    hide Put16, Read16;
    var rest := Put16(checksum) + d.payload + more;
    assert udp[4..] == Put16(8 + |d.payload|) + rest;
    assert udp[2..] == Put16(d.destPort) + (Put16(8 + |d.payload|) + rest);
    assert udp == Put16(d.sourcePort) + udp[2..];
    ReadPut16(udp, d.sourcePort, udp[2..]);
    ReadPut16(udp[2..], d.destPort, Put16(8 + |d.payload|) + rest);
    ReadPut16(udp[4..], 8 + |d.payload|, rest);
  }

  /** Its UDP checksum passes if it is left out or the one over the pseudo-header, and otherwise not. */
  lemma WrittenSumsUp(d: Datagram, checksum: nat, udpChecksum: nat)
    requires Proper(d) && checksum < 0x1_0000 && udpChecksum < 0x1_0000
    ensures UdpChecksumOk(HeaderWith(d, checksum), UdpWith(d, udpChecksum))
       <==> udpChecksum == 0 || udpChecksum == UdpChecksum(d)
  {
    hide WordSum, IpStart, Folded, UdpField, HeaderWith;
    var ip := HeaderWith(d, checksum);
    HeaderStart(d, checksum);
    PseudoHeader(ip, UdpWith(d, 0));
    assert [0, ip[9]] == [0, d.protocol];
    ChecksumDecides(ip, UdpStart(d), udpChecksum, d.payload);
  }

  // ----- in a stream of packets -----

  /** What stands in front of the IP header: nothing, an Ethernet header, or one with a VLAN tag. */
  datatype Framing = Raw | Ethernet(macs: seq<byte>) | Tagged(macs: seq<byte>, kind: nat, tag: nat)

  predicate FramingOk(f: Framing) {
    match f
    case Raw => true
    case Ethernet(macs) => |macs| == 12
    case Tagged(macs, kind, tag) => |macs| == 12 && (kind == 0x8100 || kind == 0x88a8) && tag < 0x1_0000
  }

  function Front(f: Framing): (s: seq<byte>)
    requires FramingOk(f)
    ensures |s| == match f case Raw => 0 case Ethernet(_) => 14 case Tagged(_, _, _) => 18
  {
    match f
    case Raw => []
    case Ethernet(macs) => macs + Put16(0x0800)
    case Tagged(macs, kind, tag) => macs + Put16(kind) + Put16(tag) + Put16(0x0800)
  }

  /** A packet without Ethernet header whose addresses read like one: from 8.0.64.0/20, or from 129.0.0.0/16 or
      136.168.0.0/16 to 8.0.0.0/16. */
  predicate LooksFramed(d: Datagram)
    requires Proper(d)
  {
    || (d.source[0] == 8 && d.source[1] == 0 && d.source[2] / 16 == 4)
    || (((d.source[0] == 0x81 && d.source[1] == 0) || (d.source[0] == 0x88 && d.source[1] == 0xa8))
        && d.dest[0] == 8 && d.dest[1] == 0)
  }

  /** The receiver finds the IP header behind any framing; without one exactly if the addresses do not look like one. */
  lemma FramingFound(f: Framing, d: Datagram, more: seq<byte>)
    requires FramingOk(f) && Proper(d)
    ensures IpOffset(Front(f) + WriteIp(d) + more) == Some(|Front(f)|) <==> !f.Raw? || !LooksFramed(d)
  {
    hide WriteIp, LooksFramed, IpOffset;
    var s, ip := Front(f) + WriteIp(d) + more, WriteIp(d) + more;
    VersionFour(d);
    match f
    case Raw =>
      assert s == ip;
      RawAddresses(d, s, more);
    case Ethernet(macs) =>
      assert s == macs + Put16(0x0800) + ip;
      EthernetFound(macs, ip, s);
    case Tagged(macs, kind, tag) =>
      assert s == macs + Put16(kind) + Put16(tag) + Put16(0x0800) + ip;
      TagFound(macs, kind, tag, ip, s);
  }

  lemma VersionFour(d: Datagram)
    requires Proper(d)
    ensures |WriteIp(d)| >= 28 && WriteIp(d)[0] / 16 == 4
  {
    hide UdpDatagram, WordSum, Folded, HeaderChecksum;
    HeaderStart(d, HeaderChecksum(d));
    assert WriteIp(d)[0] == IpHeader(d)[0] == IpStart(d)[0];
  }

  lemma EthernetFound(macs: seq<byte>, ip: seq<byte>, s: seq<byte>)
    requires |macs| == 12 && |ip| >= 28 && ip[0] / 16 == 4 && s == macs + Put16(0x0800) + ip
    ensures IpOffset(s) == Some(14)
  {
    hide Put16, Read16;
    assert s[12..] == Put16(0x0800) + ip && s[14] == ip[0];
    ReadPut16(s[12..], 0x0800, ip);
  }

  lemma TagFound(macs: seq<byte>, kind: nat, tag: nat, ip: seq<byte>, s: seq<byte>)
    requires |macs| == 12 && (kind == 0x8100 || kind == 0x88a8) && tag < 0x1_0000
    requires s == macs + Put16(kind) + Put16(tag) + Put16(0x0800) + ip
    ensures IpOffset(s) == Some(18)
  {
    hide Put16, Read16;
    var rest := Put16(tag) + Put16(0x0800) + ip;
    assert s[12..] == Put16(kind) + rest && s[16..] == Put16(0x0800) + ip;
    ReadPut16(s[12..], kind, rest);
    ReadPut16(s[16..], 0x0800, ip);
  }

  lemma RawAddresses(d: Datagram, s: seq<byte>, more: seq<byte>)
    requires Proper(d) && s == WriteIp(d) + more && s[0] / 16 == 4
    ensures IpOffset(s) == Some(0) <==> !LooksFramed(d)
  {
    hide HeaderWith, UdpDatagram, HeaderChecksum;
    HeaderStart(d, HeaderChecksum(d));
    assert forall k :: 12 <= k < 20 ==> s[k] == IpHeader(d)[k];
    assert forall k :: 0 <= k < 4 ==> IpHeader(d)[12 + k] == d.source[k] && IpHeader(d)[16 + k] == d.dest[k];
    assert Read16(s[12..]) == 256 * d.source[0] as nat + d.source[1] as nat;
    assert Read16(s[16..]) == 256 * d.dest[0] as nat + d.dest[1] as nat;
  }

  lemma FramedRecognised(f: Framing, d: Datagram, more: seq<byte>)
    requires FramingOk(f) && Proper(d) && (!f.Raw? || !LooksFramed(d))
    requires d.protocol == 17 && d.fragment == 0 && IsPft(d.payload)
    ensures var n := |Front(f)|;
            InspectStream(Front(f) + WriteIp(d) + more)
              == Valid(n, |WriteIp(d)|, 20 + |d.options|, 8 + |d.payload|)
  {
    hide IsPft, InspectIpv4, HeaderWith, UdpWith, UdpChecksum, HeaderChecksum, IpOffset, Front;
    var s := Front(f) + WriteIp(d) + more;
    FramingFound(f, d, more);
    assert s[|Front(f)|..] == IpHeader(d) + UdpDatagram(d) + more;
    WrittenRecognised(d, HeaderChecksum(d), if d.summed then UdpChecksum(d) else 0, more);
  }

  // ----- the same decisions as executable code -----

  method IsPftPacket(tab: seq<nat>, p: seq<byte>) returns (ok: bool)
    requires IsTable(16, POLY, tab)
    ensures ok == IsPft(p)
  {
    if |p| < 14 || p[0] != 'P' as int || p[1] != 'F' as int {
      return false;
    }
    var index, count := Read24(p[4..]), Read24(p[7..]);
    var size: nat := 256 * (p[10] as nat % 64) + p[11] as nat;
    var header := 14 + (if p[10] / 128 == 1 then 2 else 0) + (if p[10] / 64 % 2 == 1 then 4 else 0);
    if index >= count || size == 0 || count * size > 16 * 1024 * 1024 || |p| < header + size {
      return false;
    }
    ok := CheckCrcLoop(tab, p[..header]);
  }

  method InspectIpv4Packet(tab: seq<nat>, ip: seq<byte>) returns (v: Verdict)
    requires IsTable(16, POLY, tab)
    ensures v == InspectIpv4(ip)
  {
    if |ip| < 20 || ip[0] / 16 != 4 {
      return Invalid;
    }
    var header: nat := 4 * (ip[0] as nat % 16);
    var length := Read16(ip[2..]);
    if header < 20 || length < header + 8 {
      return Invalid;
    }
    if |ip| < length {
      return Incomplete;
    }
    if ip[9] != 17 {
      return Invalid;
    }
    var sumOk := HasValidChecksum(ip[..header]);
    if !sumOk || Read16(ip[6..]) % 0x4000 != 0 {
      return Invalid;
    }
    var udpLength := Read16(ip[header + 4..]);
    if udpLength < 8 || udpLength > length - header {
      return Invalid;
    }
    var pft := IsPftPacket(tab, ip[header + 8..header + udpLength]);
    v := if pft then Valid(0, length, header, udpLength) else Invalid;
  }

  method InspectStreamPacket(tab: seq<nat>, data: seq<byte>) returns (v: Verdict)
    requires IsTable(16, POLY, tab)
    ensures v == InspectStream(data)
  {
    var offset := IpOffset(data);
    if offset.None? || offset.value > |data| {
      return Invalid;
    }
    v := InspectIpv4Packet(tab, data[offset.value..]);
    if v.Valid? {
      v := v.(ipOffset := offset.value);
    }
  }
}
