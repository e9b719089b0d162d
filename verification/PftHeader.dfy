/** The PFT fragment header of ETSI TS 102 821, section 7.1, as HandlePFPacket reads it. */
module PftHeader {
  import opened Bits
  import opened Crc
  import opened Pft

  /** Malformed: -1; Incomplete: 0; Damaged: a header whose CRC failed, skipped without its payload. */
  datatype Reading = Malformed | Incomplete | Damaged(used: nat) | Complete(used: nat, pf: Fragment)

  function HeaderLength(fec: bool, addr: bool): nat {
    14 + (if fec then 2 else 0) + (if addr then 4 else 0)
  }

  ghost function ReadFragment(pkt: seq<byte>): Reading {
    if |pkt| < 14 || pkt[0] != 'P' as int || pkt[1] != 'F' as int then Malformed
    else
      var fec, addr := pkt[10] / 128 == 1, pkt[10] / 64 % 2 == 1;
      var plen := Read16(pkt[10..]) % 0x4000;
      var hlen := HeaderLength(fec, addr);
      if |pkt| < hlen || |pkt| < hlen + plen then Incomplete
      else if fec && !CheckCrc(pkt[..hlen]) then Damaged(hlen)
      else
        var opt := pkt[12..];
        var addrs := if fec then pkt[14..] else pkt[12..];
        Complete(hlen + plen, Fragment(Read16(pkt[2..]), Read24(pkt[4..]),
          Header(Read24(pkt[7..]), fec, addr, if fec then opt[0] else 0, if fec then opt[1] else 0,
            if addr then Read16(addrs) else 0, if addr then Read16(addrs[2..]) else 0),
          pkt[hlen..hlen + plen]))
  }

  /** The field ranges of the header. */
  predicate InRange(pf: Fragment) {
    var h := pf.header;
    && pf.pseq < 0x1_0000 && pf.findex < 0x100_0000 && h.fcount < 0x100_0000 && |pf.payload| < 0x4000
    && h.source < 0x1_0000 && h.dest < 0x1_0000
    && (!h.fec ==> h.rsk == 0 && h.rsz == 0) && (!h.addr ==> h.source == 0 && h.dest == 0)
  }

  function HeaderFields(pf: Fragment): (s: seq<byte>)
    requires InRange(pf)
    ensures |s| == HeaderLength(pf.header.fec, pf.header.addr) - 2
  {
    var h := pf.header;
    ['P' as int, 'F' as int] + Put16(pf.pseq) + Put24(pf.findex) + Put24(h.fcount)
    + Put16(Flags(h, |pf.payload|))
    + (if h.fec then [h.rsk, h.rsz] else [])
    + (if h.addr then Put16(h.source) + Put16(h.dest) else [])
  }

  ghost function WriteFragment(pf: Fragment): (s: seq<byte>)
    requires InRange(pf)
  {
    var fields := HeaderFields(pf);
    AppendedCrcAccepted(fields);
    fields + Put16(Xor(Crc16(0xffff, fields), 0xffff)) + pf.payload
  }

  /** A fragment written with its header CRC is read back whole, whatever follows it in the datagram. */
  lemma HeaderRoundTrip(pf: Fragment, rest: seq<byte>)
    requires InRange(pf)
    ensures ReadFragment(WriteFragment(pf) + rest) == Complete(|WriteFragment(pf)|, pf)
  {
    hide CheckCrc, ReadFragment, HeaderFields;
    var fields := HeaderFields(pf);
    AppendedCrcAccepted(fields);
    HeaderWith(pf, Put16(Xor(Crc16(0xffff, fields), 0xffff)), rest);
  }

  lemma HeaderWith(pf: Fragment, field: seq<byte>, rest: seq<byte>)
    requires InRange(pf) && |field| == 2
    ensures var fields, hlen := HeaderFields(pf), HeaderLength(pf.header.fec, pf.header.addr);
            ReadFragment(fields + field + pf.payload + rest) ==
              if pf.header.fec && !CheckCrc(fields + field) then Damaged(hlen) else Complete(hlen + |pf.payload|, pf)
  {
    hide CheckCrc;
    var h := pf.header;
    var fields := HeaderFields(pf);
    var hlen := HeaderLength(h.fec, h.addr);
    var pkt := fields + field + pf.payload + rest;
    assert pkt[..hlen] == fields + field;
    assert pkt[hlen..hlen + |pf.payload|] == pf.payload;
    FixedFields(pf, pkt);
    OptionalFields(pf, pkt);
  }

  /** With FEC the header CRC decides: with other bytes in its place the header is skipped and the fragment lost. */
  lemma HeaderCrcDecides(pf: Fragment, field: seq<byte>, rest: seq<byte>)
    requires InRange(pf) && |field| == 2 && pf.header.fec
    ensures var sent, hlen := WriteFragment(pf), HeaderLength(true, pf.header.addr);
            ReadFragment(sent[..hlen - 2] + field + sent[hlen..] + rest) ==
              if field == sent[hlen - 2..hlen] then Complete(|sent|, pf) else Damaged(hlen)
  {
    hide CheckCrc, ReadFragment;
    var fields, sent, hlen := HeaderFields(pf), WriteFragment(pf), HeaderLength(true, pf.header.addr);
    FieldUnique(fields, field);
    HeaderWith(pf, field, rest);
    assert sent[..hlen - 2] == fields && sent[hlen..] == pf.payload;
    assert sent[hlen - 2..hlen] == Put16(Xor(Crc16(0xffff, fields), 0xffff));
  }

  function Flags(h: Header, plen: nat): (f: nat)
    requires plen < 0x4000
    ensures f < 0x1_0000
  {
    (if h.fec then 0x8000 else 0) + (if h.addr then 0x4000 else 0) + plen
  }

  lemma FlagFields(h: Header, plen: nat, first: byte, second: byte)
    requires plen < 0x4000 && [first, second] == Put16(Flags(h, plen))
    ensures (first / 128 == 1) == h.fec && (first / 64 % 2 == 1) == h.addr
    ensures (256 * first as nat + second) % 0x4000 == plen
  {
    assert first == Flags(h, plen) / 256 && second == Flags(h, plen) % 256;
  }

  lemma FixedFields(pf: Fragment, pkt: seq<byte>)
    requires InRange(pf) && HeaderFields(pf) <= pkt
    ensures pkt[0] == 'P' as int && pkt[1] == 'F' as int
    ensures Read16(pkt[2..]) == pf.pseq && Read24(pkt[4..]) == pf.findex && Read24(pkt[7..]) == pf.header.fcount
    ensures (pkt[10] / 128 == 1) == pf.header.fec && (pkt[10] / 64 % 2 == 1) == pf.header.addr
    ensures Read16(pkt[10..]) % 0x4000 == |pf.payload|
  {
    hide Read24, Put24, Put16, Flags;
    var h := pf.header;
    var flags := Put16(Flags(h, |pf.payload|));
    var fec, addr := if h.fec then [h.rsk, h.rsz] else [], if h.addr then Put16(h.source) + Put16(h.dest) else [];
    FixedParts(['P' as int, 'F' as int], Put16(pf.pseq), Put24(pf.findex), Put24(h.fcount), flags, fec, addr,
      HeaderFields(pf), pkt);
    ReadPut16(pkt[2..], pf.pseq, pkt[4..]);
    ReadPut24(pkt[4..], pf.findex, pkt[7..]);
    ReadPut24(pkt[7..], h.fcount, pkt[10..]);
    FlagFields(h, |pf.payload|, pkt[10], pkt[11]);
  }

  /** The fixed fields in front of whatever follows. */
  lemma FixedParts(sync: seq<byte>, a: seq<byte>, b: seq<byte>, c: seq<byte>, d: seq<byte>, x: seq<byte>, y: seq<byte>,
      fields: seq<byte>, pkt: seq<byte>)
    requires |sync| == |a| == |d| == 2 && |b| == |c| == 3
    requires fields == sync + a + b + c + d + x + y && fields <= pkt
    ensures pkt[0] == sync[0] && pkt[1] == sync[1] && [pkt[10], pkt[11]] == d
    ensures pkt[2..] == a + pkt[4..] && pkt[4..] == b + pkt[7..] && pkt[7..] == c + pkt[10..]
  {
    assert pkt[..|fields|] == fields;
    Chunk(pkt, fields, a, 2);
    Chunk(pkt, fields, b, 4);
    Chunk(pkt, fields, c, 7);
    assert fields[10] == d[0] && fields[11] == d[1];
  }

  lemma Chunk(pkt: seq<byte>, fields: seq<byte>, a: seq<byte>, at: nat)
    requires fields <= pkt && at + |a| <= |fields| && fields[at..at + |a|] == a
    ensures pkt[at..] == a + pkt[at + |a|..]
  {
    assert fields == pkt[..|fields|];
    var s, t := pkt[at..], a + pkt[at + |a|..];
    forall k | 0 <= k < |s| ensures s[k] == t[k] {
      if k < |a| { assert a[k] == fields[at..at + |a|][k] == fields[at + k] == pkt[at + k]; }
    }
  }

  lemma Split(s: seq<byte>, t: seq<byte>)
    requires s <= t
    ensures t == s + t[|s|..]
  {
  }

  lemma OptionalFields(pf: Fragment, pkt: seq<byte>)
    requires InRange(pf) && HeaderFields(pf) <= pkt
    ensures pf.header.fec ==> pkt[12] == pf.header.rsk && pkt[13] == pf.header.rsz
    ensures pf.header.addr ==>
              var at := if pf.header.fec then 14 else 12;
              Read16(pkt[at..]) == pf.header.source && Read16(pkt[at..][2..]) == pf.header.dest
  {
    hide Read24, Put24, Put16, Flags, Read16;
    var fields := HeaderFields(pf);
    var h := pf.header;
    var at := if h.fec then 14 else 12;
    Split(fields, pkt);
    if h.addr {
      var more := pkt[|fields|..];
      assert pkt[at..] == Put16(h.source) + (Put16(h.dest) + more);
      ReadPut16(pkt[at..], h.source, Put16(h.dest) + more);
      assert pkt[at..][2..] == Put16(h.dest) + more;
      ReadPut16(pkt[at..][2..], h.dest, more);
    }
  }

  /** Without FEC the two bytes of the header CRC, wherever the header ends, have no influence. */
  lemma CrcIgnoredWithoutFec(pkt: seq<byte>, other: seq<byte>, hlen: nat)
    requires |other| == |pkt| >= 14 && pkt[10] < 128 && hlen == HeaderLength(false, pkt[10] / 64 % 2 == 1) <= |pkt|
    requires pkt[..hlen - 2] == other[..hlen - 2] && pkt[hlen..] == other[hlen..]
    ensures ReadFragment(pkt) == ReadFragment(other)
  {
    var plen := Read16(pkt[10..]) % 0x4000;
    assert forall i :: 0 <= i < hlen - 2 ==> pkt[i] == pkt[..hlen - 2][i] && other[i] == other[..hlen - 2][i];
    if hlen + plen <= |pkt| {
      SameSlice(pkt, hlen, plen);
      SameSlice(other, hlen, plen);
    }
  }

  lemma SameSlice(s: seq<byte>, at: nat, n: nat)
    requires at + n <= |s|
    ensures s[at..at + n] == s[at..][..n]
  {
  }

  /** HandlePFPacket: the header is read at a running index; without FEC its CRC is computed and ignored. */
  method HandlePfPacket(tab: seq<nat>, pkt: seq<byte>) returns (r: Reading)
    requires IsTable(16, POLY, tab)
    ensures r == ReadFragment(pkt)
  {
    hide CheckCrc, Read16, Read24;
    if |pkt| < 14 { return Malformed; }
    if pkt[0] != 'P' as int || pkt[1] != 'F' as int { return Malformed; }
    var index := 2;
    var pseq := Read16(pkt[index..]);
    index := index + 2;
    var findex := Read24(pkt[index..]);
    index := index + 3;
    var fcount := Read24(pkt[index..]);
    index := index + 3;
    var fec, addr := pkt[index] / 128 == 1, pkt[index] / 64 % 2 == 1;
    var plen := Read16(pkt[index..]) % 0x4000;
    index := index + 2;
    if |pkt| < HeaderLength(fec, addr) { return Incomplete; }
    var rsk: byte, rsz: byte, source, dest := 0, 0, 0, 0;
    if fec {
      rsk, rsz := pkt[index], pkt[index + 1];
      index := index + 2;
    }
    if addr {
      source := Read16(pkt[index..]);
      index := index + 2;
      dest := Read16(pkt[index..]);
      index := index + 2;
      Twice(pkt, index - 4);
    }
    index := index + 2;
    var crcValid := CheckCrcLoop(tab, pkt[..index]);
    if |pkt| < index + plen { return Incomplete; }
    if fec && !crcValid { return Damaged(index); }
    r := Complete(index + plen,
      Fragment(pseq, findex, Header(fcount, fec, addr, rsk, rsz, source, dest), pkt[index..index + plen]));
  }

  lemma Twice(s: seq<byte>, at: nat)
    requires at + 2 <= |s|
    ensures s[at..][2..] == s[at + 2..]
  {
  }
}
