/** From the baseband frames of a DVB-S2 carrier to ETI frames: bbfedi2eti.cpp in front of HandleEDIPacket. The layers
    of Scanners, Gse, Ipv4 and EdiEndToEnd put together. */
module DvbReception {
  import opened Bits
  import opened Crc
  import opened EdiHandler
  import opened EdiPipeline
  import opened Ipv4
  import EdiEndToEnd
  import EtiTags
  import Fec
  import FecRecovery
  import Gse
  import Pft
  import PftHandler
  import PftHeader
  import PftStream
  import Scanners

  // ----- one IPv4 packet -----

  /** What the user asked for. */
  datatype Filters = Filters(sourceIp: Option<seq<byte>>, destIp: Option<seq<byte>>, sourcePort: Option<nat>,
    destPort: Option<nat>, allowBadChecksum: bool)

  /** What becomes of an IPv4 packet, each counted in its own statistics. */
  datatype Fate = NotPft | Filtered | BadChecksum | Handed(pft: seq<byte>)

  /** matchesFilters. */
  predicate Matches(f: Filters, ip: seq<byte>, udp: seq<byte>)
    requires |ip| >= 20 && |udp| >= 4
  {
    && (f.sourceIp.None? || ip[12..16] == f.sourceIp.value) && (f.destIp.None? || ip[16..20] == f.destIp.value)
    && (f.sourcePort.None? || Read16(udp) == f.sourcePort.value)
    && (f.destPort.None? || Read16(udp[2..]) == f.destPort.value)
  }

  /** processIpv4Pdu and processPftPacket up to the call of HandleEDIPacket. */
  ghost function FateOf(f: Filters, ip: seq<byte>): Fate {
    match InspectIpv4(ip)
    case Valid(_, _, at, n) =>
      var udp := ip[at..at + n];
      if !Matches(f, ip, udp) then Filtered
      else if !f.allowBadChecksum && !UdpChecksumOk(ip, udp) then BadChecksum
      else Handed(udp[8..])
    case _ => NotPft
  }

  method ProcessPdu(tab: seq<nat>, f: Filters, ip: seq<byte>) returns (fate: Fate)
    requires IsTable(16, POLY, tab)
    ensures fate == FateOf(f, ip)
  {
    hide UdpChecksumOk, InspectIpv4, IsTable;
    var v := InspectIpv4Packet(tab, ip);
    if !v.Valid? { return NotPft; }
    LengthsOf(ip);
    var udp := ip[v.udpOffset..v.udpOffset + v.udpLength];
    if !Matches(f, ip, udp) { return Filtered; }
    if !f.allowBadChecksum {
      var sumOk := HasValidUdpChecksum(ip, udp);
      if !sumOk { return BadChecksum; }
    }
    fate := Handed(udp[8..]);
  }

  lemma LengthsOf(ip: seq<byte>)
    requires InspectIpv4(ip).Valid?
    ensures InspectIpv4(ip).udpLength <= 0xffff
  {
  }

  /** The sender's fields are those that the user asked for. */
  predicate Wanted(f: Filters, d: Datagram) {
    && (f.sourceIp.None? || d.source == f.sourceIp.value) && (f.destIp.None? || d.dest == f.destIp.value)
    && (f.sourcePort.None? || d.sourcePort == f.sourcePort.value)
    && (f.destPort.None? || d.destPort == f.destPort.value)
  }

  /** Every UDP datagram, whatever its fields and its checksum: what becomes of it. */
  lemma FateOfWritten(f: Filters, d: Datagram, checksum: nat)
    requires Proper(d) && d.protocol == 17 && d.fragment == 0 && checksum < 0x1_0000
    ensures FateOf(f, IpHeader(d) + UdpWith(d, checksum)) ==
      if !IsPft(d.payload) then NotPft
      else if !Wanted(f, d) then Filtered
      else if !f.allowBadChecksum && checksum != 0 && checksum != UdpChecksum(d) then BadChecksum
      else Handed(d.payload)
  {
    hide UdpChecksumOk, InspectIpv4, UdpChecksum, HeaderWith, UdpWith, HeaderChecksum, IsPft;
    var c := HeaderChecksum(d);
    var h, udp := HeaderWith(d, c), UdpWith(d, checksum);
    var ip := h + udp;
    WrittenRecognised(d, c, checksum, []);
    assert h + udp + [] == ip;
    HeaderStart(d, c);
    SameHeader(h, ip, udp);
    UdpFields(d, checksum, udp, []);
    assert udp + [] == udp && udp[8..] == udp[8..8 + |d.payload|];
    WrittenSumsUp(d, c, checksum);
  }

  lemma SameHeader(h: seq<byte>, ip: seq<byte>, udp: seq<byte>)
    requires |h| >= 20 && h <= ip && |udp| >= 8
    ensures ip[12..16] == h[12..16] && ip[16..20] == h[16..20]
    ensures UdpChecksumOk(ip, udp) <==> UdpChecksumOk(h, udp)
  {
    assert ip[12..20] == h[12..20] && ip[9] == h[9];
  }

  // ----- a PFT fragment in a datagram -----

  /** A written fragment is taken for one exactly if it has a payload, its index is in range, and its packet would hold
      no more than 16 megabytes. */
  lemma FragmentIsPft(pf: Pft.Fragment)
    requires PftHeader.InRange(pf)
    ensures IsPft(PftHeader.WriteFragment(pf)) <==>
      pf.findex < pf.header.fcount && pf.payload != [] && pf.header.fcount * |pf.payload| <= 16 * 1024 * 1024
  {
    hide CheckCrc, PftHeader.HeaderFields, Read24, Read16;
    var h, fields, w := pf.header, PftHeader.HeaderFields(pf), PftHeader.WriteFragment(pf);
    var hlen := PftHeader.HeaderLength(h.fec, h.addr);
    PftHeader.FixedFields(pf, w);
    AppendedCrcAccepted(fields);
    assert w[..hlen] == fields + Put16(Xor(Crc16(0xffff, fields), 0xffff));
    LengthBits(w, |pf.payload|);
  }

  lemma LengthBits(w: seq<byte>, n: nat)
    requires |w| >= 14 && Read16(w[10..]) % 0x4000 == n
    ensures 256 * (w[10] as nat % 64) + w[11] as nat == n
  {
    assert Read16(w[10..]) == 256 * w[10] as nat + w[11] as nat;
  }

  // ----- all of them -----

  /** The packets that reach HandleEDIPacket. */
  ghost function EdiPackets(f: Filters, pdus: seq<seq<byte>>): seq<seq<byte>> {
    if pdus == [] then []
    else
      EdiPackets(f, pdus[..|pdus| - 1]) + match FateOf(f, pdus[|pdus| - 1]) case Handed(pft) => [pft] case _ => []
  }

  method ProcessPdus(tab: seq<nat>, f: Filters, pdus: seq<seq<byte>>) returns (pkts: seq<seq<byte>>)
    requires IsTable(16, POLY, tab)
    ensures pkts == EdiPackets(f, pdus)
  {
    hide FateOf, IsTable;
    pkts := [];
    var i := 0;
    while i < |pdus|
      invariant 0 <= i <= |pdus| && pkts == EdiPackets(f, pdus[..i])
    {
      var fate := ProcessPdu(tab, f, pdus[i]);
      assert pdus[..i + 1][..i] == pdus[..i];
      if fate.Handed? {
        pkts := pkts + [fate.pft];
      }
      i := i + 1;
    }
    assert pdus[..i] == pdus;
  }

  /** A datagram that carries a fragment and passes the filters. */
  ghost predicate Wraps(f: Filters, d: Datagram, pf: Pft.Fragment) {
    && Proper(d) && d.protocol == 17 && d.fragment == 0 && Wanted(f, d)
    && PftHeader.InRange(pf) && pf.findex < pf.header.fcount && pf.payload != []
    && pf.header.fcount * |pf.payload| <= 16 * 1024 * 1024
    && d.payload == PftHeader.WriteFragment(pf)
  }

  ghost predicate AllWrap(f: Filters, ds: seq<Datagram>, pfs: seq<Pft.Fragment>) {
    |ds| == |pfs| && forall i :: 0 <= i < |ds| ==> Wraps(f, ds[i], pfs[i])
  }

  /** The IPv4 packets of the datagrams. */
  ghost function IpPackets(ds: seq<Datagram>): seq<seq<byte>>
    requires forall i :: 0 <= i < |ds| ==> Proper(ds[i])
  {
    if ds == [] then [] else IpPackets(ds[..|ds| - 1]) + [WriteIp(ds[|ds| - 1])]
  }

  /** Every fragment reaches HandleEDIPacket in its own bytes, in order. */
  lemma {:induction false} FragmentsArrive(f: Filters, ds: seq<Datagram>, pfs: seq<Pft.Fragment>)
    requires AllWrap(f, ds, pfs)
    ensures (forall i :: 0 <= i < |ds| ==> Proper(ds[i])) && forall i :: 0 <= i < |pfs| ==> PftHeader.InRange(pfs[i])
    ensures EdiPackets(f, IpPackets(ds)) == EdiEndToEnd.Datagrams(pfs)
  {
    hide FateOf, WriteIp, Proper, Wanted, PftHeader.InRange, PftHeader.WriteFragment;
    if ds != [] {
      var n := |ds| - 1;
      FragmentsArrive(f, ds[..n], pfs[..n]);
      assert Wraps(f, ds[n], pfs[n]);
      OneArrives(f, ds[n], pfs[n]);
      var all := IpPackets(ds);
      assert all[..|all| - 1] == IpPackets(ds[..n]);
    }
  }

  lemma OneArrives(f: Filters, d: Datagram, pf: Pft.Fragment)
    requires Wraps(f, d, pf)
    ensures FateOf(f, WriteIp(d)) == Handed(PftHeader.WriteFragment(pf))
  {
    hide FateOf, UdpChecksum, PftHeader.WriteFragment, IpHeader, IsPft;
    FragmentIsPft(pf);
    FateOfWritten(f, d, if d.summed then UdpChecksum(d) else 0);
  }

  // ----- the whole way -----

  /** A carrier as it is sent: baseband frames with GSE packets whose PDUs, for the input stream that is received, are
      the datagrams with the fragments. */
  ghost predicate Broadcast(isi: Option<byte>, f: Filters, fs: seq<Scanners.Frame>, ps: seq<seq<Gse.Written>>,
      ds: seq<Datagram>, pfs: seq<Pft.Fragment>)
  {
    && Scanners.Loaded(fs, ps) && AllWrap(f, ds, pfs)
    && (forall i :: 0 <= i < |ds| ==> Proper(ds[i]))
    && Gse.Pdus(Gse.Meant(Gse.AllEvents(Scanners.Kept(isi, fs, ps)))) == IpPackets(ds)
  }

  /** From the bytes of the carrier, read in pieces of any size, to what HandleEDIPacket is called with: exactly the
      fragments. The C++ code calls it with each one as soon as it is complete; nothing flows back. */
  method ReceivePackets(scanner: Scanners.BbframeScanner, sync: bool, isi: Option<byte>, gse: Gse.GseReceiver,
      tab: seq<nat>, f: Filters, ghost fs: seq<Scanners.Frame>, ghost ps: seq<seq<Gse.Written>>,
      ghost ds: seq<Datagram>, ghost pfs: seq<Pft.Fragment>) returns (pkts: seq<seq<byte>>)
    requires scanner.Valid() && scanner.found == [] && gse.View() == Gse.EMPTY && IsTable(16, POLY, tab)
    requires Broadcast(isi, f, fs, ps, ds, pfs) && scanner.Rest() == Scanners.OnLine(sync, fs)
    modifies scanner, gse
    ensures forall i :: 0 <= i < |pfs| ==> PftHeader.InRange(pfs[i])
    ensures pkts == EdiEndToEnd.Datagrams(pfs)
  {
    hide Scanners.Sendable, Scanners.Distinct, Gse.FieldOf, Scanners.OnLine, Scanners.FrameScan, Scanners.FrameEvents,
      Scanners.Kept, Gse.Apply, Gse.Meant, Gse.Pdus, Wraps, EdiPackets, IpPackets, IsTable, Scanners.Frames;
    Scanners.SentIsScanned(sync, fs, ps);
    Scanners.KeptEvents(isi, fs, ps);
    ghost var evs := Gse.AllEvents(Scanners.Kept(isi, fs, ps));
    Gse.TraceIsDelivered(evs, 0);
    Gse.TraceIsMeant(evs);
    FragmentsArrive(f, ds, pfs);
    var bbframes := scanner.Run(sync, isi, gse);
    pkts := ProcessPdus(tab, f, gse.delivered);
  }

  /** The whole way without FEC: of a transmission of multiplexes cut into fragments, each in a datagram, the datagrams
      in GSE packets, those in baseband frames, one ETI frame comes out for every multiplex all of whose fragments were
      sent and whose slot is claimed, and it reads back as that multiplex. */
  method ReceivePlain(scanner: Scanners.BbframeScanner, sync: bool, isi: Option<byte>, gse: Gse.GseReceiver, f: Filters,
      rx: EdiReceiver, ghost fs: seq<Scanners.Frame>, ghost ps: seq<seq<Gse.Written>>, ghost ds: seq<Datagram>,
      ghost pfs: seq<Pft.Fragment>, ghost t: PftStream.Transmission, ghost ks: seq<nat>, ghost ms: seq<Multiplex>)
      returns (frames: seq<seq<byte>>)
    requires scanner.Valid() && scanner.found == [] && gse.View() == Gse.EMPTY && rx.Valid() && rx.afb.state.Idle?
    requires Broadcast(isi, f, fs, ps, ds, pfs) && scanner.Rest() == Scanners.OnLine(sync, fs)
    requires pfs != [] && PftStream.Carries(t, ks, pfs) && PftStream.Near(ks) && PftStream.Apart(ks)
    requires (forall m :: m in ms ==> Sendable(m)) && PftStream.PlainCut(t, EdiEndToEnd.AfsOf(ms), |pfs[0].payload|)
    requires PftHandler.ShowsLength(pfs[0])
    modifies scanner, gse, rx.afb, rx.edi
    ensures rx.Valid()
    ensures EdiEndToEnd.ReadAs(frames, ms, PftStream.Only(PftStream.Decisions(ks), PftStream.WholeSet(t, ks, pfs)))
  {
    hide PftHandler.AfBuilders.Valid, EtiTags.Stored, Broadcast, IsTable, PftStream.Carries, PftStream.Near,
      PftStream.Apart, PftStream.PlainCut, Sendable, EdiEndToEnd.Datagrams, EdiEndToEnd.Received;
    var pkts := ReceivePackets(scanner, sync, isi, gse, rx.crcTab, f, fs, ps, ds, pfs);
    AsReceived(t, ks, pfs);
    frames := EdiEndToEnd.ReceivePlain(rx, pkts, t, ks, ms);
  }

  lemma AsReceived(t: PftStream.Transmission, ks: seq<nat>, pfs: seq<Pft.Fragment>)
    requires pfs != [] && PftStream.Carries(t, ks, pfs) && PftStream.Near(ks) && PftStream.Apart(ks)
    requires forall i :: 0 <= i < |pfs| ==> PftHeader.InRange(pfs[i])
    ensures Fragments(EdiEndToEnd.Datagrams(pfs)) == pfs && EdiEndToEnd.Received(t, ks, EdiEndToEnd.Datagrams(pfs))
  {
    hide PftStream.Carries, PftStream.Near, PftStream.Apart, IsAf, OneFragment, EdiEndToEnd.Datagrams, Fragments;
    EdiEndToEnd.DatagramsCarry(pfs);
  }

  /** The same with FEC and a decoder that corrects: one frame for every multiplex of which enough fragments were sent,
      and none for those of which there were too few. */
  method ReceiveLossy(scanner: Scanners.BbframeScanner, sync: bool, isi: Option<byte>, gse: Gse.GseReceiver, f: Filters,
      rx: EdiReceiver, ghost fs: seq<Scanners.Frame>, ghost ps: seq<seq<Gse.Written>>, ghost ds: seq<Datagram>,
      ghost pfs: seq<Pft.Fragment>, ghost t: PftStream.Transmission, ghost ks: seq<nat>, ghost ms: seq<Multiplex>,
      ghost chunks: seq<seq<seq<byte>>>, ghost parity: Fec.Parity, ghost s: nat) returns (frames: seq<seq<byte>>)
    requires scanner.Valid() && scanner.found == [] && gse.View() == Gse.EMPTY && rx.Valid() && rx.afb.state.Idle?
    requires Broadcast(isi, f, fs, ps, ds, pfs) && scanner.Rest() == Scanners.OnLine(sync, fs)
    requires pfs != [] && PftStream.Carries(t, ks, pfs) && PftStream.Near(ks) && PftStream.Apart(ks)
    requires (forall m :: m in ms ==> Sendable(m)) && FecRecovery.Corrects(rx.afb.rs, parity)
    requires PftStream.CodedCut(t, EdiEndToEnd.AfsOf(ms), chunks, parity, s) && PftStream.EnoughOrFew(t, s, ks, pfs)
    modifies scanner, gse, rx.afb, rx.edi
    ensures rx.Valid()
    ensures EdiEndToEnd.ReadAs(frames, ms, PftStream.Only(PftStream.Decisions(ks), PftStream.EnoughSet(t, s, ks, pfs)))
  {
    hide PftHandler.AfBuilders.Valid, EtiTags.Stored, Broadcast, IsTable, PftStream.Carries, PftStream.Near,
      PftStream.Apart, PftStream.CodedPacket, Sendable, EdiEndToEnd.Datagrams, EdiEndToEnd.Received,
      PftStream.EnoughOrFew, PftStream.EnoughOf, FecRecovery.Corrects;
    var pkts := ReceivePackets(scanner, sync, isi, gse, rx.crcTab, f, fs, ps, ds, pfs);
    AsReceived(t, ks, pfs);
    frames := EdiEndToEnd.ReceiveLossy(rx, pkts, t, ks, ms, chunks, parity, s);
  }

  /** Such carriers exist for any datagrams that fit a GSE packet: each one whole, in a frame of its own. */
  lemma {:induction false} OnePerFrame(ds: seq<Datagram>)
    returns (fs: seq<Scanners.Frame>, ps: seq<seq<Gse.Written>>)
    requires forall i :: 0 <= i < |ds| ==> Proper(ds[i]) && |WriteIp(ds[i])| <= 4093
    ensures |fs| == |ps| == |ds| && Scanners.Loaded(fs, ps)
    ensures Gse.Pdus(Gse.Meant(Gse.AllEvents(Scanners.Kept(None, fs, ps)))) == IpPackets(ds)
  {
    hide WriteIp, Proper, Scanners.Loaded, Scanners.Kept, Gse.AllEvents, Gse.Meant, Gse.Pdus, Scanners.Sendable,
      Scanners.Distinct, Gse.FieldOf;
    if ds == [] {
      fs, ps := [], [];
      EmptyCarrier();
    } else {
      var n := |ds| - 1;
      fs, ps := OnePerFrame(ds[..n]);
      var ip := WriteIp(ds[n]);
      var f, p := WholeFrame(ip);
      LoadedMore(fs, ps, f, p, ip);
      CompleteMore(Gse.AllEvents(Scanners.Kept(None, fs, ps)), ip);
      fs, ps := fs + [f], ps + [[p]];
    }
  }

  lemma EmptyCarrier()
    ensures Scanners.Loaded([], []) && Gse.Pdus(Gse.Meant(Gse.AllEvents(Scanners.Kept(None, [], [])))) == []
  {
  }

  /** An IPv4 packet of up to 4093 bytes as one complete GSE packet in one frame. */
  lemma WholeFrame(ip: seq<byte>) returns (f: Scanners.Frame, p: Gse.Written)
    requires |ip| <= 4093
    ensures p.event == Gse.Complete(0x0800, ip)
    ensures Scanners.Sendable(f) && Scanners.Distinct(f) && Gse.FieldOf(f.data, [p])
  {
    p := Gse.Written(Gse.Complete(0x0800, ip), Gse.Broadcast, [0, 0, 0, 0]);
    f := Scanners.Frame(0, 0, 0, 0, 0, Gse.WriteEvent(p.event, p.lbl, p.crc), true);
    assert [p][1..] == [] && Gse.WriteAll([p]) == f.data + [];
  }

  lemma LoadedMore(fs: seq<Scanners.Frame>, ps: seq<seq<Gse.Written>>, f: Scanners.Frame, p: Gse.Written,
      ip: seq<byte>)
    requires Scanners.Loaded(fs, ps) && Scanners.Sendable(f) && Scanners.Distinct(f) && Gse.FieldOf(f.data, [p])
    requires p.event == Gse.Complete(0x0800, ip)
    ensures Scanners.Loaded(fs + [f], ps + [[p]])
    ensures Gse.AllEvents(Scanners.Kept(None, fs + [f], ps + [[p]]))
         == Gse.AllEvents(Scanners.Kept(None, fs, ps)) + [Gse.Complete(0x0800, ip)]
  {
    hide Scanners.Sendable, Scanners.Distinct, Gse.FieldOf;
    assert (fs + [f])[..|fs|] == fs && (ps + [[p]])[..|ps|] == ps;
    Scanners.LastPackets(Scanners.Kept(None, fs, ps), [p]);
    assert [p][1..] == [];
  }

  lemma CompleteMore(evs: seq<Gse.Event>, ip: seq<byte>)
    ensures var all := evs + [Gse.Complete(0x0800, ip)];
            Gse.Pdus(Gse.Meant(all)) == Gse.Pdus(Gse.Meant(evs)) + [ip]
  {
    var all := evs + [Gse.Complete(0x0800, ip)];
    assert all[..|evs|] == evs;
    var tr := Gse.Meant(all);
    assert tr == Gse.Meant(evs) + [Gse.Handed(None, ip)] && tr[..|tr| - 1] == Gse.Meant(evs);
  }
}
