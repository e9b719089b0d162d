/** From the multiplex to the frame and back, through all layers: TAG items in an AF packet, the packet in fragments,
    the fragments in datagrams, lost, reordered or repeated on the way, and the frames that the receiver emits. */
module EdiEndToEnd {
  import opened Bits
  import opened EdiHandler
  import opened EdiPipeline
  import opened EtiFrame
  import opened EtiTags
  import opened PftHandler
  import opened PftHeader
  import Fec
  import FecRecovery
  import Pft
  import PftStream

  // ----- datagrams -----

  /** One datagram for each fragment. */
  ghost function Datagrams(pfs: seq<Pft.Fragment>): (pkts: seq<seq<byte>>)
    requires forall i :: 0 <= i < |pfs| ==> PftHeader.InRange(pfs[i])
    ensures |pkts| == |pfs|
  {
    if pfs == [] then [] else Datagrams(pfs[..|pfs| - 1]) + [WriteFragment(pfs[|pfs| - 1])]
  }

  lemma {:induction false} DatagramsCarry(pfs: seq<Pft.Fragment>)
    requires forall i :: 0 <= i < |pfs| ==> PftHeader.InRange(pfs[i])
    ensures Fragments(Datagrams(pfs)) == pfs
    ensures forall k :: 0 <= k < |pfs| ==> !IsAf(Datagrams(pfs)[k]) && OneFragment(Datagrams(pfs)[k])
  {
    hide PftHeader.InRange, WriteFragment, FragmentIn, IsAf, OneFragment;
    if pfs != [] {
      var init, last := pfs[..|pfs| - 1], pfs[|pfs| - 1];
      DatagramsCarry(init);
      WrittenIsFragment(last);
      var pkts := Datagrams(pfs);
      assert pkts[..|pkts| - 1] == Datagrams(init);
    }
  }

  lemma WrittenIsFragment(pf: Pft.Fragment)
    requires PftHeader.InRange(pf)
    ensures FragmentIn(WriteFragment(pf)) == Some(pf) && !IsAf(WriteFragment(pf)) && OneFragment(WriteFragment(pf))
  {
    HeaderRoundTrip(pf, []);
    var pkt := WriteFragment(pf);
    assert pkt + [] == pkt == pkt[0..];
  }

  // ----- one multiplex -----

  /** The multiplex in its plainest form: a *ptr item, a deti item, and one est item for each stream. */
  ghost function Plain(seqNo: nat, d: Deti, ss: seq<Stream>): (m: Multiplex)
    requires seqNo < 0x1_0000 && DetiOk(d) && d.fic.Some? && AllInRange(ss) && |ss| <= 64 && WholeUnits(ss)
    requires MultiplexEnd(d.fic.value, ss) < 6136
    ensures Sendable(m) && m.d == d && m.ss == ss
  {
    CanonicalDescribes(d, ss);
    SentShort(d, ss);
    Multiplex(seqNo, Canonical(d, ss), d, ss)
  }

  lemma SentShort(d: Deti, ss: seq<Stream>)
    requires DetiOk(d) && AllInRange(ss) && |ss| <= 64 && d.fic.Some? && MultiplexEnd(d.fic.value, ss) < 6136
    ensures |Sent(d, ss)| <= MAX_TAGS
  {
    hide SumBytes, Sent;
    SentLength(d, ss);
  }

  /** Header fields that fit the fragment header. */
  predicate HeaderFits(p: nat, h: Pft.Header, s: nat) {
    && (!h.addr ==> h.source == 0 && h.dest == 0) && (!h.fec ==> h.rsk == 0 && h.rsz == 0)
    && h.source < 0x1_0000 && h.dest < 0x1_0000 && p < 0x1_0000 && 0 < h.fcount < 0x100_0000 && s < 0x4000
  }

  /** How the sender cuts without FEC: fragments of s bytes, the last one possibly shorter. */
  ghost predicate Cut(af: seq<byte>, h: Pft.Header, s: nat) {
    !h.fec && s <= |af| && (h.fcount - 1) * s <= |af| <= h.fcount * s
  }

  /** A fragment of another packet that claims the slot of p. */
  ghost predicate Claims(q: Pft.Fragment, p: nat, h: Pft.Header, s: nat) {
    q.pseq != p && q.pseq % Pft.SLOTS == p % Pft.SLOTS && q.pseq < 0x1_0000 && Regular(q, h, s)
  }

  lemma PlainSendingFits(af: seq<byte>, p: nat, h: Pft.Header, s: nat, q: Pft.Fragment)
    requires Cut(af, h, s) && HeaderFits(p, h, s) && Claims(q, p, h, s)
    ensures var pfs := Pft.InOrder(p, h, Pft.Pieces(af, s, h.fcount)) + [q];
            && RunFits(pfs) && |pfs[0].payload| == s && pfs[0].header == h
            && forall i :: 0 <= i < |pfs| ==> PftHeader.InRange(pfs[i])
  {
    var parts := Pft.Pieces(af, s, h.fcount);
    var pfs := Pft.InOrder(p, h, parts) + [q];
    PiecesConform(af, s, h.fcount);
    FirstPiece(af, s);
    assert parts[0] == Pft.Piece(af, s, 0);
    forall i | 0 <= i < |pfs| ensures Regular(pfs[i], h, s) {
      if i < h.fcount && i + 1 < h.fcount { assert |Pft.FullMap(parts)[i]| == s; }
    }
    hide Orderly;
    PlainRunFits(pfs);
  }

  lemma FirstPiece(af: seq<byte>, s: nat)
    requires s <= |af|
    ensures |Pft.Piece(af, s, 0)| == s
  {
  }

  /** Fragments, one in a datagram, that make the collector hand out the packet of one multiplex or nothing. */
  lemma OneFrame(b: Builder, rs: Fec.RsDecoder, pfs: seq<Pft.Fragment>, p: nat, m: Multiplex, yes: bool)
    requires Stored(b) && Sendable(m) && pfs != [] && RunFits(pfs)
    requires forall i :: 0 <= i < |pfs| ==> PftHeader.InRange(pfs[i])
    requires pfs[0].header.fec ==> pfs[0].header.rsk <= 207 && pfs[0].header.fcount > 0
    requires Pft.Delivered(rs, pfs[0].header, |pfs[0].payload|, Pft.Start(pfs[0]), pfs)
          == if yes then [Pft.Delivery(p, AfOf(m))] else []
    ensures var pkts := Datagrams(pfs);
            && StreamFits(pkts) && Fragments(pkts) == pfs && AfRun(b, AfPackets(rs, pfs, pkts), true).Some?
            && var frames := AfRun(b, AfPackets(rs, pfs, pkts), true).value.frames;
            if yes then |frames| == 1 && ReadsBack(frames[0], m.d, m.ss) else frames == []
  {
    hide Stored, ReadsBack, RunFits, AfStep, PftHeader.InRange, IsAf, OneFragment, Fragments, Datagrams, Pft.Delivered,
      Describes, DetiOk, AllOk, WholeUnits, MultiplexEnd, WriteItems, WriteAf;
    var pkts := Datagrams(pfs);
    DatagramsCarry(pfs);
    OnlyFragments(rs, pfs, pkts, |pkts|);
    assert pkts[..|pkts|] == pkts && pfs[..|pfs|] == pfs;
    var one := Pft.Delivery(p, AfOf(m));
    assert [one][..0] == [] && Packets([one]) == [AfOf(m)] && Packets([]) == [];
    if yes {
      MultiplexStep(b, m.seqNo, m.items, m.d, m.ss);
      AfRunOne(b, AfOf(m), true);
    }
  }

  /** Every multiplex that fits a frame arrives: written item by item, wrapped in an AF packet, cut into fragments, each
      written as a datagram, and sent in order, it makes the receiver emit one frame when its slot is claimed, and that
      frame reads back as the multiplex. */
  lemma EveryMultiplexArrives(seqNo: nat, d: Deti, ss: seq<Stream>, b: Builder, p: nat, rs: Fec.RsDecoder,
      h: Pft.Header, s: nat, q: Pft.Fragment)
    requires seqNo < 0x1_0000 && DetiOk(d) && d.fic.Some? && AllInRange(ss) && |ss| <= 64 && WholeUnits(ss)
    requires MultiplexEnd(d.fic.value, ss) < 6136 && Stored(b)
    requires Cut(AfOf(Plain(seqNo, d, ss)), h, s) && HeaderFits(p, h, s) && Claims(q, p, h, s)
    ensures var pfs := Pft.InOrder(p, h, Pft.Pieces(AfOf(Plain(seqNo, d, ss)), s, h.fcount)) + [q];
            && (forall i :: 0 <= i < |pfs| ==> PftHeader.InRange(pfs[i])) && RunFits(pfs)
            && var pkts := Datagrams(pfs);
            && StreamFits(pkts) && Fragments(pkts) == pfs && AfRun(b, AfPackets(rs, pfs, pkts), true).Some?
            && var frames := AfRun(b, AfPackets(rs, pfs, pkts), true).value.frames;
            |frames| == 1 && ReadsBack(frames[0], d, ss)
  {
    hide DetiOk, AllInRange, WholeUnits, Stored, Plain, ReadsBack, RunFits, PftHeader.InRange, Fragments, Datagrams,
      Pft.Delivered, AfRun, AfPackets, MultiplexEnd, Sendable, AfOf, Pft.Pieces, Pft.Accepted, Pft.Start;
    var m := Plain(seqNo, d, ss);
    var pfs := Pft.InOrder(p, h, Pft.Pieces(AfOf(m), s, h.fcount)) + [q];
    PlainSendingFits(AfOf(m), p, h, s, q);
    AfAccepted(m);
    Pft.SentInOrder(AfOf(m), p, rs, h, s, q);
    assert pfs[0] == Pft.InOrder(p, h, Pft.Pieces(AfOf(m), s, h.fcount))[0];
    OneFrame(b, rs, pfs, p, m, true);
  }

  /** With FEC: one frame that reads back if 48 * c >= s, and otherwise none at all. */
  lemma CodedMultiplexArrives(m: Multiplex, chunks: seq<seq<byte>>, parity: Fec.Parity, b: Builder, p: nat,
      rs: Fec.RsDecoder, h: Pft.Header, s: nat, q: Pft.Fragment)
    requires Sendable(m) && Stored(b) && HeaderFits(p, h, s) && Claims(q, p, h, s)
    requires Pft.CodedAs(AfOf(m), chunks, h, s) && Fec.FixesCodewords(rs, parity)
    ensures var pfs := Pft.InOrder(p, h, Pft.Spreads(h.fcount, s, Fec.Encoded(parity, chunks))) + [q];
            && (forall i :: 0 <= i < |pfs| ==> PftHeader.InRange(pfs[i])) && RunFits(pfs)
            && var pkts := Datagrams(pfs);
            && StreamFits(pkts) && Fragments(pkts) == pfs && AfRun(b, AfPackets(rs, pfs, pkts), true).Some?
            && var frames := AfRun(b, AfPackets(rs, pfs, pkts), true).value.frames;
            if 48 * |chunks| >= s then |frames| == 1 && ReadsBack(frames[0], m.d, m.ss) else frames == []
  {
    hide Stored, ReadsBack, RunFits, Fragments, Datagrams, Pft.Delivered, AfRun, AfPackets, Sendable, AfOf, Pft.Spreads,
      Pft.Accepted, Pft.Start, Pft.CodedAs, Fec.FixesCodewords, Fec.Encoded;
    var parts := Pft.Spreads(h.fcount, s, Fec.Encoded(parity, chunks));
    var pfs := Pft.InOrder(p, h, parts) + [q];
    AfAccepted(m);
    Pft.CodedBounds(AfOf(m), chunks, h, s);
    CodedSendingFits(AfOf(m), chunks, parity, p, h, s, q);
    forall i | 0 <= i < h.fcount ensures |parts[i]| == s { SpreadLength(h.fcount, s, Fec.Encoded(parity, chunks), i); }
    Pft.CodedSentInOrder(AfOf(m), chunks, p, rs, parity, h, s, q);
    assert pfs[0] == Pft.InOrder(p, h, parts)[0];
    OneFrame(b, rs, pfs, p, m, 48 * |chunks| >= s);
  }

  // ----- a stream of multiplexes -----

  ghost function AfsOf(ms: seq<Multiplex>): (afs: seq<seq<byte>>)
    requires forall m :: m in ms ==> Sendable(m)
    ensures |afs| == |ms|
  {
    seq(|ms|, i requires 0 <= i < |ms| => assert ms[i] in ms; AfOf(ms[i]))
  }

  /** The frames are those of the multiplexes ms[ds[0]], ms[ds[1]], ... */
  ghost predicate ReadAs(frames: seq<seq<byte>>, ms: seq<Multiplex>, ds: seq<nat>) {
    && |frames| == |ds|
    && forall i :: 0 <= i < |ds| ==> ds[i] < |ms| && ReadsBack(frames[i], ms[ds[i]].d, ms[ds[i]].ss)
  }

  /** A run of AF packets with multiplexes gives one frame for each, in order. */
  lemma {:induction false} FramesOf(b: Builder, ms: seq<Multiplex>, ds: seq<nat>)
    requires Stored(b) && (forall m :: m in ms ==> Sendable(m)) && forall k :: k in ds ==> k < |ms|
    ensures AfRun(b, PftStream.Chosen(AfsOf(ms), ds), true).Some?
    ensures ReadAs(AfRun(b, PftStream.Chosen(AfsOf(ms), ds), true).value.frames, ms, ds)
  {
    hide Sendable, AfOf, Stored, ReadAs, AfRun, AfsOf;
    if ds == [] {
      NoFrames(b, ms);
      assert PftStream.Chosen(AfsOf(ms), ds) == [];
    } else {
      var init, last := ds[..|ds| - 1], ds[|ds| - 1];
      assert last in ds && forall k :: k in init ==> k in ds;
      FramesOf(b, ms, init);
      var af, before := AfsOf(ms)[last], PftStream.Chosen(AfsOf(ms), init);
      assert PftStream.Chosen(AfsOf(ms), ds) == before + [af];
      var x := AfRun(b, before, true).value;
      AfAt(ms, last);
      OneMore(x.b, ms[last]);
      AfRunConcat(b, before, [af], true);
      ReadAsMore(x.frames, AfRun(x.b, [af], true).value.frames, ms, init, last);
      assert ds == init + [last];
    }
  }

  lemma NoFrames(b: Builder, ms: seq<Multiplex>)
    requires Stored(b)
    ensures AfRun(b, [], true) == Some(AfResult(b, [])) && ReadAs([], ms, [])
  {
  }

  lemma AfAt(ms: seq<Multiplex>, k: nat)
    requires (forall m :: m in ms ==> Sendable(m)) && k < |ms|
    ensures Sendable(ms[k]) && AfsOf(ms)[k] == AfOf(ms[k])
  {
    hide Sendable, AfOf;
    assert ms[k] in ms;
  }

  lemma ReadAsMore(frames: seq<seq<byte>>, more: seq<seq<byte>>, ms: seq<Multiplex>, ds: seq<nat>, k: nat)
    requires ReadAs(frames, ms, ds) && k < |ms| && |more| == 1 && ReadsBack(more[0], ms[k].d, ms[k].ss)
    ensures ReadAs(frames + more, ms, ds + [k])
  {
    hide ReadsBack;
  }

  lemma OneMore(b: Builder, m: Multiplex)
    requires Stored(b) && Sendable(m)
    ensures AfRun(b, [AfOf(m)], true).Some?
    ensures var frames := AfRun(b, [AfOf(m)], true).value.frames;
            |frames| == 1 && ReadsBack(frames[0], m.d, m.ss)
  {
    hide Stored, AfStep, AfRun, ReadsBack, WriteAf, WriteItems, Describes, DetiOk, AllOk, WholeUnits, MultiplexEnd;
    MultiplexStep(b, m.seqNo, m.items, m.d, m.ss);
    AfRunOne(b, AfOf(m), true);
  }

  /** Datagrams with nothing but fragments that make the collector hand out the multiplexes ds. */
  lemma StreamOfFrames(b: Builder, rs: Fec.RsDecoder, pkts: seq<seq<byte>>, ms: seq<Multiplex>, ds: seq<nat>)
    requires Stored(b) && (forall m :: m in ms ==> Sendable(m)) && forall k :: k in ds ==> k < |ms|
    requires Fragments(pkts) != [] && RunFits(Fragments(pkts)) && forall k :: 0 <= k < |pkts| ==> !IsAf(pkts[k])
    requires var pfs := Fragments(pkts);
             && (pfs[0].header.fec ==> pfs[0].header.rsk <= 207 && pfs[0].header.fcount > 0)
             && Packets(Pft.Delivered(rs, pfs[0].header, |pfs[0].payload|, Pft.Start(pfs[0]), pfs))
             == PftStream.Chosen(AfsOf(ms), ds)
    ensures AfRun(b, AfPackets(rs, Fragments(pkts), pkts), true).Some?
    ensures ReadAs(AfRun(b, AfPackets(rs, Fragments(pkts), pkts), true).value.frames, ms, ds)
  {
    hide Stored, Sendable, RunFits, IsAf, Fragments, Packets, Pft.Delivered, AfRun, ReadAs, AfsOf, PftStream.Chosen;
    var pfs := Fragments(pkts);
    OnlyFragments(rs, pfs, pkts, |pkts|);
    assert pkts[..|pkts|] == pkts && pfs[..|pfs|] == pfs;
    FramesOf(b, ms, ds);
  }

  /** Datagrams that a receiver from its start may get: fragments of the transmission t, in the order that ks says, with
      losses and repetitions, and datagrams that are neither fragments nor AF packets. */
  ghost predicate Received(t: PftStream.Transmission, ks: seq<nat>, pkts: seq<seq<byte>>) {
    && Fragments(pkts) != [] && PftStream.Carries(t, ks, Fragments(pkts))
    && PftStream.Near(ks) && PftStream.Apart(ks)
    && forall k :: 0 <= k < |pkts| ==> !IsAf(pkts[k]) && OneFragment(pkts[k])
  }

  /** Bytes in, frames out, without FEC: whatever fragments or whole packets are lost or repeated, and however the
      fragments of eight successive packets are mixed, the receiver emits one frame for every multiplex all of whose
      fragments arrived, when its slot is claimed, and it reads back as that multiplex. No other frame is emitted. */
  method ReceivePlain(rx: EdiReceiver, pkts: seq<seq<byte>>, ghost t: PftStream.Transmission, ghost ks: seq<nat>,
      ghost ms: seq<Multiplex>) returns (frames: seq<seq<byte>>)
    requires rx.Valid() && rx.afb.state.Idle? && Received(t, ks, pkts) && forall m :: m in ms ==> Sendable(m)
    requires PftStream.PlainCut(t, AfsOf(ms), |Fragments(pkts)[0].payload|)
    requires ShowsLength(Fragments(pkts)[0])
    modifies rx.afb, rx.edi
    ensures rx.Valid()
    ensures ReadAs(frames, ms,
              PftStream.Only(PftStream.Decisions(ks), PftStream.WholeSet(t, ks, Fragments(pkts))))
  {
    hide AfBuilders.Valid, RunFits, AfPackets, AfRun, Stored, Fragments, OneFragment, ReadAs, AfsOf, PftStream.Belongs,
      PftStream.Near, PftStream.Apart, PftStream.Decisions, PftStream.PlainCut, IsAf;
    PlainFrames(rx.edi.eti, rx.afb.rs, t, ks, pkts, ms);
    frames := rx.HandleAll(pkts, true);
  }

  lemma PlainFrames(b: Builder, rs: Fec.RsDecoder, t: PftStream.Transmission, ks: seq<nat>, pkts: seq<seq<byte>>,
      ms: seq<Multiplex>)
    requires Stored(b) && Received(t, ks, pkts) && forall m :: m in ms ==> Sendable(m)
    requires PftStream.PlainCut(t, AfsOf(ms), |Fragments(pkts)[0].payload|)
    requires ShowsLength(Fragments(pkts)[0])
    ensures StreamFits(pkts) && RunFits(Fragments(pkts))
    ensures AfRun(b, AfPackets(rs, Fragments(pkts), pkts), true).Some?
    ensures ReadAs(AfRun(b, AfPackets(rs, Fragments(pkts), pkts), true).value.frames, ms,
              PftStream.Only(PftStream.Decisions(ks), PftStream.WholeSet(t, ks, Fragments(pkts))))
  {
    hide RunFits, AfPackets, AfRun, Stored, Fragments, OneFragment, ReadAs, AfsOf, PftStream.Near, PftStream.Apart,
      PftStream.Decisions, IsAf, Sendable, Packets, Pft.Delivered, PftStream.Belongs, PftStream.PlainPacket,
      PftStream.Deliveries, PftStream.Chosen;
    var pfs, afs := Fragments(pkts), AfsOf(ms);
    var s := |pfs[0].payload|;
    var ds := PftStream.Only(PftStream.Decisions(ks), PftStream.WholeSet(t, ks, pfs));
    PftStream.PlainStreamFits(t, s, ks, pfs, afs);
    PftStream.PlainStream(t, rs, s, ks, pfs, afs);
    PftStream.PacketsOfDeliveries(t, afs, ds);
    StreamOfFrames(b, rs, pkts, ms, ds);
  }

  /** The same with FEC, where packets arrive whole or in parts too small to try, also in a program built without a
      decoder: one frame for every multiplex that arrived whole if 48 * cmax >= s, and otherwise none. */
  method ReceiveCoded(rx: EdiReceiver, pkts: seq<seq<byte>>, ghost t: PftStream.Transmission, ghost ks: seq<nat>,
      ghost ms: seq<Multiplex>, ghost chunks: seq<seq<seq<byte>>>, ghost parity: Fec.Parity, ghost s: nat)
      returns (frames: seq<seq<byte>>)
    requires rx.Valid() && rx.afb.state.Idle? && Received(t, ks, pkts) && forall m :: m in ms ==> Sendable(m)
    requires PftStream.CodedCut(t, AfsOf(ms), chunks, parity, s) && Fec.FixesCodewords(rx.afb.rs, parity)
    requires PftStream.WholeOrFew(t, s, ks, Fragments(pkts))
    modifies rx.afb, rx.edi
    ensures rx.Valid()
    ensures ReadAs(frames, ms, if 48 * Pft.CMax(t.h, s) >= s
              then PftStream.Only(PftStream.Decisions(ks), PftStream.WholeSet(t, ks, Fragments(pkts))) else [])
  {
    hide AfBuilders.Valid, RunFits, AfPackets, AfRun, Stored, Fragments, OneFragment, ReadAs, AfsOf, PftStream.Belongs,
      PftStream.Near, PftStream.Apart, PftStream.Decisions, PftStream.CodedCut, IsAf, Fec.FixesCodewords,
      PftStream.WholeOrFew, Pft.CMax;
    CodedFrames(rx.edi.eti, rx.afb.rs, t, ks, pkts, ms, chunks, parity, s);
    frames := rx.HandleAll(pkts, true);
  }

  lemma CodedFrames(b: Builder, rs: Fec.RsDecoder, t: PftStream.Transmission, ks: seq<nat>, pkts: seq<seq<byte>>,
      ms: seq<Multiplex>, chunks: seq<seq<seq<byte>>>, parity: Fec.Parity, s: nat)
    requires Stored(b) && Received(t, ks, pkts) && forall m :: m in ms ==> Sendable(m)
    requires PftStream.CodedCut(t, AfsOf(ms), chunks, parity, s) && Fec.FixesCodewords(rs, parity)
    requires PftStream.WholeOrFew(t, s, ks, Fragments(pkts))
    ensures StreamFits(pkts) && RunFits(Fragments(pkts))
    ensures AfRun(b, AfPackets(rs, Fragments(pkts), pkts), true).Some?
    ensures ReadAs(AfRun(b, AfPackets(rs, Fragments(pkts), pkts), true).value.frames, ms,
              if 48 * Pft.CMax(t.h, s) >= s
              then PftStream.Only(PftStream.Decisions(ks), PftStream.WholeSet(t, ks, Fragments(pkts))) else [])
  {
    hide RunFits, AfPackets, AfRun, Stored, Fragments, OneFragment, ReadAs, AfsOf, PftStream.Near, PftStream.Apart,
      PftStream.Decisions, IsAf, Sendable, Packets, Pft.Delivered, PftStream.Belongs, PftStream.CodedPacket,
      Fec.FixesCodewords, PftStream.WholeOrFew, Pft.CMax;
    var pfs, afs := Fragments(pkts), AfsOf(ms);
    PftStream.CodedRun(t, rs, parity, s, ks, pfs, afs, chunks);
    StreamOfFrames(b, rs, pkts, ms, if 48 * Pft.CMax(t.h, s) >= s
      then PftStream.Only(PftStream.Decisions(ks), PftStream.WholeSet(t, ks, pfs)) else []);
  }

  /** A build without the Reed-Solomon library is one of those programs. */
  lemma FramesWithoutDecoder(b: Builder, t: PftStream.Transmission, ks: seq<nat>, pkts: seq<seq<byte>>,
      ms: seq<Multiplex>, chunks: seq<seq<seq<byte>>>, parity: Fec.Parity, s: nat)
    requires Stored(b) && Received(t, ks, pkts) && forall m :: m in ms ==> Sendable(m)
    requires PftStream.CodedCut(t, AfsOf(ms), chunks, parity, s)
    requires PftStream.WholeOrFew(t, s, ks, Fragments(pkts))
    ensures StreamFits(pkts) && RunFits(Fragments(pkts))
    ensures AfRun(b, AfPackets(Fec.NoDecoder(), Fragments(pkts), pkts), true).Some?
    ensures ReadAs(AfRun(b, AfPackets(Fec.NoDecoder(), Fragments(pkts), pkts), true).value.frames, ms,
              if 48 * Pft.CMax(t.h, s) >= s
              then PftStream.Only(PftStream.Decisions(ks), PftStream.WholeSet(t, ks, Fragments(pkts))) else [])
  {
    hide *;
    Fec.NoDecoderFixes(parity);
    CodedFrames(b, Fec.NoDecoder(), t, ks, pkts, ms, chunks, parity, s);
  }

  /** The same with FEC and a decoder that corrects: one frame for every multiplex of which enough arrived, and none for
      those of which too little arrived to try. */
  method ReceiveLossy(rx: EdiReceiver, pkts: seq<seq<byte>>, ghost t: PftStream.Transmission, ghost ks: seq<nat>,
      ghost ms: seq<Multiplex>, ghost chunks: seq<seq<seq<byte>>>, ghost parity: Fec.Parity, ghost s: nat)
      returns (frames: seq<seq<byte>>)
    requires rx.Valid() && rx.afb.state.Idle? && Received(t, ks, pkts) && forall m :: m in ms ==> Sendable(m)
    requires PftStream.CodedCut(t, AfsOf(ms), chunks, parity, s) && FecRecovery.Corrects(rx.afb.rs, parity)
    requires PftStream.EnoughOrFew(t, s, ks, Fragments(pkts))
    modifies rx.afb, rx.edi
    ensures rx.Valid()
    ensures ReadAs(frames, ms,
              PftStream.Only(PftStream.Decisions(ks), PftStream.EnoughSet(t, s, ks, Fragments(pkts))))
  {
    hide AfBuilders.Valid, RunFits, AfPackets, AfRun, Stored, Fragments, OneFragment, ReadAs, AfsOf, PftStream.Belongs,
      PftStream.Near, PftStream.Apart, PftStream.Decisions, PftStream.CodedPacket, IsAf, FecRecovery.Corrects,
      PftStream.EnoughOrFew, PftStream.EnoughOf;
    LossyFrames(rx.edi.eti, rx.afb.rs, t, ks, pkts, ms, chunks, parity, s);
    frames := rx.HandleAll(pkts, true);
  }

  lemma LossyFrames(b: Builder, rs: Fec.RsDecoder, t: PftStream.Transmission, ks: seq<nat>, pkts: seq<seq<byte>>,
      ms: seq<Multiplex>, chunks: seq<seq<seq<byte>>>, parity: Fec.Parity, s: nat)
    requires Stored(b) && Received(t, ks, pkts) && forall m :: m in ms ==> Sendable(m)
    requires PftStream.CodedCut(t, AfsOf(ms), chunks, parity, s) && FecRecovery.Corrects(rs, parity)
    requires PftStream.EnoughOrFew(t, s, ks, Fragments(pkts))
    ensures StreamFits(pkts) && RunFits(Fragments(pkts))
    ensures AfRun(b, AfPackets(rs, Fragments(pkts), pkts), true).Some?
    ensures ReadAs(AfRun(b, AfPackets(rs, Fragments(pkts), pkts), true).value.frames, ms,
              PftStream.Only(PftStream.Decisions(ks), PftStream.EnoughSet(t, s, ks, Fragments(pkts))))
  {
    hide RunFits, AfPackets, AfRun, Stored, Fragments, OneFragment, ReadAs, AfsOf, PftStream.Near, PftStream.Apart,
      PftStream.Decisions, IsAf, Sendable, Packets, Pft.Delivered, PftStream.Belongs, PftStream.CodedPacket,
      FecRecovery.Corrects, PftStream.EnoughOrFew, PftStream.EnoughOf;
    var pfs, afs := Fragments(pkts), AfsOf(ms);
    PftStream.LossyRun(t, rs, parity, s, ks, pfs, afs, chunks);
    StreamOfFrames(b, rs, pkts, ms, PftStream.Only(PftStream.Decisions(ks), PftStream.EnoughSet(t, s, ks, pfs)));
  }

  /** One multiplex of which enough arrived, whatever became of the others and whatever AF packets came between: its
      frame stands behind those of the packets in front of it and reads back. */
  lemma EnoughMultiplexArrives(b: Builder, rs: Fec.RsDecoder, t: PftStream.Transmission, ks: seq<nat>,
      pkts: seq<seq<byte>>, ms: seq<Multiplex>, chunks: seq<seq<seq<byte>>>, parity: Fec.Parity, s: nat, k: nat)
      returns (xs: seq<seq<byte>>, ys: seq<seq<byte>>, f: seq<byte>, behind: seq<seq<byte>>)
    requires Stored(b) && forall m :: m in ms ==> Sendable(m)
    requires var pfs := Fragments(pkts);
             && pfs != [] && PftStream.Carries(t, ks, pfs) && PftStream.Near(ks) && PftStream.Apart(ks)
             && PftStream.CodedCut(t, AfsOf(ms), chunks, parity, s) && FecRecovery.Corrects(rs, parity)
             && PftStream.LossesInside(t, s, ks, pfs)
             && k < |ms| && k in PftStream.Decisions(ks) && PftStream.EnoughOf(t, s, ks, pfs, k)
    requires RunFits(Fragments(pkts)) ==> AfRun(b, AfPackets(rs, Fragments(pkts), pkts), true).Some?
    ensures RunFits(Fragments(pkts)) && Sendable(ms[k])
    ensures AfPackets(rs, Fragments(pkts), pkts) == xs + ([AfOf(ms[k])] + ys) && AfRun(b, xs, true).Some?
    ensures AfRun(b, AfPackets(rs, Fragments(pkts), pkts), true).value.frames
         == AfRun(b, xs, true).value.frames + [f] + behind
    ensures ReadsBack(f, ms[k].d, ms[k].ss)
  {
    hide RunFits, AfPackets, AfRun, Stored, Fragments, ReadsBack, AfsOf, PftStream.Near, PftStream.Apart,
      PftStream.Decisions, Sendable, Packets, Pft.Delivered, PftStream.Belongs, PftStream.CodedPacket,
      FecRecovery.Corrects, PftStream.LossesInside, PftStream.EnoughOf;
    var pfs, afs := Fragments(pkts), AfsOf(ms);
    PftStream.CodedStreamFits(t, rs, parity, s, ks, pfs, afs, chunks);
    var i := PftStream.EnoughIsDelivered(t, rs, parity, s, ks, pfs, afs, chunks, k);
    PacketsAt(Pft.Delivered(rs, t.h, s, Pft.Start(pfs[0]), pfs), i);
    assert pfs[..|pfs|] == pfs && pkts[..|pkts|] == pkts;
    AfAt(ms, k);
    xs, ys := ReachedIsBrought(rs, pfs, pkts, |pkts|, i);
    f, behind := FrameAmong(b, xs, ms[k], ys);
  }
}
