/** GSE packets in a DVB-S2 data field (processGseDataField; section 4.2 of ETSI TS 102 606-1) and the
    reassembly of fragmented PDUs by FragID across data fields. */
module Gse {
  import opened Bits

  const IPV4: nat := 0x0800

  /** A GSE packet after parsing; an End packet's last four bytes (the CRC) are dropped. */
  datatype Event =
    | Complete(protocol: nat, pdu: seq<byte>)
    | Start(id: byte, total: nat, protocol: nat, chunk: seq<byte>)
    | Middle(id: byte, chunk: seq<byte>)
    | End(id: byte, chunk: seq<byte>)
    | TooShort

  function LabelLength(labelType: nat): nat {
    if labelType == 0 then 6 else if labelType == 1 then 3 else 0
  }

  function ReadEvent(indicator: nat, labelType: nat, payload: seq<byte>): Event
    requires indicator < 4
  {
    var n := LabelLength(labelType);
    if indicator == 3 then
      if |payload| < 2 + n then TooShort else Complete(Read16(payload), payload[2 + n..])
    else if indicator == 2 then
      if |payload| < 5 + n then TooShort
      else Start(payload[0], Read16(payload[1..]), Read16(payload[3..]), payload[5 + n..])
    else if indicator == 0 then
      if |payload| < 1 then TooShort else Middle(payload[0], payload[1..])
    else
      if |payload| < 5 then TooShort else End(payload[0], payload[1..|payload| - 4])
  }

  /** How a data field goes on: it ends, ends in padding, is cut short, or has another packet. */
  datatype Field = Ended | Padding | Cut | Packet(size: nat, event: Event)

  function ReadField(rest: seq<byte>): (f: Field)
    ensures f.Packet? ==> 2 <= f.size <= |rest|
  {
    if |rest| < 2 then Ended
    else
      var header := Read16(rest);
      var indicator, labelType, length := header / 0x4000, header / 0x1000 % 4, header % 0x1000;
      if indicator == 0 && labelType == 0 && length == 0 then Padding
      else if length > |rest| - 2 then Cut
      else Packet(2 + length, ReadEvent(indicator, labelType, rest[2..2 + length]))
  }

  /** The packets of a data field. */
  function Events(rest: seq<byte>): seq<Event>
    decreases |rest|
  {
    match ReadField(rest)
    case Packet(size, event) => [event] + Events(rest[size..])
    case _ => []
  }

  /** What stands behind the last packet of a data field. */
  function Trailer(rest: seq<byte>): (f: Field)
    ensures !f.Packet?
    decreases |rest|
  {
    var f := ReadField(rest);
    if f.Packet? then Trailer(rest[f.size..]) else f
  }

  datatype Fragment = Fragment(total: nat, data: seq<byte>)

  datatype State = State(fragments: map<byte, Fragment>, delivered: seq<seq<byte>>, invalid: nat)

  /** What one packet does to the fragment map. */
  function Apply(st: State, ev: Event): State {
    match ev
    case TooShort => st.(invalid := st.invalid + 1)
    case Complete(protocol, pdu) =>
      if protocol == IPV4 then st.(delivered := st.delivered + [pdu]) else st
    case Start(id, total, protocol, chunk) =>
      var without := st.(fragments := st.fragments - {id});
      if protocol != IPV4 || total == 0 then without
      else if |chunk| <= total then without.(fragments := without.fragments[id := Fragment(total, chunk)])
      else without.(invalid := st.invalid + 1)
    case Middle(id, chunk) =>
      if id !in st.fragments then st
      else
        var f := st.fragments[id];
        if Fits(f, chunk) then st.(fragments := st.fragments[id := Fragment(f.total, f.data + chunk)])
        else st.(fragments := st.fragments - {id}, invalid := st.invalid + 1)
    case End(id, chunk) =>
      if id !in st.fragments then st
      else
        var f := st.fragments[id];
        var without := st.(fragments := st.fragments - {id});
        if Fits(f, chunk) then without.(delivered := st.delivered + [f.data + chunk])
        else without.(invalid := st.invalid + 1)
  }

  /** chunkLength <= totalLength - min(data.size(), totalLength) */
  predicate Fits(f: Fragment, chunk: seq<byte>) {
    |chunk| <= f.total - if |f.data| <= f.total then |f.data| else f.total
  }

  function After(st: State, evs: seq<Event>): State {
    if evs == [] then st else Apply(After(st, evs[..|evs| - 1]), evs[|evs| - 1])
  }

  const EMPTY := State(map[], [], 0)

  lemma {:induction false} AfterConcat(st: State, a: seq<Event>, b: seq<Event>)
    ensures After(st, a + b) == After(After(st, a), b)
  {
    if b == [] {
      assert a + b == a;
    } else {
      AfterConcat(st, a, b[..|b| - 1]);
      assert (a + b)[..|a + b| - 1] == a + b[..|b| - 1];
    }
  }

  // ----- the log of one FragID -----

  predicate About(ev: Event, id: byte) {
    match ev
    case Start(i, _, _, _) => i == id
    case Middle(i, _) => i == id
    case End(i, _) => i == id
    case _ => false
  }

  /** The index of the Start packet that still waits for its End. */
  function Open(id: byte, evs: seq<Event>): (i: Option<nat>)
    ensures i.Some? ==> i.value < |evs| && evs[i.value].Start? && evs[i.value].id == id
  {
    if evs == [] then None
    else
      var last := evs[|evs| - 1];
      if !About(last, id) || last.Middle? then Open(id, evs[..|evs| - 1])
      else if last.Start? then Some(|evs| - 1)
      else None
  }

  /** All intermediate payloads of the FragID from index i on, in order. */
  function Middles(id: byte, evs: seq<Event>, i: nat): seq<byte> {
    if |evs| <= i then []
    else
      var last := evs[|evs| - 1];
      Middles(id, evs[..|evs| - 1], i) + if last.Middle? && last.id == id then last.chunk else []
  }

  /** What the log of the FragID says is stored: the open Start's payload and all intermediates after it, as long
      as they respect the announced total length. */
  function Entry(id: byte, evs: seq<Event>): Option<Fragment> {
    match Open(id, evs)
    case None => None
    case Some(i) =>
      var data := evs[i].chunk + Middles(id, evs, i + 1);
      if evs[i].protocol == IPV4 && 0 < evs[i].total && |data| <= evs[i].total
      then Some(Fragment(evs[i].total, data)) else None
  }

  function Lookup(m: map<byte, Fragment>, id: byte): Option<Fragment> {
    if id in m then Some(m[id]) else None
  }

  /** In every run the fragment map is determined by the logs; every entry keeps 0 < total and size <= total. */
  lemma {:induction false} MapIsLog(evs: seq<Event>, id: byte)
    ensures Lookup(After(EMPTY, evs).fragments, id) == Entry(id, evs)
    ensures id in After(EMPTY, evs).fragments ==>
              var f := After(EMPTY, evs).fragments[id]; 0 < f.total && |f.data| <= f.total
  {
    if evs != [] {
      MapIsLog(evs[..|evs| - 1], id);
      LogStep(evs[..|evs| - 1], evs[|evs| - 1], id);
      assert evs == evs[..|evs| - 1] + [evs[|evs| - 1]];
    }
  }

  lemma LogStep(evs: seq<Event>, ev: Event, id: byte)
    ensures Entry(id, evs + [ev])
         == if !About(ev, id) then Entry(id, evs)
            else match ev
              case Start(_, total, protocol, chunk) =>
                if protocol == IPV4 && 0 < total && |chunk| <= total then Some(Fragment(total, chunk)) else None
              case Middle(_, chunk) =>
                (match Entry(id, evs)
                 case Some(f) => if |f.data + chunk| <= f.total then Some(Fragment(f.total, f.data + chunk)) else None
                 case None => None)
              case _ => None
  {
    var all := evs + [ev];
    assert all[..|all| - 1] == evs && all[|all| - 1] == ev;
    if Open(id, evs).Some? {
      var i := Open(id, evs).value;
      assert all[i] == evs[i];
      assert Middles(id, evs, i + 1) + [] == Middles(id, evs, i + 1);
      if About(ev, id) && ev.Middle? {
        ConcatAssoc(evs[i].chunk, Middles(id, evs, i + 1), ev.chunk);
      }
    }
    if ev.Start? { assert ev.chunk + [] == ev.chunk; }
  }

  /** A fragmented PDU is handed out by its End packet exactly when the log has an open Start of IPv4 whose total
      length covers it, and then it is the last start payload, all intermediates, and the end payload. */
  lemma EndDelivers(evs: seq<Event>, id: byte, chunk: seq<byte>)
    ensures After(EMPTY, evs + [End(id, chunk)]).delivered == After(EMPTY, evs).delivered +
      match Open(id, evs)
      case None => []
      case Some(i) =>
        var pdu := evs[i].chunk + Middles(id, evs, i + 1) + chunk;
        if evs[i].protocol == IPV4 && 0 < evs[i].total && |pdu| <= evs[i].total then [pdu] else []
  {
    var all := evs + [End(id, chunk)];
    assert all[..|all| - 1] == evs;
    MapIsLog(evs, id);
  }

  // ----- FragIDs do not interfere -----

  function Only(id: byte, evs: seq<Event>): seq<Event> {
    if evs == [] then []
    else Only(id, evs[..|evs| - 1]) + if About(evs[|evs| - 1], id) then [evs[|evs| - 1]] else []
  }

  /** The PDUs handed out by packets of the given FragID. */
  function DeliveredFor(id: byte, evs: seq<Event>): seq<seq<byte>> {
    if evs == [] then []
    else
      var before, last := After(EMPTY, evs[..|evs| - 1]), evs[|evs| - 1];
      DeliveredFor(id, evs[..|evs| - 1]) +
      if About(last, id) then Apply(before, last).delivered[|before.delivered|..] else []
  }

  lemma {:induction false} Isolated(id: byte, evs: seq<Event>)
    ensures Lookup(After(EMPTY, evs).fragments, id) == Lookup(After(EMPTY, Only(id, evs)).fragments, id)
    ensures DeliveredFor(id, evs) == DeliveredFor(id, Only(id, evs))
  {
    if evs != [] {
      var init, last := evs[..|evs| - 1], evs[|evs| - 1];
      Isolated(id, init);
      if About(last, id) {
        var a, b := After(EMPTY, init), After(EMPTY, Only(id, init));
        SameEffect(a, b, last, id);
        assert Only(id, evs)[..|Only(id, evs)| - 1] == Only(id, init);
      } else {
        OtherId(After(EMPTY, init), last, id);
        assert Only(id, evs) == Only(id, init);
      }
    }
  }

  lemma SameEffect(a: State, b: State, ev: Event, id: byte)
    requires About(ev, id) && Lookup(a.fragments, id) == Lookup(b.fragments, id)
    ensures Lookup(Apply(a, ev).fragments, id) == Lookup(Apply(b, ev).fragments, id)
    ensures Apply(a, ev).delivered[|a.delivered|..] == Apply(b, ev).delivered[|b.delivered|..]
  {
  }

  lemma OtherId(st: State, ev: Event, id: byte)
    requires !About(ev, id)
    ensures Lookup(Apply(st, ev).fragments, id) == Lookup(st.fragments, id)
  {
  }

  // ----- standard fragmentation -----

  function MiddlePackets(id: byte, chunks: seq<seq<byte>>): seq<Event> {
    if chunks == [] then [] else MiddlePackets(id, chunks[..|chunks| - 1]) + [Middle(id, chunks[|chunks| - 1])]
  }

  function Join(chunks: seq<seq<byte>>): seq<byte> {
    if chunks == [] then [] else Join(chunks[..|chunks| - 1]) + chunks[|chunks| - 1]
  }

  function Fragmented(id: byte, total: nat, first: seq<byte>, chunks: seq<seq<byte>>, last: seq<byte>): seq<Event> {
    [Start(id, total, IPV4, first)] + MiddlePackets(id, chunks) + [End(id, last)]
  }

  lemma {:induction false} MiddlesCollect(id: byte, total: nat, first: seq<byte>, chunks: seq<seq<byte>>, st: State)
    requires 0 < total && |first + Join(chunks)| <= total
    ensures var end := After(st, [Start(id, total, IPV4, first)] + MiddlePackets(id, chunks));
            Lookup(end.fragments, id) == Some(Fragment(total, first + Join(chunks)))
  {
    var start := [Start(id, total, IPV4, first)];
    if chunks == [] {
      assert start + MiddlePackets(id, chunks) == start;
      assert start[..0] == [];
      assert After(st, start) == Apply(st, start[0]);
      assert first + Join(chunks) == first;
    } else {
      var init, c := chunks[..|chunks| - 1], chunks[|chunks| - 1];
      ConcatAssoc(first, Join(init), c);
      MiddlesCollect(id, total, first, init, st);
      var evs := start + MiddlePackets(id, chunks);
      assert evs[..|evs| - 1] == start + MiddlePackets(id, init);
    }
  }

  lemma {:induction false} SilentMiddles(id: byte, before: seq<Event>, total: nat, first: seq<byte>,
      chunks: seq<seq<byte>>)
    ensures DeliveredFor(id, before + ([Start(id, total, IPV4, first)] + MiddlePackets(id, chunks)))
         == DeliveredFor(id, before)
  {
    var start := [Start(id, total, IPV4, first)];
    var evs := before + (start + MiddlePackets(id, chunks));
    hide After;
    if chunks == [] {
      assert evs[..|evs| - 1] == before;
    } else {
      SilentMiddles(id, before, total, first, chunks[..|chunks| - 1]);
      assert evs[..|evs| - 1] == before + (start + MiddlePackets(id, chunks[..|chunks| - 1]));
    }
  }

  /** Any fragmentation of a PDU, interleaved in any way with packets of other FragIDs and complete packets, hands
      out that PDU as the next one of its FragID. */
  lemma FragmentationDelivers(id: byte, evs: seq<Event>, before: seq<Event>, total: nat,
      first: seq<byte>, chunks: seq<seq<byte>>, last: seq<byte>)
    requires Only(id, evs) == before + Fragmented(id, total, first, chunks, last)
    requires 0 < total && |first + Join(chunks) + last| <= total
    ensures DeliveredFor(id, evs) == DeliveredFor(id, before) + [first + Join(chunks) + last]
  {
    hide After, Apply, DeliveredFor, Only, Lookup;
    Isolated(id, evs);
    var body := [Start(id, total, IPV4, first)] + MiddlePackets(id, chunks);
    assert before + Fragmented(id, total, first, chunks, last) == (before + body) + [End(id, last)];
    SilentMiddles(id, before, total, first, chunks);
    AfterConcat(EMPTY, before, body);
    MiddlesCollect(id, total, first, chunks, After(EMPTY, before));
    EndShare(id, before + body, Fragment(total, first + Join(chunks)), last);
  }

  lemma EndShare(id: byte, evs: seq<Event>, f: Fragment, last: seq<byte>)
    requires Lookup(After(EMPTY, evs).fragments, id) == Some(f) && |f.data + last| <= f.total
    ensures DeliveredFor(id, evs + [End(id, last)]) == DeliveredFor(id, evs) + [f.data + last]
  {
    hide After;
    assert (evs + [End(id, last)])[..|evs|] == evs;
  }

  // ----- everything that is handed out -----

  /** A PDU with the FragID of the packet that completed it, if it was fragmented. */
  datatype Handed = Handed(source: Option<byte>, pdu: seq<byte>)

  function SourceOf(ev: Event): Option<byte> {
    if ev.Start? || ev.Middle? || ev.End? then Some(ev.id) else None
  }

  /** Everything that a run hands out, in order. */
  function Trace(evs: seq<Event>): seq<Handed> {
    if evs == [] then []
    else
      var before, last := After(EMPTY, evs[..|evs| - 1]), evs[|evs| - 1];
      Trace(evs[..|evs| - 1]) + Tagged(SourceOf(last), NewPdus(before, last))
  }

  /** What one packet hands out: nothing or one PDU. */
  function NewPdus(st: State, ev: Event): (r: seq<seq<byte>>)
    ensures |r| <= 1 && Apply(st, ev).delivered == st.delivered + r
  {
    var all := Apply(st, ev).delivered;
    assert all == st.delivered + all[|st.delivered|..];
    all[|st.delivered|..]
  }

  function Tagged(source: Option<byte>, pdus: seq<seq<byte>>): seq<Handed>
    requires |pdus| <= 1
  {
    if pdus == [] then [] else [Handed(source, pdus[0])]
  }

  function Pdus(tr: seq<Handed>): seq<seq<byte>> {
    if tr == [] then [] else Pdus(tr[..|tr| - 1]) + [tr[|tr| - 1].pdu]
  }

  /** The PDUs of one FragID among them. */
  function PdusOf(id: byte, tr: seq<Handed>): seq<seq<byte>> {
    if tr == [] then []
    else PdusOf(id, tr[..|tr| - 1]) + if tr[|tr| - 1].source == Some(id) then [tr[|tr| - 1].pdu] else []
  }

  /** The trace is what the receiver hands out, and each FragID's share of it is what its packets hand out. */
  lemma {:induction false} TraceIsDelivered(evs: seq<Event>, id: byte)
    ensures Pdus(Trace(evs)) == After(EMPTY, evs).delivered
    ensures PdusOf(id, Trace(evs)) == DeliveredFor(id, evs)
  {
    if evs != [] {
      var init, last := evs[..|evs| - 1], evs[|evs| - 1];
      TraceIsDelivered(init, id);
      var pdus := NewPdus(After(EMPTY, init), last);
      assert About(last, id) <==> SourceOf(last) == Some(id);
      TraceMore(Trace(init), SourceOf(last), pdus, id);
    }
  }

  lemma TraceMore(tr: seq<Handed>, source: Option<byte>, pdus: seq<seq<byte>>, id: byte)
    requires |pdus| <= 1
    ensures Pdus(tr + Tagged(source, pdus)) == Pdus(tr) + pdus
    ensures PdusOf(id, tr + Tagged(source, pdus)) == PdusOf(id, tr) + if source == Some(id) then pdus else []
  {
    if pdus == [] {
      assert tr + [] == tr;
    } else {
      assert (tr + Tagged(source, pdus))[..|tr|] == tr;
    }
  }

  lemma {:induction false} TraceGrows(evs: seq<Event>, more: seq<Event>)
    ensures Trace(evs) <= Trace(evs + more)
  {
    hide After, NewPdus, SourceOf;
    if more == [] {
      assert evs + more == evs;
    } else {
      var all := evs + more;
      assert all[..|all| - 1] == evs + more[..|more| - 1];
      TraceGrows(evs, more[..|more| - 1]);
    }
  }

  /** The position of PDU k of a FragID in the trace. */
  lemma {:induction false} PositionOf(id: byte, tr: seq<Handed>, k: nat) returns (i: nat)
    requires k < |PdusOf(id, tr)|
    ensures i < |tr| && tr[i] == Handed(Some(id), PdusOf(id, tr)[k]) && |PdusOf(id, tr[..i])| == k
  {
    var init, last := tr[..|tr| - 1], tr[|tr| - 1];
    if k < |PdusOf(id, init)| {
      i := PositionOf(id, init, k);
      assert tr[..i] == init[..i];
    } else {
      i := |tr| - 1;
    }
  }

  /** In any run in which the packets of the FragID hold a fragmented PDU, whatever comes before, between and behind,
      that PDU is handed out, at the place behind those that the FragID handed out before. */
  lemma FragmentedIsHanded(id: byte, evs: seq<Event>, rest: seq<Event>, before: seq<Event>, total: nat,
      first: seq<byte>, chunks: seq<seq<byte>>, last: seq<byte>) returns (i: nat)
    requires Only(id, evs) == before + Fragmented(id, total, first, chunks, last)
    requires 0 < total && |first + Join(chunks) + last| <= total
    ensures i < |Trace(evs + rest)| && Trace(evs + rest)[i] == Handed(Some(id), first + Join(chunks) + last)
    ensures |PdusOf(id, Trace(evs + rest)[..i])| == |DeliveredFor(id, before)|
  {
    FragmentationDelivers(id, evs, before, total, first, chunks, last);
    TraceIsDelivered(evs, id);
    TraceGrows(evs, rest);
    i := PositionOf(id, Trace(evs), |DeliveredFor(id, before)|);
    assert Trace(evs + rest)[..i] == Trace(evs)[..i];
  }

  // ----- what is handed out, read off the packets -----

  /** The PDU that an End packet completes: the open Start of its FragID carries IPv4, and its total length covers
      everything. */
  function Completed(id: byte, evs: seq<Event>, chunk: seq<byte>): (r: seq<seq<byte>>)
    ensures |r| <= 1
  {
    match Open(id, evs)
    case None => []
    case Some(i) =>
      var pdu := evs[i].chunk + Middles(id, evs, i + 1) + chunk;
      if evs[i].protocol == 0x0800 && 0 < evs[i].total && |pdu| <= evs[i].total then [pdu] else []
  }

  /** A complete packet of IPv4 hands out its PDU, an End packet what it completes. */
  function MeantBy(evs: seq<Event>, ev: Event): (r: seq<seq<byte>>)
    ensures |r| <= 1
  {
    if ev.Complete? then if ev.protocol == 0x0800 then [ev.pdu] else []
    else if ev.End? then Completed(ev.id, evs, ev.chunk)
    else []
  }

  function Meant(evs: seq<Event>): seq<Handed> {
    if evs == [] then []
    else
      var init, last := evs[..|evs| - 1], evs[|evs| - 1];
      Meant(init) + Tagged(SourceOf(last), MeantBy(init, last))
  }

  lemma {:induction false} TraceIsMeant(evs: seq<Event>)
    ensures Trace(evs) == Meant(evs)
  {
    hide After, Apply, MeantBy, NewPdus, Tagged, SourceOf;
    if evs != [] {
      var init, last := evs[..|evs| - 1], evs[|evs| - 1];
      TraceIsMeant(init);
      assert evs == init + [last];
      NewIsMeant(init, last);
    }
  }

  lemma NewIsMeant(evs: seq<Event>, ev: Event)
    ensures NewPdus(After(EMPTY, evs), ev) == MeantBy(evs, ev)
  {
    hide After, Middles, Open;
    var st := After(EMPTY, evs);
    if ev.End? {
      EndDelivers(evs, ev.id, ev.chunk);
      OneMore(evs, ev);
      SamePrefix(st.delivered, NewPdus(st, ev), Completed(ev.id, evs, ev.chunk));
    }
  }

  lemma OneMore(evs: seq<Event>, ev: Event)
    ensures After(EMPTY, evs + [ev]) == Apply(After(EMPTY, evs), ev)
  {
    assert (evs + [ev])[..|evs|] == evs;
  }

  lemma SamePrefix(a: seq<seq<byte>>, x: seq<seq<byte>>, y: seq<seq<byte>>)
    requires a + x == a + y
    ensures x == y
  {
    assert (a + x)[|a|..] == x && (a + y)[|a|..] == y;
  }

  /** The PDUs of the complete packets that carry IPv4. */
  function WholePdus(evs: seq<Event>): seq<seq<byte>> {
    if evs == [] then []
    else
      var last := evs[|evs| - 1];
      WholePdus(evs[..|evs| - 1]) + if last.Complete? && last.protocol == 0x0800 then [last.pdu] else []
  }

  /** The PDUs handed out that came in one packet. */
  function Unfragmented(tr: seq<Handed>): seq<seq<byte>> {
    if tr == [] then []
    else Unfragmented(tr[..|tr| - 1]) + if tr[|tr| - 1].source == None then [tr[|tr| - 1].pdu] else []
  }

  /** Over every run these are the same, in order: nothing that came whole is lost, added or reordered. */
  lemma {:induction false} CompleteHanded(evs: seq<Event>)
    ensures Unfragmented(Trace(evs)) == WholePdus(evs)
  {
    hide Apply;
    if evs != [] {
      var init, last := evs[..|evs| - 1], evs[|evs| - 1];
      CompleteHanded(init);
      NewIsMeant(init, last);
      var pdus := NewPdus(After(EMPTY, init), last);
      if pdus == [] {
        assert Trace(init) + [] == Trace(init);
      } else {
        assert Trace(evs)[..|Trace(init)|] == Trace(init);
      }
    }
  }

  /** A PDU as a sender cuts it, with the total length it announces. */
  datatype Division = Division(total: nat, first: seq<byte>, chunks: seq<seq<byte>>, last: seq<byte>)

  function PduOf(c: Division): seq<byte> {
    c.first + Join(c.chunks) + c.last
  }

  predicate AllCovered(cs: seq<Division>) {
    forall i :: 0 <= i < |cs| ==> 0 < cs[i].total && |PduOf(cs[i])| <= cs[i].total
  }

  /** The packets that a sender makes of its fragmented PDUs under one FragID. */
  function CutPackets(id: byte, cs: seq<Division>): seq<Event> {
    if cs == [] then []
    else
      var c := cs[|cs| - 1];
      CutPackets(id, cs[..|cs| - 1]) + Fragmented(id, c.total, c.first, c.chunks, c.last)
  }

  function CutPdus(cs: seq<Division>): seq<seq<byte>> {
    if cs == [] then [] else CutPdus(cs[..|cs| - 1]) + [PduOf(cs[|cs| - 1])]
  }

  /** A FragID under which a sender fragments one PDU after the other hands out those PDUs, whatever other packets come
      between. */
  lemma {:induction false} CutsDelivered(id: byte, evs: seq<Event>, cs: seq<Division>)
    requires Only(id, evs) == CutPackets(id, cs) && AllCovered(cs)
    ensures DeliveredFor(id, evs) == CutPdus(cs)
    decreases |cs|
  {
    hide Apply, Fragmented, Join;
    Isolated(id, evs);
    if cs != [] {
      var init, c := cs[..|cs| - 1], cs[|cs| - 1];
      FragmentationDelivers(id, evs, CutPackets(id, init), c.total, c.first, c.chunks, c.last);
      OnlyOwn(id, evs);
      PrefixOwn(id, CutPackets(id, init), Fragmented(id, c.total, c.first, c.chunks, c.last), Only(id, evs));
      CutsDelivered(id, CutPackets(id, init), init);
    }
  }

  lemma {:induction false} OnlyOwn(id: byte, evs: seq<Event>)
    ensures forall ev :: ev in Only(id, evs) ==> About(ev, id)
  {
    if evs != [] { OnlyOwn(id, evs[..|evs| - 1]); }
  }

  lemma PrefixOwn(id: byte, a: seq<Event>, b: seq<Event>, all: seq<Event>)
    requires all == a + b && forall ev :: ev in all ==> About(ev, id)
    ensures Only(id, a) == a
  {
    hide About;
    forall ev | ev in a ensures About(ev, id) {
      assert ev in all;
    }
    OwnStays(id, a);
  }

  lemma {:induction false} OwnStays(id: byte, evs: seq<Event>)
    requires forall ev :: ev in evs ==> About(ev, id)
    ensures Only(id, evs) == evs
  {
    hide About;
    if evs != [] { OwnStays(id, evs[..|evs| - 1]); }
  }

  /** Under every FragID the sender fragments one PDU after the other; all packets are mixed freely. */
  ghost predicate Sends(evs: seq<Event>, cuts: seq<seq<Division>>) {
    |cuts| == 256 && forall id: byte :: Only(id, evs) == CutPackets(id, cuts[id]) && AllCovered(cuts[id])
  }

  /** What such a sender's packets hand out: the PDUs of complete IPv4 packets in order, those of each FragID in order,
      and nothing else. */
  lemma SenderIsReceived(evs: seq<Event>, cuts: seq<seq<Division>>)
    requires Sends(evs, cuts)
    ensures After(EMPTY, evs).delivered == Pdus(Meant(evs)) && Unfragmented(Meant(evs)) == WholePdus(evs)
    ensures forall id: byte :: PdusOf(id, Meant(evs)) == CutPdus(cuts[id])
  {
    hide Only, Apply, CutPackets, AllCovered, CutPdus;
    TraceIsDelivered(evs, 0);
    TraceIsMeant(evs);
    CompleteHanded(evs);
    forall id: byte ensures PdusOf(id, Trace(evs)) == CutPdus(cuts[id]) {
      TraceIsDelivered(evs, id);
      CutsDelivered(id, evs, cuts[id]);
    }
  }

  // ----- the packets that are counted as invalid -----

  /** A packet too short for its header, or whose payload is more than what the announced total length leaves. */
  predicate Refused(evs: seq<Event>, ev: Event) {
    match ev
    case TooShort => true
    case Complete(_, _) => false
    case Start(_, total, protocol, chunk) => protocol == 0x0800 && 0 < total < |chunk|
    case _ => Entry(ev.id, evs).Some? && |Entry(ev.id, evs).value.data + ev.chunk| > Entry(ev.id, evs).value.total
  }

  function Refusals(evs: seq<Event>): nat {
    if evs == [] then 0
    else
      var init, last := evs[..|evs| - 1], evs[|evs| - 1];
      Refusals(init) + if Refused(init, last) then 1 else 0
  }

  lemma {:induction false} InvalidAreRefused(evs: seq<Event>)
    ensures After(EMPTY, evs).invalid == Refusals(evs)
  {
    hide Entry;
    if evs != [] {
      var init, last := evs[..|evs| - 1], evs[|evs| - 1];
      InvalidAreRefused(init);
      if last.Middle? || last.End? { MapIsLog(init, last.id); }
    }
  }

  // ----- the wire format -----

  /** A label: six bytes, three bytes, none, or none because that of the packet before is used again. */
  datatype Label = Six(bytes: seq<byte>) | Three(bytes: seq<byte>) | Broadcast | Again

  predicate LabelOk(l: Label) {
    match l
    case Six(bytes) => |bytes| == 6
    case Three(bytes) => |bytes| == 3
    case _ => true
  }

  function LabelType(l: Label): nat {
    match l
    case Six(_) => 0
    case Three(_) => 1
    case Broadcast => 2
    case Again => 3
  }

  function LabelBytes(l: Label): seq<byte> {
    if l.Six? || l.Three? then l.bytes else []
  }

  /** A GSE packet as a sender writes it; start and complete packets carry a label. */
  function WriteEvent(ev: Event, lbl: Label, crc: seq<byte>): (s: seq<byte>)
    requires Writable(ev, lbl, crc)
  {
    match ev
    case Complete(protocol, pdu) =>
      Put16(0xc000 + 0x1000 * LabelType(lbl) + 2 + |LabelBytes(lbl)| + |pdu|)
      + (Put16(protocol) + LabelBytes(lbl) + pdu)
    case Start(id, total, protocol, chunk) =>
      Put16(0x8000 + 0x1000 * LabelType(lbl) + 5 + |LabelBytes(lbl)| + |chunk|)
      + ([id] + Put16(total) + Put16(protocol) + LabelBytes(lbl) + chunk)
    case Middle(id, chunk) => Put16(0x3000 + 1 + |chunk|) + ([id] + chunk)
    case End(id, chunk) => Put16(0x7000 + 5 + |chunk|) + ([id] + chunk + crc)
  }

  predicate Writable(ev: Event, lbl: Label, crc: seq<byte>) {
    && |crc| == 4 && LabelOk(lbl)
    && match ev
    case Complete(protocol, pdu) => protocol < 0x1_0000 && 2 + |LabelBytes(lbl)| + |pdu| < 0x1000
    case Start(id, total, protocol, chunk) =>
      total < 0x1_0000 && protocol < 0x1_0000 && 5 + |LabelBytes(lbl)| + |chunk| < 0x1000
    case Middle(id, chunk) => 1 + |chunk| < 0x1000
    case End(id, chunk) => 5 + |chunk| < 0x1000
    case TooShort => false
  }

  lemma ReadHeader(indicator: nat, labelType: nat, payload: seq<byte>, rest: seq<byte>)
    requires indicator < 4 && labelType < 4 && |payload| < 0x1000 && (labelType > 0 || |payload| > 0)
    ensures 0x4000 * indicator + 0x1000 * labelType + |payload| < 0x1_0000
    ensures var w := Put16(0x4000 * indicator + 0x1000 * labelType + |payload|) + payload;
            ReadField(w + rest) == Packet(|w|, ReadEvent(indicator, labelType, payload))
  {
    hide ReadEvent;
    HeaderBits(indicator, labelType, |payload|);
    var header := 0x4000 * indicator + 0x1000 * labelType + |payload|;
    var w := Put16(header) + payload;
    var s := w + rest;
    assert Read16(s) == Read16(Put16(header)) == header by {
      assert s[0] == Put16(header)[0] && s[1] == Put16(header)[1];
    }
    hide Put16;
    assert s[2..2 + |payload|] == payload;
  }

  lemma HeaderBits(indicator: nat, labelType: nat, length: nat)
    requires indicator < 4 && labelType < 4 && length < 0x1000
    ensures var header := 0x4000 * indicator + 0x1000 * labelType + length;
            header < 0x1_0000 && header / 0x4000 == indicator && header / 0x1000 % 4 == labelType
            && header % 0x1000 == length
  {
    var header := 0x4000 * indicator + 0x1000 * labelType + length;
    assert header / 0x1000 == 4 * indicator + labelType;
  }

  lemma LabelRoundTrip(lbl: Label)
    requires LabelOk(lbl)
    ensures LabelType(lbl) < 4 && LabelLength(LabelType(lbl)) == |LabelBytes(lbl)|
  {
  }

  /** Every packet written is read back. */
  lemma ReadWritten(ev: Event, lbl: Label, crc: seq<byte>, rest: seq<byte>)
    requires Writable(ev, lbl, crc)
    ensures ReadField(WriteEvent(ev, lbl, crc) + rest) == Packet(|WriteEvent(ev, lbl, crc)|, ev)
  {
    hide ReadField;
    LabelRoundTrip(lbl);
    var bytes := LabelBytes(lbl);
    match ev
    case Complete(protocol, pdu) =>
      var payload := Put16(protocol) + bytes + pdu;
      assert payload[..2] == Put16(protocol) && payload[2 + |bytes|..] == pdu;
      ReadHeader(3, LabelType(lbl), payload, rest);
    case Start(id, total, protocol, chunk) =>
      var payload := [id] + Put16(total) + Put16(protocol) + bytes + chunk;
      StartPayload(id, total, protocol, bytes, chunk, payload);
      ReadHeader(2, LabelType(lbl), payload, rest);
    case Middle(id, chunk) =>
      assert ([id] + chunk)[1..] == chunk;
      ReadHeader(0, 3, [id] + chunk, rest);
    case End(id, chunk) =>
      var payload := [id] + chunk + crc;
      assert payload[1..|payload| - 4] == chunk;
      ReadHeader(1, 3, payload, rest);
  }

  lemma StartPayload(id: byte, total: nat, protocol: nat, lbl: seq<byte>, chunk: seq<byte>, payload: seq<byte>)
    requires total < 0x1_0000 && protocol < 0x1_0000
    requires payload == [id] + Put16(total) + Put16(protocol) + lbl + chunk
    ensures |payload| == 5 + |lbl| + |chunk| && payload[0] == id && Read16(payload[1..]) == total
    ensures Read16(payload[3..]) == protocol && payload[5 + |lbl|..] == chunk
  {
    assert payload[1..3] == Put16(total) && payload[3..5] == Put16(protocol);
  }

  /** A packet with its label and check bytes. */
  datatype Written = Written(event: Event, lbl: Label, crc: seq<byte>)

  predicate AllWritable(ps: seq<Written>) {
    forall i :: 0 <= i < |ps| ==> Writable(ps[i].event, ps[i].lbl, ps[i].crc)
  }

  function WriteAll(ps: seq<Written>): seq<byte>
    requires AllWritable(ps)
  {
    if ps == [] then [] else WriteEvent(ps[0].event, ps[0].lbl, ps[0].crc) + WriteAll(ps[1..])
  }

  function EventsOf(ps: seq<Written>): seq<Event> {
    if ps == [] then [] else [ps[0].event] + EventsOf(ps[1..])
  }

  /** A data field of packets, followed by nothing or by zero padding, reads back as those packets. */
  lemma {:induction false} FieldRoundTrip(ps: seq<Written>, padding: seq<byte>)
    requires AllWritable(ps) && forall i :: 0 <= i < |padding| ==> padding[i] == 0
    ensures Events(WriteAll(ps) + padding) == EventsOf(ps)
    decreases |ps|
  {
    if ps == [] {
      assert WriteAll(ps) + padding == padding;
    } else {
      var w, rest := WriteEvent(ps[0].event, ps[0].lbl, ps[0].crc), WriteAll(ps[1..]) + padding;
      ConcatAssoc(w, WriteAll(ps[1..]), padding);
      ReadWritten(ps[0].event, ps[0].lbl, ps[0].crc, rest);
      assert (w + rest)[|w|..] == rest;
      FieldRoundTrip(ps[1..], padding);
    }
  }

  /** The packets of several data fields. */
  function FieldEvents(fields: seq<seq<byte>>): seq<Event> {
    if fields == [] then [] else FieldEvents(fields[..|fields| - 1]) + Events(fields[|fields| - 1])
  }

  /** A sender's data fields: packets, then nothing or zeros. */
  ghost predicate FieldsOf(fields: seq<seq<byte>>, ps: seq<seq<Written>>) {
    |fields| == |ps| && forall i :: 0 <= i < |ps| ==> FieldOf(fields[i], ps[i])
  }

  ghost predicate FieldOf(field: seq<byte>, ps: seq<Written>) {
    && AllWritable(ps) && WriteAll(ps) <= field
    && forall i :: |WriteAll(ps)| <= i < |field| ==> field[i] == 0
  }

  function AllEvents(ps: seq<seq<Written>>): seq<Event> {
    if ps == [] then [] else AllEvents(ps[..|ps| - 1]) + EventsOf(ps[|ps| - 1])
  }

  /** The data fields of a sender read back as its packets. */
  lemma {:induction false} FieldsRoundTrip(fields: seq<seq<byte>>, ps: seq<seq<Written>>)
    requires FieldsOf(fields, ps)
    ensures FieldEvents(fields) == AllEvents(ps)
  {
    hide FieldOf;
    if ps != [] {
      var n := |ps| - 1;
      FieldsRoundTrip(fields[..n], ps[..n]);
      assert FieldOf(fields[n], ps[n]);
      OneField(fields[n], ps[n]);
    }
  }

  lemma OneField(field: seq<byte>, ps: seq<Written>)
    requires FieldOf(field, ps)
    ensures Events(field) == EventsOf(ps)
  {
    var w := WriteAll(ps);
    assert field == w + field[|w|..];
    FieldRoundTrip(ps, field[|w|..]);
  }

  // ----- the loop of the C++ code -----

  /** The count of invalid packets has no influence on anything else. */
  lemma {:induction false} SameButInvalid(a: State, b: State, evs: seq<Event>)
    requires a.fragments == b.fragments && a.delivered == b.delivered
    ensures After(a, evs).fragments == After(b, evs).fragments && After(a, evs).delivered == After(b, evs).delivered
  {
    if evs != [] { SameButInvalid(a, b, evs[..|evs| - 1]); }
  }

  lemma NextEvent(data: seq<byte>, offset: nat, seen: seq<Event>, start: State)
    requires offset <= |data| && ReadField(data[offset..]).Packet?
    ensures var f := ReadField(data[offset..]);
            && offset + f.size <= |data|
            && seen + Events(data[offset..]) == seen + [f.event] + Events(data[offset + f.size..])
            && After(start, seen + [f.event]) == Apply(After(start, seen), f.event)
            && Trailer(data[offset..]) == Trailer(data[offset + f.size..])
  {
    var f := ReadField(data[offset..]);
    assert data[offset..][f.size..] == data[offset + f.size..];
    assert (seen + [f.event])[..|seen|] == seen;
    ConcatAssoc(seen, [f.event], Events(data[offset + f.size..]));
  }

  lemma LastField(data: seq<byte>, offset: nat)
    requires offset <= |data| && (offset + 2 > |data| || !ReadField(data[offset..]).Packet?)
    ensures Events(data[offset..]) == [] && Trailer(data[offset..]) == ReadField(data[offset..])
    ensures offset + 2 > |data| ==> ReadField(data[offset..]).Ended?
  {
  }

  class GseReceiver {
    var fragments: map<byte, Fragment>
    var gsePackets: nat
    var invalidGsePackets: nat
    var completedGsePdus: nat
    /** PDUs passed to the IPv4 stage. */
    var delivered: seq<seq<byte>>

    ghost function View(): State
      reads this
    {
      State(fragments, delivered, invalidGsePackets)
    }

    constructor ()
      ensures View() == EMPTY && completedGsePdus == 0 && gsePackets == 0
    {
      fragments, gsePackets, invalidGsePackets, completedGsePdus := map[], 0, 0, 0;
      delivered := [];
    }

    /** One packet. */
    method Receive(ev: Event)
      modifies this
      ensures View() == Apply(old(View()), ev) && gsePackets == old(gsePackets)
      ensures completedGsePdus - old(completedGsePdus) == |delivered| - |old(delivered)|
    {
      match ev
      case TooShort =>
        invalidGsePackets := invalidGsePackets + 1;
      case Complete(protocol, pdu) =>
        if protocol == IPV4 {
          completedGsePdus := completedGsePdus + 1;
          delivered := delivered + [pdu];
        }
      case Start(id, total, protocol, chunk) =>
        fragments := fragments - {id};
        if protocol != IPV4 || total == 0 {
          return;
        }
        if |chunk| <= total {
          fragments := fragments[id := Fragment(total, chunk)];
        } else {
          invalidGsePackets := invalidGsePackets + 1;
        }
      case Middle(id, chunk) =>
        if id in fragments {
          var f := fragments[id];
          if Fits(f, chunk) {
            fragments := fragments[id := Fragment(f.total, f.data + chunk)];
          } else {
            fragments := fragments - {id};
            invalidGsePackets := invalidGsePackets + 1;
          }
        }
      case End(id, chunk) =>
        if id !in fragments {
          return;
        }
        var f := fragments[id];
        fragments := fragments - {id};
        if !Fits(f, chunk) {
          invalidGsePackets := invalidGsePackets + 1;
          return;
        }
        completedGsePdus := completedGsePdus + 1;
        delivered := delivered + [f.data + chunk];
    }

    /** processGseDataField: the packets of the field are applied in order to the fragments that earlier fields
        left. */
    method ProcessDataField(data: seq<byte>)
      modifies this
      ensures var end := After(old(View()), Events(data));
              fragments == end.fragments && delivered == end.delivered
              && invalidGsePackets == end.invalid + if Trailer(data).Cut? then 1 else 0
      ensures completedGsePdus - old(completedGsePdus) == |delivered| - |old(delivered)|
      ensures gsePackets == old(gsePackets) + |Events(data)| + if Trailer(data).Padding? then 1 else 0
    {
      hide ReadEvent, Apply, ReadField, Events, Trailer;
      ghost var start := View();
      var offset := 0;
      ghost var seen: seq<Event> := [];
      assert data[0..] == data;
      while offset + 2 <= |data|
        invariant 0 <= offset <= |data|
        invariant View() == After(start, seen) && seen + Events(data[offset..]) == Events(data)
        invariant completedGsePdus - old(completedGsePdus) == |delivered| - |old(delivered)|
        invariant gsePackets == old(gsePackets) + |seen| && Trailer(data[offset..]) == Trailer(data)
        decreases |data| - offset
      {
        var field := ReadField(data[offset..]);
        if field.Padding? {
          gsePackets := gsePackets + 1;
        }
        if field.Cut? {
          invalidGsePackets := invalidGsePackets + 1;
        }
        if !field.Packet? {
          LastField(data, offset);
          break;
        }
        gsePackets := gsePackets + 1;
        Receive(field.event);
        NextEvent(data, offset, seen, start);
        seen := seen + [field.event];
        offset := offset + field.size;
      }
      if offset + 2 > |data| { LastField(data, offset); }
      assert seen + [] == seen;
    }

    /** A sequence of data fields: fragments are carried over from each to the next. */
    method ProcessFields(fields: seq<seq<byte>>)
      modifies this
      ensures var end := After(old(View()), FieldEvents(fields));
              fragments == end.fragments && delivered == end.delivered
      ensures completedGsePdus - old(completedGsePdus) == |delivered| - |old(delivered)|
    {
      hide Events, Trailer, Apply;
      ghost var start := View();
      var i := 0;
      while i < |fields|
        invariant 0 <= i <= |fields|
        invariant fragments == After(start, FieldEvents(fields[..i])).fragments
        invariant delivered == After(start, FieldEvents(fields[..i])).delivered
        invariant completedGsePdus - old(completedGsePdus) == |delivered| - |old(delivered)|
      {
        ghost var now := View();
        ghost var end := After(start, FieldEvents(fields[..i]));
        ProcessDataField(fields[i]);
        SameButInvalid(now, end, Events(fields[i]));
        AfterConcat(start, FieldEvents(fields[..i]), Events(fields[i]));
        assert fields[..i + 1][..i] == fields[..i];
        i := i + 1;
      }
      assert fields[..i] == fields;
    }

    /** What a sender packed into data fields is handed out, from an empty receiver on: the PDUs of its complete IPv4
        packets in order, those it fragmented under each FragID in order, and nothing else. */
    method ReceiveFields(fields: seq<seq<byte>>, ghost ps: seq<seq<Written>>, ghost cuts: seq<seq<Division>>)
      requires View() == EMPTY && FieldsOf(fields, ps) && Sends(AllEvents(ps), cuts)
      modifies this
      ensures var tr := Meant(AllEvents(ps));
              && delivered == Pdus(tr) && Unfragmented(tr) == WholePdus(AllEvents(ps))
              && forall id: byte :: PdusOf(id, tr) == CutPdus(cuts[id])
    {
      hide Only, Apply, CutPackets, AllCovered, FieldsOf, CutPdus, Sends;
      FieldsRoundTrip(fields, ps);
      SenderIsReceived(AllEvents(ps), cuts);
      ProcessFields(fields);
    }
  }
}
