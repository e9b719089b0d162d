/** The EDI handle: HandleAFPacket of af_parser.c, the TAG handlers of tag_parser.c updating the builder in place,
    and the frame that comes out. */
module EdiHandler {
  import opened Bits
  import opened Crc
  import opened EtiFrame
  import opened EtiTags

  // ----- AF packets -----

  datatype AfVerdict = Damaged | Ignored | Overlong | Tags(tags: seq<byte>)

  /** The longest TAG packet of an AF packet whose size fits 32 bits. */
  const MAX_TAGS: nat := 0x1_0000_0000 - 13

  /** The size that the TAG length announces; header and TAG length are added in 32 bits. */
  function SizeOf(len: nat): nat {
    (10 + len) % 0x1_0000_0000 + 2
  }

  /** HandleAFPacket up to the call of decode_tagpacket. Overlong: the size has wrapped, so the tests pass on a few
      bytes and decode_tagpacket is called with a length that the packet does not have. */
  ghost function AfTags(pkt: seq<byte>): AfVerdict {
    if |pkt| < 10 || pkt[0] != 0x41 || pkt[1] != 0x46 then Damaged
    else
      var len := Read32(pkt[2..]);
      if pkt[8] as nat / 16 % 8 != 1 || pkt[8] as nat % 16 != 0 then Damaged
      else if pkt[9] != 0x54 then Ignored
      else if |pkt| < SizeOf(len) then Ignored
      else if pkt[8] as nat / 128 == 0 then Damaged
      else if !CheckCrc(pkt[..SizeOf(len)]) then Damaged
      else if |pkt| < 10 + len then Overlong
      else Tags(pkt[10..10 + len])
  }

  /** An AF packet without its last two bytes: `ar` holds the CRC flag and the revision, `pt` the payload type. */
  function AfWith(seqNo: nat, ar: byte, pt: byte, tags: seq<byte>): (body: seq<byte>)
    requires seqNo < 0x1_0000 && |tags| <= MAX_TAGS
    ensures |body| == 10 + |tags|
  {
    [0x41, 0x46] + Put32(|tags|) + Put16(seqNo) + [ar, pt] + tags
  }

  /** With a CRC, revision 1.0, and TAG items. */
  function AfBody(seqNo: nat, tags: seq<byte>): (body: seq<byte>)
    requires seqNo < 0x1_0000 && |tags| <= MAX_TAGS
    ensures |body| == 10 + |tags|
  {
    AfWith(seqNo, 0x90, 0x54, tags)
  }

  ghost function WriteAf(seqNo: nat, tags: seq<byte>): (pkt: seq<byte>)
    requires seqNo < 0x1_0000 && |tags| <= MAX_TAGS
    ensures |pkt| == 12 + |tags|
  {
    AfBody(seqNo, tags) + CrcBytes(AfBody(seqNo, tags))
  }

  /** A correctly written AF packet is taken apart again, whatever follows it in the datagram. */
  lemma AfRoundTrip(seqNo: nat, tags: seq<byte>, more: seq<byte>)
    requires seqNo < 0x1_0000 && |tags| <= MAX_TAGS
    ensures AfTags(WriteAf(seqNo, tags) + more) == Tags(tags)
  {
    hide CheckCrc, CrcBytes, AfTags, AfWith;
    AfRead(seqNo, 0x90, 0x54, tags, CrcBytes(AfBody(seqNo, tags)), more);
  }

  lemma AfRead(seqNo: nat, ar: byte, pt: byte, tags: seq<byte>, field: seq<byte>, more: seq<byte>)
    requires seqNo < 0x1_0000 && |tags| <= MAX_TAGS && |field| == 2
    ensures var body := AfWith(seqNo, ar, pt, tags);
            AfTags(body + field + more) ==
              if ar / 16 % 8 != 1 || ar % 16 != 0 then Damaged
              else if pt != 0x54 then Ignored
              else if ar >= 128 && CheckCrc(body + field) then Tags(tags) else Damaged
  {
    hide CheckCrc, Read32, Put32, Put16;
    var body := AfWith(seqNo, ar, pt, tags);
    var pkt := body + field + more;
    assert pkt[..12 + |tags|] == body + field;
    ReadPut32At(pkt[2..], |tags|, pkt[6..]);
    assert pkt[10..10 + |tags|] == tags;
  }

  /** Every way to write the header and the CRC: another payload type is passed over, and another revision, a missing
      CRC or one that is not that of the packet is refused. */
  lemma AfCrcDecides(seqNo: nat, ar: byte, pt: byte, tags: seq<byte>, field: seq<byte>, more: seq<byte>)
    requires seqNo < 0x1_0000 && |tags| <= MAX_TAGS && |field| == 2
    ensures var body := AfWith(seqNo, ar, pt, tags);
            AfTags(body + field + more) ==
              if ar != 0x10 && ar != 0x90 then Damaged
              else if pt != 0x54 then Ignored
              else if ar == 0x90 && field == CrcBytes(body) then Tags(tags) else Damaged
  {
    hide CheckCrc, AfTags, AfWith;
    AfRead(seqNo, ar, pt, tags, field, more);
    FieldUnique(AfWith(seqNo, ar, pt, tags), field);
  }

  /** A packet cut short waits for nothing: it is passed over, or refused if even its header is cut. */
  lemma AfTruncated(seqNo: nat, tags: seq<byte>, n: nat)
    requires seqNo < 0x1_0000 && |tags| <= MAX_TAGS && n < |WriteAf(seqNo, tags)|
    ensures AfTags(WriteAf(seqNo, tags)[..n]) == if n < 10 then Damaged else Ignored
  {
    hide CheckCrc, Read32, Put32, Put16, CrcBytes;
    if n >= 10 {
      var sent, pkt := WriteAf(seqNo, tags), WriteAf(seqNo, tags)[..n];
      assert forall k :: 0 <= k < 10 ==> pkt[k] == sent[k];
      assert pkt[2..] == Put32(|tags|) + pkt[6..];
      ReadPut32At(pkt[2..], |tags|, pkt[6..]);
    }
  }

  /** A length of more than 2^32 - 11 wraps: the size test then asks for up to eleven bytes and the CRC is taken over
      them, whatever the packet holds. */
  lemma LengthWraps(pkt: seq<byte>, k: nat)
    requires 11 <= |pkt| < 0xffff_0000 && k < 10 && pkt[..2] == [0x41, 0x46] && pkt[8] == 0x90 && pkt[9] == 0x54
    requires Read32(pkt[2..]) == 0xffff_fff6 + k
    ensures AfTags(pkt) == if CheckCrc(pkt[..k + 2]) then Overlong else Damaged
  {
    hide CheckCrc, Read32;
    assert pkt[0] == pkt[..2][0] && pkt[1] == pkt[..2][1];
  }

  /** A packet damaged in two neighbouring bytes behind its header, in the TAG packet or the CRC, is refused. */
  lemma AfDamageRefused(seqNo: nat, tags: seq<byte>, pkt: seq<byte>, i: nat)
    requires seqNo < 0x1_0000 && |tags| <= MAX_TAGS
    requires var sent := WriteAf(seqNo, tags);
             && |pkt| == |sent| && 10 <= i && i + 2 <= |pkt| && pkt != sent
             && pkt[..i] == sent[..i] && pkt[i + 2..] == sent[i + 2..]
    ensures AfTags(pkt) == Damaged
  {
    hide CheckCrc, AfWith, AfTags;
    var sent, body := WriteAf(seqNo, tags), AfBody(seqNo, tags);
    AdjacentBytesDetected(sent, pkt, i);
    SamePrefix(sent, pkt, i, 10);
    assert sent[..10] == body[..10];
    AfHeader(seqNo, tags, pkt);
  }

  lemma SamePrefix(a: seq<byte>, b: seq<byte>, i: nat, n: nat)
    requires n <= i <= |a| && i <= |b| && a[..i] == b[..i]
    ensures a[..n] == b[..n]
  {
    assert a[..n] == a[..i][..n] && b[..n] == b[..i][..n];
  }

  lemma AfHeader(seqNo: nat, tags: seq<byte>, pkt: seq<byte>)
    requires seqNo < 0x1_0000 && |tags| <= MAX_TAGS
    requires |pkt| == 12 + |tags| && pkt[..10] == AfBody(seqNo, tags)[..10] && !CheckCrc(pkt)
    ensures AfTags(pkt) == Damaged
  {
    hide CheckCrc, Read32, Put32, Put16;
    var head := AfBody(seqNo, tags)[..10];
    assert forall k :: 0 <= k < 10 ==> pkt[k] == head[k];
    assert pkt[2..] == Put32(|tags|) + pkt[6..];
    ReadPut32At(pkt[2..], |tags|, pkt[6..]);
    assert pkt[..12 + |tags|] == pkt;
  }

  // ----- end to end -----

  /** The length of the emitted data for a multiplex. */
  function MultiplexEnd(fic: seq<byte>, ss: seq<Stream>): nat {
    12 + 4 * |ss| + |fic| + SumBytes(ss)
  }

  /** The frame bears what the deti item says: the frame count modulo 250, MNSC unless it is marked as reserved, RFU and
      time stamp, or ones where the item has none. */
  ghost predicate BearsMultiplex(f: seq<byte>, d: Deti, ss: seq<Stream>)
    requires d.fic.Some?
  {
    Bears(f, |ss|, MultiplexEnd(d.fic.value, ss), (250 * d.fcth + d.fct) % 250, if d.rfu then 0xffff else d.mnsc,
      if d.rfud.Some? then d.rfud.value / 256 else 0xffff, if d.time.Some? then d.time.value.tsta else 0xffffff)
  }

  /** The frame for a TAG packet that describes a multiplex with a FIC is built exactly when the data fits, both its
      CRCs are right, it bears the fields of the deti item, and reading it back gives that multiplex - FIC, parameters
      and bytes of every stream - if and only if the streams are whole units. */
  lemma MultiplexPreserved(b: Builder, items: seq<Item>, d: Deti, ss: seq<Stream>)
    requires Stored(b) && |ss| <= 64 && AllOk(items) && Describes(items, d, ss) && d.fic.Some? && DetiOk(d)
    ensures var r := Decode(b.(nst := 0), WriteItems(items));
            && r.Handled? && r.ok && InRange(r.b) && Complete(r.b)
            && (Fits(r.b) <==> ss == [] || MultiplexEnd(d.fic.value, ss) < 6136)
    ensures var r := Decode(b.(nst := 0), WriteItems(items)).b;
            Fits(r) ==>
              && FrameWords(r) == |ss| + 1 + |d.fic.value| / 4 + SumWords(ss) < 2048
              && |Emitted(r)| == 6144 && CrcsRight(Emitted(r), |ss|, MultiplexEnd(d.fic.value, ss))
              && BearsMultiplex(Emitted(r), d, ss)
              && (Walk(Emitted(r)) == Walked(true, |ss|, d.fp, d.mid, FrameWords(r), d.fic.value, ss)
                  <==> WholeUnits(ss))
  {
    hide Decode, Stored, AllOk, Describes, DetiOk, SumBytes, SumWords, Walk, Emitted, WholeUnits, CrcsRight, AllInRange,
      Bears;
    StoredSizes(b);
    PacketMeaning(b, items, d, ss);
    var r := Decode(b.(nst := 0), WriteItems(items)).b;
    FicSize(d);
    if Fits(r) { EmittedFrameReadsBack(r); }
  }

  /** A packet without FIC behind one with FIC: the frame is still built, with the old FIC, but the flag is clear, so by
      EtiFrame.FicNeedsFlag and EtiFrame.StreamsDisplaced it does not read back. */
  lemma FicLost(b: Builder, d: Deti, later: Deti, ss: seq<Stream>)
    requires Stored(b) && DetiOk(d) && DetiOk(later) && AllInRange(ss) && |ss| <= 64
    requires d.fic.Some? && later.fic == None && later.mid == d.mid
    ensures var one := Decode(b.(nst := 0), Sent(d, ss));
            && one.Handled? && Stored(one.b)
            && var two := Decode(one.b.(nst := 0), Sent(later, ss));
            && two.Handled? && two.ok && InRange(two.b) && Used(two.b) == ss
            && Complete(two.b) && !two.b.ficf && two.b.fic == d.fic.value
  {
    hide Decode, DetiOk, AllInRange, ApplyAll, WriteItems, ItemOk, Stored, Describes;
    CanonicalDescribes(d, ss);
    CanonicalDescribes(later, ss);
    StoredSizes(b);
    PacketMeaning(b, Canonical(d, ss), d, ss);
    DecodeStored(b.(nst := 0), Sent(d, ss));
    var one := Decode(b.(nst := 0), Sent(d, ss)).b;
    StoredSizes(one);
    PacketMeaning(one, Canonical(later, ss), later, ss);
    DecodeOfWritten(one.(nst := 0), Canonical(later, ss));
    CanonicalDetis(later, ss);
    FicStays(one.(nst := 0), Canonical(later, ss));
    FicSize(d);
  }

  lemma {:induction false} CanonicalDetis(d: Deti, ss: seq<Stream>)
    ensures forall k :: 0 <= k < |Canonical(d, ss)| && Canonical(d, ss)[k].DetiItem? ==> Canonical(d, ss)[k].d == d
  {
    if ss != [] { CanonicalDetis(d, ss[..|ss| - 1]); }
  }

  /** Such packets exist. */
  lemma FicLostExample()
    ensures DetiOk(Deti(0, 0, 0, 1, 0, 0, false, 0, None, Some(seq(96, _ => 0)), None))
    ensures DetiOk(Deti(1, 0, 0, 1, 0, 0, false, 0, None, None, None))
  {
  }

  lemma FicSize(d: Deti)
    requires DetiOk(d) && d.fic.Some?
    ensures |d.fic.value| == if d.mid == 3 then 128 else 96
  {
  }

  // ----- one AF packet -----

  datatype AfResult = AfResult(b: Builder, frames: seq<seq<byte>>)

  /** What one AF packet does: to the builder, and to the callback. None where the C code would read behind the packet
      or behind the table of 64 streams. */
  ghost function AfStep(b: Builder, pkt: seq<byte>, raw: bool): (r: Option<AfResult>)
    requires Stored(b)
    ensures r.Some? ==> Stored(r.value.b)
  {
    match AfTags(pkt)
    case Damaged => Some(AfResult(b, []))
    case Ignored => Some(AfResult(b, []))
    case Overlong => None
    case Tags(tags) =>
      StoredSizes(b);
      DecodeStored(b.(nst := 0), tags);
      var r := Decode(b.(nst := 0), tags);
      if r.Overrun? then None
      else if !r.ok then Some(AfResult(r.b, []))
      else if r.b.nst > 64 then None
      else
        StoredSizes(r.b);
        Some(AfResult(r.b, if Complete(r.b) && Fits(r.b) then [FrameOf(r.b, raw)] else []))
  }

  ghost function FrameOf(b: Builder, raw: bool): seq<byte>
    requires InRange(b) && Complete(b) && Fits(b)
  {
    FittingLength(b);
    Frame(b) + Pad(raw, |Frame(b)|)
  }

  /** One AF packet with a multiplex, from any earlier state: one frame, which reads back. */
  lemma MultiplexStep(b: Builder, seqNo: nat, items: seq<Item>, d: Deti, ss: seq<Stream>)
    requires Stored(b) && |ss| <= 64 && AllOk(items) && Describes(items, d, ss) && d.fic.Some? && DetiOk(d)
    requires seqNo < 0x1_0000 && |WriteItems(items)| <= MAX_TAGS
    requires MultiplexEnd(d.fic.value, ss) < 6136 && WholeUnits(ss)
    ensures var r := AfStep(b, WriteAf(seqNo, WriteItems(items)), true);
            r.Some? && |r.value.frames| == 1 && ReadsBack(r.value.frames[0], d, ss)
  {
    hide AfTags, WriteAf, Decode, Stored, AllOk, Describes, DetiOk, WholeUnits, Walk, Frame, CrcsRight, WriteItems,
      SumWords, AllInRange, FrameWords, BearsMultiplex;
    var tags := WriteItems(items);
    WordsOfWhole(ss);
    FicSize(d);
    AfRoundTrip(seqNo, tags, []);
    assert WriteAf(seqNo, tags) + [] == WriteAf(seqNo, tags);
    StoredSizes(b);
    MultiplexPreserved(b, items, d, ss);
  }

  // ----- which packets make a frame -----

  /** The last *ptr item names protocol DETI in version 0.0; without such an item what was there stays. */
  function LastPtr(items: seq<Item>, was: bool): bool {
    if items == [] then was
    else
      var last := items[|items| - 1];
      if last.Ptr? then last.protocol == 0x44455449 && last.major == last.minor == 0
      else LastPtr(items[..|items| - 1], was)
  }

  /** There is a deti item, or there was one. */
  function AnyDeti(items: seq<Item>, was: bool): bool {
    was || exists k :: 0 <= k < |items| && items[k].DetiItem?
  }

  /** The mode of the last deti item. */
  function LastMode(items: seq<Item>, was: nat): nat {
    if items == [] then was
    else
      var last := items[|items| - 1];
      if last.DetiItem? then last.d.mid else LastMode(items[..|items| - 1], was)
  }

  /** The last FIC that a deti item brought. */
  function LastFic(items: seq<Item>, was: seq<byte>): seq<byte> {
    if items == [] then was
    else
      var last := items[|items| - 1];
      if last.DetiItem? && last.d.fic.Some? then last.d.fic.value else LastFic(items[..|items| - 1], was)
  }

  lemma {:induction false} WhatStays(b: Builder, items: seq<Item>)
    requires |b.streams| == 64 && AllOk(items)
    ensures |ApplyAll(b, items).streams| == 64
    ensures var r := ApplyAll(b, items);
            && r.isEti == LastPtr(items, b.isEti) && r.fcValid == AnyDeti(items, b.fcValid)
            && r.mid == LastMode(items, b.mid) && r.fic == LastFic(items, b.fic)
  {
    hide DetiOk, StreamInRange, ApplyAll, LastPtr, AnyDeti, LastMode, LastFic;
    if items == [] {
      NoItems(b);
    } else {
      var init, last := items[..|items| - 1], items[|items| - 1];
      WhatStays(b, init);
      ApplyLast(b, init, last);
      assert init + [last] == items;
      LastItem(init, last, b);
    }
  }

  lemma NoItems(b: Builder)
    requires |b.streams| == 64
    ensures ApplyAll(b, []) == b && LastPtr([], b.isEti) == b.isEti && AnyDeti([], b.fcValid) == b.fcValid
    ensures LastMode([], b.mid) == b.mid && LastFic([], b.fic) == b.fic
  {
  }

  lemma LastItem(init: seq<Item>, last: Item, b: Builder)
    ensures var all := init + [last];
            && LastPtr(all, b.isEti) ==
                 (if last.Ptr? then last.protocol == 0x44455449 && last.major == last.minor == 0
                  else LastPtr(init, b.isEti))
            && AnyDeti(all, b.fcValid) == (AnyDeti(init, b.fcValid) || last.DetiItem?)
            && LastMode(all, b.mid) == (if last.DetiItem? then last.d.mid else LastMode(init, b.mid))
            && LastFic(all, b.fic)
                 == if last.DetiItem? && last.d.fic.Some? then last.d.fic.value else LastFic(init, b.fic)
  {
    var all := init + [last];
    assert all[..|init|] == init && all[|init|] == last;
    forall k | 0 <= k < |init| && init[k].DetiItem? ensures AnyDeti(all, b.fcValid) { assert all[k] == init[k]; }
    if AnyDeti(all, b.fcValid) && !b.fcValid && !last.DetiItem? {
      var k :| 0 <= k < |all| && all[k].DetiItem?;
      assert init[k] == all[k];
    }
  }

  lemma {:induction false} ApplyLast(b: Builder, items: seq<Item>, last: Item)
    requires |b.streams| == 64 && AllOk(items) && ItemOk(last)
    ensures AllOk(items + [last])
    ensures |ApplyAll(b, items).streams| == 64 && (last.Est? ==> 1 <= last.n <= 64)
    ensures ApplyAll(b, items + [last]) == Apply(ApplyAll(b, items), last)
    decreases |items|
  {
    hide DetiOk, StreamInRange;
    if items == [] {
      assert [] + [last] == [last] && [last][1..] == [];
    } else {
      KeepsStreams(b, items[0]);
      ApplyLast(Apply(b, items[0]), items[1..], last);
      assert (items + [last])[0] == items[0] && (items + [last])[1..] == items[1..] + [last];
    }
  }

  /** Whatever AF packet comes, with any items in any order, from any earlier state: a frame comes out if and only if
      the last *ptr names the protocol, a deti item has been seen, the last FIC has the length of the last mode, and
      the data fits. */
  lemma FrameIff(b: Builder, seqNo: nat, items: seq<Item>, raw: bool)
    requires Stored(b) && AllOk(items) && seqNo < 0x1_0000 && |WriteItems(items)| <= MAX_TAGS
    requires ApplyAll(b.(nst := 0), items).nst <= 64
    ensures var r := AfStep(b, WriteAf(seqNo, WriteItems(items)), raw);
            var n, fic := ApplyAll(b.(nst := 0), items).nst, LastFic(items, b.fic);
            && |ApplyAll(b.(nst := 0), items).streams| == 64 && r.Some? && |r.value.frames| <= 1
            && (r.value.frames != [] <==>
                  && LastPtr(items, b.isEti) && AnyDeti(items, b.fcValid)
                  && |fic| == (if LastMode(items, b.mid) == 3 then 128 else 96)
                  && (n == 0 || 12 + 4 * n + |fic| + SumBytes(ApplyAll(b.(nst := 0), items).streams[..n]) < 6136))
  {
    hide AfTags, WriteAf, Decode, Stored, AllOk, Frame, WriteItems, AllInRange, FrameWords, ApplyAll, LastPtr, AnyDeti,
      LastMode, LastFic, SumBytes;
    StoredSizes(b);
    AfRoundTrip(seqNo, WriteItems(items), []);
    assert WriteAf(seqNo, WriteItems(items)) + [] == WriteAf(seqNo, WriteItems(items));
    DecodeOfWritten(b.(nst := 0), items);
    WhatStays(b.(nst := 0), items);
  }

  /** A packet that is refused in the middle makes no frame, but leaves the items in front of the refused one in the
      builder. */
  lemma RefusedKeeps(b: Builder, seqNo: nat, items: seq<Item>, n: nat, v: seq<byte>, more: seq<byte>, raw: bool)
    requires Stored(b) && AllOk(items) && seqNo < 0x1_0000 && n < 256 && (n == 0 || n > 64) && 3 <= |v| < 0x2000_0000
    requires |WriteItems(items)| + 8 + |v| + |more| <= MAX_TAGS
    ensures Ascii("est ") - 0x20 + n < 0x1_0000_0000
    ensures var est := Put32(Ascii("est ") - 0x20 + n) + Put32(8 * |v|) + v;
            AfStep(b, WriteAf(seqNo, WriteItems(items) + (est + more)), raw)
              == Some(AfResult(ApplyAll(b.(nst := 0), items), []))
  {
    hide AfTags, WriteAf, Decode, Stored, WriteItems, ApplyAll, Put32, ItemOk;
    StoredSizes(b);
    BadNumberStops(b.(nst := 0), items, n, v, more);
    var tags := WriteItems(items) + (Put32(Ascii("est ") - 0x20 + n) + Put32(8 * |v|) + v + more);
    AfRoundTrip(seqNo, tags, []);
    assert WriteAf(seqNo, tags) + [] == WriteAf(seqNo, tags);
  }

  // ----- what a frame says -----

  /** The frame is the multiplex: both CRCs are right, it bears the fields of the deti item, and the walk finds the
      FIC, all streams and parameters, and the number of words from the stream characterisations to the end of the
      streams. */
  ghost predicate ReadsBack(f: seq<byte>, d: Deti, ss: seq<Stream>) {
    && d.fic.Some? && |f| == 6144 && CrcsRight(f, |ss|, MultiplexEnd(d.fic.value, ss)) && BearsMultiplex(f, d, ss)
    && Walk(f) == Walked(true, |ss|, d.fp, d.mid, (MultiplexEnd(d.fic.value, ss) - 8) / 4, d.fic.value, ss)
  }

  // ----- the handle -----

  /** One turn of the loop in decode_tagpacket. */
  lemma Unfold(b: Builder, p: seq<byte>, id: nat, len: nat)
    requires |b.streams| == 64 && |p| > 8 && id == Read32(p) && Read32(p[4..]) == 8 * len && Known(id)
    requires Decode(b, p).Handled?
    ensures var r := Handle(b, id, p[8..], len);
            && r.Handled? && |r.b.streams| == 64
            && Decode(b, p) == if r.ok then Decode(r.b, if 8 + len <= |p| then p[8 + len..] else []) else r
  {
    hide HandlePtr, HandleDeti, HandleEst, Known, Read32;
    HandledStreams(b, id, p[8..], len);
  }

  lemma HandledStreams(b: Builder, id: nat, rest: seq<byte>, len: nat)
    requires |b.streams| == 64
    ensures var r := Handle(b, id, rest, len); r.Handled? ==> |r.b.streams| == 64
  {
  }

  lemma TimeAt(v: seq<byte>, i: nat)
    requires i + 8 <= |v|
    ensures ReadTime(v[i..]) == Time(v[i], Read32(v[i + 1..]), Read24(v[i + 5..]))
  {
    hide Read24, Read32;
    assert v[i..][1..] == v[i + 1..] && v[i..][5..] == v[i + 5..];
  }

  /** HandleAFPacket up to the call of decode_tagpacket, with the CRC over the table. */
  method CheckAf(tab: seq<nat>, pkt: seq<byte>) returns (v: AfVerdict)
    requires IsTable(16, POLY, tab)
    ensures v == AfTags(pkt)
  {
    hide CheckCrc, Read32;
    if |pkt| < 10 || pkt[0] != 0x41 || pkt[1] != 0x46 { return Damaged; }
    var len := Read32(pkt[2..]);
    if pkt[8] as nat / 16 % 8 != 1 || pkt[8] as nat % 16 != 0 { return Damaged; }
    if pkt[9] != 0x54 { return Ignored; }
    var size := (10 + len) % 0x1_0000_0000 + 2;
    if |pkt| < size { return Ignored; }
    if pkt[8] as nat / 128 == 0 { return Damaged; }
    var ok := CheckCrcLoop(tab, pkt[..size]);
    if !ok { return Damaged; }
    if |pkt| < 10 + len { return Overlong; }
    return Tags(pkt[10..10 + len]);
  }

  class EdiHandle {
    var eti: Builder

    /** decode_starptr. */
    method DecodeStarPtr(rest: seq<byte>, len: nat) returns (ok: bool)
      requires HandlePtr(eti, rest, len).Handled?
      modifies this
      ensures HandlePtr(old(eti), rest, len) == Handled(ok, eti)
    {
      if len != 0x40 / 8 { return false; }
      var proto := Read32(rest);
      var major, minor := Read16(rest[4..]), Read16(rest[6..]);
      eti := eti.(isEti := proto == 0x44455449 && major == 0 && minor == 0);
      ok := true;
    }

    /** decode_deti: the header fields are stored before the length is compared. */
    method DecodeDeti(rest: seq<byte>, len: nat) returns (ok: bool)
      requires HandleDeti(eti, rest, len).Handled?
      modifies this
      ensures HandleDeti(old(eti), rest, len) == Handled(ok, eti)
    {
      hide Atstf, Ficf, Rfudf, Fct, Fcth, Err, Mid, Fp, Rfa, Rfu, Mnsc, Read16, Read24, Read32, ApplyDeti, ReadDeti;
      var h := Read16(rest);
      var e := Read32(rest[2..]);
      eti := eti.(atstf := Atstf(h), ficf := Ficf(h), dflc := 250 * Fcth(h) + Fct(h), err := Err(e), mid := Mid(e),
        fp := Fp(e), mnsc := if Rfu(e) then 0xffff else Mnsc(e));
      var ficLength := FicBytes(eti.ficf, eti.mid);
      var expected := 2 + 4 + (if eti.atstf then 1 + 4 + 3 else 0) + ficLength + (if Rfudf(h) then 3 else 0);
      if len != expected { return false; }
      DecodeDetiBody(rest, h, e, old(eti));
      ok := true;
    }

    /** Lines 88 to 150: the parts behind the header, at a running offset. */
    method DecodeDetiBody(rest: seq<byte>, h: nat, e: nat, ghost b: Builder)
      requires |rest| >= 6 && h == Read16(rest) && e == Read32(rest[2..]) && |rest| >= DetiLength(h, e)
      requires eti == DetiFixed(b, h, e)
      modifies this
      ensures eti == ApplyDeti(b, ReadDeti(rest))
    {
      hide Atstf, Ficf, Rfudf, Fct, Fcth, Err, Mid, Fp, Rfa, Rfu, Mnsc, Read16, Read24, Read32;
      var i := 2 + 4;
      if eti.atstf {
        TimeAt(rest, i);
        eti := eti.(timeValid := true, utco := rest[i], seconds := Read32(rest[i + 1..]),
          tsta := Read24(rest[i + 5..]));
        i := i + 8;
      } else {
        eti := eti.(timeValid := false, utco := 0, seconds := 0, tsta := 0xffffff);
      }
      if eti.ficf {
        eti := eti.(fic := rest[i..i + FicBytes(true, eti.mid)]);
        i := i + FicBytes(true, eti.mid);
      }
      eti := eti.(rfu := if Rfudf(h) then Read24(rest[i..]) / 256 else 0xffff, fcValid := true);
    }

    /** decode_estn. */
    method DecodeEstn(rest: seq<byte>, len: nat, n: nat) returns (ok: bool)
      requires |eti.streams| == 64 && HandleEst(eti, rest, len, n).Handled?
      modifies this
      ensures HandleEst(old(eti), rest, len, n) == Handled(ok, eti)
    {
      var sstc := Read24(rest);
      if n > 64 || n == 0 { return false; }
      var size := (len + 0x1_0000 - 3) % 0x1_0000;
      var s := Stream(sstc / 0x4_0000 % 64, sstc / 256 % 1024, sstc / 4 % 64, rest[3..3 + size]);
      eti := eti.(streams := eti.streams[n - 1 := s]);
      eti := eti.(nst := (eti.nst + 1) % 256);
      ok := true;
    }

    method DecodeItem(id: nat, rest: seq<byte>, len: nat) returns (ok: bool)
      requires |eti.streams| == 64 && Handle(eti, id, rest, len).Handled?
      modifies this
      ensures Handle(old(eti), id, rest, len) == Handled(ok, eti)
    {
      hide HandlePtr, HandleDeti, HandleEst;
      if id == PTR {
        ok := DecodeStarPtr(rest, len);
      } else if id == DETI {
        ok := DecodeDeti(rest, len);
      } else if id / 256 == EST {
        ok := DecodeEstn(rest, len, id % 256);
      } else {
        ok := true;
      }
    }

    /** decode_tagpacket. */
    method DecodeTagPacket(pkt: seq<byte>) returns (ok: bool)
      requires |eti.streams| == 64 && Decode(eti.(nst := 0), pkt).Handled?
      modifies this
      ensures Decode(old(eti).(nst := 0), pkt) == Handled(ok, eti)
    {
      hide Handle, Known, Read32;
      ghost var before := eti.(nst := 0);
      eti := eti.(nst := 0);
      ok := true;
      var i := 0;
      while i + 8 < |pkt|
        invariant ok && |eti.streams| == 64 && Decode(eti, if i <= |pkt| then pkt[i..] else []) == Decode(before, pkt)
        invariant Decode(eti, if i <= |pkt| then pkt[i..] else []).Handled?
        decreases |pkt| - i
      {
        var id, bits := Read32(pkt[i..]), Read32(pkt[i + 4..]);
        assert pkt[i..][4..] == pkt[i + 4..] && pkt[i..][8..] == pkt[i + 8..];
        if bits % 8 != 0 { break; }
        if !Known(id) { break; }
        var length := bits / 8;
        Unfold(eti, pkt[i..], id, length);
        ok := DecodeItem(id, pkt[i + 8..], length);
        if !ok { break; }
        i := i + 8 + length;
      }
    }

    /** HandleEDIPacket for an AF packet: HandleAFPacket, then AssembleETIFrame when decoding succeeded. The frames
        that reach the callback: one or none. */
    method HandleAf(tab: seq<nat>, pkt: seq<byte>, raw: bool) returns (frames: seq<seq<byte>>)
      requires IsTable(16, POLY, tab) && Stored(eti) && AfStep(eti, pkt, raw).Some?
      modifies this
      ensures Stored(eti) && AfStep(old(eti), pkt, raw) == Some(AfResult(eti, frames))
    {
      hide CheckCrc, AfTags, Decode, Fits, Complete, FrameWords, Frame, Stored, InRange;
      frames := [];
      StoredSizes(eti);
      var verdict := CheckAf(tab, pkt);
      if verdict.Tags? {
        ghost var before := eti.(nst := 0);
        DecodeStored(before, verdict.tags);
        var ok := DecodeTagPacket(verdict.tags);
        StoredSizes(eti);
        if ok {
          var frame := AssembleEtiFrame(tab, eti, raw);
          if frame.Some? {
            frames := [frame.value];
          }
        }
      }
    }
  }
}
