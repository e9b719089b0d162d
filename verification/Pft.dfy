/** What pf_parser.c promises: PFT fragments (ETSI TS 102 821, section 7) arriving in any order are
    collected in eight slots chosen by Pseq % 8; a slot is handed out when another Pseq claims it.
    The abstract collector is a map from fragment index to payload; class PftHandler.AfBuilders refines it. */
module Pft {
  import opened Arith
  import opened Bits
  import opened Crc
  import opened Fec

  /** The header fields that all fragments of a run share. */
  datatype Header = Header(fcount: nat, fec: bool, addr: bool, rsk: byte, rsz: byte, source: nat, dest: nat)

  datatype Fragment = Fragment(pseq: nat, findex: nat, header: Header, payload: seq<byte>)

  datatype Slot = Slot(pseq: nat, frags: map<nat, seq<byte>>)

  /** Idle: nothing accepted yet. Running: one header configuration since the counters were zero.
      Stale: reconfigured while some counter was not zero. */
  datatype State = Idle | Running(slots: seq<Slot>) | Stale

  const SLOTS: nat := 8

  /** The length of a coded chunk. */
  function ChunkSize(h: Header): (n: nat)
    ensures n > 0
  {
    h.rsk as nat + 48
  }

  function CMax(h: Header, s: nat): nat {
    if h.fec then (h.fcount * s) / ChunkSize(h) else 0
  }

  function RxMin(h: Header, s: nat): int {
    if h.fec && s > 0 then h.fcount - (CMax(h, s) * 48) / s else h.fcount
  }

  /** The test before decoding: enough fragments, and with FEC one more unless the last is missing. */
  predicate Ready(h: Header, s: nat, frags: map<nat, seq<byte>>) {
    |frags| >= RxMin(h, s) && (!h.fec || |frags| > RxMin(h, s) || h.fcount - 1 !in frags)
  }

  /** All collected payloads in index order. */
  ghost function Join(frags: map<nat, seq<byte>>, n: nat): seq<byte> {
    if n == 0 then [] else Join(frags, n - 1) + if n - 1 in frags then frags[n - 1] else []
  }

  ghost function Rows(h: Header, s: nat, have: set<nat>): (rows: seq<seq<nat>>)
    ensures |rows| == CMax(h, s)
  {
    seq(CMax(h, s), c requires 0 <= c < CMax(h, s) => Row(h.fcount, s, ChunkSize(h), have, c, h.fcount))
  }

  /** The AF packet rebuilt from the collected fragments. */
  ghost function Rebuilt(rs: RsDecoder, h: Header, s: nat, frags: map<nat, seq<byte>>): seq<byte>
    requires h.fec ==> h.rsk <= 207 && h.fcount > 0
  {
    if !h.fec then Join(frags, h.fcount)
    else
      var data := Decoded(rs, h.rsk, Block(h.fcount, s, frags), Rows(h, s, frags.Keys));
      if |data| >= h.rsz as nat then data[..|data| - h.rsz] else []
  }

  /** An AF packet is passed on when it has a header and its CRC, if flagged, is right. */
  ghost predicate Accepted(af: seq<byte>) {
    |af| >= 12 && (af[8] < 128 || CheckCrc(af))
  }

  ghost function Result(rs: RsDecoder, h: Header, s: nat, frags: map<nat, seq<byte>>): Option<seq<byte>>
    requires h.fec ==> h.rsk <= 207 && h.fcount > 0
  {
    if Ready(h, s, frags) && Accepted(Rebuilt(rs, h, s, frags)) then Some(Rebuilt(rs, h, s, frags)) else None
  }

  // ----- the abstract collector -----

  predicate Evicts(slots: seq<Slot>, pf: Fragment)
    requires |slots| == SLOTS
  {
    slots[pf.pseq % SLOTS].pseq != pf.pseq
  }

  function Push(slots: seq<Slot>, pf: Fragment): (r: seq<Slot>)
    requires |slots| == SLOTS
    ensures |r| == SLOTS
  {
    var k := pf.pseq % SLOTS;
    if Evicts(slots, pf) then slots[k := Slot(pf.pseq, map[pf.findex := pf.payload])]
    else if pf.findex in slots[k].frags then slots
    else slots[k := Slot(pf.pseq, slots[k].frags[pf.findex := pf.payload])]
  }

  /** The slots a configuring fragment sets up: its own, and others under numbers they can never collect. */
  function Start(pf: Fragment): (r: seq<Slot>)
    ensures |r| == SLOTS
  {
    seq(SLOTS, i requires 0 <= i < SLOTS => Slot(if i == pf.pseq % SLOTS then pf.pseq else i + 1, map[]))
  }

  ghost function After(slots: seq<Slot>, pfs: seq<Fragment>): (r: seq<Slot>)
    requires |slots| == SLOTS
    ensures |r| == SLOTS
  {
    if pfs == [] then slots else Push(After(slots, pfs[..|pfs| - 1]), pfs[|pfs| - 1])
  }

  /** The AF packets collected under Pseq p that a run hands out, in order. */
  ghost function HandedOut(p: nat, rs: RsDecoder, h: Header, s: nat, slots: seq<Slot>, pfs: seq<Fragment>)
    : seq<seq<byte>>
    requires |slots| == SLOTS
    requires h.fec ==> h.rsk <= 207 && h.fcount > 0
  {
    if pfs == [] then []
    else
      var init, last := pfs[..|pfs| - 1], pfs[|pfs| - 1];
      var slot := After(slots, init)[last.pseq % SLOTS];
      HandedOut(p, rs, h, s, slots, init) +
      if last.pseq != slot.pseq == p && p % SLOTS == last.pseq % SLOTS && Result(rs, h, s, slot.frags).Some?
      then [Result(rs, h, s, slot.frags).value] else []
  }

  // ----- everything a run hands out -----

  /** An AF packet with the Pseq it was collected under. */
  datatype Delivery = Delivery(pseq: nat, af: seq<byte>)

  /** All AF packets that a run hands out, in order. */
  ghost function Delivered(rs: RsDecoder, h: Header, s: nat, slots: seq<Slot>, pfs: seq<Fragment>): seq<Delivery>
    requires |slots| == SLOTS
    requires h.fec ==> h.rsk <= 207 && h.fcount > 0
  {
    if pfs == [] then []
    else
      var init, last := pfs[..|pfs| - 1], pfs[|pfs| - 1];
      var slot := After(slots, init)[last.pseq % SLOTS];
      Delivered(rs, h, s, slots, init) +
      if last.pseq != slot.pseq && Result(rs, h, s, slot.frags).Some?
      then [Delivery(slot.pseq, Result(rs, h, s, slot.frags).value)] else []
  }

  ghost function Under(p: nat, ds: seq<Delivery>): seq<seq<byte>> {
    if ds == [] then []
    else Under(p, ds[..|ds| - 1]) + if ds[|ds| - 1].pseq == p then [ds[|ds| - 1].af] else []
  }

  /** Only fragments that belong to a slot are collected in it. */
  ghost predicate Sorted(slots: seq<Slot>)
    requires |slots| == SLOTS
  {
    forall i: nat :: i < SLOTS ==> slots[i].pseq % SLOTS == i || slots[i].frags == map[]
  }

  lemma {:induction false} AfterSorted(slots: seq<Slot>, pfs: seq<Fragment>)
    requires |slots| == SLOTS && Sorted(slots)
    ensures Sorted(After(slots, pfs))
  {
    if pfs != [] { AfterSorted(slots, pfs[..|pfs| - 1]); }
  }

  /** What is handed out under p is p's share of everything handed out. */
  lemma {:induction false} ShareOfDelivered(p: nat, rs: RsDecoder, h: Header, s: nat, slots: seq<Slot>,
      pfs: seq<Fragment>)
    requires |slots| == SLOTS && Sorted(slots)
    requires h.fec ==> h.rsk <= 207 && h.fcount > 0
    requires Result(rs, h, s, map[]) == None
    ensures Under(p, Delivered(rs, h, s, slots, pfs)) == HandedOut(p, rs, h, s, slots, pfs)
  {
    hide Result;
    if pfs != [] {
      var init, last := pfs[..|pfs| - 1], pfs[|pfs| - 1];
      ShareOfDelivered(p, rs, h, s, slots, init);
      AfterSorted(slots, init);
      var slot := After(slots, init)[last.pseq % SLOTS];
      var before, all := Delivered(rs, h, s, slots, init), Delivered(rs, h, s, slots, pfs);
      assert all != before ==> all[..|all| - 1] == before;
    }
  }

  lemma {:induction false} UnderNone(p: nat, ds: seq<Delivery>)
    requires Under(p, ds) == []
    ensures forall k :: 0 <= k < |ds| ==> ds[k].pseq != p
  {
    if ds != [] { UnderNone(p, ds[..|ds| - 1]); }
  }

  lemma {:induction false} UnderOne(p: nat, ds: seq<Delivery>, af: seq<byte>) returns (i: nat)
    requires Under(p, ds) == [af]
    ensures i < |ds| && ds[i] == Delivery(p, af) && forall k :: 0 <= k < |ds| && k != i ==> ds[k].pseq != p
  {
    var init, last := ds[..|ds| - 1], ds[|ds| - 1];
    if last.pseq == p {
      i := |ds| - 1;
      assert |Under(p, ds)| == |Under(p, init)| + 1;
      UnderNone(p, init);
      assert Under(p, ds)[0] == last.af;
    } else {
      i := UnderOne(p, init, af);
    }
  }

  lemma {:induction false} AllUnder(p: nat, ds: seq<Delivery>)
    requires forall k :: 0 <= k < |ds| ==> ds[k].pseq == p
    ensures |Under(p, ds)| == |ds| && (ds != [] ==> Under(p, ds)[0] == ds[0].af)
  {
    if ds != [] { AllUnder(p, ds[..|ds| - 1]); }
  }

  ghost function Pseqs(pfs: seq<Fragment>): set<nat> {
    set e | e in pfs :: e.pseq
  }

  lemma PseqsStep(pfs: seq<Fragment>)
    requires pfs != []
    ensures Pseqs(pfs) == Pseqs(pfs[..|pfs| - 1]) + {pfs[|pfs| - 1].pseq}
  {
    var init, last := pfs[..|pfs| - 1], pfs[|pfs| - 1];
    assert pfs == init + [last];
    assert forall e :: e in pfs <==> e in init || e == last;
  }

  /** Nothing is handed out under a Pseq that no fragment carried. */
  lemma {:induction false} DeliveredNamed(rs: RsDecoder, h: Header, s: nat, slots: seq<Slot>, pfs: seq<Fragment>)
    requires |slots| == SLOTS && forall i :: 0 <= i < SLOTS ==> slots[i].frags == map[]
    requires h.fec ==> h.rsk <= 207 && h.fcount > 0
    requires Result(rs, h, s, map[]) == None
    ensures forall i: nat :: i < SLOTS ==>
      After(slots, pfs)[i].frags == map[] || After(slots, pfs)[i].pseq in Pseqs(pfs)
    ensures forall k :: 0 <= k < |Delivered(rs, h, s, slots, pfs)| ==>
      Delivered(rs, h, s, slots, pfs)[k].pseq in Pseqs(pfs)
  {
    if pfs != [] {
      PseqsStep(pfs);
      DeliveredNamed(rs, h, s, slots, pfs[..|pfs| - 1]);
      hide Result, Pseqs;
    }
  }

  // ----- delivery over whole runs -----

  ghost function Indices(p: nat, pfs: seq<Fragment>): set<nat> {
    set e | e in pfs && e.pseq == p :: e.findex
  }

  lemma IndicesStep(p: nat, pfs: seq<Fragment>)
    requires pfs != []
    ensures var last := pfs[|pfs| - 1];
            Indices(p, pfs) == Indices(p, pfs[..|pfs| - 1]) + if last.pseq == p then {last.findex} else {}
  {
    var init, last := pfs[..|pfs| - 1], pfs[|pfs| - 1];
    assert pfs == init + [last];
    assert forall e :: e in pfs <==> e in init || e == last;
  }

  ghost function Parts(parts: seq<seq<byte>>, have: set<nat>): map<nat, seq<byte>>
    requires forall i :: i in have ==> i < |parts|
  {
    map i | i in have :: parts[i]
  }

  /** Every fragment that falls into p's slot is one of p's own parts. */
  ghost predicate OnlyPartsOf(p: nat, parts: seq<seq<byte>>, pfs: seq<Fragment>) {
    forall e :: e in pfs && e.pseq % SLOTS == p % SLOTS
      ==> e.pseq == p && e.findex < |parts| && e.payload == parts[e.findex]
  }

  /** The slot does not hold fragments under Pseq p. */
  ghost predicate Clear(p: nat, slots: seq<Slot>)
    requires |slots| == SLOTS
  {
    slots[p % SLOTS].pseq == p ==> slots[p % SLOTS].frags == map[]
  }

  /** While only p's fragments reach its slot, the slot holds exactly the set received so far, and nothing
      collected under p is handed out. */
  lemma {:induction false} Collecting(p: nat, parts: seq<seq<byte>>, rs: RsDecoder, h: Header, s: nat,
      slots: seq<Slot>, pfs: seq<Fragment>)
    requires |slots| == SLOTS && Clear(p, slots) && OnlyPartsOf(p, parts, pfs)
    requires h.fec ==> h.rsk <= 207 && h.fcount > 0
    ensures forall i :: i in Indices(p, pfs) ==> i < |parts|
    ensures HandedOut(p, rs, h, s, slots, pfs) == []
    ensures var slot := After(slots, pfs)[p % SLOTS];
            slot == Slot(p, Parts(parts, Indices(p, pfs)))
            || (slot == slots[p % SLOTS] && Indices(p, pfs) == {})
  {
    if pfs == [] {
    } else {
      var init, last := pfs[..|pfs| - 1], pfs[|pfs| - 1];
      Collecting(p, parts, rs, h, s, slots, init);
      IndicesStep(p, pfs);
      assert last in pfs;
      PartKept(p, parts, After(slots, init), slots[p % SLOTS], Indices(p, init), last);
    }
  }

  lemma PartKept(p: nat, parts: seq<seq<byte>>, slots: seq<Slot>, was: Slot, have: set<nat>, e: Fragment)
    requires |slots| == SLOTS && (was.pseq == p ==> was.frags == map[]) && forall i :: i in have ==> i < |parts|
    requires e.pseq % SLOTS == p % SLOTS ==> e.pseq == p && e.findex < |parts| && e.payload == parts[e.findex]
    requires slots[p % SLOTS] == Slot(p, Parts(parts, have)) || (slots[p % SLOTS] == was && have == {})
    ensures var slot, now := Push(slots, e)[p % SLOTS], have + if e.pseq == p then {e.findex} else {};
            slot == Slot(p, Parts(parts, now)) || (slot == was && now == {})
  {
    var before := slots[p % SLOTS];
    if e.pseq == p == before.pseq && e.findex !in before.frags {
      assert Parts(parts, have + {e.findex}) == before.frags[e.findex := e.payload];
    }
  }

  lemma {:induction false} Untouched(p: nat, rs: RsDecoder, h: Header, s: nat, slots: seq<Slot>, pfs: seq<Fragment>)
    requires |slots| == SLOTS && Clear(p, slots)
    requires h.fec ==> h.rsk <= 207 && h.fcount > 0
    requires forall e :: e in pfs ==> e.pseq != p
    requires Result(rs, h, s, map[]) == None
    ensures Clear(p, After(slots, pfs)) && HandedOut(p, rs, h, s, slots, pfs) == []
  {
    if pfs != [] {
      assert pfs[|pfs| - 1] in pfs;
      Untouched(p, rs, h, s, slots, pfs[..|pfs| - 1]);
    }
  }

  lemma {:induction false} RunConcat(p: nat, rs: RsDecoder, h: Header, s: nat, slots: seq<Slot>,
      a: seq<Fragment>, b: seq<Fragment>)
    requires |slots| == SLOTS
    requires h.fec ==> h.rsk <= 207 && h.fcount > 0
    ensures After(slots, a + b) == After(After(slots, a), b)
    ensures HandedOut(p, rs, h, s, slots, a + b)
         == HandedOut(p, rs, h, s, slots, a) + HandedOut(p, rs, h, s, After(slots, a), b)
  {
    hide Push, Result;
    if b == [] {
      assert a + b == a;
    } else {
      RunConcat(p, rs, h, s, slots, a, b[..|b| - 1]);
      assert (a + b)[..|a + b| - 1] == a + b[..|b| - 1];
    }
  }

  /** One decision for the fragments of p: over a whole run in which p's fragments, in any order and multiplicity and
      interleaved with other slots, come before a different congruent Pseq q and never after it, what is handed out
      under p is what the set received rebuilds: nothing before q, that at q, nothing more behind q. */
  lemma DecidedOnce(p: nat, parts: seq<seq<byte>>, rs: RsDecoder, h: Header, s: nat, slots: seq<Slot>,
      pre: seq<Fragment>, mid: seq<Fragment>, q: Fragment, post: seq<Fragment>)
    requires |slots| == SLOTS && Clear(p, slots)
    requires h.fec ==> h.rsk <= 207 && h.fcount > 0
    requires (forall e :: e in pre ==> e.pseq != p) && (forall e :: e in post ==> e.pseq != p)
    requires OnlyPartsOf(p, parts, mid)
    requires q.pseq != p && q.pseq % SLOTS == p % SLOTS
    requires Result(rs, h, s, map[]) == None
    ensures forall i :: i in Indices(p, mid) ==> i < |parts|
    ensures HandedOut(p, rs, h, s, slots, pre + mid) == []
    ensures HandedOut(p, rs, h, s, slots, pre + mid + [q]) == HandedOut(p, rs, h, s, slots, pre + mid + [q] + post)
    ensures HandedOut(p, rs, h, s, slots, pre + mid + [q] + post)
         == Maybe(Result(rs, h, s, Parts(parts, Indices(p, mid))))
  {
    var st := After(slots, pre);
    Untouched(p, rs, h, s, slots, pre);
    RunConcat(p, rs, h, s, slots, pre, mid);
    Collecting(p, parts, rs, h, s, st, mid);
    hide HandedOut, Result, OnlyPartsOf;
    Claimed(p, parts, rs, h, s, slots, pre + mid, Indices(p, mid), q);
    RunConcat(p, rs, h, s, slots, pre + mid + [q], post);
    Untouched(p, rs, h, s, After(slots, pre + mid + [q]), post);
  }

  function Maybe(r: Option<seq<byte>>): seq<seq<byte>> {
    match r case Some(af) => [af] case None => []
  }

  lemma Claimed(p: nat, parts: seq<seq<byte>>, rs: RsDecoder, h: Header, s: nat, slots: seq<Slot>,
      a: seq<Fragment>, have: set<nat>, q: Fragment)
    requires |slots| == SLOTS && q.pseq != p && q.pseq % SLOTS == p % SLOTS
    requires h.fec ==> h.rsk <= 207 && h.fcount > 0
    requires (forall i :: i in have ==> i < |parts|) && HandedOut(p, rs, h, s, slots, a) == []
    requires Result(rs, h, s, map[]) == None
    requires var slot := After(slots, a)[p % SLOTS];
             slot == Slot(p, Parts(parts, have)) || (have == {} && (slot.pseq == p ==> slot.frags == map[]))
    ensures HandedOut(p, rs, h, s, slots, a + [q]) == Maybe(Result(rs, h, s, Parts(parts, have)))
    ensures Clear(p, After(slots, a + [q]))
  {
    hide Result;
    assert (a + [q])[..|a + [q]| - 1] == a;
    assert have == {} ==> Parts(parts, have) == map[];
  }

  ghost function FullMap(parts: seq<seq<byte>>): map<nat, seq<byte>> {
    map i | 0 <= i < |parts| :: parts[i]
  }

  /** Exactly once: when all of p's fragments arrive, what they rebuild together is handed out once, at q, over the
      whole run. */
  lemma ExactlyOnce(p: nat, parts: seq<seq<byte>>, rs: RsDecoder, h: Header, s: nat, slots: seq<Slot>,
      pre: seq<Fragment>, mid: seq<Fragment>, q: Fragment, post: seq<Fragment>)
    requires |slots| == SLOTS && Clear(p, slots)
    requires h.fec ==> h.rsk <= 207 && h.fcount > 0
    requires (forall e :: e in pre ==> e.pseq != p) && (forall e :: e in post ==> e.pseq != p)
    requires OnlyPartsOf(p, parts, mid)
    requires forall i :: 0 <= i < |parts| ==> i in Indices(p, mid)
    requires q.pseq != p && q.pseq % SLOTS == p % SLOTS
    requires Result(rs, h, s, map[]) == None
    ensures HandedOut(p, rs, h, s, slots, pre + mid) == []
    ensures HandedOut(p, rs, h, s, slots, pre + mid + [q]) == Maybe(Result(rs, h, s, FullMap(parts)))
    ensures HandedOut(p, rs, h, s, slots, pre + mid + [q] + post) == Maybe(Result(rs, h, s, FullMap(parts)))
  {
    hide HandedOut, Result, OnlyPartsOf, Indices;
    DecidedOnce(p, parts, rs, h, s, slots, pre, mid, q, post);
    assert Parts(parts, Indices(p, mid)) == FullMap(parts);
  }

  /** The numbers i + 1 given to unused slots never match their slot: after a configuration only the configuring
      fragment's own Pseq finds its slot under its number, and every other Pseq starts afresh. */
  lemma StartIsClear(p: nat, pf: Fragment)
    ensures p != p % SLOTS + 1
    ensures Start(pf)[p % SLOTS].pseq == p <==> p == pf.pseq
    ensures Clear(p, Start(pf))
  {
  }

  // ----- without FEC -----

  /** Fragment i of an AF packet cut into pieces of s bytes. */
  function Piece(af: seq<byte>, s: nat, i: nat): seq<byte> {
    if i * s >= |af| then []
    else if |af| - i * s <= s then af[i * s..]
    else af[i * s..i * s + s]
  }

  ghost function Pieces(af: seq<byte>, s: nat, f: nat): (r: seq<seq<byte>>)
    ensures |r| == f
  {
    seq(f, i requires 0 <= i < f => Piece(af, s, i))
  }

  lemma {:induction false} JoinPieces(af: seq<byte>, s: nat, f: nat, n: nat)
    requires n <= f
    ensures Join(FullMap(Pieces(af, s, f)), n) == Prefix(af, n * s)
  {
    hide FullMap, Pieces, Piece, Prefix;
    if n == 0 {
      PrefixZero(af);
    } else {
      JoinPieces(af, s, f, n - 1);
      PieceAt(af, s, f, n - 1);
      PieceExtends(af, s, n - 1, (n - 1) * s);
      Predecessor(n, s);
    }
  }

  lemma PrefixZero(af: seq<byte>)
    ensures Prefix(af, 0) == []
  {
  }

  lemma PieceAt(af: seq<byte>, s: nat, f: nat, i: nat)
    requires i < f
    ensures i in FullMap(Pieces(af, s, f)) && FullMap(Pieces(af, s, f))[i] == Piece(af, s, i)
  {
  }

  lemma PieceExtends(af: seq<byte>, s: nat, i: nat, b: nat)
    requires b == i * s
    ensures Prefix(af, b) + Piece(af, s, i) == Prefix(af, b + s)
  {
  }

  ghost function Prefix(af: seq<byte>, n: nat): seq<byte> {
    if n <= |af| then af[..n] else af
  }

  lemma {:induction false} FullMapSize(parts: seq<seq<byte>>)
    ensures |FullMap(parts)| == |parts|
  {
    var n := |parts|;
    if n > 0 {
      FullMapSize(parts[..n - 1]);
      assert FullMap(parts) == FullMap(parts[..n - 1])[n - 1 := parts[n - 1]];
    }
  }

  lemma FullMapHasLast(parts: seq<seq<byte>>)
    requires parts != []
    ensures |parts| - 1 in FullMap(parts)
  {
  }

  lemma ResultWithoutFec(af: seq<byte>, rs: RsDecoder, h: Header, s: nat)
    requires !h.fec && |af| <= h.fcount * s && Accepted(af)
    ensures Result(rs, h, s, FullMap(Pieces(af, s, h.fcount))) == Some(af)
  {
    JoinPieces(af, s, h.fcount, h.fcount);
    assert af[..|af|] == af;
    FullMapSize(Pieces(af, s, h.fcount));
  }

  /** Delivery without FEC: an AF packet with a valid CRC cut into f pieces of s bytes comes back with exactly
      its own bytes, exactly once, over any run that starts on a zeroed handle. */
  lemma DeliveredWithoutFec(af: seq<byte>, p: nat, rs: RsDecoder, h: Header, s: nat, first: Fragment,
      pre: seq<Fragment>, mid: seq<Fragment>, q: Fragment, post: seq<Fragment>)
    requires !h.fec && h.fcount > 0 && |af| <= h.fcount * s && Accepted(af)
    requires (forall e :: e in pre ==> e.pseq != p) && (forall e :: e in post ==> e.pseq != p)
    requires OnlyPartsOf(p, Pieces(af, s, h.fcount), mid)
    requires forall i :: 0 <= i < h.fcount ==> i in Indices(p, mid)
    requires q.pseq != p && q.pseq % SLOTS == p % SLOTS
    ensures HandedOut(p, rs, h, s, Start(first), pre + mid) == []
    ensures HandedOut(p, rs, h, s, Start(first), pre + mid + [q]) == [af]
    ensures HandedOut(p, rs, h, s, Start(first), pre + mid + [q] + post) == [af]
  {
    hide Rebuilt, Ready, Accepted, Indices, OnlyPartsOf, HandedOut, FullMap;
    StartIsClear(p, first);
    ResultWithoutFec(af, rs, h, s);
    EmptySlotSilent(rs, h, s);
    ExactlyOnce(p, Pieces(af, s, h.fcount), rs, h, s, Start(first), pre, mid, q, post);
  }

  /** Loss without FEC: if one fragment never arrives before q, nothing is ever handed out, whatever the others hold. */
  lemma LostWithoutFec(parts: seq<seq<byte>>, p: nat, rs: RsDecoder, h: Header, s: nat, first: Fragment,
      pre: seq<Fragment>, mid: seq<Fragment>, q: Fragment, post: seq<Fragment>, lost: nat)
    requires !h.fec && |parts| == h.fcount && lost < h.fcount && lost !in Indices(p, mid)
    requires (forall e :: e in pre ==> e.pseq != p) && (forall e :: e in post ==> e.pseq != p)
    requires OnlyPartsOf(p, parts, mid)
    requires q.pseq != p && q.pseq % SLOTS == p % SLOTS
    ensures HandedOut(p, rs, h, s, Start(first), pre + mid + [q] + post) == []
  {
    hide Rebuilt, Accepted, Indices, OnlyPartsOf, HandedOut;
    StartIsClear(p, first);
    EmptySlotSilent(rs, h, s);
    DecidedOnce(p, parts, rs, h, s, Start(first), pre, mid, q, post);
    var have := Indices(p, mid);
    MissingCount(have, h.fcount);
    if Missing(have, h.fcount) == 0 { NoneMissing(have, h.fcount, lost); }
    assert Parts(parts, have).Keys == have;
  }

  // ----- with FEC -----

  /** Fragments that carry an RS packet column-wise. */
  ghost predicate IsSpread(parts: seq<seq<byte>>, f: nat, s: nat, packet: seq<byte>) {
    |parts| == f && forall j: nat :: j < f ==> CarriesColumn(f, s, packet, j, parts[j])
  }

  ghost function Spreads(f: nat, s: nat, packet: seq<byte>): (r: seq<seq<byte>>)
    ensures |r| == f
  {
    seq(f, j requires 0 <= j < f => Spread(f, s, packet, j))
  }

  /** The test before decoding, in numbers: without FEC nothing is missing. With FEC what is missing is no more than the
      check bytes of all chunks, and if the last fragment arrived they have room for one fragment more. */
  lemma ReadyIff(h: Header, s: nat, frags: map<nat, seq<byte>>, m: nat)
    requires (h.fec ==> s > 0) && h.fcount == |frags| + m
    ensures Ready(h, s, frags) <==>
      if !h.fec then m == 0
      else m * s <= 48 * CMax(h, s) && (h.fcount - 1 in frags ==> (m + 1) * s <= 48 * CMax(h, s))
  {
    hide CMax;
    if h.fec {
      AtMostIff(m, s, 48 * CMax(h, s));
      AtMostIff(m + 1, s, 48 * CMax(h, s));
    }
  }

  lemma AtMostIff(m: nat, s: nat, x: nat)
    requires s > 0
    ensures m <= x / s <==> m * s <= x
  {
    if m * s <= x { DivAtLeast(x, s, m); } else { DivBelow(x, s, m); }
  }

  /** With every fragment present the decoder is reached exactly when 48 * cmax >= s: the test asks for one
      fragment more than the minimum because the last one is present. */
  lemma ReadyWhenComplete(h: Header, s: nat, frags: map<nat, seq<byte>>)
    requires h.fec && s > 0 && h.fcount > 0 && |frags| == h.fcount && h.fcount - 1 in frags
    ensures Ready(h, s, frags) <==> 48 * CMax(h, s) >= s
  {
    ReadyIff(h, s, frags, 0);
  }

  /** Ten fragments of 51 bytes in two chunks of 255: nine without the last are tried, nine with it are not. */
  lemma ReadyExample(frags: map<nat, seq<byte>>)
    requires |frags| == 9
    ensures var h := Header(10, true, false, 207, 0, 0, 0);
            CMax(h, 51) == 2 && (Ready(h, 51, frags) <==> 9 !in frags)
  {
    ReadyIff(Header(10, true, false, 207, 0, 0, 0), 51, frags, 1);
  }

  /** With every fragment present, deinterleaving and decoding give the AF packet back. */
  lemma RebuiltComplete(rs: RsDecoder, parity: Parity, h: Header, s: nat, chunks: seq<seq<byte>>,
      parts: seq<seq<byte>>)
    requires IsSpread(parts, h.fcount, s, Encoded(parity, chunks))
    requires h.fec && 0 < h.fcount <= ChunkSize(h) && h.rsk <= 207 && FixesCodewords(rs, parity)
    requires AllOfLength(chunks, h.rsk) && s == (|chunks| * ChunkSize(h) + h.fcount - 1) / h.fcount
    requires |Flatten(chunks)| >= h.rsz as nat
    ensures CMax(h, s) == |chunks|
    ensures Rebuilt(rs, h, s, FullMap(parts)) == Flatten(chunks)[..|Flatten(chunks)| - h.rsz]
  {
    hide FixesCodewords, AllOfLength, Rebuilt, IsSpread;
    Geometry(parity, h, s, chunks);
    hide *;
    RebuiltFrom(rs, parity, h, s, chunks, parts);
  }

  lemma Geometry(parity: Parity, h: Header, s: nat, chunks: seq<seq<byte>>)
    requires h.fec && 0 < h.fcount <= ChunkSize(h) && AllOfLength(chunks, h.rsk)
    requires s == (|chunks| * ChunkSize(h) + h.fcount - 1) / h.fcount
    ensures CMax(h, s) == |chunks| && |Encoded(parity, chunks)| <= h.fcount * s
  {
    var n := ChunkSize(h);
    ChunkCount(|chunks|, n, h.fcount, s);
    EncodedLength(parity, chunks, h.rsk);
  }

  lemma RebuiltFrom(rs: RsDecoder, parity: Parity, h: Header, s: nat, chunks: seq<seq<byte>>, parts: seq<seq<byte>>)
    requires IsSpread(parts, h.fcount, s, Encoded(parity, chunks))
    requires h.fec && 0 < h.fcount && h.rsk <= 207 && FixesCodewords(rs, parity)
    requires AllOfLength(chunks, h.rsk) && CMax(h, s) == |chunks|
    requires |Encoded(parity, chunks)| <= h.fcount * s && |Flatten(chunks)| >= h.rsz as nat
    ensures Rebuilt(rs, h, s, FullMap(parts)) == Flatten(chunks)[..|Flatten(chunks)| - h.rsz]
  {
    hide FixesCodewords, AllOfLength, Decoded, FullMap, Block, Encoded, Flatten, IsSpread;
    var f, packet := h.fcount, Encoded(parity, chunks);
    var frags := FullMap(parts);
    SpreadBlock(f, s, packet, parts);
    NoRows(h, s, frags.Keys);
    RebuiltIntact(rs, parity, h.rsk, chunks, Block(f, s, frags), packet, Rows(h, s, frags.Keys));
  }

  lemma SpreadBlock(f: nat, s: nat, packet: seq<byte>, parts: seq<seq<byte>>)
    requires f > 0 && |packet| <= f * s && IsSpread(parts, f, s, packet)
    ensures forall i :: 0 <= i < f ==> i in FullMap(parts).Keys
    ensures Block(f, s, FullMap(parts))[..|packet|] == packet
  {
    hide CarriesColumn;
    BlockOfSpread(f, s, packet, FullMap(parts));
  }

  lemma NoRows(h: Header, s: nat, have: set<nat>)
    requires forall i :: 0 <= i < h.fcount ==> i in have
    ensures AllOfLength(Rows(h, s, have), 0)
  {
    forall c | 0 <= c < CMax(h, s) ensures |Rows(h, s, have)[c]| == 0 {
      RowEmpty(h.fcount, s, ChunkSize(h), have, c, h.fcount);
    }
  }

  lemma RebuiltIntact(rs: RsDecoder, parity: Parity, k: nat, chunks: seq<seq<byte>>, block: seq<byte>,
      packet: seq<byte>, rows: seq<seq<nat>>)
    requires k <= 207 && AllOfLength(chunks, k) && FixesCodewords(rs, parity)
    requires |rows| == |chunks| && AllOfLength(rows, 0)
    requires packet == Encoded(parity, chunks) && |packet| <= |block| && block[..|packet|] == packet
    ensures Decoded(rs, k, block, rows) == Flatten(chunks)
  {
    hide FixesCodewords, AllOfLength, Decoded, Flatten, Encoded;
    assert block == packet + block[|packet|..];
    DecodedOfEncoded(rs, parity, k, chunks, block[|packet|..], rows);
  }

  /** The AF packet, padded with RSz bytes to whole chunks of RSk, makes fragments of length s. */
  ghost predicate CodedAs(af: seq<byte>, chunks: seq<seq<byte>>, h: Header, s: nat) {
    && h.fec && 0 < h.fcount <= ChunkSize(h) && h.rsk <= 207
    && AllOfLength(chunks, h.rsk) && |Flatten(chunks)| == |af| + h.rsz as nat && af <= Flatten(chunks)
    && s == (|chunks| * ChunkSize(h) + h.fcount - 1) / h.fcount
  }

  lemma ResultWithFec(af: seq<byte>, chunks: seq<seq<byte>>, rs: RsDecoder, parity: Parity, h: Header, s: nat,
      parts: seq<seq<byte>>)
    requires CodedAs(af, chunks, h, s) && Accepted(af) && FixesCodewords(rs, parity) && s > 0
    requires IsSpread(parts, h.fcount, s, Encoded(parity, chunks))
    ensures Result(rs, h, s, FullMap(parts)) == if 48 * |chunks| >= s then Some(af) else None
  {
    hide Accepted, AllOfLength, FixesCodewords, Rebuilt, Ready, FullMap, Result, Encoded, CarriesColumn;
    RebuiltComplete(rs, parity, h, s, chunks, parts);
    AllReady(h, s, parts);
    assert Flatten(chunks)[..|Flatten(chunks)| - h.rsz as nat] == af;
    ResultOf(rs, h, s, FullMap(parts), af);
  }

  lemma AllReady(h: Header, s: nat, parts: seq<seq<byte>>)
    requires h.fec && s > 0 && h.fcount > 0 && |parts| == h.fcount
    ensures Ready(h, s, FullMap(parts)) <==> 48 * CMax(h, s) >= s
  {
    FullMapSize(parts);
    FullMapHasLast(parts);
    ReadyWhenComplete(h, s, FullMap(parts));
  }

  lemma ResultOf(rs: RsDecoder, h: Header, s: nat, frags: map<nat, seq<byte>>, af: seq<byte>)
    requires h.fec ==> h.rsk <= 207 && h.fcount > 0
    requires Rebuilt(rs, h, s, frags) == af && Accepted(af)
    ensures Result(rs, h, s, frags) == if Ready(h, s, frags) then Some(af) else None
  {
  }

  /** Delivery with FEC and no loss: the AF packet, coded and spread column-wise, is handed out exactly once if
      48 * c >= s, and never otherwise. */
  lemma DeliveredWithFec(af: seq<byte>, chunks: seq<seq<byte>>, p: nat, rs: RsDecoder, parity: Parity, h: Header,
      s: nat, parts: seq<seq<byte>>, first: Fragment, pre: seq<Fragment>, mid: seq<Fragment>, q: Fragment,
      post: seq<Fragment>)
    requires CodedAs(af, chunks, h, s) && Accepted(af) && FixesCodewords(rs, parity)
    requires IsSpread(parts, h.fcount, s, Encoded(parity, chunks))
    requires (forall e :: e in pre ==> e.pseq != p) && (forall e :: e in post ==> e.pseq != p)
    requires OnlyPartsOf(p, parts, mid)
    requires forall i :: 0 <= i < h.fcount ==> i in Indices(p, mid)
    requires q.pseq != p && q.pseq % SLOTS == p % SLOTS
    ensures h.rsk <= 207 && h.fcount > 0
    ensures HandedOut(p, rs, h, s, Start(first), pre + mid) == []
    ensures HandedOut(p, rs, h, s, Start(first), pre + mid + [q]) == if 48 * |chunks| >= s then [af] else []
    ensures HandedOut(p, rs, h, s, Start(first), pre + mid + [q] + post) == if 48 * |chunks| >= s then [af] else []
  {
    assert |parts| == h.fcount;
    hide CodedAs, Rebuilt, Ready, Accepted, Indices, OnlyPartsOf, HandedOut, FullMap, FixesCodewords, Encoded, IsSpread;
    StartIsClear(p, first);
    CodedBounds(af, chunks, h, s);
    EmptySlotSilent(rs, h, s);
    ResultWithFec(af, chunks, rs, parity, h, s, parts);
    ExactlyOnce(p, parts, rs, h, s, Start(first), pre, mid, q, post);
  }

  lemma CodedBounds(af: seq<byte>, chunks: seq<seq<byte>>, h: Header, s: nat)
    requires CodedAs(af, chunks, h, s) && Accepted(af)
    ensures h.fec && h.rsk <= 207 && h.fcount > 0 && s > 0
  {
    assert |af| >= 12;
    hide Accepted, AllOfLength;
    SomeChunk(chunks, h, s);
  }

  lemma SomeChunk(chunks: seq<seq<byte>>, h: Header, s: nat)
    requires h.fcount > 0 && AllOfLength(chunks, h.rsk) && |Flatten(chunks)| > 0
    requires s == (|chunks| * ChunkSize(h) + h.fcount - 1) / h.fcount
    ensures |chunks| > 0 && s > 0
  {
    MulMono(1, |chunks|, ChunkSize(h));
    DivAtLeast(|chunks| * ChunkSize(h) + h.fcount - 1, h.fcount, 1);
  }

  /** A slot that holds nothing is never ready; without data bytes in a chunk it would be, but decodes to nothing. */
  lemma EmptySlotSilent(rs: RsDecoder, h: Header, s: nat)
    requires h.fcount > 0 && (h.fec ==> h.rsk <= 207 && s > 0)
    ensures Result(rs, h, s, map[]) == None
  {
    if h.fec && h.rsk == 0 {
      NoData(rs, h, s, map[]);
    } else if h.fec {
      EmptyNotReady(h, s);
    }
  }

  lemma EmptyNotReady(h: Header, s: nat)
    requires h.fec && h.fcount > 0 && s > 0 && h.rsk > 0
    ensures !Ready(h, s, map[])
  {
    // 48 * cmax < fcount * s, so the minimum is positive
    var c := CMax(h, s);
    DivMod(h.fcount * s, ChunkSize(h));
    MulMono(1, h.fcount, s);
    assert c * ChunkSize(h) == c * 48 + c * (h.rsk as nat);
    if c > 0 { MulMono(1, c, h.rsk as nat); }
    DivBelow(c * 48, s, h.fcount);
  }

  lemma NoData(rs: RsDecoder, h: Header, s: nat, frags: map<nat, seq<byte>>)
    requires h.fec && h.fcount > 0 && h.rsk == 0
    ensures Rebuilt(rs, h, s, frags) == []
  {
    hide Decoded;
    DivMod(h.fcount * s, ChunkSize(h));
    DecodedLength(rs, h.rsk, Block(h.fcount, s, frags), Rows(h, s, frags.Keys));
  }

  /** Loss within the threshold: what the erasure rows of a ready slot add up to. */
  lemma ReadyBoundsErasures(h: Header, s: nat, frags: map<nat, seq<byte>>)
    requires h.fec && h.fcount > 0 && s > 0 && LossInside(h.fcount, s, ChunkSize(h), frags.Keys, CMax(h, s), h.fcount)
    requires (forall i :: i in frags ==> i < h.fcount) && Ready(h, s, frags)
    ensures var lost := Erasures(h.fcount, s, ChunkSize(h), frags.Keys, CMax(h, s), h.fcount);
            lost == (h.fcount - |frags|) * s && lost <= 48 * CMax(h, s)
  {
    var n, c := ChunkSize(h), CMax(h, s);
    hide Ready, Erasures, ChunkSize, CMax, LossInside;
    assert |frags| == |frags.Keys|;
    MissingCount(frags.Keys, h.fcount);
    ErasuresTotal(h.fcount, s, n, frags.Keys, c, h.fcount);
    ReadyThreshold(h, s, frags);
    ThresholdBoundsLoss(h.fcount, s, c, |frags|);
  }

  lemma ReadyThreshold(h: Header, s: nat, frags: map<nat, seq<byte>>)
    requires h.fec && h.fcount > 0 && s > 0 && Ready(h, s, frags)
    ensures 48 * CMax(h, s) / s <= h.fcount && |frags| >= h.fcount - 48 * CMax(h, s) / s
  {
    var n, c := ChunkSize(h), CMax(h, s);
    assert RxMin(h, s) == h.fcount - (c * 48) / s;
    DivMod(h.fcount * s, n);
    hide ChunkSize, CMax, RxMin;
    MulMono(48, n, c);
    if h.fcount < (48 * c) / s {
      DivMod(48 * c, s);
      MulStrict(h.fcount, (48 * c) / s, s);
    }
  }

  // ----- a sender that meets the conditions of the delivery theorems -----

  /** All fragments of one packet, in order. */
  ghost function InOrder(p: nat, h: Header, parts: seq<seq<byte>>): (pfs: seq<Fragment>)
    ensures |pfs| == |parts|
  {
    seq(|parts|, i requires 0 <= i < |parts| => Fragment(p, i, h, parts[i]))
  }

  lemma InOrderComplete(p: nat, h: Header, parts: seq<seq<byte>>)
    ensures OnlyPartsOf(p, parts, InOrder(p, h, parts))
    ensures forall i :: 0 <= i < |parts| ==> i in Indices(p, InOrder(p, h, parts))
  {
    var pfs := InOrder(p, h, parts);
    forall i | 0 <= i < |parts| ensures i in Indices(p, pfs) {
      assert pfs[i] in pfs && pfs[i].findex == i && pfs[i].pseq == p;
    }
  }

  /** In order and with nothing else on the line, an AF packet arrives with the first fragment q of another packet that
      falls into its slot, and nothing else arrives. */
  lemma SentInOrder(af: seq<byte>, p: nat, rs: RsDecoder, h: Header, s: nat, q: Fragment)
    requires !h.fec && h.fcount > 0 && |af| <= h.fcount * s && Accepted(af)
    requires q.pseq != p && q.pseq % SLOTS == p % SLOTS && q.header == h && |q.payload| <= s
    ensures var pfs := InOrder(p, h, Pieces(af, s, h.fcount));
            Delivered(rs, h, s, Start(pfs[0]), pfs + [q]) == [Delivery(p, af)]
  {
    hide Accepted, OnlyPartsOf, Pieces, Indices, HandedOut, Result;
    var parts := Pieces(af, s, h.fcount);
    var pfs := InOrder(p, h, parts);
    InOrderComplete(p, h, parts);
    DeliveredWithoutFec(af, p, rs, h, s, pfs[0], [], pfs, q, []);
    assert [] + pfs + [q] == pfs + [q];
    EmptySlotSilent(rs, h, s);
    OnlyDelivery(Some(af), p, rs, h, s, pfs, q);
  }

  lemma OnlyDelivery(af: Option<seq<byte>>, p: nat, rs: RsDecoder, h: Header, s: nat, pfs: seq<Fragment>, q: Fragment)
    requires pfs != [] && (forall e :: e in pfs ==> e.pseq == p) && q.pseq != p && q.pseq % SLOTS == p % SLOTS
    requires h.fec ==> h.rsk <= 207 && h.fcount > 0
    requires Result(rs, h, s, map[]) == None
    requires HandedOut(p, rs, h, s, Start(pfs[0]), pfs + [q]) == Maybe(af)
    ensures Delivered(rs, h, s, Start(pfs[0]), pfs + [q]) == if af.Some? then [Delivery(p, af.value)] else []
  {
    hide Result, HandedOut, Delivered, After;
    var slots, all := Start(pfs[0]), pfs + [q];
    var ds := Delivered(rs, h, s, slots, all);
    ShareOfDelivered(p, rs, h, s, slots, all);
    ShareOfDelivered(q.pseq, rs, h, s, slots, all);
    LastIsKept(rs, h, s, pfs, q);
    UnderNone(q.pseq, ds);
    DeliveredNamed(rs, h, s, slots, all);
    assert forall e :: e in all ==> e.pseq == p || e.pseq == q.pseq;
    AllUnder(p, ds);
    if af.Some? { assert ds == [ds[0]] && Under(p, ds)[0] == ds[0].af; }
  }

  lemma LastIsKept(rs: RsDecoder, h: Header, s: nat, pfs: seq<Fragment>, q: Fragment)
    requires pfs != [] && (forall e :: e in pfs ==> e.pseq != q.pseq)
    requires h.fec ==> h.rsk <= 207 && h.fcount > 0
    requires Result(rs, h, s, map[]) == None
    ensures HandedOut(q.pseq, rs, h, s, Start(pfs[0]), pfs + [q]) == []
  {
    hide Result;
    StartIsClear(q.pseq, pfs[0]);
    Untouched(q.pseq, rs, h, s, Start(pfs[0]), pfs);
    assert (pfs + [q])[..|pfs|] == pfs;
  }

  lemma SpreadsAreSpread(f: nat, s: nat, packet: seq<byte>)
    ensures IsSpread(Spreads(f, s, packet), f, s, packet)
  {
  }

  /** The same with FEC, whatever decoder leaves codewords alone (by Fec.NoDecoderFixes also that of a program built
      without one): the packet comes back, or is refused although complete, as 48 * c compares with s. The fragment q
      has length s like all others, so it belongs to the same configuration. */
  lemma CodedSentInOrder(af: seq<byte>, chunks: seq<seq<byte>>, p: nat, rs: RsDecoder, parity: Parity, h: Header,
      s: nat, q: Fragment)
    requires CodedAs(af, chunks, h, s) && Accepted(af) && FixesCodewords(rs, parity)
    requires q.pseq != p && q.pseq % SLOTS == p % SLOTS && q.header == h && |q.payload| == s
    ensures var pfs := InOrder(p, h, Spreads(h.fcount, s, Encoded(parity, chunks)));
            Delivered(rs, h, s, Start(pfs[0]), pfs + [q])
              == if 48 * |chunks| >= s then [Delivery(p, af)] else []
  {
    hide CodedAs, Accepted, OnlyPartsOf, Spreads, Indices, HandedOut, Encoded, FixesCodewords, IsSpread, Result;
    SpreadsAreSpread(h.fcount, s, Encoded(parity, chunks));
    CodedBounds(af, chunks, h, s);
    var parts := Spreads(h.fcount, s, Encoded(parity, chunks));
    var pfs := InOrder(p, h, parts);
    InOrderComplete(p, h, parts);
    DeliveredWithFec(af, chunks, p, rs, parity, h, s, parts, pfs[0], [], pfs, q, []);
    assert [] + pfs + [q] == pfs + [q];
    EmptySlotSilent(rs, h, s);
    OnlyDelivery(if 48 * |chunks| >= s then Some(af) else None, p, rs, h, s, pfs, q);
  }

  /** The refusal happens: twelve bytes in one chunk, sent as one fragment of 60 bytes, make a packet that arrives
      complete and is never handed out. */
  lemma RefusedExample()
    ensures var zeros, h := seq(12, _ => 0), Header(1, true, false, 12, 0, 0, 0);
            CodedAs(zeros, [zeros], h, 60) && Accepted(zeros) && 48 * |[zeros]| < 60
  {
    OneChunk(seq(12, _ => 0));
  }

  lemma OneChunk(data: seq<byte>)
    ensures Flatten([data]) == data
  {
    assert [data][1..] == [];
  }
}
