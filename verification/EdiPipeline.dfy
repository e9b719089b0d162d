/** HandleEDIPacket of af_parser.c over a run of datagrams, and what it makes of a multiplex: the layers of PftHeader,
    PftHandler, EdiHandler, EtiTags and EtiFrame put together. */
module EdiPipeline {
  import opened Bits
  import opened Crc
  import opened EdiHandler
  import opened EtiFrame
  import opened EtiTags
  import opened PftHandler
  import opened PftHeader
  import Fec
  import Pft

  // ----- runs of AF packets -----

  /** The builder and all frames after a sequence of AF packets. */
  ghost function AfRun(b: Builder, afs: seq<seq<byte>>, raw: bool): (r: Option<AfResult>)
    requires Stored(b)
    ensures r.Some? ==> Stored(r.value.b)
    decreases |afs|
  {
    if afs == [] then Some(AfResult(b, []))
    else
      match AfStep(b, afs[0], raw)
      case None => None
      case Some(one) =>
        match AfRun(one.b, afs[1..], raw)
        case None => None
        case Some(rest) => Some(AfResult(rest.b, one.frames + rest.frames))
  }

  lemma {:induction false} AfRunConcat(b: Builder, xs: seq<seq<byte>>, ys: seq<seq<byte>>, raw: bool)
    requires Stored(b)
    ensures AfRun(b, xs + ys, raw).Some? ==> AfRun(b, xs, raw).Some?
    ensures AfRun(b, xs, raw).Some? ==>
              var x := AfRun(b, xs, raw).value;
              match AfRun(x.b, ys, raw)
              case None => AfRun(b, xs + ys, raw) == None
              case Some(y) => AfRun(b, xs + ys, raw) == Some(AfResult(y.b, x.frames + y.frames))
    decreases |xs|
  {
    hide AfStep, Stored;
    if xs == [] {
      assert xs + ys == ys;
      if AfRun(b, ys, raw).Some? { assert [] + AfRun(b, ys, raw).value.frames == AfRun(b, ys, raw).value.frames; }
    } else {
      assert (xs + ys)[1..] == xs[1..] + ys;
      var one := AfStep(b, xs[0], raw);
      if one.Some? {
        AfRunConcat(one.value.b, xs[1..], ys, raw);
        var x := AfRun(one.value.b, xs[1..], raw);
        if x.Some? && AfRun(x.value.b, ys, raw).Some? {
          ConcatAssoc(one.value.frames, x.value.frames, AfRun(x.value.b, ys, raw).value.frames);
        }
      }
    }
  }

  // ----- datagrams -----

  predicate IsPf(pkt: seq<byte>) {
    |pkt| >= 2 && pkt[0] == 'P' as int && pkt[1] == 'F' as int
  }

  predicate IsAf(pkt: seq<byte>) {
    |pkt| >= 2 && pkt[0] == 'A' as int && pkt[1] == 'F' as int
  }

  /** The fragment in a datagram, if it is one that HandlePFPacket accepts. */
  ghost function FragmentIn(pkt: seq<byte>): Option<Pft.Fragment> {
    if !IsPf(pkt) then None
    else
      match ReadFragment(pkt)
      case Complete(_, pf) => Some(pf)
      case _ => None
  }

  /** The fragments that a run of datagrams brings; short, damaged and foreign datagrams bring none. */
  ghost function Fragments(pkts: seq<seq<byte>>): (pfs: seq<Pft.Fragment>)
    ensures |pfs| <= |pkts|
  {
    if pkts == [] then []
    else
      Fragments(pkts[..|pkts| - 1]) +
      match FragmentIn(pkts[|pkts| - 1]) case Some(pf) => [pf] case None => []
  }

  lemma FragmentsStep(pkts: seq<seq<byte>>, k: nat)
    requires k < |pkts|
    ensures Fragments(pkts[..k + 1])
         == Fragments(pkts[..k]) + match FragmentIn(pkts[k]) case Some(pf) => [pf] case None => []
  {
    hide FragmentIn;
    assert pkts[..k + 1][..k] == pkts[..k];
  }

  /** What HandlePFPacket returns. */
  function BytesRead(r: Reading): int {
    match r
    case Malformed => -1
    case Incomplete => 0
    case Damaged(used) => used
    case Complete(used, _) => used
  }

  /** Where the loop over a datagram reads next, if it goes on: at the last length, not behind what it has read. */
  ghost function NextOffset(pkt: seq<byte>, at: nat): Option<nat>
    requires at <= |pkt|
  {
    var used := BytesRead(ReadFragment(pkt[at..]));
    if used > 0 && |pkt| > used then Some(used) else None
  }

  /** What is left in the datagram is not taken for another fragment. */
  ghost predicate OneFragment(pkt: seq<byte>) {
    IsPf(pkt) && NextOffset(pkt, 0).Some? ==> BytesRead(ReadFragment(pkt[NextOffset(pkt, 0).value..])) <= 0
  }

  /** Datagrams, AF packets and others among them, whose fragments may start on a zeroed handle. */
  ghost predicate StreamFits(pkts: seq<seq<byte>>) {
    (forall k :: 0 <= k < |pkts| ==> OneFragment(pkts[k])) && (Fragments(pkts) != [] ==> RunFits(Fragments(pkts)))
  }

  lemma {:induction false} FragmentsPrefix(pkts: seq<seq<byte>>, k: nat)
    requires k <= |pkts|
    ensures |Fragments(pkts[..k])| <= |Fragments(pkts)|
    ensures Fragments(pkts)[..|Fragments(pkts[..k])|] == Fragments(pkts[..k])
    decreases |pkts| - k
  {
    hide FragmentIn;
    if k < |pkts| {
      FragmentsPrefix(pkts, k + 1);
      FragmentsStep(pkts, k);
      var n, m := |Fragments(pkts[..k])|, |Fragments(pkts[..k + 1])|;
      assert Fragments(pkts)[..n] == Fragments(pkts)[..m][..n];
    } else {
      assert pkts[..k] == pkts;
    }
  }

  lemma StreamStep(pkts: seq<seq<byte>>, pfs: seq<Pft.Fragment>, k: nat, n: nat)
    requires k < |pkts| && pfs == Fragments(pkts) && n == |Fragments(pkts[..k])|
    ensures match FragmentIn(pkts[k])
            case Some(pf) => n < |pfs| && pfs[n] == pf && |Fragments(pkts[..k + 1])| == n + 1 <= |pfs|
            case None => |Fragments(pkts[..k + 1])| == n <= |pfs|
  {
    hide FragmentIn, Fragments;
    FragmentsStep(pkts, k);
    FragmentsPrefix(pkts, k);
    FragmentsPrefix(pkts, k + 1);
    if FragmentIn(pkts[k]).Some? {
      assert pfs[..n + 1][n] == Fragments(pkts[..k + 1])[n];
    }
  }

  /** All AF packets that a run of fragments makes the collector hand out. */
  ghost function AllReached(rs: Fec.RsDecoder, pfs: seq<Pft.Fragment>, n: nat): seq<seq<byte>>
    requires n <= |pfs| && (pfs != [] ==> RunFits(pfs))
  {
    if pfs == [] then [] else Reached(rs, pfs, n)
  }

  /** The AF packets that one datagram brings, behind n fragments: itself, or what its fragment makes the collector
      hand out. */
  ghost function Brought(rs: Fec.RsDecoder, pfs: seq<Pft.Fragment>, n: nat, pkt: seq<byte>): seq<seq<byte>>
    requires pfs != [] ==> RunFits(pfs)
  {
    if IsAf(pkt) then [pkt]
    else if FragmentIn(pkt).Some? && n < |pfs| then NewPacket(rs, pfs, n)
    else []
  }

  /** All AF packets that a run of datagrams brings, in order. */
  ghost function AfPackets(rs: Fec.RsDecoder, pfs: seq<Pft.Fragment>, pkts: seq<seq<byte>>): seq<seq<byte>>
    requires pfs != [] ==> RunFits(pfs)
  {
    if pkts == [] then []
    else
      var init := pkts[..|pkts| - 1];
      AfPackets(rs, pfs, init) + Brought(rs, pfs, |Fragments(init)|, pkts[|pkts| - 1])
  }

  lemma AfPacketsStep(rs: Fec.RsDecoder, pfs: seq<Pft.Fragment>, pkts: seq<seq<byte>>, k: nat)
    requires k < |pkts| && (pfs != [] ==> RunFits(pfs))
    ensures AfPackets(rs, pfs, pkts[..k + 1])
         == AfPackets(rs, pfs, pkts[..k]) + Brought(rs, pfs, |Fragments(pkts[..k])|, pkts[k])
  {
    hide Brought, RunFits;
    assert pkts[..k + 1][..k] == pkts[..k];
  }

  // ----- the handle -----

  class EdiReceiver {
    const afb: AfBuilders
    const edi: EdiHandle
    const crcTab: seq<nat>

    ghost predicate Valid()
      reads this, afb, edi
    {
      afb.Valid() && Stored(edi.eti) && IsTable(16, POLY, crcTab)
    }

    constructor (afb: AfBuilders, edi: EdiHandle, crcTab: seq<nat>)
      requires afb.Valid() && Stored(edi.eti) && IsTable(16, POLY, crcTab)
      ensures Valid() && this.afb == afb && this.edi == edi
    {
      this.afb, this.edi, this.crcTab := afb, edi, crcTab;
    }

    /** A fragment is pushed, and the AF packet handled if one comes back. */
    method HandleFragment(pf: Pft.Fragment, raw: bool, ghost pfs: seq<Pft.Fragment>, ghost i: nat)
      returns (frames: seq<seq<byte>>)
      requires Valid() && i < |pfs| && RunFits(pfs) && pf == pfs[i] && afb.Collected(pfs[..i])
      requires AfRun(edi.eti, NewPacket(afb.rs, pfs, i), raw).Some?
      modifies afb, edi
      ensures Valid() && afb.Collected(pfs[..i + 1])
      ensures AfRun(old(edi.eti), NewPacket(afb.rs, pfs, i), raw) == Some(AfResult(edi.eti, frames))
    {
      hide AfBuilders.Collected, AfBuilders.Valid, RunFits, Reached, NewPacket, AfStep, Stored, IsTable;
      frames := [];
      var ret := afb.PushOne(pf, pfs, i);
      ReachedGrows(afb.rs, pfs, i);
      ghost var got := if ret > 0 then [afb.afPacket[..ret]] else [];
      SameTail(Reached(afb.rs, pfs, i), got, NewPacket(afb.rs, pfs, i));
      if ret > 0 {
        AfRunOne(edi.eti, afb.afPacket[..ret], raw);
        frames := edi.HandleAf(crcTab, afb.afPacket[..ret], raw);
      }
    }

    /** HandleEDIPacket. When more bytes follow a fragment, the loop reads once more, finds nothing and ends. */
    method HandleDatagram(pkt: seq<byte>, raw: bool, ghost pfs: seq<Pft.Fragment>, ghost i: nat)
      returns (frames: seq<seq<byte>>)
      requires Valid() && OneFragment(pkt) && (pfs != [] ==> RunFits(pfs)) && i <= |pfs| && afb.Collected(pfs[..i])
      requires FragmentIn(pkt).Some? ==> i < |pfs| && FragmentIn(pkt).value == pfs[i]
      requires AfRun(edi.eti, Brought(afb.rs, pfs, i, pkt), raw).Some?
      modifies afb, edi
      ensures Valid() && afb.Collected(pfs[..if FragmentIn(pkt).Some? then i + 1 else i])
      ensures AfRun(old(edi.eti), Brought(afb.rs, pfs, i, pkt), raw) == Some(AfResult(edi.eti, frames))
    {
      hide AfBuilders.Collected, AfBuilders.Valid, RunFits, NewPacket, AfStep, Stored, IsTable, ReadFragment;
      frames := [];
      if |pkt| < 2 {
        return;
      }
      if pkt[0] == 'P' as int && pkt[1] == 'F' as int {
        assert pkt[0..] == pkt;
        var r := HandlePfPacket(crcTab, pkt);
        if r.Complete? {
          frames := HandleFragment(r.pf, raw, pfs, i);
        }
        if BytesRead(r) > 0 && |pkt| > BytesRead(r) {
          var rest := HandlePfPacket(crcTab, pkt[BytesRead(r)..]);
          assert BytesRead(rest) <= 0;
        }
      } else if pkt[0] == 'A' as int && pkt[1] == 'F' as int {
        AfRunOne(edi.eti, pkt, raw);
        frames := edi.HandleAf(crcTab, pkt, raw);
      }
    }

    lemma AtStart(pkts: seq<seq<byte>>)
      requires Valid() && afb.state.Idle? && StreamFits(pkts)
      ensures afb.Collected([]) && Stored(edi.eti) && Fragments(pkts[..0]) == []
      ensures (Fragments(pkts) != [] ==> RunFits(Fragments(pkts)))
      ensures forall k :: 0 <= k < |pkts| ==> OneFragment(pkts[k])
    {
    }

    /** A run of datagrams from a zeroed handle: the frames that reach the callback are those of the AF packets that the
        datagrams bring, in order. */
    method HandleAll(pkts: seq<seq<byte>>, raw: bool) returns (frames: seq<seq<byte>>)
      requires Valid() && afb.state.Idle? && StreamFits(pkts)
      requires AfRun(edi.eti, AfPackets(afb.rs, Fragments(pkts), pkts), raw).Some?
      modifies afb, edi
      ensures Valid()
      ensures AfRun(old(edi.eti), AfPackets(afb.rs, Fragments(pkts), pkts), raw) == Some(AfResult(edi.eti, frames))
    {
      hide AfBuilders.Collected, Valid, StreamFits, RunFits, Brought, AfRun, Stored, IsTable, FragmentIn, Fragments,
        OneFragment;
      ghost var pfs, b, rs := Fragments(pkts), edi.eti, afb.rs;
      AtStart(pkts);
      NothingBrought(rs, pfs, b, raw);
      assert pfs[..0] == [] && pkts[..0] == [];
      frames := [];
      var k := 0;
      ghost var n := 0;
      while k < |pkts|
        invariant 0 <= k <= |pkts| && n == |Fragments(pkts[..k])| <= |pfs|
        invariant Valid() && afb.Collected(pfs[..n]) && Stored(edi.eti)
        invariant AfRun(b, AfPackets(rs, pfs, pkts[..k]), raw) == Some(AfResult(edi.eti, frames))
      {
        StreamStep(pkts, pfs, k, n);
        RunOfPrefix(b, rs, pfs, pkts, k + 1, raw);
        AfPacketsStep(rs, pfs, pkts, k);
        AfRunConcat(b, AfPackets(rs, pfs, pkts[..k]), Brought(rs, pfs, n, pkts[k]), raw);
        var more := HandleDatagram(pkts[k], raw, pfs, n);
        frames := frames + more;
        n := if FragmentIn(pkts[k]).Some? then n + 1 else n;
        k := k + 1;
      }
      assert pkts[..k] == pkts;
    }
  }

  lemma SameTail(x: seq<seq<byte>>, y: seq<seq<byte>>, z: seq<seq<byte>>)
    requires x + y == x + z
    ensures y == z
  {
    assert (x + y)[|x|..] == y && (x + z)[|x|..] == z;
  }

  lemma AfRunOne(b: Builder, af: seq<byte>, raw: bool)
    requires Stored(b)
    ensures AfRun(b, [af], raw) == AfStep(b, af, raw)
  {
    hide AfStep;
    assert [af][1..] == [];
    var one := AfStep(b, af, raw);
    if one.Some? { assert one.value.frames + [] == one.value.frames; }
  }

  lemma NothingBrought(rs: Fec.RsDecoder, pfs: seq<Pft.Fragment>, b: Builder, raw: bool)
    requires Stored(b) && (pfs != [] ==> RunFits(pfs))
    ensures AfRun(b, AfPackets(rs, pfs, []), raw) == Some(AfResult(b, []))
  {
  }

  /** What is handled only grows, so a run that can be handled to the end can be handled up to any datagram. */
  lemma {:induction false} RunOfPrefix(b: Builder, rs: Fec.RsDecoder, pfs: seq<Pft.Fragment>, pkts: seq<seq<byte>>,
      k: nat, raw: bool)
    requires Stored(b) && k <= |pkts| && (pfs != [] ==> RunFits(pfs))
    requires AfRun(b, AfPackets(rs, pfs, pkts), raw).Some?
    ensures AfRun(b, AfPackets(rs, pfs, pkts[..k]), raw).Some?
    decreases |pkts| - k
  {
    hide RunFits, AfPackets, Brought, AfRun, Stored;
    if k < |pkts| {
      RunOfPrefix(b, rs, pfs, pkts, k + 1, raw);
      AfPacketsStep(rs, pfs, pkts, k);
      AfRunConcat(b, AfPackets(rs, pfs, pkts[..k]), Brought(rs, pfs, |Fragments(pkts[..k])|, pkts[k]), raw);
    } else {
      assert pkts[..k] == pkts;
    }
  }

  // ----- several fragments in one datagram -----

  /** The datagram that carries some fragments, and where fragment k begins in it. */
  ghost function Joined(fs: seq<Pft.Fragment>): seq<byte>
    requires forall i :: 0 <= i < |fs| ==> PftHeader.InRange(fs[i])
  {
    if fs == [] then [] else Joined(fs[..|fs| - 1]) + WriteFragment(fs[|fs| - 1])
  }

  ghost function StartOf(fs: seq<Pft.Fragment>, k: nat): nat
    requires k <= |fs| && forall i :: 0 <= i < |fs| ==> PftHeader.InRange(fs[i])
  {
    |Joined(fs[..k])|
  }

  /** Behind fragment k the loop reads the next one, or ends if there is none. */
  ghost predicate ReadsOn(fs: seq<Pft.Fragment>, k: nat)
    requires k < |fs| && forall i :: 0 <= i < |fs| ==> PftHeader.InRange(fs[i])
  {
    && StartOf(fs, k) <= |Joined(fs)|
    && NextOffset(Joined(fs), StartOf(fs, k)) == if k + 1 < |fs| then Some(StartOf(fs, k + 1)) else None
  }

  /** The loop reads every fragment of the datagram once and then ends. */
  ghost predicate ReadOnce(fs: seq<Pft.Fragment>)
    requires forall i :: 0 <= i < |fs| ==> PftHeader.InRange(fs[i])
  {
    forall k: nat :: k < |fs| ==> ReadsOn(fs, k)
  }

  /** Because the loop goes on at the last length instead of adding it up, a datagram is read as meant if and only if it
      carries a single fragment. */
  lemma ReadOnceIffSingle(fs: seq<Pft.Fragment>)
    requires fs != [] && forall i :: 0 <= i < |fs| ==> PftHeader.InRange(fs[i])
    ensures ReadOnce(fs) <==> |fs| == 1
  {
    LastIsReadOn(fs);
    if |fs| > 1 { assert !ReadsOn(fs, |fs| - 1); }
  }

  lemma LastIsReadOn(fs: seq<Pft.Fragment>)
    requires fs != [] && forall i :: 0 <= i < |fs| ==> PftHeader.InRange(fs[i])
    ensures ReadsOn(fs, |fs| - 1) <==> |fs| == 1
  {
    hide PftHeader.InRange, ReadFragment;
    var n, last := |fs| - 1, fs[|fs| - 1];
    var w, init := WriteFragment(last), Joined(fs[..n]);
    WrittenLength(last);
    HeaderRoundTrip(last, []);
    assert w + [] == w && (init + w)[|init|..] == w && Joined(fs) == init + w && StartOf(fs, n) == |init|;
    if n > 0 {
      WrittenLength(fs[n - 1]);
      assert fs[..n][..n - 1] == fs[..n - 1] && |init| > 0;
    }
  }

  /** And where a datagram carries two fragments of the same length, the loop never ends: it reads the second one again
      and again. */
  lemma SecondReadForever(a: Pft.Fragment, b: Pft.Fragment)
    requires PftHeader.InRange(a) && PftHeader.InRange(b) && |WriteFragment(a)| == |WriteFragment(b)|
    ensures var pkt, n := WriteFragment(a) + WriteFragment(b), |WriteFragment(a)|;
            && NextOffset(pkt, 0) == Some(n) && NextOffset(pkt, n) == Some(n)
            && ReadFragment(pkt[n..]) == Complete(n, b)
  {
    hide PftHeader.InRange, ReadFragment;
    var pkt, n := WriteFragment(a) + WriteFragment(b), |WriteFragment(a)|;
    WrittenLength(b);
    HeaderRoundTrip(a, WriteFragment(b));
    HeaderRoundTrip(b, []);
    assert pkt[0..] == pkt && pkt[n..] == WriteFragment(b) == WriteFragment(b) + [];
  }

  /** A fragment whose header CRC fails is lost, but the loop goes on right behind its header and reads its payload: so
      one datagram stays one fragment if and only if the payload is not taken for another. */
  lemma DamagedReadOn(pf: Pft.Fragment, field: seq<byte>)
    requires PftHeader.InRange(pf) && pf.header.fec && |field| == 2
    requires var hlen := if pf.header.addr then 20 else 16; WriteFragment(pf)[hlen - 2..hlen] != field
    ensures var hlen := if pf.header.addr then 20 else 16;
            var pkt := WriteFragment(pf)[..hlen - 2] + field + pf.payload;
            && FragmentIn(pkt) == None
            && NextOffset(pkt, 0) == (if pf.payload == [] then None else Some(hlen))
            && (OneFragment(pkt) <==> pf.payload == [] || BytesRead(ReadFragment(pf.payload)) <= 0)
  {
    hide PftHeader.InRange, ReadFragment;
    var hlen := if pf.header.addr then 20 else 16;
    var pkt := WriteFragment(pf)[..hlen - 2] + field + pf.payload;
    WrittenLength(pf);
    PftHeader.HeaderCrcDecides(pf, field, []);
    assert WriteFragment(pf)[hlen..] == pf.payload && pkt + [] == pkt && pkt[0..] == pkt && pkt[hlen..] == pf.payload;
  }

  lemma WrittenLength(pf: Pft.Fragment)
    requires PftHeader.InRange(pf)
    ensures |WriteFragment(pf)| >= 14
  {
  }

  // ----- a multiplex through the whole run -----

  lemma {:induction false} PacketsAt(ds: seq<Pft.Delivery>, i: nat)
    requires i < |ds|
    ensures |Packets(ds)| == |ds| && Packets(ds)[i] == ds[i].af
  {
    var init := ds[..|ds| - 1];
    if i < |init| {
      PacketsAt(init, i);
    } else if init != [] {
      PacketsAt(init, 0);
    }
  }

  /** Every AF packet that the fragments make the collector hand out is among those that the datagrams bring. */
  lemma {:induction false} ReachedIsBrought(rs: Fec.RsDecoder, pfs: seq<Pft.Fragment>, pkts: seq<seq<byte>>, k: nat,
      i: nat) returns (xs: seq<seq<byte>>, ys: seq<seq<byte>>)
    requires pfs == Fragments(pkts) && (pfs != [] ==> RunFits(pfs)) && k <= |pkts|
    requires var n := |Fragments(pkts[..k])|; n <= |pfs| && i < |AllReached(rs, pfs, n)|
    ensures var n := |Fragments(pkts[..k])|;
            AfPackets(rs, pfs, pkts[..k]) == xs + ([AllReached(rs, pfs, n)[i]] + ys)
    decreases k
  {
    hide RunFits, Reached, NewPacket, Fragments, FragmentIn, AfPackets;
    if k == 0 {
      NoFragments(pkts);
      NothingReached(rs, pfs);
      assert false;
    } else {
      var m := |Fragments(pkts[..k - 1])|;
      FragmentsPrefix(pkts, k - 1);
      StreamStep(pkts, pfs, k - 1, m);
      AfPacketsStep(rs, pfs, pkts, k - 1);
      var more := Brought(rs, pfs, m, pkts[k - 1]);
      if FragmentIn(pkts[k - 1]).Some? {
        FragmentIsNoAf(pkts[k - 1]);
        ReachedGrows(rs, pfs, m);
      }
      if i < |AllReached(rs, pfs, m)| {
        xs, ys := ReachedIsBrought(rs, pfs, pkts, k - 1, i);
        AppendTo(xs, AllReached(rs, pfs, m)[i], ys, more);
        ys := ys + more;
      } else {
        xs, ys := AfPackets(rs, pfs, pkts[..k - 1]), [];
        assert more == [AllReached(rs, pfs, m + 1)[i]] + [];
      }
    }
  }

  lemma FragmentIsNoAf(pkt: seq<byte>)
    requires FragmentIn(pkt).Some?
    ensures !IsAf(pkt)
  {
  }

  lemma AppendTo(xs: seq<seq<byte>>, x: seq<byte>, ys: seq<seq<byte>>, zs: seq<seq<byte>>)
    ensures xs + ([x] + ys) + zs == xs + ([x] + (ys + zs))
  {
  }

  lemma NothingReached(rs: Fec.RsDecoder, pfs: seq<Pft.Fragment>)
    requires pfs != [] ==> RunFits(pfs)
    ensures AllReached(rs, pfs, 0) == []
  {
  }

  lemma NoFragments(pkts: seq<seq<byte>>)
    ensures Fragments(pkts[..0]) == []
  {
  }

  // ----- a multiplex among other packets -----

  /** A TAG packet in an AF packet: the items, and the multiplex they describe. */
  datatype Multiplex = Multiplex(seqNo: nat, items: seq<Item>, d: Deti, ss: seq<Stream>)

  /** It has a FIC, streams of whole units, and fits a frame. */
  ghost predicate Sendable(m: Multiplex) {
    && m.seqNo < 0x1_0000 && AllOk(m.items) && |WriteItems(m.items)| <= MAX_TAGS
    && |m.ss| <= 64 && Describes(m.items, m.d, m.ss) && m.d.fic.Some? && DetiOk(m.d)
    && MultiplexEnd(m.d.fic.value, m.ss) < 6136 && WholeUnits(m.ss)
  }

  ghost function AfOf(m: Multiplex): seq<byte>
    requires Sendable(m)
  {
    WriteAf(m.seqNo, WriteItems(m.items))
  }

  /** Among any other AF packets, the one with the multiplex gives one frame, right behind the frames of the packets in
      front of it, and that frame reads back. */
  lemma FrameAmong(b: Builder, xs: seq<seq<byte>>, m: Multiplex, ys: seq<seq<byte>>)
      returns (f: seq<byte>, behind: seq<seq<byte>>)
    requires Stored(b) && Sendable(m) && AfRun(b, xs + ([AfOf(m)] + ys), true).Some?
    ensures AfRun(b, xs, true).Some?
    ensures AfRun(b, xs + ([AfOf(m)] + ys), true).value.frames == AfRun(b, xs, true).value.frames + [f] + behind
    ensures ReadsBack(f, m.d, m.ss)
  {
    hide Stored, AfStep, WriteAf, WriteItems, ReadsBack, Describes, DetiOk, AllOk, WholeUnits, MultiplexEnd, AfRun;
    var af := AfOf(m);
    AfRunConcat(b, xs, [af] + ys, true);
    var x := AfRun(b, xs, true).value;
    AfRunConcat(x.b, [af], ys, true);
    AfRunOne(x.b, af, true);
    MultiplexStep(x.b, m.seqNo, m.items, m.d, m.ss);
    var y := AfRun(x.b, [af], true).value;
    f := y.frames[0];
    behind := AfRun(y.b, ys, true).value.frames;
    assert y.frames == [f];
    ConcatAssoc(x.frames, [f], behind);
  }

  /** From datagrams to the multiplex: if the collector hands out the AF packet under p - which
      Pft.DeliveredWithoutFec, Pft.DeliveredWithFec and FecRecovery.DeliveredDespiteLoss prove for fragments in any
      order, with repetitions, among those of other packets - then the frame behind those of the AF packets before it
      reads back as the multiplex, whatever the other fragments and the AF packets between them were. */
  lemma FragmentsToMultiplex(b: Builder, rs: Fec.RsDecoder, pkts: seq<seq<byte>>, pfs: seq<Pft.Fragment>, p: nat,
      m: Multiplex) returns (xs: seq<seq<byte>>, ys: seq<seq<byte>>, f: seq<byte>, behind: seq<seq<byte>>)
    requires Stored(b) && Sendable(m) && pfs == Fragments(pkts) && pfs != [] && RunFits(pfs)
    requires pfs[0].header.fec ==> pfs[0].header.rsk <= 207 && pfs[0].header.fcount > 0
    requires Pft.HandedOut(p, rs, pfs[0].header, |pfs[0].payload|, Pft.Start(pfs[0]), pfs) == [AfOf(m)]
    requires AfRun(b, AfPackets(rs, pfs, pkts), true).Some?
    ensures AfPackets(rs, pfs, pkts) == xs + ([AfOf(m)] + ys) && AfRun(b, xs, true).Some?
    ensures AfRun(b, AfPackets(rs, pfs, pkts), true).value.frames == AfRun(b, xs, true).value.frames + [f] + behind
    ensures ReadsBack(f, m.d, m.ss)
  {
    hide RunFits, Stored, Sendable, AfRun, ReadsBack, AfOf, Pft.HandedOut, AllReached, Fragments, AfPackets;
    var i := PacketReached(rs, pfs, p, AfOf(m));
    assert pkts[..|pkts|] == pkts;
    xs, ys := ReachedIsBrought(rs, pfs, pkts, |pkts|, i);
    f, behind := FrameAmong(b, xs, m, ys);
  }

  /** A packet handed out under p is among all that are handed out. */
  lemma PacketReached(rs: Fec.RsDecoder, pfs: seq<Pft.Fragment>, p: nat, af: seq<byte>) returns (i: nat)
    requires pfs != [] && RunFits(pfs)
    requires pfs[0].header.fec ==> pfs[0].header.rsk <= 207 && pfs[0].header.fcount > 0
    requires Pft.HandedOut(p, rs, pfs[0].header, |pfs[0].payload|, Pft.Start(pfs[0]), pfs) == [af]
    ensures i < |AllReached(rs, pfs, |pfs|)| && AllReached(rs, pfs, |pfs|)[i] == af
  {
    RunFacts(pfs);
    hide RunFits, Pft.HandedOut, Pft.Delivered, Pft.Result, Pft.Under, Packets;
    var h, s, slots := pfs[0].header, |pfs[0].payload|, Pft.Start(pfs[0]);
    Pft.EmptySlotSilent(rs, h, s);
    Pft.ShareOfDelivered(p, rs, h, s, slots, pfs);
    i := Pft.UnderOne(p, Pft.Delivered(rs, h, s, slots, pfs), af);
    PacketsAt(Pft.Delivered(rs, h, s, slots, pfs), i);
    assert pfs[..|pfs|] == pfs;
  }

  /** Without FEC: fragments of one packet in any order, with repetitions and among others. */
  lemma PlainFragmentsToMultiplex(b: Builder, rs: Fec.RsDecoder, pre: seq<Pft.Fragment>, mid: seq<Pft.Fragment>,
      q: Pft.Fragment, post: seq<Pft.Fragment>, pkts: seq<seq<byte>>, pfs: seq<Pft.Fragment>, p: nat, m: Multiplex)
      returns (xs: seq<seq<byte>>, ys: seq<seq<byte>>, f: seq<byte>, behind: seq<seq<byte>>)
    requires Stored(b) && Sendable(m) && Fragments(pkts) == pfs == pre + mid + [q] + post && RunFits(pfs)
    requires var h, s := pfs[0].header, |pfs[0].payload|;
             && !h.fec && |AfOf(m)| <= h.fcount * s && Pft.OnlyPartsOf(p, Pft.Pieces(AfOf(m), s, h.fcount), mid)
             && forall i :: 0 <= i < h.fcount ==> i in Pft.Indices(p, mid)
    requires (forall e :: e in pre ==> e.pseq != p) && (forall e :: e in post ==> e.pseq != p)
    requires q.pseq != p && q.pseq % Pft.SLOTS == p % Pft.SLOTS
    requires AfRun(b, AfPackets(rs, pfs, pkts), true).Some?
    ensures AfPackets(rs, pfs, pkts) == xs + ([AfOf(m)] + ys) && AfRun(b, xs, true).Some?
    ensures AfRun(b, AfPackets(rs, pfs, pkts), true).value.frames == AfRun(b, xs, true).value.frames + [f] + behind
    ensures ReadsBack(f, m.d, m.ss)
  {
    RunFacts(pfs);
    hide RunFits, Stored, AfRun, ReadsBack, AfOf, Sendable, Pft.HandedOut, Pft.OnlyPartsOf, Pft.Indices, Pft.Accepted,
      Pft.Pieces, AfPackets, Fragments;
    AfAccepted(m);
    Pft.DeliveredWithoutFec(AfOf(m), p, rs, pfs[0].header, |pfs[0].payload|, pfs[0], pre, mid, q, post);
    xs, ys, f, behind := FragmentsToMultiplex(b, rs, pkts, pfs, p, m);
  }

  /** With FEC and nothing lost, when the packet has enough chunks to be decoded. */
  lemma CodedFragmentsToMultiplex(b: Builder, rs: Fec.RsDecoder, parity: Fec.Parity, chunks: seq<seq<byte>>,
      parts: seq<seq<byte>>, pre: seq<Pft.Fragment>, mid: seq<Pft.Fragment>, q: Pft.Fragment, post: seq<Pft.Fragment>,
      pkts: seq<seq<byte>>, pfs: seq<Pft.Fragment>, p: nat, m: Multiplex)
      returns (xs: seq<seq<byte>>, ys: seq<seq<byte>>, f: seq<byte>, behind: seq<seq<byte>>)
    requires Stored(b) && Sendable(m) && Fragments(pkts) == pfs == pre + mid + [q] + post && RunFits(pfs)
    requires var h, s := pfs[0].header, |pfs[0].payload|;
             && Pft.CodedAs(AfOf(m), chunks, h, s) && Fec.FixesCodewords(rs, parity) && 48 * |chunks| >= s
             && Pft.IsSpread(parts, h.fcount, s, Fec.Encoded(parity, chunks)) && Pft.OnlyPartsOf(p, parts, mid)
             && forall i :: 0 <= i < h.fcount ==> i in Pft.Indices(p, mid)
    requires (forall e :: e in pre ==> e.pseq != p) && (forall e :: e in post ==> e.pseq != p)
    requires q.pseq != p && q.pseq % Pft.SLOTS == p % Pft.SLOTS
    requires AfRun(b, AfPackets(rs, pfs, pkts), true).Some?
    ensures AfPackets(rs, pfs, pkts) == xs + ([AfOf(m)] + ys) && AfRun(b, xs, true).Some?
    ensures AfRun(b, AfPackets(rs, pfs, pkts), true).value.frames == AfRun(b, xs, true).value.frames + [f] + behind
    ensures ReadsBack(f, m.d, m.ss)
  {
    hide *;
    RunFacts(pfs);
    AfAccepted(m);
    Pft.DeliveredWithFec(AfOf(m), chunks, p, rs, parity, pfs[0].header, |pfs[0].payload|, parts, pfs[0], pre, mid, q,
      post);
    xs, ys, f, behind := FragmentsToMultiplex(b, rs, pkts, pfs, p, m);
  }

  lemma AfAccepted(m: Multiplex)
    requires Sendable(m)
    ensures Pft.Accepted(AfOf(m))
  {
    hide CheckCrc, Put32, Put16, Describes, DetiOk, AllOk, WholeUnits, MultiplexEnd, WriteItems;
  }

  /** With nothing but fragments, what is handled is what they make the collector hand out. */
  lemma {:induction false} OnlyFragments(rs: Fec.RsDecoder, pfs: seq<Pft.Fragment>, pkts: seq<seq<byte>>, k: nat)
    requires pfs == Fragments(pkts) && (pfs != [] ==> RunFits(pfs)) && k <= |pkts|
    requires forall k :: 0 <= k < |pkts| ==> !IsAf(pkts[k])
    ensures |Fragments(pkts[..k])| <= |pfs|
    ensures AfPackets(rs, pfs, pkts[..k]) == AllReached(rs, pfs, |Fragments(pkts[..k])|)
    decreases k
  {
    hide RunFits, Reached, NewPacket, Fragments, FragmentIn, IsAf;
    FragmentsPrefix(pkts, k);
    if k == 0 {
      NoFragments(pkts);
      NothingReached(rs, pfs);
    } else {
      OnlyFragments(rs, pfs, pkts, k - 1);
      var m := |Fragments(pkts[..k - 1])|;
      StreamStep(pkts, pfs, k - 1, m);
      AfPacketsStep(rs, pfs, pkts, k - 1);
      if FragmentIn(pkts[k - 1]).Some? { ReachedGrows(rs, pfs, m); }
    }
  }
}
