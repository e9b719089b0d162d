/** A whole transmission of AF packets over PFT: fragments of many packets, cut under consecutive Pseqs, that overtake
    one another on the way. What pushPFTFrag of pf_parser.c hands out, and in which order. */
module PftStream {
  import opened Arith
  import opened Bits
  import opened Fec
  import opened FecRecovery
  import opened Pft
  import opened PftHandler

  /** The fragments of packet k are parts[k]; its Pseq is first + k in 16 bits. */
  datatype Transmission = Transmission(first: nat, h: Header, parts: seq<seq<seq<byte>>>)

  function PseqOf(t: Transmission, k: nat): nat {
    (t.first + k) % 0x1_0000
  }

  ghost predicate Belongs(t: Transmission, k: nat, e: Fragment) {
    && k < |t.parts| && e.header == t.h && e.pseq == PseqOf(t, k)
    && e.findex < |t.parts[k]| && e.payload == t.parts[k][e.findex]
  }

  /** The run consists of fragments of the transmission, fragment i being one of packet ks[i]. */
  ghost predicate Carries(t: Transmission, ks: seq<nat>, pfs: seq<Fragment>) {
    |ks| == |pfs| && forall i :: 0 <= i < |ks| ==> Belongs(t, ks[i], pfs[i])
  }

  /** No fragment is overtaken by one that was sent eight or more packets later. */
  ghost predicate Near(ks: seq<nat>) {
    forall i, j :: 0 <= i < j < |ks| ==> ks[i] < ks[j] + SLOTS
  }

  /** No Pseq comes back to a slot before another one was there: two packets that arrive under the same Pseq, a
      multiple of 65536 apart, have one of their slot between them that arrives too. */
  ghost predicate Apart(ks: seq<nat>) {
    forall j, k :: j in ks && k in ks && Aliased(j, k) ==> exists m :: m in ks && Between(j, m, k)
  }

  predicate Aliased(j: nat, k: nat) {
    j < k && (k - j) % 0x1_0000 == 0
  }

  predicate Between(j: nat, m: nat, k: nat) {
    j < m < k && m % SLOTS == k % SLOTS
  }

  /** The fragments of packet k among those that arrived. */
  ghost function Got(ks: seq<nat>, pfs: seq<Fragment>, k: nat): set<nat>
    requires |ks| == |pfs|
  {
    set i | 0 <= i < |ks| && ks[i] == k :: pfs[i].findex
  }

  lemma GotStep(ks: seq<nat>, pfs: seq<Fragment>, k: nat)
    requires |ks| == |pfs| > 0
    ensures var n := |ks| - 1;
            Got(ks, pfs, k) == Got(ks[..n], pfs[..n], k) + if ks[n] == k then {pfs[n].findex} else {}
  {
    var n := |ks| - 1;
    var a, b := Got(ks, pfs, k), Got(ks[..n], pfs[..n], k);
    forall x | x in b ensures x in a {
      var i :| 0 <= i < n && ks[..n][i] == k && pfs[..n][i].findex == x;
      assert ks[i] == k && pfs[i].findex == x;
    }
    forall x | x in a && (ks[n] != k || x != pfs[n].findex) ensures x in b {
      var i :| 0 <= i < |ks| && ks[i] == k && pfs[i].findex == x;
      assert ks[..n][i] == k && pfs[..n][i].findex == x;
    }
    if ks[n] == k { assert pfs[n].findex in a; }
  }

  lemma GotParts(t: Transmission, ks: seq<nat>, pfs: seq<Fragment>, k: nat)
    requires Carries(t, ks, pfs) && k < |t.parts|
    ensures forall i :: i in Got(ks, pfs, k) ==> i < |t.parts[k]|
  {
    hide Belongs;
    forall x | x in Got(ks, pfs, k) ensures x < |t.parts[k]| {
      var i :| 0 <= i < |ks| && ks[i] == k && pfs[i].findex == x;
      FindexBound(t, k, pfs[i]);
    }
  }

  lemma FindexBound(t: Transmission, k: nat, e: Fragment)
    requires Belongs(t, k, e)
    ensures k < |t.parts| && e.findex < |t.parts[k]|
  {
  }

  /** What arrived of packet k. */
  ghost function Arrived(t: Transmission, ks: seq<nat>, pfs: seq<Fragment>, k: nat): map<nat, seq<byte>>
    requires Carries(t, ks, pfs) && k < |t.parts|
  {
    GotParts(t, ks, pfs, k);
    Parts(t.parts[k], Got(ks, pfs, k))
  }

  lemma CarriesPrefix(t: Transmission, ks: seq<nat>, pfs: seq<Fragment>, n: nat)
    requires Carries(t, ks, pfs) && n <= |ks|
    ensures Carries(t, ks[..n], pfs[..n])
  {
    hide Belongs;
  }

  /** A packet of the same slot that was sent before k arrives before k does. */
  lemma EarlierFirst(ks: seq<nat>, i: nat, m: nat)
    requires Near(ks) && i < |ks| && m in ks && m < ks[i] && m % SLOTS == ks[i] % SLOTS
    ensures m in ks[..i]
  {
    var j :| 0 <= j < |ks| && ks[j] == m;
    assert m + SLOTS <= ks[i];
    assert j < i;
    assert ks[..i][j] == m;
  }

  lemma NearPrefix(ks: seq<nat>, n: nat)
    requires Near(ks) && Apart(ks) && n <= |ks|
    ensures Near(ks[..n]) && Apart(ks[..n])
  {
    forall j, k | j in ks[..n] && k in ks[..n] && Aliased(j, k) ensures exists m :: m in ks[..n] && Between(j, m, k) {
      var i :| 0 <= i < n && ks[..n][i] == k;
      assert ks[i] == k && k in ks && j in ks;
      var m :| m in ks && Between(j, m, k);
      EarlierFirst(ks, i, m);
      assert ks[..n][..i] == ks[..i] && m in ks[..n];
    }
  }

  // ----- packets that share a slot -----

  lemma SameSlot(t: Transmission, a: nat, b: nat)
    ensures PseqOf(t, a) % SLOTS == PseqOf(t, b) % SLOTS <==> a % SLOTS == b % SLOTS
  {
    SlotOfPseq(t.first + a);
    SlotOfPseq(t.first + b);
    Residues(t.first, a, b);
  }

  lemma SamePseq(t: Transmission, j: nat, k: nat)
    requires j < k && PseqOf(t, j) == PseqOf(t, k)
    ensures Aliased(j, k)
  {
    var x, y := t.first + j, t.first + k;
    DivMod(x, 0x1_0000);
    DivMod(y, 0x1_0000);
    var a, b := x / 0x1_0000, y / 0x1_0000;
    assert y - x == (b - a) * 0x1_0000 && b > a;
    DivModUnique(k - j, 0x1_0000, b - a, 0);
  }

  lemma SlotOfPseq(x: nat)
    ensures x % 0x1_0000 % 8 == x % 8
  {
    var q, r := x / 0x1_0000, x % 0x1_0000;
    DivMod(x, 0x1_0000);
    DivMod(r, 8);
    DivModUnique(x, 8, 8192 * q + r / 8, r % 8);
  }

  lemma Residues(f: nat, a: nat, b: nat)
    ensures (f + a) % 8 == (f + b) % 8 <==> a % 8 == b % 8
  {
    ResidueOfSum(f, a);
    ResidueOfSum(f, b);
  }

  lemma ResidueOfSum(f: nat, a: nat)
    ensures (f + a) % 8 == if f % 8 + a % 8 < 8 then f % 8 + a % 8 else f % 8 + a % 8 - 8
  {
    var q, r := f / 8 + a / 8, f % 8 + a % 8;
    if r < 8 { DivModUnique(f + a, 8, q, r); } else { DivModUnique(f + a, 8, q + 1, r - 8); }
  }

  /** The greatest packet of k's slot that was seen. */
  ghost function Prior(ks: seq<nat>, k: nat): (r: Option<nat>)
    ensures r.Some? ==> r.value in ks && r.value % SLOTS == k % SLOTS
    ensures forall j :: j in ks && j % SLOTS == k % SLOTS ==> r.Some? && j <= r.value
  {
    if ks == [] then None
    else
      var init, last := ks[..|ks| - 1], ks[|ks| - 1];
      var r := Prior(init, k);
      assert ks == init + [last];
      if last % SLOTS == k % SLOTS && (r == None || r.value < last) then Some(last) else r
  }

  /** What Prior says about itself, as one fact. */
  lemma PriorOf(ks: seq<nat>, k: nat)
    ensures match Prior(ks, k)
            case Some(j) =>
              j in ks && j % SLOTS == k % SLOTS && forall i :: i in ks && i % SLOTS == k % SLOTS ==> i <= j
            case None => forall i :: i in ks ==> i % SLOTS != k % SLOTS
  {
  }

  /** Packet k is the last one seen of its slot. */
  ghost predicate Top(ks: seq<nat>, k: nat) {
    k in ks && forall j :: j in ks && j % SLOTS == k % SLOTS ==> j <= k
  }

  /** A packet that begins to arrive comes behind all that were seen of its slot, under another Pseq than the last. */
  lemma PriorIsBefore(t: Transmission, ks: seq<nat>, k: nat)
    requires Near(ks + [k]) && Apart(ks + [k]) && k !in ks && Prior(ks, k).Some?
    ensures Prior(ks, k).value + SLOTS <= k && PseqOf(t, Prior(ks, k).value) != PseqOf(t, k)
  {
    hide PseqOf, Aliased, Near, Apart;
    NotOvertaken(ks, k);
    NotAliased(ks, k);
    if PseqOf(t, Prior(ks, k).value) == PseqOf(t, k) { SamePseq(t, Prior(ks, k).value, k); }
  }

  lemma NotAliased(ks: seq<nat>, k: nat)
    requires Apart(ks + [k]) && k !in ks && Prior(ks, k).Some?
    ensures !Aliased(Prior(ks, k).value, k)
  {
    hide Aliased;
    var j, all := Prior(ks, k).value, ks + [k];
    assert j in all && k in all && forall m :: m in all ==> m in ks || m == k;
  }

  // ----- what the slots hold -----

  ghost predicate Vacant(t: Transmission, ks: seq<nat>, c: nat) {
    forall k :: k in ks ==> PseqOf(t, k) % SLOTS != c
  }

  ghost predicate Occupied(t: Transmission, ks: seq<nat>, pfs: seq<Fragment>, now: seq<Slot>, k: nat)
    requires Carries(t, ks, pfs) && |now| == SLOTS && k in ks
  {
    && k < |t.parts|
    && now[PseqOf(t, k) % SLOTS] == Slot(PseqOf(t, k), Arrived(t, ks, pfs, k))
  }

  /** Every slot holds what arrived of the last packet seen there. */
  ghost predicate Holding(t: Transmission, ks: seq<nat>, pfs: seq<Fragment>, now: seq<Slot>)
    requires Carries(t, ks, pfs) && |now| == SLOTS
  {
    && (forall k :: Top(ks, k) ==> Occupied(t, ks, pfs, now, k))
    && (forall c: nat :: c < SLOTS && Vacant(t, ks, c) ==> now[c].frags == map[])
  }

  /** The slot that the next fragment finds: its own packet's, the complete record of the last packet seen there, or an
      empty one. */
  ghost predicate Finds(t: Transmission, ks: seq<nat>, pfs: seq<Fragment>, slot: Slot, k: nat)
    requires Carries(t, ks, pfs) && k < |t.parts|
  {
    if k in ks then slot == Slot(PseqOf(t, k), Arrived(t, ks, pfs, k))
    else
      match Prior(ks, k)
      case Some(j) =>
        j < |t.parts| && slot == Slot(PseqOf(t, j), Arrived(t, ks, pfs, j)) && slot.pseq != PseqOf(t, k)
      case None => slot.frags == map[]
  }

  lemma NextFinds(t: Transmission, ks: seq<nat>, pfs: seq<Fragment>, now: seq<Slot>, k: nat)
    requires Carries(t, ks, pfs) && |now| == SLOTS && Holding(t, ks, pfs, now) && k < |t.parts|
    requires Near(ks + [k]) && Apart(ks + [k])
    ensures Finds(t, ks, pfs, now[PseqOf(t, k) % SLOTS], k)
  {
    hide Near, Apart, Carries, Arrived, PseqOf;
    if k in ks {
      NotOvertaken(ks, k);
      assert Top(ks, k) && Occupied(t, ks, pfs, now, k);
    } else if Prior(ks, k).Some? {
      var j := Prior(ks, k).value;
      PriorIsBefore(t, ks, k);
      SameSlot(t, j, k);
      assert Top(ks, j) && Occupied(t, ks, pfs, now, j);
    } else {
      forall j | j in ks ensures PseqOf(t, j) % SLOTS != PseqOf(t, k) % SLOTS {
        SameSlot(t, j, k);
      }
      assert Vacant(t, ks, PseqOf(t, k) % SLOTS);
    }
  }

  lemma NotOvertaken(ks: seq<nat>, k: nat)
    requires Near(ks + [k])
    ensures forall j :: j in ks ==> j < k + SLOTS
  {
    forall j | j in ks ensures j < k + SLOTS {
      var i :| 0 <= i < |ks| && ks[i] == j;
      assert (ks + [k])[i] == j && (ks + [k])[|ks|] == k;
    }
  }

  lemma ArrivedStep(t: Transmission, ks: seq<nat>, pfs: seq<Fragment>, k: nat, e: Fragment, j: nat)
    requires Carries(t, ks, pfs) && Belongs(t, k, e) && j < |t.parts|
    ensures Carries(t, ks + [k], pfs + [e])
    ensures Arrived(t, ks + [k], pfs + [e], j)
         == if j == k then Arrived(t, ks, pfs, j)[e.findex := e.payload] else Arrived(t, ks, pfs, j)
    ensures k !in ks ==> Arrived(t, ks, pfs, k) == map[]
  {
    GotStep(ks + [k], pfs + [e], j);
    assert (ks + [k])[..|ks|] == ks && (pfs + [e])[..|ks|] == pfs;
    if k !in ks {
      assert Got(ks, pfs, k) == {};
    }
  }

  lemma SlotStep(t: Transmission, ks: seq<nat>, pfs: seq<Fragment>, now: seq<Slot>, k: nat, e: Fragment)
    requires Carries(t, ks, pfs) && Belongs(t, k, e) && |now| == SLOTS
    requires Finds(t, ks, pfs, now[PseqOf(t, k) % SLOTS], k)
    ensures Carries(t, ks + [k], pfs + [e])
    ensures Push(now, e)[PseqOf(t, k) % SLOTS] == Slot(PseqOf(t, k), Arrived(t, ks + [k], pfs + [e], k))
  {
    ArrivedStep(t, ks, pfs, k, e, k);
    if k in ks {
      Recorded(t, ks, pfs, k, e);
    }
  }

  lemma Recorded(t: Transmission, ks: seq<nat>, pfs: seq<Fragment>, k: nat, e: Fragment)
    requires Carries(t, ks, pfs) && Belongs(t, k, e)
    ensures e.findex in Arrived(t, ks, pfs, k) ==> Arrived(t, ks, pfs, k)[e.findex] == e.payload
  {
    GotParts(t, ks, pfs, k);
  }

  lemma TopsElsewhere(t: Transmission, ks: seq<nat>, k: nat, j: nat)
    requires Near(ks + [k]) && Top(ks + [k], j) && j != k
    ensures Top(ks, j) && PseqOf(t, j) % SLOTS != PseqOf(t, k) % SLOTS
  {
    hide Near, PseqOf;
    assert j in ks && k in ks + [k] && forall i :: i in ks ==> i in ks + [k];
    SameSlot(t, j, k);
    NotOvertaken(ks, k);
  }

  /** Every fragment keeps the slots in step with what arrived. */
  lemma HoldingStep(t: Transmission, ks: seq<nat>, pfs: seq<Fragment>, now: seq<Slot>, k: nat, e: Fragment)
    requires Carries(t, ks, pfs) && Belongs(t, k, e) && |now| == SLOTS && Holding(t, ks, pfs, now)
    requires Near(ks + [k]) && Apart(ks + [k])
    ensures Carries(t, ks + [k], pfs + [e]) && Holding(t, ks + [k], pfs + [e], Push(now, e))
  {
    hide Near, Apart, PseqOf, Arrived, Finds;
    NextFinds(t, ks, pfs, now, k);
    SlotStep(t, ks, pfs, now, k, e);
    var all, more, next := ks + [k], pfs + [e], Push(now, e);
    forall j | Top(all, j) ensures Occupied(t, all, more, next, j) {
      if j != k {
        TopsElsewhere(t, ks, k, j);
        assert Occupied(t, ks, pfs, now, j);
        ArrivedStep(t, ks, pfs, k, e, j);
      }
    }
    forall c: nat | c < SLOTS && Vacant(t, all, c) ensures next[c].frags == map[] {
      assert k in all && forall j :: j in ks ==> j in all;
      assert Vacant(t, ks, c);
    }
  }

  // ----- what is handed out -----

  /** What packet k gives when its slot is claimed. */
  ghost function Outcome(t: Transmission, rs: RsDecoder, s: nat, ks: seq<nat>, pfs: seq<Fragment>, k: nat)
    : seq<Delivery>
    requires Carries(t, ks, pfs) && k < |t.parts| && (t.h.fec ==> t.h.rsk <= 207 && t.h.fcount > 0)
  {
    match Result(rs, t.h, s, Arrived(t, ks, pfs, k))
    case Some(af) => [Delivery(PseqOf(t, k), af)]
    case None => []
  }

  /** The packets that are decided, in the order in which they are: the last one seen of a slot, when the next one seen
      of that slot begins to arrive. */
  ghost function Decisions(ks: seq<nat>): seq<nat> {
    if ks == [] then []
    else
      var init, last := ks[..|ks| - 1], ks[|ks| - 1];
      Decisions(init) + if last !in init && Prior(init, last).Some? then [Prior(init, last).value] else []
  }

  /** Another packet of d's slot was seen behind it. */
  ghost predicate Passed(ks: seq<nat>, d: nat) {
    d in ks && exists k :: Behind(ks, d, k)
  }

  predicate Behind(ks: seq<nat>, d: nat, k: nat) {
    k in ks && k > d && k % SLOTS == d % SLOTS
  }

  lemma DecisionsStep(ks: seq<nat>, k: nat)
    ensures Decisions(ks + [k])
         == Decisions(ks) + if k !in ks && Prior(ks, k).Some? then [Prior(ks, k).value] else []
  {
    assert (ks + [k])[..|ks|] == ks;
  }

  /** Every packet that is seen and behind which another one of its slot is seen is decided, and no other, each once. */
  lemma {:induction false} DecidedIff(ks: seq<nat>)
    requires Near(ks)
    ensures Distinct(Decisions(ks)) && forall d :: d in Decisions(ks) <==> Passed(ks, d)
  {
    if ks != [] {
      var n := |ks| - 1;
      var init, k := ks[..n], ks[n];
      DecidedIff(init);
      assert init + [k] == ks;
      DecisionsStep(init, k);
      NotOvertaken(init, k);
      hide Near, Decisions;
      forall d ensures d in Decisions(ks) <==> Passed(ks, d) {
        PassedStep(init, k, d);
      }
      if k !in init && Prior(init, k).Some? {
        var p := Prior(init, k).value;
        assert !Passed(init, p);
        forall i | 0 <= i < |Decisions(init)| ensures Decisions(init)[i] != p {
          assert Decisions(init)[i] in Decisions(init);
        }
      }
    }
  }

  lemma PassedStep(ks: seq<nat>, k: nat, d: nat)
    requires forall j :: j in ks ==> j < k + SLOTS
    ensures Passed(ks + [k], d) <==> Passed(ks, d) || (k !in ks && Prior(ks, k) == Some(d))
  {
    hide Prior, Passed;
    PriorIff(ks, k, d);
    PassedOnly(ks, k, d);
    PassedAlso(ks, k, d);
  }

  lemma PassedAlso(ks: seq<nat>, k: nat, d: nat)
    ensures Passed(ks, d) || (d in ks && Behind(ks + [k], d, k)) ==> Passed(ks + [k], d)
  {
    if Passed(ks, d) {
      var i :| Behind(ks, d, i);
      assert Behind(ks + [k], d, i);
    }
  }

  lemma PassedOnly(ks: seq<nat>, k: nat, d: nat)
    requires forall j :: j in ks ==> j < k + SLOTS
    ensures Passed(ks + [k], d) && !Passed(ks, d) ==> d in ks && k !in ks && Behind(ks + [k], d, k)
  {
    var all := ks + [k];
    assert k in all && forall j :: j in all <==> j in ks || j == k;
    if Passed(all, d) && !Passed(ks, d) {
      var i :| Behind(all, d, i);
      EightApart(d, i);
      assert d != k;
      assert !Behind(ks, d, i) && !Behind(ks, d, k);
    }
  }

  /** Prior, read off what was seen. */
  lemma PriorIff(ks: seq<nat>, k: nat, d: nat)
    requires forall j :: j in ks ==> j < k + SLOTS
    ensures k !in ks && Prior(ks, k) == Some(d) <==>
            k !in ks && d in ks && Behind(ks + [k], d, k) && !Passed(ks, d)
  {
    hide Prior;
    PriorOf(ks, k);
    assert k in ks + [k];
    if k !in ks && d in ks && d % SLOTS == k % SLOTS {
      if k < d { EightApart(k, d); }
      var j := Prior(ks, k).value;
      assert d < j ==> Behind(ks, d, j);
    }
  }

  lemma EightApart(a: nat, b: nat)
    requires a < b && a % SLOTS == b % SLOTS
    ensures a + SLOTS <= b && (b - SLOTS) % SLOTS == b % SLOTS
  {
  }

  ghost function Outcomes(t: Transmission, rs: RsDecoder, s: nat, ks: seq<nat>, pfs: seq<Fragment>, ds: seq<nat>)
    : seq<Delivery>
    requires Carries(t, ks, pfs) && (t.h.fec ==> t.h.rsk <= 207 && t.h.fcount > 0)
    requires forall k :: k in ds ==> k < |t.parts|
  {
    if ds == [] then []
    else
      var init, last := ds[..|ds| - 1], ds[|ds| - 1];
      assert last in ds && forall k :: k in init ==> k in ds;
      Outcomes(t, rs, s, ks, pfs, init) + Outcome(t, rs, s, ks, pfs, last)
  }

  lemma DecisionsInside(t: Transmission, ks: seq<nat>, pfs: seq<Fragment>)
    requires Carries(t, ks, pfs) && Near(ks)
    ensures forall k :: k in Decisions(ks) ==> k < |t.parts| && Passed(ks, k)
  {
    DecidedIff(ks);
    hide Decisions;
    forall k | k in Decisions(ks) ensures k < |t.parts| {
      var i :| 0 <= i < |ks| && ks[i] == k;
      assert Belongs(t, ks[i], pfs[i]);
    }
  }

  /** What is decided is settled: the next fragment belongs to none of the packets decided before. */
  lemma {:induction false} Settled(t: Transmission, rs: RsDecoder, s: nat, ks: seq<nat>, pfs: seq<Fragment>, k: nat,
      e: Fragment, ds: seq<nat>)
    requires Carries(t, ks, pfs) && Belongs(t, k, e) && Near(ks + [k])
    requires t.h.fec ==> t.h.rsk <= 207 && t.h.fcount > 0
    requires forall d :: d in ds ==> d < |t.parts| && Passed(ks, d)
    ensures Carries(t, ks + [k], pfs + [e])
    ensures Outcomes(t, rs, s, ks + [k], pfs + [e], ds) == Outcomes(t, rs, s, ks, pfs, ds)
  {
    hide Near, Arrived, Result, Belongs;
    if ds != [] {
      var init, d := ds[..|ds| - 1], ds[|ds| - 1];
      NotOvertaken(ks, k);
      assert d in ds && d != k && forall x :: x in init ==> x in ds;
      ArrivedStep(t, ks, pfs, k, e, d);
      Settled(t, rs, s, ks, pfs, k, e, init);
    } else {
      InPacket(t, k, e);
      ArrivedStep(t, ks, pfs, k, e, k);
    }
  }

  lemma InPacket(t: Transmission, k: nat, e: Fragment)
    requires Belongs(t, k, e)
    ensures k < |t.parts|
  {
  }

  /** The whole transmission: over any run in which no fragment is overtaken by one from eight or more packets later,
      whatever fragments or whole packets are lost or repeated, every packet behind which another one of its slot
      arrives is decided when that begins to arrive, by what arrived of it, and nothing else is handed out. */
  lemma {:induction false} Decided(t: Transmission, rs: RsDecoder, s: nat, slots: seq<Slot>, ks: seq<nat>,
      pfs: seq<Fragment>)
    requires |slots| == SLOTS && forall c :: 0 <= c < SLOTS ==> slots[c].frags == map[]
    requires Carries(t, ks, pfs) && Near(ks) && Apart(ks)
    requires t.h.fec ==> t.h.rsk <= 207 && t.h.fcount > 0
    requires Result(rs, t.h, s, map[]) == None
    ensures forall k :: k in Decisions(ks) ==> k < |t.parts|
    ensures Holding(t, ks, pfs, After(slots, pfs))
    ensures Delivered(rs, t.h, s, slots, pfs) == Outcomes(t, rs, s, ks, pfs, Decisions(ks))
  {
    hide Near, Apart, Arrived, Result, PseqOf, Holding, Finds, Belongs, Top, Vacant, Passed;
    DecisionsInside(t, ks, pfs);
    if ks == [] {
      NothingArrived(t, ks, pfs, slots);
    } else {
      var n := |ks| - 1;
      var k, e := ks[n], pfs[n];
      Previous(t, ks, pfs);
      Decided(t, rs, s, slots, ks[..n], pfs[..n]);
      HoldingStep(t, ks[..n], pfs[..n], After(slots, pfs[..n]), k, e);
      NextFinds(t, ks[..n], pfs[..n], After(slots, pfs[..n]), k);
      DecisionsInside(t, ks[..n], pfs[..n]);
      Settled(t, rs, s, ks[..n], pfs[..n], k, e, Decisions(ks[..n]));
      OneMoreDecision(t, rs, s, slots, ks[..n], pfs[..n], k, e);
    }
  }

  lemma NothingArrived(t: Transmission, ks: seq<nat>, pfs: seq<Fragment>, slots: seq<Slot>)
    requires Carries(t, ks, pfs) && ks == []
    requires |slots| == SLOTS && forall c :: 0 <= c < SLOTS ==> slots[c].frags == map[]
    ensures pfs == [] && Holding(t, ks, pfs, slots)
  {
  }

  lemma Previous(t: Transmission, ks: seq<nat>, pfs: seq<Fragment>)
    requires Carries(t, ks, pfs) && Near(ks) && Apart(ks) && ks != []
    ensures var n := |ks| - 1;
            && Carries(t, ks[..n], pfs[..n]) && Near(ks[..n]) && Apart(ks[..n])
            && ks == ks[..n] + [ks[n]] && pfs == pfs[..n] + [pfs[n]] && Belongs(t, ks[n], pfs[n])
            && ks[n] < |t.parts|
  {
    var n := |ks| - 1;
    hide Near, Apart;
    CarriesPrefix(t, ks, pfs, n);
    NearPrefix(ks, n);
    assert ks == ks[..n] + [ks[n]];
  }

  lemma OneMoreDecision(t: Transmission, rs: RsDecoder, s: nat, slots: seq<Slot>, ks: seq<nat>, pfs: seq<Fragment>,
      k: nat, e: Fragment)
    requires Carries(t, ks, pfs) && Carries(t, ks + [k], pfs + [e]) && Belongs(t, k, e) && |slots| == SLOTS
    requires t.h.fec ==> t.h.rsk <= 207 && t.h.fcount > 0
    requires Result(rs, t.h, s, map[]) == None && forall d :: d in Decisions(ks) ==> d < |t.parts|
    requires Finds(t, ks, pfs, After(slots, pfs)[PseqOf(t, k) % SLOTS], k) && Near(ks + [k])
    requires Delivered(rs, t.h, s, slots, pfs) == Outcomes(t, rs, s, ks + [k], pfs + [e], Decisions(ks))
    ensures forall d :: d in Decisions(ks + [k]) ==> d < |t.parts|
    ensures Delivered(rs, t.h, s, slots, pfs + [e])
         == Outcomes(t, rs, s, ks + [k], pfs + [e], Decisions(ks + [k]))
  {
    hide Arrived, Result, Carries, PseqOf, After, Outcomes, Delivered, Decisions, Near;
    DecisionsStep(ks, k);
    DeliveredStep(rs, t.h, s, slots, pfs, e);
    if k !in ks && Prior(ks, k).Some? {
      var j := Prior(ks, k).value;
      ArrivedStep(t, ks, pfs, k, e, j);
      MoreOutcomes(t, rs, s, ks + [k], pfs + [e], Decisions(ks), j);
    } else {
      assert Decisions(ks + [k]) == Decisions(ks);
      var ds := Delivered(rs, t.h, s, slots, pfs);
      assert ds + [] == ds;
    }
  }

  /** Where two packets of one Pseq come to a slot one behind the other, the slot does not tell them apart: the second
      one's fragments are taken for the first one's, and dropped where those arrived. */
  lemma AliasLost(t: Transmission, now: seq<Slot>, j: nat, k: nat, a: Fragment, b: Fragment)
    requires Aliased(j, k) && Belongs(t, j, a) && Belongs(t, k, b) && a.findex == b.findex && |now| == SLOTS
    ensures Push(Push(now, a), b) == Push(now, a)
  {
    var x := t.first + j;
    DivMod(x, 0x1_0000);
    DivMod(k - j, 0x1_0000);
    DivModUnique(t.first + k, 0x1_0000, x / 0x1_0000 + (k - j) / 0x1_0000, x % 0x1_0000);
  }

  lemma DeliveredStep(rs: RsDecoder, h: Header, s: nat, slots: seq<Slot>, pfs: seq<Fragment>, e: Fragment)
    requires |slots| == SLOTS && (h.fec ==> h.rsk <= 207 && h.fcount > 0)
    ensures var slot := After(slots, pfs)[e.pseq % SLOTS];
            Delivered(rs, h, s, slots, pfs + [e]) == Delivered(rs, h, s, slots, pfs) +
              if e.pseq != slot.pseq && Result(rs, h, s, slot.frags).Some?
              then [Delivery(slot.pseq, Result(rs, h, s, slot.frags).value)] else []
  {
    hide Result;
    assert (pfs + [e])[..|pfs|] == pfs;
  }

  lemma MoreOutcomes(t: Transmission, rs: RsDecoder, s: nat, ks: seq<nat>, pfs: seq<Fragment>, ds: seq<nat>, d: nat)
    requires Carries(t, ks, pfs) && (t.h.fec ==> t.h.rsk <= 207 && t.h.fcount > 0)
    requires (forall k :: k in ds ==> k < |t.parts|) && d < |t.parts|
    ensures Outcomes(t, rs, s, ks, pfs, ds + [d]) == Outcomes(t, rs, s, ks, pfs, ds) + Outcome(t, rs, s, ks, pfs, d)
  {
    hide Carries;
    assert (ds + [d])[..|ds|] == ds;
  }

  // ----- transmissions of AF packets -----

  /** Packet ds[i] with its own bytes, for every i. */
  function Deliveries(t: Transmission, afs: seq<seq<byte>>, ds: seq<nat>): (r: seq<Delivery>)
    requires forall k :: k in ds ==> k < |afs|
    ensures |r| == |ds|
  {
    seq(|ds|, i requires 0 <= i < |ds| => assert ds[i] in ds; Delivery(PseqOf(t, ds[i]), afs[ds[i]]))
  }

  /** Those of the packets that belong to a set, in the same order. */
  ghost function Only(ds: seq<nat>, good: set<nat>): (r: seq<nat>)
    ensures forall k :: k in r <==> k in ds && k in good
  {
    if ds == [] then []
    else
      var init, last := ds[..|ds| - 1], ds[|ds| - 1];
      assert ds == init + [last];
      Only(init, good) + if last in good then [last] else []
  }

  lemma {:induction false} OnlyOutcomes(t: Transmission, rs: RsDecoder, s: nat, ks: seq<nat>, pfs: seq<Fragment>,
      afs: seq<seq<byte>>, ds: seq<nat>, good: set<nat>)
    requires Carries(t, ks, pfs) && (t.h.fec ==> t.h.rsk <= 207 && t.h.fcount > 0) && |afs| == |t.parts|
    requires forall k :: k in ds ==> k < |t.parts|
    requires forall k :: k in ds ==>
      Outcome(t, rs, s, ks, pfs, k) == if k in good then [Delivery(PseqOf(t, k), afs[k])] else []
    ensures Outcomes(t, rs, s, ks, pfs, ds) == Deliveries(t, afs, Only(ds, good))
  {
    hide Outcome, Carries, PseqOf, Deliveries;
    if ds == [] {
      assert Deliveries(t, afs, []) == [];
    } else {
      var init, last := ds[..|ds| - 1], ds[|ds| - 1];
      assert last in ds && forall k :: k in init ==> k in ds;
      OnlyOutcomes(t, rs, s, ks, pfs, afs, init, good);
      if last in good {
        DeliveriesMore(t, afs, Only(init, good), last);
      } else {
        assert Only(ds, good) == Only(init, good);
        assert Outcomes(t, rs, s, ks, pfs, init) + [] == Outcomes(t, rs, s, ks, pfs, init);
      }
    }
  }

  lemma DeliveriesMore(t: Transmission, afs: seq<seq<byte>>, ds: seq<nat>, k: nat)
    requires k < |afs| && forall d :: d in ds ==> d < |afs|
    ensures Deliveries(t, afs, ds + [k]) == Deliveries(t, afs, ds) + [Delivery(PseqOf(t, k), afs[k])]
  {
    hide PseqOf;
  }

  /** The packets cut without FEC, the fragments of s bytes but the last. */
  ghost predicate PlainCut(t: Transmission, afs: seq<seq<byte>>, s: nat) {
    && !t.h.fec && t.h.fcount > 0 && |afs| == |t.parts|
    && forall k :: 0 <= k < |afs| ==> PlainPacket(t, afs[k], s, k)
  }

  ghost predicate PlainPacket(t: Transmission, af: seq<byte>, s: nat, k: nat)
    requires k < |t.parts|
  {
    && t.parts[k] == Pieces(af, s, t.h.fcount) && Accepted(af)
    && (t.h.fcount - 1) * s <= |af| <= t.h.fcount * s
  }

  /** All fragments of packet k arrived. */
  ghost predicate Whole(t: Transmission, ks: seq<nat>, pfs: seq<Fragment>, k: nat)
    requires Carries(t, ks, pfs)
  {
    k < |t.parts| && Arrived(t, ks, pfs, k) == FullMap(t.parts[k])
  }

  ghost function WholeSet(t: Transmission, ks: seq<nat>, pfs: seq<Fragment>): set<nat>
    requires Carries(t, ks, pfs)
  {
    set k: nat | k < |t.parts| && Whole(t, ks, pfs, k)
  }

  /** Without FEC, whatever is lost, the packets that arrive whole and whose slot is claimed come back exactly once and
      with their own bytes, each when the next packet of its slot begins to arrive, and nothing else is handed out. */
  lemma PlainStream(t: Transmission, rs: RsDecoder, s: nat, ks: seq<nat>, pfs: seq<Fragment>, afs: seq<seq<byte>>)
    requires Carries(t, ks, pfs) && Near(ks) && Apart(ks) && pfs != [] && PlainCut(t, afs, s)
    ensures Delivered(rs, t.h, s, Start(pfs[0]), pfs)
         == Deliveries(t, afs, Only(Decisions(ks), WholeSet(t, ks, pfs)))
  {
    hide PlainPacket, Result, Arrived, PseqOf, Near, Apart, Decisions, Outcomes, Belongs;
    EmptySlotSilent(rs, t.h, s);
    Decided(t, rs, s, Start(pfs[0]), ks, pfs);
    forall k | k in Decisions(ks)
      ensures Outcome(t, rs, s, ks, pfs, k)
           == if k in WholeSet(t, ks, pfs) then [Delivery(PseqOf(t, k), afs[k])] else []
    {
      assert PlainPacket(t, afs[k], s, k);
      PlainOutcomeOf(t, rs, s, afs[k], k);
      if !Whole(t, ks, pfs, k) { PartNotHandedOut(t, rs, s, ks, pfs, afs[k], k); }
    }
    OnlyOutcomes(t, rs, s, ks, pfs, afs, Decisions(ks), WholeSet(t, ks, pfs));
  }

  lemma PartNotHandedOut(t: Transmission, rs: RsDecoder, s: nat, ks: seq<nat>, pfs: seq<Fragment>, af: seq<byte>,
      k: nat)
    requires Carries(t, ks, pfs) && k < |t.parts| && !t.h.fec && PlainPacket(t, af, s, k) && !Whole(t, ks, pfs, k)
    ensures Result(rs, t.h, s, Arrived(t, ks, pfs, k)) == None
  {
    hide Rebuilt, Accepted, Belongs, Got;
    GotParts(t, ks, pfs, k);
    var have := Got(ks, pfs, k);
    MissingCount(have, t.h.fcount);
    if Missing(have, t.h.fcount) == 0 {
      forall i | 0 <= i < t.h.fcount ensures i in have { NoneMissing(have, t.h.fcount, i); }
    }
    assert Parts(t.parts[k], have).Keys == have;
  }

  lemma PlainOutcomeOf(t: Transmission, rs: RsDecoder, s: nat, af: seq<byte>, k: nat)
    requires !t.h.fec && k < |t.parts| && PlainPacket(t, af, s, k)
    ensures Result(rs, t.h, s, FullMap(t.parts[k])) == Some(af)
  {
    hide Result, FullMap;
    ResultWithoutFec(af, rs, t.h, s);
  }

  /** The packets coded and spread over fragments of s bytes. */
  ghost predicate CodedCut(t: Transmission, afs: seq<seq<byte>>, chunks: seq<seq<seq<byte>>>, parity: Parity, s: nat) {
    && t.h.fec && 0 < t.h.fcount && t.h.rsk <= 207 && s > 0 && |afs| == |chunks| == |t.parts|
    && forall k :: 0 <= k < |afs| ==> CodedPacket(t, afs[k], chunks[k], parity, s, k)
  }

  ghost predicate CodedPacket(t: Transmission, af: seq<byte>, chunks: seq<seq<byte>>, parity: Parity, s: nat, k: nat)
    requires k < |t.parts|
  {
    && CodedAs(af, chunks, t.h, s) && Accepted(af) && IsSpread(t.parts[k], t.h.fcount, s, Encoded(parity, chunks))
  }

  lemma CodedFacts(t: Transmission, af: seq<byte>, chunks: seq<seq<byte>>, parity: Parity, s: nat, k: nat)
    requires k < |t.parts| && CodedPacket(t, af, chunks, parity, s, k)
    ensures |chunks| == CMax(t.h, s) && |t.parts[k]| == t.h.fcount && t.h.rsk > 0
    ensures t.h.rsz as nat <= CMax(t.h, s) * t.h.rsk
    ensures forall j :: 0 <= j < |t.parts[k]| ==> |t.parts[k][j]| == s
  {
    assert |af| >= 12;
    hide AllOfLength, Encoded, CMax, Accepted, CarriesColumn, Flatten;
    ChunkFacts(af, chunks, parity, t.h, s);
    forall j | 0 <= j < |t.parts[k]| ensures |t.parts[k][j]| == s {
      ColumnSize(t.h.fcount, s, Encoded(parity, chunks), j, t.parts[k][j]);
    }
  }

  lemma ColumnSize(f: nat, s: nat, packet: seq<byte>, j: nat, part: seq<byte>)
    requires CarriesColumn(f, s, packet, j, part)
    ensures |part| == s
  {
  }

  lemma ChunkFacts(af: seq<byte>, chunks: seq<seq<byte>>, parity: Parity, h: Header, s: nat)
    requires CodedAs(af, chunks, h, s) && |af| > 0
    ensures |chunks| == CMax(h, s) && h.rsk > 0 && h.rsz as nat <= CMax(h, s) * h.rsk
  {
    hide AllOfLength, Encoded, CMax, Flatten;
    Geometry(parity, h, s, chunks);
    DataLength(parity, chunks, h.rsk);
  }

  lemma DataLength(parity: Parity, chunks: seq<seq<byte>>, k: nat)
    requires AllOfLength(chunks, k)
    ensures |chunks| * k == |Flatten(chunks)| && (k == 0 ==> Flatten(chunks) == [])
  {
    EncodedLength(parity, chunks, k);
  }

  /** The loss of packet k can be afforded: what is missing holds no more than the check bytes of its chunks, and if the
      last fragment arrived there is room for one fragment more. */
  ghost predicate CanTry(t: Transmission, s: nat, ks: seq<nat>, pfs: seq<Fragment>, k: nat)
    requires |ks| == |pfs|
  {
    Affordable(t.h.fcount, s, CMax(t.h, s), Got(ks, pfs, k))
  }

  lemma CanTryIff(t: Transmission, s: nat, ks: seq<nat>, pfs: seq<Fragment>, k: nat)
    requires Carries(t, ks, pfs) && k < |t.parts| && t.h.fec && s > 0 && |t.parts[k]| == t.h.fcount
    ensures CanTry(t, s, ks, pfs, k) <==> Ready(t.h, s, Arrived(t, ks, pfs, k))
  {
    hide Ready, CMax, Belongs, Got, Parts, Affordable;
    GotParts(t, ks, pfs, k);
    TriedIff(t.h, s, t.parts[k], Got(ks, pfs, k));
  }

  /** Of every packet that is decided, all arrived or too little. */
  ghost predicate WholeOrFew(t: Transmission, s: nat, ks: seq<nat>, pfs: seq<Fragment>)
    requires Carries(t, ks, pfs)
  {
    forall k :: k in Decisions(ks) && k < |t.parts| ==> Whole(t, ks, pfs, k) || !CanTry(t, s, ks, pfs, k)
  }

  /** With FEC and any decoder that leaves codewords alone, the same if 48 * cmax >= s, and otherwise nothing is ever
      handed out. Packets of which some fragments are lost, but enough arrive to try, are left to LossyStream. */
  lemma CodedStream(t: Transmission, rs: RsDecoder, parity: Parity, s: nat, ks: seq<nat>, pfs: seq<Fragment>,
      afs: seq<seq<byte>>, chunks: seq<seq<seq<byte>>>)
    requires Carries(t, ks, pfs) && Near(ks) && Apart(ks) && pfs != []
    requires CodedCut(t, afs, chunks, parity, s) && WholeOrFew(t, s, ks, pfs) && FixesCodewords(rs, parity)
    ensures Delivered(rs, t.h, s, Start(pfs[0]), pfs)
         == if 48 * CMax(t.h, s) >= s then Deliveries(t, afs, Only(Decisions(ks), WholeSet(t, ks, pfs))) else []
  {
    hide CodedPacket, Ready, Accepted, Rebuilt, Arrived, PseqOf, Near, Apart, Decisions, Outcomes, FixesCodewords, CMax,
      Belongs, CanTry;
    EmptySlotSilent(rs, t.h, s);
    Decided(t, rs, s, Start(pfs[0]), ks, pfs);
    var good: set<nat> := if 48 * CMax(t.h, s) >= s then WholeSet(t, ks, pfs) else {};
    forall k | k in Decisions(ks)
      ensures Outcome(t, rs, s, ks, pfs, k) == if k in good then [Delivery(PseqOf(t, k), afs[k])] else []
    {
      assert CodedPacket(t, afs[k], chunks[k], parity, s, k);
      CodedOutcomeOf(t, rs, parity, s, afs[k], chunks[k], k);
      CodedFacts(t, afs[k], chunks[k], parity, s, k);
      CanTryIff(t, s, ks, pfs, k);
    }
    OnlyOutcomes(t, rs, s, ks, pfs, afs, Decisions(ks), good);
    OnlyNone(Decisions(ks));
  }

  lemma {:induction false} OnlyNone(ds: seq<nat>)
    ensures Only(ds, {}) == []
  {
    if ds != [] { OnlyNone(ds[..|ds| - 1]); }
  }

  lemma CodedOutcomeOf(t: Transmission, rs: RsDecoder, parity: Parity, s: nat, af: seq<byte>, chunks: seq<seq<byte>>,
      k: nat)
    requires k < |t.parts| && s > 0 && CodedPacket(t, af, chunks, parity, s, k) && FixesCodewords(rs, parity)
    ensures t.h.rsk <= 207 && t.h.fcount > 0
    ensures Result(rs, t.h, s, FullMap(t.parts[k])) == if 48 * CMax(t.h, s) >= s then Some(af) else None
  {
    CodedFacts(t, af, chunks, parity, s, k);
    hide Result, FullMap, FixesCodewords, CMax, IsSpread, Accepted;
    ResultWithFec(af, chunks, rs, parity, t.h, s, t.parts[k]);
  }

  /** Enough of packet k arrived: the loss can be afforded, every chunk is correctable, and what is lost lies in chunks
      that are decoded. */
  ghost predicate Enough(t: Transmission, s: nat, have: set<nat>, k: nat)
    requires k < |t.parts| && t.h.fec && t.h.rsk <= 207 && forall i :: i in have ==> i < |t.parts[k]|
  {
    && Affordable(t.h.fcount, s, CMax(t.h, s), have) && AllCorrectable(t.h.rsk, Rows(t.h, s, have))
    && LossInside(t.h.fcount, s, ChunkSize(t.h), have, CMax(t.h, s), t.h.fcount)
  }

  ghost predicate EnoughOf(t: Transmission, s: nat, ks: seq<nat>, pfs: seq<Fragment>, k: nat)
    requires Carries(t, ks, pfs) && k < |t.parts| && t.h.fec && t.h.rsk <= 207
  {
    GotParts(t, ks, pfs, k);
    Enough(t, s, Got(ks, pfs, k), k)
  }

  ghost function EnoughSet(t: Transmission, s: nat, ks: seq<nat>, pfs: seq<Fragment>): set<nat>
    requires Carries(t, ks, pfs) && t.h.fec && t.h.rsk <= 207
  {
    set k: nat | k < |t.parts| && EnoughOf(t, s, ks, pfs, k)
  }

  /** Packet by packet: one of which enough arrived comes back, whatever became of the others. */
  lemma EnoughComesBack(t: Transmission, rs: RsDecoder, parity: Parity, s: nat, ks: seq<nat>, pfs: seq<Fragment>,
      afs: seq<seq<byte>>, chunks: seq<seq<seq<byte>>>, k: nat)
    requires Carries(t, ks, pfs) && CodedCut(t, afs, chunks, parity, s) && Corrects(rs, parity)
    requires k < |t.parts| && EnoughOf(t, s, ks, pfs, k)
    ensures Outcome(t, rs, s, ks, pfs, k) == [Delivery(PseqOf(t, k), afs[k])]
  {
    hide CodedPacket, Result, PseqOf, Corrects, Enough, Got, Belongs;
    assert CodedPacket(t, afs[k], chunks[k], parity, s, k);
    GotParts(t, ks, pfs, k);
    LossyOutcomeOf(t, rs, parity, s, afs[k], chunks[k], k, Got(ks, pfs, k));
  }

  lemma {:induction false} OutcomeAt(t: Transmission, rs: RsDecoder, s: nat, ks: seq<nat>, pfs: seq<Fragment>,
      ds: seq<nat>, k: nat, d: Delivery) returns (i: nat)
    requires Carries(t, ks, pfs) && (t.h.fec ==> t.h.rsk <= 207 && t.h.fcount > 0)
    requires (forall j :: j in ds ==> j < |t.parts|) && k in ds && Outcome(t, rs, s, ks, pfs, k) == [d]
    ensures i < |Outcomes(t, rs, s, ks, pfs, ds)| && Outcomes(t, rs, s, ks, pfs, ds)[i] == d
  {
    hide Outcome, Carries;
    var init, last := ds[..|ds| - 1], ds[|ds| - 1];
    assert ds == init + [last] && last in ds && forall j :: j in init ==> j in ds;
    if k in init {
      i := OutcomeAt(t, rs, s, ks, pfs, init, k, d);
    } else {
      i := |Outcomes(t, rs, s, ks, pfs, init)|;
    }
  }

  /** So over the whole run such a packet, once decided, is among those handed out, whatever was lost of the others. */
  lemma EnoughIsDelivered(t: Transmission, rs: RsDecoder, parity: Parity, s: nat, ks: seq<nat>, pfs: seq<Fragment>,
      afs: seq<seq<byte>>, chunks: seq<seq<seq<byte>>>, k: nat) returns (i: nat)
    requires Carries(t, ks, pfs) && Near(ks) && Apart(ks) && pfs != []
    requires CodedCut(t, afs, chunks, parity, s) && Corrects(rs, parity)
    requires k < |t.parts| && k in Decisions(ks) && EnoughOf(t, s, ks, pfs, k)
    ensures var ds := Delivered(rs, t.h, s, Start(pfs[0]), pfs);
            i < |ds| && ds[i] == Delivery(PseqOf(t, k), afs[k])
  {
    hide CodedPacket, Result, PseqOf, Near, Apart, Decisions, Outcomes, Corrects, EnoughOf, Belongs, Delivered, Outcome;
    EmptySlotSilent(rs, t.h, s);
    Decided(t, rs, s, Start(pfs[0]), ks, pfs);
    EnoughComesBack(t, rs, parity, s, ks, pfs, afs, chunks, k);
    i := OutcomeAt(t, rs, s, ks, pfs, Decisions(ks), k, Delivery(PseqOf(t, k), afs[k]));
  }

  /** Of every packet that is decided, enough arrived or too little. */
  ghost predicate EnoughOrFew(t: Transmission, s: nat, ks: seq<nat>, pfs: seq<Fragment>)
    requires Carries(t, ks, pfs) && t.h.fec && t.h.rsk <= 207
  {
    forall k :: k in Decisions(ks) && k < |t.parts| ==> EnoughOf(t, s, ks, pfs, k) || !CanTry(t, s, ks, pfs, k)
  }

  /** With FEC and a decoder that corrects, exactly the packets of which enough arrived come back. */
  lemma LossyStream(t: Transmission, rs: RsDecoder, parity: Parity, s: nat, ks: seq<nat>, pfs: seq<Fragment>,
      afs: seq<seq<byte>>, chunks: seq<seq<seq<byte>>>)
    requires Carries(t, ks, pfs) && Near(ks) && Apart(ks) && pfs != []
    requires CodedCut(t, afs, chunks, parity, s) && EnoughOrFew(t, s, ks, pfs) && Corrects(rs, parity)
    ensures Delivered(rs, t.h, s, Start(pfs[0]), pfs)
         == Deliveries(t, afs, Only(Decisions(ks), EnoughSet(t, s, ks, pfs)))
  {
    hide CodedPacket, Ready, Accepted, Rebuilt, Arrived, PseqOf, Near, Apart, Decisions, Outcomes, Corrects, EnoughOf,
      Belongs, CanTry, CMax;
    EmptySlotSilent(rs, t.h, s);
    Decided(t, rs, s, Start(pfs[0]), ks, pfs);
    forall k | k in Decisions(ks)
      ensures Outcome(t, rs, s, ks, pfs, k)
           == if k in EnoughSet(t, s, ks, pfs) then [Delivery(PseqOf(t, k), afs[k])] else []
    {
      if EnoughOf(t, s, ks, pfs, k) {
        EnoughComesBack(t, rs, parity, s, ks, pfs, afs, chunks, k);
      } else {
        assert CodedPacket(t, afs[k], chunks[k], parity, s, k);
        CodedFacts(t, afs[k], chunks[k], parity, s, k);
        CanTryIff(t, s, ks, pfs, k);
      }
    }
    OnlyOutcomes(t, rs, s, ks, pfs, afs, Decisions(ks), EnoughSet(t, s, ks, pfs));
  }

  lemma LossyOutcomeOf(t: Transmission, rs: RsDecoder, parity: Parity, s: nat, af: seq<byte>, chunks: seq<seq<byte>>,
      k: nat, have: set<nat>)
    requires k < |t.parts| && s > 0 && CodedPacket(t, af, chunks, parity, s, k) && Corrects(rs, parity)
    requires t.h.fec && t.h.rsk <= 207 && t.h.fcount > 0
    requires (forall i :: i in have ==> i < |t.parts[k]|) && Enough(t, s, have, k)
    ensures Result(rs, t.h, s, Parts(t.parts[k], have)) == Some(af)
  {
    CodedFacts(t, af, chunks, parity, s, k);
    hide Corrects, CMax, IsSpread, Accepted, Rebuilt, AllCorrectable, Ready, LossInside, Parts, Rows, CodedAs,
      Affordable;
    TriedIff(t.h, s, t.parts[k], have);
    RebuiltDespiteLoss(rs, parity, t.h, s, af, chunks, t.parts[k], have);
  }

  // ----- in which order -----

  predicate Increasing(ds: seq<nat>) {
    forall i, j :: 0 <= i < j < |ds| ==> ds[i] < ds[j]
  }

  /** If packet k, beginning to arrive behind ks, claims the slot of one of these packets, then no greater one of them
      has been passed by another packet of its slot before. */
  ghost predicate NextInTurn(ks: seq<nat>, k: nat, good: set<nat>) {
    k !in ks && Prior(ks, k).Some? && Prior(ks, k).value in good ==> AllPassedBelow(ks, Prior(ks, k).value, good)
  }

  ghost predicate AllPassedBelow(ks: seq<nat>, p: nat, good: set<nat>) {
    forall d :: d in good && Passed(ks, d) ==> d < p
  }

  ghost predicate InTurn(ks: seq<nat>, good: set<nat>) {
    forall i: nat :: i < |ks| ==> NextInTurn(ks[..i], ks[i], good)
  }

  lemma InTurnStep(ks: seq<nat>, k: nat, good: set<nat>)
    ensures InTurn(ks + [k], good) <==> InTurn(ks, good) && NextInTurn(ks, k, good)
  {
    hide NextInTurn;
    var all := ks + [k];
    forall i: nat | i < |ks| ensures all[..i] == ks[..i] && all[i] == ks[i] {
    }
    assert all[..|ks|] == ks && all[|ks|] == k;
    if InTurn(all, good) {
      forall i: nat | i < |ks| ensures NextInTurn(ks[..i], ks[i], good) { assert NextInTurn(all[..i], all[i], good); }
      assert NextInTurn(all[..|ks|], all[|ks|], good);
    }
    if InTurn(ks, good) && NextInTurn(ks, k, good) {
      forall i: nat | i < |all| ensures NextInTurn(all[..i], all[i], good) {
        if i < |ks| { assert NextInTurn(ks[..i], ks[i], good); }
      }
    }
  }

  /** Which of the packets decided come back is the business of the theorems above; whichever they are, they come back
      in the order of their numbers if and only if their slots are claimed in turn. */
  lemma {:induction false} OrderIff(ks: seq<nat>, good: set<nat>)
    requires Near(ks)
    ensures Increasing(Only(Decisions(ks), good)) <==> InTurn(ks, good)
  {
    hide Near, InTurn, Decisions, Only, Increasing, Prior, AllPassedBelow;
    if ks == [] {
      NothingInTurn(good);
    } else {
      var init, k := ks[..|ks| - 1], ks[|ks| - 1];
      assert init + [k] == ks;
      NearInit(ks);
      InTurnStep(init, k, good);
      OrderIff(init, good);
      DecisionsStep(init, k);
      if k !in init && Prior(init, k).Some? {
        OnlyMore(Decisions(init), Prior(init, k).value, good);
        OrderStep(init, k, good);
        assert Only(Decisions(init), good) + [] == Only(Decisions(init), good);
      } else {
        assert Decisions(init) + [] == Decisions(init);
      }
    }
  }

  lemma NothingInTurn(good: set<nat>)
    ensures Increasing(Only(Decisions([]), good)) && InTurn([], good)
  {
    var none: seq<nat> := [];
    assert Decisions(none) == none && Only(none, good) == none && Increasing(none);
  }

  lemma NearInit(ks: seq<nat>)
    requires Near(ks) && ks != []
    ensures Near(ks[..|ks| - 1])
  {
  }

  lemma OnlyMore(ds: seq<nat>, p: nat, good: set<nat>)
    ensures Only(ds + [p], good) == Only(ds, good) + if p in good then [p] else []
  {
    assert (ds + [p])[..|ds|] == ds;
  }

  lemma OrderStep(ks: seq<nat>, k: nat, good: set<nat>)
    requires Near(ks) && k !in ks && Prior(ks, k).Some?
    ensures var p, ds := Prior(ks, k).value, Only(Decisions(ks), good);
            Increasing(ds + [p]) <==> Increasing(ds) && AllPassedBelow(ks, p, good)
  {
    var p, ds := Prior(ks, k).value, Only(Decisions(ks), good);
    DecidedIff(ks);
    hide Near, Decisions, Passed, Prior, Increasing;
    IncreasingMore(ds, p);
  }

  lemma IncreasingMore(ds: seq<nat>, p: nat)
    ensures Increasing(ds + [p]) <==> Increasing(ds) && forall d :: d in ds ==> d < p
  {
    var all := ds + [p];
    assert all[|ds|] == p && forall i :: 0 <= i < |ds| ==> all[i] == ds[i];
    if Increasing(all) {
      forall d | d in ds ensures d < p {
        var i :| 0 <= i < |ds| && ds[i] == d;
        assert all[i] < all[|ds|];
      }
      forall i, j | 0 <= i < j < |ds| ensures ds[i] < ds[j] { assert all[i] < all[j]; }
    }
    if Increasing(ds) && forall d :: d in ds ==> d < p {
      forall i, j | 0 <= i < j < |all| ensures all[i] < all[j] {
        if j == |ds| { assert ds[i] in ds; }
      }
    }
  }

  /** Packets begin to arrive in their order. */
  ghost predicate Steady(ks: seq<nat>) {
    forall i: nat :: i < |ks| && ks[i] !in ks[..i] ==> AllBelow(ks[..i], ks[i])
  }

  ghost predicate AllBelow(ks: seq<nat>, k: nat) {
    forall j :: j in ks ==> j < k
  }

  /** It is so if packets begin to arrive in their order and none is lost altogether. */
  lemma SteadyInTurn(ks: seq<nat>, good: set<nat>)
    requires Near(ks) && Steady(ks) && forall k :: k in ks && k >= SLOTS ==> k - SLOTS in ks
    ensures InTurn(ks, good)
  {
    hide Near, AllPassedBelow, Prior;
    forall i: nat | i < |ks| && ks[i] !in ks[..i] && Prior(ks[..i], ks[i]).Some?
      ensures AllPassedBelow(ks[..i], Prior(ks[..i], ks[i]).value, good)
    {
      var k := ks[i];
      PriorOf(ks[..i], k);
      assert AllBelow(ks[..i], k) && k in ks;
      EightApart(Prior(ks[..i], k).value, k);
      EarlierFirst(ks, i, k - SLOTS);
      SteadyStep(ks[..i], k, good);
    }
  }

  lemma SteadyStep(ks: seq<nat>, k: nat, good: set<nat>)
    requires AllBelow(ks, k) && k >= SLOTS && k - SLOTS in ks && Prior(ks, k).Some?
    ensures AllPassedBelow(ks, Prior(ks, k).value, good)
  {
    hide Prior;
    PriorOf(ks, k);
    EightApart(k - SLOTS, k);
    forall d | d in good && Passed(ks, d) ensures d < Prior(ks, k).value {
      var j :| Behind(ks, d, j);
      EightApart(d, j);
    }
  }

  // ----- examples -----

  /** Packets of twelve zeros, one fragment each, and the run of those that ks names. */
  ghost function Zeros(n: nat): Transmission {
    Transmission(0, Header(1, false, false, 0, 0, 0, 0), seq(n, _ => [seq(12, _ => 0)]))
  }

  ghost function ZerosRun(ks: seq<nat>): seq<Fragment> {
    seq(|ks|, i requires 0 <= i < |ks| =>
      Fragment(ks[i] % 0x1_0000, 0, Header(1, false, false, 0, 0, 0, 0), seq(12, _ => 0)))
  }

  /** Of such packets all that are decided come back, in the order in which they are. */
  lemma ZerosComeBack(rs: RsDecoder, ks: seq<nat>, n: nat)
    requires Near(ks) && Apart(ks) && ks != [] && forall k :: k in ks ==> k < n
    ensures forall k :: k in Decisions(ks) ==> k < n
    ensures Delivered(rs, Zeros(n).h, 12, Start(ZerosRun(ks)[0]), ZerosRun(ks))
         == Deliveries(Zeros(n), seq(n, _ => seq(12, _ => 0)), Decisions(ks))
  {
    var t, pfs, af: seq<byte> := Zeros(n), ZerosRun(ks), seq(12, _ => 0);
    assert Pieces(af, 12, 1) == [af];
    forall i | 0 <= i < |ks| ensures Belongs(t, ks[i], pfs[i]) { assert ks[i] in ks; }
    assert Accepted(af);
    assert PlainCut(t, seq(n, _ => af), 12);
    hide Near, Apart, Belongs, PlainCut, Decisions, Deliveries, Delivered;
    DecisionsInside(t, ks, pfs);
    PlainStream(t, rs, 12, ks, pfs, seq(n, _ => af));
    forall k | k in Decisions(ks) ensures k in WholeSet(t, ks, pfs) { SeenIsWhole(t, ks, pfs, k); }
    OnlyAll(Decisions(ks), WholeSet(t, ks, pfs));
  }

  lemma SeenIsWhole(t: Transmission, ks: seq<nat>, pfs: seq<Fragment>, k: nat)
    requires Carries(t, ks, pfs) && k in ks && k < |t.parts| && |t.parts[k]| == 1
    ensures Whole(t, ks, pfs, k)
  {
    GotParts(t, ks, pfs, k);
    var i :| 0 <= i < |ks| && ks[i] == k;
    assert Belongs(t, k, pfs[i]) && pfs[i].findex in Got(ks, pfs, k);
    assert Got(ks, pfs, k) == {0};
  }

  lemma {:induction false} OnlyAll(ds: seq<nat>, good: set<nat>)
    requires forall k :: k in ds ==> k in good
    ensures Only(ds, good) == ds
  {
    if ds != [] {
      var init, last := ds[..|ds| - 1], ds[|ds| - 1];
      assert last in ds && forall k :: k in init ==> k in ds;
      OnlyAll(init, good);
      assert ds == init + [last];
    }
  }

  /** Overtaking: packet 9 begins before packet 8, as Near allows, so packet 1 comes back before packet 0. */
  lemma OvertakenExample(rs: RsDecoder)
    ensures Delivered(rs, Zeros(10).h, 12, Start(ZerosRun([0, 1, 9, 8])[0]), ZerosRun([0, 1, 9, 8]))
         == [Delivery(1, seq(12, _ => 0)), Delivery(0, seq(12, _ => 0))]
  {
    FourComeBack(rs, 0, 1, 9, 8, 10);
  }

  /** Loss: the packets arrive in order, but packet 16 is lost, so packet 9 comes back before packet 8. */
  lemma LossReordersExample(rs: RsDecoder)
    ensures Delivered(rs, Zeros(25).h, 12, Start(ZerosRun([8, 9, 17, 24])[0]), ZerosRun([8, 9, 17, 24]))
         == [Delivery(9, seq(12, _ => 0)), Delivery(8, seq(12, _ => 0))]
  {
    FourComeBack(rs, 8, 9, 17, 24, 25);
  }

  /** Two packets of two slots, and then one more for each, the other way round. */
  predicate Crossed(a: nat, b: nat, c: nat, d: nat) {
    a < b && b < c && a < d && a % SLOTS == d % SLOTS && b % SLOTS == c % SLOTS && a % SLOTS != b % SLOTS
    && b < d + SLOTS && c < d + SLOTS && c < 0x1_0000 && d < 0x1_0000
  }

  lemma FourComeBack(rs: RsDecoder, a: nat, b: nat, c: nat, d: nat, n: nat)
    requires Crossed(a, b, c, d) && c < n && d < n
    ensures Delivered(rs, Zeros(n).h, 12, Start(ZerosRun([a, b, c, d])[0]), ZerosRun([a, b, c, d]))
         == [Delivery(b, seq(12, _ => 0)), Delivery(a, seq(12, _ => 0))]
  {
    var ks, zeros: seq<byte> := [a, b, c, d], seq(12, _ => 0);
    hide Delivered, Decisions, Start, Near, Apart, ZerosRun;
    FourDecisions(a, b, c, d);
    FourInBounds(a, b, c, d);
    ZerosComeBack(rs, ks, n);
    TwoDeliveries(n, zeros, a, b);
  }

  lemma TwoDeliveries(n: nat, zeros: seq<byte>, a: nat, b: nat)
    requires a < n && b < n && a < 0x1_0000 && b < 0x1_0000
    ensures Deliveries(Zeros(n), seq(n, _ => zeros), [b, a]) == [Delivery(b, zeros), Delivery(a, zeros)]
  {
    assert Deliveries(Zeros(n), seq(n, _ => zeros), [b, a]) == [Delivery(b, zeros), Delivery(a, zeros)];
  }

  lemma FourInBounds(a: nat, b: nat, c: nat, d: nat)
    requires Crossed(a, b, c, d)
    ensures Near([a, b, c, d]) && Apart([a, b, c, d])
  {
    var ks := [a, b, c, d];
    assert forall k :: k in ks ==> k < 0x1_0000;
    assert forall j, k :: j in ks && k in ks ==> !Aliased(j, k);
  }

  lemma FourDecisions(a: nat, b: nat, c: nat, d: nat)
    requires Crossed(a, b, c, d)
    ensures Decisions([a, b, c, d]) == [b, a]
  {
    hide Decisions, Prior;
    NothingDecided();
    PriorOf([], a);
    PriorOf([a], b);
    PriorOf([a, b], c);
    PriorOf([a, b, c], d);
    assert a in [a, b, c] && b in [a, b];
    assert Prior([a, b], c) == Some(b) && Prior([a, b, c], d) == Some(a);
    DecisionsStep([], a);
    DecisionsStep([a], b);
    DecisionsStep([a, b], c);
    DecisionsStep([a, b, c], d);
    assert [] + [a] == [a] && [a] + [b] == [a, b] && [a, b] + [c] == [a, b, c] && [a, b, c] + [d] == [a, b, c, d];
  }

  lemma NothingDecided()
    ensures Decisions([]) == []
  {
  }

  // ----- through pushPFTFrag -----

  lemma PlainStreamFits(t: Transmission, s: nat, ks: seq<nat>, pfs: seq<Fragment>, afs: seq<seq<byte>>)
    requires Carries(t, ks, pfs) && pfs != [] && PlainCut(t, afs, s)
    requires |pfs[0].payload| == s && ShowsLength(pfs[0])
    ensures RunFits(pfs) && pfs[0].header == t.h
  {
    hide PlainPacket, Pieces;
    assert Belongs(t, ks[0], pfs[0]);
    forall i | 0 <= i < |pfs| ensures Regular(pfs[i], t.h, s) {
      var k := ks[i];
      assert Belongs(t, k, pfs[i]) && PlainPacket(t, afs[k], s, k);
      PieceRegular(t, afs[k], s, k, pfs[i]);
    }
    PlainRunFits(pfs);
  }

  lemma PieceRegular(t: Transmission, af: seq<byte>, s: nat, k: nat, e: Fragment)
    requires !t.h.fec && t.h.fcount > 0 && Belongs(t, k, e) && PlainPacket(t, af, s, k)
    ensures Regular(e, t.h, s)
  {
    PiecesConform(af, s, t.h.fcount);
    assert e.findex in FullMap(t.parts[k]);
  }

  /** What was lost of the packets that are decided and can be tried lies in chunks that are decoded. */
  ghost predicate LossesInside(t: Transmission, s: nat, ks: seq<nat>, pfs: seq<Fragment>)
    requires Carries(t, ks, pfs)
  {
    forall k :: k in Decisions(ks) && k < |t.parts| && CanTry(t, s, ks, pfs, k) ==>
      LossInside(t.h.fcount, s, ChunkSize(t.h), Got(ks, pfs, k), CMax(t.h, s), t.h.fcount)
  }

  /** Later fragments add nothing to a packet whose slot has been claimed. */
  lemma GotSettled(ks: seq<nat>, pfs: seq<Fragment>, i: nat, k: nat)
    requires |ks| == |pfs| && Near(ks) && i < |ks| && ks[i] >= k + SLOTS
    ensures Got(ks[..i], pfs[..i], k) == Got(ks, pfs, k)
  {
    var a, b := Got(ks, pfs, k), Got(ks[..i], pfs[..i], k);
    forall x | x in a ensures x in b {
      var j :| 0 <= j < |ks| && ks[j] == k && pfs[j].findex == x;
      assert j < i;
      assert ks[..i][j] == k && pfs[..i][j].findex == x;
    }
    forall x | x in b ensures x in a {
      var j :| 0 <= j < i && ks[..i][j] == k && pfs[..i][j].findex == x;
      assert ks[j] == k && pfs[j].findex == x;
    }
  }

  /** The slot that fragment i of the run finds. */
  lemma FoundAt(t: Transmission, rs: RsDecoder, s: nat, ks: seq<nat>, pfs: seq<Fragment>, i: nat)
    requires Carries(t, ks, pfs) && Near(ks) && Apart(ks) && i < |ks|
    requires (t.h.fec ==> t.h.rsk <= 207 && t.h.fcount > 0) && Result(rs, t.h, s, map[]) == None
    ensures Carries(t, ks[..i], pfs[..i]) && ks[i] < |t.parts| && pfs[i].pseq == PseqOf(t, ks[i])
    ensures Finds(t, ks[..i], pfs[..i], After(Start(pfs[0]), pfs[..i])[pfs[i].pseq % SLOTS], ks[i])
  {
    hide Near, Apart, Finds, Holding, Result, PseqOf, After;
    BeforeNext(t, ks, pfs, i);
    Decided(t, rs, s, Start(pfs[0]), ks[..i], pfs[..i]);
    NextFinds(t, ks[..i], pfs[..i], After(Start(pfs[0]), pfs[..i]), ks[i]);
  }

  lemma BeforeNext(t: Transmission, ks: seq<nat>, pfs: seq<Fragment>, i: nat)
    requires Carries(t, ks, pfs) && Near(ks) && Apart(ks) && i < |ks|
    ensures Carries(t, ks[..i], pfs[..i]) && Near(ks[..i]) && Apart(ks[..i])
    ensures Near(ks[..i] + [ks[i]]) && Apart(ks[..i] + [ks[i]])
    ensures ks[i] < |t.parts| && pfs[i].pseq == PseqOf(t, ks[i])
  {
    hide Near, Apart, PseqOf;
    CarriesPrefix(t, ks, pfs, i);
    NearPrefix(ks, i);
    NearPrefix(ks, i + 1);
    assert ks[..i + 1] == ks[..i] + [ks[i]] && Belongs(t, ks[i], pfs[i]);
  }

  /** A claim that finds a packet decides it. */
  lemma ClaimDecides(ks: seq<nat>, i: nat)
    requires Near(ks) && i < |ks| && ks[i] !in ks[..i] && Prior(ks[..i], ks[i]).Some?
    ensures Prior(ks[..i], ks[i]).value in Decisions(ks) && ks[i] >= Prior(ks[..i], ks[i]).value + SLOTS
  {
    hide Near, Prior, Decisions;
    var k, p := ks[i], Prior(ks[..i], ks[i]).value;
    PriorOf(ks[..i], k);
    SeenBefore(ks, i, p);
    if k < p { EightApart(k, p); }
    EightApart(p, k);
    assert Behind(ks, p, k);
    DecidedIff(ks);
  }

  lemma SeenBefore(ks: seq<nat>, i: nat, p: nat)
    requires Near(ks) && i < |ks| && p in ks[..i]
    ensures p in ks && ks[i] in ks && p < ks[i] + SLOTS
  {
    var j :| 0 <= j < i && ks[..i][j] == p;
    assert ks[j] == p;
  }

  lemma CodedStreamFits(t: Transmission, rs: RsDecoder, parity: Parity, s: nat, ks: seq<nat>, pfs: seq<Fragment>,
      afs: seq<seq<byte>>, chunks: seq<seq<seq<byte>>>)
    requires Carries(t, ks, pfs) && Near(ks) && Apart(ks) && pfs != []
    requires CodedCut(t, afs, chunks, parity, s) && LossesInside(t, s, ks, pfs)
    ensures RunFits(pfs) && pfs[0].header == t.h && |pfs[0].payload| == s
  {
    hide CodedPacket, Near, Apart, LossesInside, Result, AllRegular, Decodable, Ready, After;
    CodedSizes(t, parity, s, afs, chunks);
    CodedRegular(t, parity, s, ks, pfs, afs, chunks);
    RegularAt(pfs, t.h, s, 0);
    EmptySlotSilent(rs, t.h, s);
    forall i | 0 <= i < |pfs|
      ensures var slot := After(Start(pfs[0]), pfs[..i])[pfs[i].pseq % SLOTS];
              slot.pseq != pfs[i].pseq && Ready(t.h, s, slot.frags) ==> Decodable(t.h, s, slot.frags)
    {
      ClaimDecodable(t, rs, s, ks, pfs, i);
    }
  }

  lemma CodedRegular(t: Transmission, parity: Parity, s: nat, ks: seq<nat>, pfs: seq<Fragment>, afs: seq<seq<byte>>,
      chunks: seq<seq<seq<byte>>>)
    requires Carries(t, ks, pfs) && pfs != [] && CodedCut(t, afs, chunks, parity, s)
    ensures AllRegular(pfs, t.h, s) && t.h.rsk > 0 && t.h.rsz as nat <= CMax(t.h, s) * t.h.rsk
  {
    hide CodedPacket, CMax;
    forall i | 0 <= i < |pfs|
      ensures Regular(pfs[i], t.h, s) && t.h.rsk > 0 && t.h.rsz as nat <= CMax(t.h, s) * t.h.rsk
    {
      var k := ks[i];
      assert Belongs(t, k, pfs[i]) && CodedPacket(t, afs[k], chunks[k], parity, s, k);
      CodedFacts(t, afs[k], chunks[k], parity, s, k);
    }
    assert Regular(pfs[0], t.h, s);
  }

  /** A slot that is claimed while it is ready can be decoded. */
  lemma ClaimDecodable(t: Transmission, rs: RsDecoder, s: nat, ks: seq<nat>, pfs: seq<Fragment>, i: nat)
    requires Carries(t, ks, pfs) && Near(ks) && Apart(ks) && i < |ks| && LossesInside(t, s, ks, pfs)
    requires t.h.fec && 0 < t.h.rsk <= 207 && t.h.fcount > 0 && s > 0 && t.h.rsz as nat <= CMax(t.h, s) * t.h.rsk
    requires Result(rs, t.h, s, map[]) == None
    requires forall k :: 0 <= k < |t.parts| ==> |t.parts[k]| == t.h.fcount
    ensures var slot := After(Start(pfs[0]), pfs[..i])[pfs[i].pseq % SLOTS];
            slot.pseq != pfs[i].pseq && Ready(t.h, s, slot.frags) ==> Decodable(t.h, s, slot.frags)
  {
    hide CanTry, Near, Apart, Ready, CMax, ChunkSize, LossInside, Result, PseqOf, Decisions, After, Start, Arrived,
      Belongs, Got;
    FoundAt(t, rs, s, ks, pfs, i);
    EmptyNotReady(t.h, s);
    var k := ks[i];
    if k !in ks[..i] && Prior(ks[..i], k).Some? {
      var p := Prior(ks[..i], k).value;
      ClaimDecides(ks, i);
      GotSettled(ks, pfs, i, p);
      SameArrived(t, ks, pfs, i, p);
      ArrivedKeys(t, ks, pfs, p);
      CanTryIff(t, s, ks, pfs, p);
    }
  }

  lemma SameArrived(t: Transmission, ks: seq<nat>, pfs: seq<Fragment>, i: nat, k: nat)
    requires Carries(t, ks, pfs) && i <= |ks| && Carries(t, ks[..i], pfs[..i]) && k < |t.parts|
    requires Got(ks[..i], pfs[..i], k) == Got(ks, pfs, k)
    ensures Arrived(t, ks[..i], pfs[..i], k) == Arrived(t, ks, pfs, k)
  {
  }

  lemma ArrivedKeys(t: Transmission, ks: seq<nat>, pfs: seq<Fragment>, k: nat)
    requires Carries(t, ks, pfs) && k < |t.parts|
    ensures Arrived(t, ks, pfs, k).Keys == Got(ks, pfs, k)
  {
    GotParts(t, ks, pfs, k);
  }

  // ----- the statistics -----

  /** How many fragments of packet k did not arrive. */
  ghost function Lost(t: Transmission, ks: seq<nat>, pfs: seq<Fragment>, k: nat): nat
    requires |ks| == |pfs|
  {
    Missing(Got(ks, pfs, k), t.h.fcount)
  }

  /** Rebuilding packet k is tried when its slot is claimed. */
  ghost predicate Tried(t: Transmission, s: nat, ks: seq<nat>, pfs: seq<Fragment>, k: nat)
    requires |ks| == |pfs|
  {
    if t.h.fec then CanTry(t, s, ks, pfs, k) else Lost(t, ks, pfs, k) == 0
  }

  /** What the first n fragments of a stream add up to, without wrap-around. Every packet that begins to arrive claims a
      slot, but for the very first one. If the packet it finds there is tried, that packet's lost fragments count, with
      FEC also each of their bytes. Otherwise a whole packet counts, also where the slot was empty; but nothing counts
      before the first packet was tried. */
  ghost function Tally(t: Transmission, s: nat, ks: seq<nat>, pfs: seq<Fragment>, n: nat): Statistics
    requires |ks| == |pfs| && n <= |ks|
  {
    if n == 0 then Statistics(0, 0, true)
    else
      var was, seen, k := Tally(t, s, ks, pfs, n - 1), ks[..n - 1], ks[n - 1];
      if k in seen || n == 1 then was
      else if Prior(seen, k).Some? && Tried(t, s, ks, pfs, Prior(seen, k).value) then
        var m := Lost(t, ks, pfs, Prior(seen, k).value);
        Statistics(was.errors + (if t.h.fec then m * s else 0), was.lost + m, false)
      else was.(lost := was.lost + if was.initial then 0 else t.h.fcount)
  }

  /** The 32-bit counters show the tally. */
  predicate Shows(x: Statistics, tally: Statistics) {
    x.errors == tally.errors % WRAP && x.lost == tally.lost % WRAP && x.initial == tally.initial
  }

  /** Over the whole stream, however its fragments are mixed and whatever is lost, the counters show the tally. */
  lemma {:induction false} CountersShow(t: Transmission, rs: RsDecoder, s: nat, ks: seq<nat>, pfs: seq<Fragment>,
      st: seq<Statistics>, n: nat)
    requires Carries(t, ks, pfs) && Near(ks) && Apart(ks) && pfs != [] && n <= |ks|
    requires t.h.fcount > 0 && (t.h.fec ==> 0 < t.h.rsk <= 207 && s > 0)
    requires forall k :: 0 <= k < |t.parts| ==> |t.parts[k]| == t.h.fcount
    requires Record(t.h, s, Start(pfs[0]), pfs, st) && st[0] == Statistics(0, 0, true)
    ensures Shows(st[n], Tally(t, s, ks, pfs, n))
  {
    hide Near, Apart, Belongs, AccountedStep, After, Start, Shows, Prior, Tried, Lost;
    if n == 0 {
      ShowsNothing();
    } else {
      CountersShow(t, rs, s, ks, pfs, st, n - 1);
      assert AccountedStep(t.h, s, After(Start(pfs[0]), pfs[..n - 1]), pfs[n - 1], st[n - 1], st[n]);
      OneCounted(t, rs, s, ks, pfs, n - 1, st[n - 1], st[n]);
    }
  }

  lemma ShowsNothing()
    ensures Shows(Statistics(0, 0, true), Statistics(0, 0, true))
  {
  }

  lemma OneCounted(t: Transmission, rs: RsDecoder, s: nat, ks: seq<nat>, pfs: seq<Fragment>, i: nat, was: Statistics,
      now: Statistics)
    requires Carries(t, ks, pfs) && Near(ks) && Apart(ks) && i < |ks|
    requires t.h.fcount > 0 && (t.h.fec ==> 0 < t.h.rsk <= 207 && s > 0)
    requires forall k :: 0 <= k < |t.parts| ==> |t.parts[k]| == t.h.fcount
    requires AccountedStep(t.h, s, After(Start(pfs[0]), pfs[..i]), pfs[i], was, now)
    requires Shows(was, Tally(t, s, ks, pfs, i))
    ensures Shows(now, Tally(t, s, ks, pfs, i + 1))
  {
    hide Near, Apart, Accounted, After, Start, Shows, Prior, Tried, Lost, Arrived, PseqOf, Got, Decisions, Result,
      Belongs;
    EmptySlotSilent(rs, t.h, s);
    FoundAt(t, rs, s, ks, pfs, i);
    var k := ks[i];
    NothingSeen(ks, i);
    if k !in ks[..i] && Prior(ks[..i], k).Some? {
      var d := Prior(ks[..i], k).value;
      ClaimDecides(ks, i);
      GotSettled(ks, pfs, i, d);
      SameArrived(t, ks, pfs, i, d);
      ClaimCounted(t, s, ks, pfs, d, was, now, Tally(t, s, ks, pfs, i));
    } else if k !in ks[..i] {
      FirstOfSlot(t, ks, pfs, i);
      if i > 0 { EmptyCounted(t, s, was, now, Tally(t, s, ks, pfs, i)); }
    }
  }

  lemma NothingSeen(ks: seq<nat>, i: nat)
    requires i < |ks|
    ensures i == 0 ==> Prior(ks[..i], ks[i]) == None
  {
  }

  /** A packet is given up: it is tried or not. */
  lemma ClaimCounted(t: Transmission, s: nat, ks: seq<nat>, pfs: seq<Fragment>, d: nat, was: Statistics,
      now: Statistics, tally: Statistics)
    requires Carries(t, ks, pfs) && d < |t.parts| && |t.parts[d]| == t.h.fcount && (t.h.fec ==> s > 0)
    requires Accounted(t.h, s, Arrived(t, ks, pfs, d), was, now) && Shows(was, tally)
    ensures var m := Lost(t, ks, pfs, d);
            Shows(now,
              if Tried(t, s, ks, pfs, d)
              then Statistics(tally.errors + (if t.h.fec then m * s else 0), tally.lost + m, false)
              else tally.(lost := tally.lost + if tally.initial then 0 else t.h.fcount))
  {
    hide Belongs, Got, CanTry, Ready, Missing, Accounted, Shows, Arrived;
    var m, have := Lost(t, ks, pfs, d), Got(ks, pfs, d);
    GotParts(t, ks, pfs, d);
    ArrivedKeys(t, ks, pfs, d);
    MissingCount(have, t.h.fcount);
    assert |Arrived(t, ks, pfs, d)| == |have|;
    if t.h.fec { CanTryIff(t, s, ks, pfs, d); }
    ReadyIff(t.h, s, Arrived(t, ks, pfs, d), m);
    Counted(t.h, s, Arrived(t, ks, pfs, d), was, now, tally, m);
  }

  lemma Counted(h: Header, s: nat, frags: map<nat, seq<byte>>, was: Statistics, now: Statistics, tally: Statistics,
      m: nat)
    requires Accounted(h, s, frags, was, now) && Shows(was, tally) && |frags| + m == h.fcount
    ensures Shows(now,
              if Ready(h, s, frags) then Statistics(tally.errors + (if h.fec then m * s else 0), tally.lost + m, false)
              else tally.(lost := tally.lost + if tally.initial then 0 else h.fcount))
  {
    hide Ready;
    assert h.fcount - |frags| == m;
    if Ready(h, s, frags) {
      if h.fec { Wrapped(tally.errors, m * s, was.errors, now.errors); }
      Wrapped(tally.lost, m, was.lost, now.lost);
    } else if !tally.initial {
      Wrapped(tally.lost, h.fcount, was.lost, now.lost);
    }
  }

  lemma Wrapped(a: nat, n: nat, was: nat, now: nat)
    requires was == a % WRAP && now == (was + n) % WRAP
    ensures now == (a + n) % WRAP
  {
  }

  lemma EmptyCounted(t: Transmission, s: nat, was: Statistics, now: Statistics, tally: Statistics)
    requires t.h.fcount > 0 && (t.h.fec ==> t.h.rsk > 0 && s > 0)
    requires Accounted(t.h, s, map[], was, now) && Shows(was, tally)
    ensures Shows(now, tally.(lost := tally.lost + if tally.initial then 0 else t.h.fcount))
  {
    if t.h.fec { EmptyNotReady(t.h, s); }
    hide Ready;
    if !tally.initial { Wrapped(tally.lost, t.h.fcount, was.lost, now.lost); }
  }

  /** A slot that no packet has come to yet is claimed, except by the fragment that configures the collector. */
  lemma FirstOfSlot(t: Transmission, ks: seq<nat>, pfs: seq<Fragment>, i: nat)
    requires Carries(t, ks, pfs) && i < |ks| && ks[i] !in ks[..i] && Prior(ks[..i], ks[i]) == None
    ensures Evicts(After(Start(pfs[0]), pfs[..i]), pfs[i]) <==> i > 0
  {
    hide Belongs, After, Start;
    var k, c := ks[i], pfs[i].pseq % SLOTS;
    BelongsAt(t, ks, pfs, i);
    BelongsAt(t, ks, pfs, 0);
    PriorOf(ks[..i], k);
    forall e | e in pfs[..i] ensures e.pseq % SLOTS != c {
      var j :| 0 <= j < i && pfs[..i][j] == e;
      BelongsAt(t, ks, pfs, j);
      assert ks[..i][j] == ks[j] && ks[j] in ks[..i] && pfs[..i][j] == pfs[j];
      SameSlot(t, ks[j], k);
    }
    SlotUntouched(Start(pfs[0]), pfs[..i], c);
    StartIsClear(pfs[i].pseq, pfs[0]);
    if i > 0 { assert pfs[..i][0] == pfs[0]; }
  }

  lemma BelongsAt(t: Transmission, ks: seq<nat>, pfs: seq<Fragment>, i: nat)
    requires Carries(t, ks, pfs) && i < |ks|
    ensures pfs[i].pseq == PseqOf(t, ks[i])
  {
    assert Belongs(t, ks[i], pfs[i]);
  }

  lemma {:induction false} SlotUntouched(slots: seq<Slot>, pfs: seq<Fragment>, c: nat)
    requires |slots| == SLOTS && c < SLOTS && forall e :: e in pfs ==> e.pseq % SLOTS != c
    ensures After(slots, pfs)[c] == slots[c]
  {
    if pfs != [] {
      var init, last := pfs[..|pfs| - 1], pfs[|pfs| - 1];
      assert last in pfs && forall e :: e in init ==> e in pfs;
      SlotUntouched(slots, init, c);
    }
  }

  /** A packet that arrived whole lost nothing. */
  lemma WholeLosesNothing(t: Transmission, s: nat, ks: seq<nat>, pfs: seq<Fragment>)
    requires Carries(t, ks, pfs) && WholeOrFew(t, s, ks, pfs)
    requires forall k :: 0 <= k < |t.parts| ==> |t.parts[k]| == t.h.fcount
    ensures LossesInside(t, s, ks, pfs)
  {
    hide Belongs, Decisions, Got, Arrived, CanTry, CMax;
    forall k | k in Decisions(ks) && k < |t.parts| && CanTry(t, s, ks, pfs, k)
      ensures LossInside(t.h.fcount, s, ChunkSize(t.h), Got(ks, pfs, k), CMax(t.h, s), t.h.fcount)
    {
      ArrivedKeys(t, ks, pfs, k);
      assert forall i: nat :: i < t.h.fcount ==> i in FullMap(t.parts[k]).Keys;
    }
  }

  lemma {:induction false} PacketsOfDeliveries(t: Transmission, afs: seq<seq<byte>>, ds: seq<nat>)
    requires forall k :: k in ds ==> k < |afs|
    ensures Packets(Deliveries(t, afs, ds)) == Chosen(afs, ds)
  {
    if ds != [] {
      var init, last := ds[..|ds| - 1], ds[|ds| - 1];
      assert last in ds && forall k :: k in init ==> k in ds;
      assert Deliveries(t, afs, ds)[..|ds| - 1] == Deliveries(t, afs, init);
      PacketsOfDeliveries(t, afs, init);
    }
  }

  /** The packets afs[ds[0]], afs[ds[1]], ... */
  function Chosen(afs: seq<seq<byte>>, ds: seq<nat>): (r: seq<seq<byte>>)
    requires forall k :: k in ds ==> k < |afs|
    ensures |r| == |ds|
  {
    seq(|ds|, i requires 0 <= i < |ds| => assert ds[i] in ds; afs[ds[i]])
  }

  /** The collector itself, without FEC: over the whole run it returns exactly the packets that arrived whole and whose
      slot was claimed, in the order in which it was. */
  method ReceivePlain(afb: AfBuilders, pfs: seq<Fragment>, ghost t: Transmission, ghost ks: seq<nat>,
      ghost afs: seq<seq<byte>>) returns (got: seq<seq<byte>>)
    requires afb.Valid() && afb.state.Idle? && pfs != []
    requires Carries(t, ks, pfs) && Near(ks) && Apart(ks)
    requires PlainCut(t, afs, |pfs[0].payload|) && ShowsLength(pfs[0])
    modifies afb
    ensures afb.Valid() && |afs| == |t.parts|
    ensures got == Chosen(afs, Only(Decisions(ks), WholeSet(t, ks, pfs)))
    ensures old(afb.Stats()).(initial := true) == Statistics(0, 0, true) ==>
              Shows(afb.Stats(), Tally(t, |pfs[0].payload|, ks, pfs, |ks|))
  {
    hide Near, Apart, Belongs, Decisions, Packets, Deliveries, PlainPacket, Chosen, AfBuilders.Valid, Delivered,
      RunFits, AfBuilders.Stats, Record, Shows, Tally, After, Start;
    PlainStreamFits(t, |pfs[0].payload|, ks, pfs, afs);
    PlainStream(t, afb.rs, |pfs[0].payload|, ks, pfs, afs);
    PacketsOfDeliveries(t, afs, Only(Decisions(ks), WholeSet(t, ks, pfs)));
    ghost var st;
    got, st := afb.PushAll(pfs);
    if st[0] == Statistics(0, 0, true) {
      PlainSizes(t, |pfs[0].payload|, afs);
      CountersShow(t, afb.rs, |pfs[0].payload|, ks, pfs, st, |ks|);
    }
  }

  /** With FEC, where packets arrive whole or in parts too small to try, also in a program built without a decoder. */
  method ReceiveCoded(afb: AfBuilders, pfs: seq<Fragment>, ghost t: Transmission, ghost ks: seq<nat>,
      ghost afs: seq<seq<byte>>, ghost chunks: seq<seq<seq<byte>>>, ghost parity: Parity, ghost s: nat)
      returns (got: seq<seq<byte>>)
    requires afb.Valid() && afb.state.Idle? && pfs != []
    requires Carries(t, ks, pfs) && Near(ks) && Apart(ks) && WholeOrFew(t, s, ks, pfs)
    requires CodedCut(t, afs, chunks, parity, s) && FixesCodewords(afb.rs, parity)
    modifies afb
    ensures afb.Valid() && |afs| == |t.parts|
    ensures got == if 48 * CMax(t.h, s) >= s then Chosen(afs, Only(Decisions(ks), WholeSet(t, ks, pfs))) else []
    ensures old(afb.Stats()).(initial := true) == Statistics(0, 0, true) ==>
              Shows(afb.Stats(), Tally(t, s, ks, pfs, |ks|))
  {
    hide Near, Apart, WholeOrFew, CodedPacket, Decisions, Packets, FixesCodewords, CMax, Chosen, AfBuilders.Valid,
      RunFits, Delivered, After, Start, Belongs, AfBuilders.Stats, Record, Shows, Tally;
    CodedRun(t, afb.rs, parity, s, ks, pfs, afs, chunks);
    ghost var st;
    got, st := afb.PushAll(pfs);
    if st[0] == Statistics(0, 0, true) {
      CodedCounters(t, afb.rs, parity, s, ks, pfs, afs, chunks, st);
    }
  }

  lemma CodedRun(t: Transmission, rs: RsDecoder, parity: Parity, s: nat, ks: seq<nat>, pfs: seq<Fragment>,
      afs: seq<seq<byte>>, chunks: seq<seq<seq<byte>>>)
    requires Carries(t, ks, pfs) && Near(ks) && Apart(ks) && pfs != [] && WholeOrFew(t, s, ks, pfs)
    requires CodedCut(t, afs, chunks, parity, s) && FixesCodewords(rs, parity)
    ensures RunFits(pfs) && pfs[0].header == t.h && |pfs[0].payload| == s && t.h.fec && t.h.rsk <= 207 && t.h.fcount > 0
    ensures Packets(Delivered(rs, t.h, s, Start(pfs[0]), pfs))
         == if 48 * CMax(t.h, s) >= s then Chosen(afs, Only(Decisions(ks), WholeSet(t, ks, pfs))) else []
  {
    hide Near, Apart, WholeOrFew, CodedPacket, Decisions, Deliveries, FixesCodewords, CMax, Chosen, RunFits, Delivered,
      After, Start, Belongs;
    CodedSizes(t, parity, s, afs, chunks);
    WholeLosesNothing(t, s, ks, pfs);
    CodedStreamFits(t, rs, parity, s, ks, pfs, afs, chunks);
    CodedStream(t, rs, parity, s, ks, pfs, afs, chunks);
    PacketsOfDeliveries(t, afs, Only(Decisions(ks), WholeSet(t, ks, pfs)));
  }

  /** With FEC and a decoder that corrects: exactly the packets of which enough arrived. */
  method ReceiveLossy(afb: AfBuilders, pfs: seq<Fragment>, ghost t: Transmission, ghost ks: seq<nat>,
      ghost afs: seq<seq<byte>>, ghost chunks: seq<seq<seq<byte>>>, ghost parity: Parity, ghost s: nat)
      returns (got: seq<seq<byte>>)
    requires afb.Valid() && afb.state.Idle? && pfs != []
    requires Carries(t, ks, pfs) && Near(ks) && Apart(ks)
    requires CodedCut(t, afs, chunks, parity, s) && EnoughOrFew(t, s, ks, pfs) && Corrects(afb.rs, parity)
    modifies afb
    ensures afb.Valid() && |afs| == |t.parts|
    ensures got == Chosen(afs, Only(Decisions(ks), EnoughSet(t, s, ks, pfs)))
    ensures old(afb.Stats()).(initial := true) == Statistics(0, 0, true) ==>
              Shows(afb.Stats(), Tally(t, s, ks, pfs, |ks|))
  {
    hide Near, Apart, EnoughOrFew, CodedPacket, Decisions, Packets, Corrects, CMax, Chosen, AfBuilders.Valid, RunFits,
      Delivered, After, Start, Belongs, EnoughOf, AfBuilders.Stats, Record, Shows, Tally;
    LossyRun(t, afb.rs, parity, s, ks, pfs, afs, chunks);
    ghost var st;
    got, st := afb.PushAll(pfs);
    if st[0] == Statistics(0, 0, true) {
      CodedCounters(t, afb.rs, parity, s, ks, pfs, afs, chunks, st);
    }
  }

  lemma PlainSizes(t: Transmission, s: nat, afs: seq<seq<byte>>)
    requires PlainCut(t, afs, s)
    ensures forall k :: 0 <= k < |t.parts| ==> |t.parts[k]| == t.h.fcount
  {
    forall k | 0 <= k < |t.parts| ensures |t.parts[k]| == t.h.fcount {
      assert PlainPacket(t, afs[k], s, k);
    }
  }

  lemma CodedCounters(t: Transmission, rs: RsDecoder, parity: Parity, s: nat, ks: seq<nat>, pfs: seq<Fragment>,
      afs: seq<seq<byte>>, chunks: seq<seq<seq<byte>>>, st: seq<Statistics>)
    requires Carries(t, ks, pfs) && Near(ks) && Apart(ks) && pfs != [] && CodedCut(t, afs, chunks, parity, s)
    requires |st| == |pfs| + 1 && Record(t.h, s, Start(pfs[0]), pfs, st) && st[0] == Statistics(0, 0, true)
    ensures Shows(st[|ks|], Tally(t, s, ks, pfs, |ks|))
  {
    hide CodedPacket, Near, Apart, Record, Shows, Tally, AllRegular, CMax, Start, Belongs;
    CodedSizes(t, parity, s, afs, chunks);
    CodedRegular(t, parity, s, ks, pfs, afs, chunks);
    CountersShow(t, rs, s, ks, pfs, st, |ks|);
  }

  lemma LossyRun(t: Transmission, rs: RsDecoder, parity: Parity, s: nat, ks: seq<nat>, pfs: seq<Fragment>,
      afs: seq<seq<byte>>, chunks: seq<seq<seq<byte>>>)
    requires Carries(t, ks, pfs) && Near(ks) && Apart(ks) && pfs != []
    requires CodedCut(t, afs, chunks, parity, s) && EnoughOrFew(t, s, ks, pfs) && Corrects(rs, parity)
    ensures RunFits(pfs) && pfs[0].header == t.h && |pfs[0].payload| == s && t.h.fec && t.h.rsk <= 207 && t.h.fcount > 0
    ensures Packets(Delivered(rs, t.h, s, Start(pfs[0]), pfs))
         == Chosen(afs, Only(Decisions(ks), EnoughSet(t, s, ks, pfs)))
  {
    hide Near, Apart, EnoughOrFew, CodedPacket, Decisions, Deliveries, Corrects, CMax, Chosen, RunFits, Delivered,
      After, Start, Belongs, EnoughOf;
    EnoughIsInside(t, s, ks, pfs);
    CodedStreamFits(t, rs, parity, s, ks, pfs, afs, chunks);
    LossyStream(t, rs, parity, s, ks, pfs, afs, chunks);
    PacketsOfDeliveries(t, afs, Only(Decisions(ks), EnoughSet(t, s, ks, pfs)));
  }

  lemma CodedSizes(t: Transmission, parity: Parity, s: nat, afs: seq<seq<byte>>, chunks: seq<seq<seq<byte>>>)
    requires CodedCut(t, afs, chunks, parity, s)
    ensures t.h.fec && t.h.rsk <= 207 && t.h.fcount > 0 && s > 0
    ensures |afs| == |t.parts| && forall k :: 0 <= k < |t.parts| ==> |t.parts[k]| == t.h.fcount
  {
    hide CodedPacket;
    forall k | 0 <= k < |t.parts| ensures |t.parts[k]| == t.h.fcount {
      assert CodedPacket(t, afs[k], chunks[k], parity, s, k);
      CodedFacts(t, afs[k], chunks[k], parity, s, k);
    }
  }

  lemma EnoughIsInside(t: Transmission, s: nat, ks: seq<nat>, pfs: seq<Fragment>)
    requires Carries(t, ks, pfs) && t.h.fec && t.h.rsk <= 207 && EnoughOrFew(t, s, ks, pfs)
    ensures LossesInside(t, s, ks, pfs)
  {
    hide Decisions, Got, Belongs, AllCorrectable, LossInside;
    forall k | k in Decisions(ks) && k < |t.parts| && CanTry(t, s, ks, pfs, k)
      ensures LossInside(t.h.fcount, s, ChunkSize(t.h), Got(ks, pfs, k), CMax(t.h, s), t.h.fcount)
    {
      assert EnoughOf(t, s, ks, pfs, k);
    }
  }
}
