/** Section reassembly from transport-stream packets (process_ts; section 2.4.4 of ISO/IEC 13818-1).
    The abstract receiver keeps the bytes of the section in progress; class PsiReceiver refines it. */
module Psi {
  import opened Bits

  const TS_SIZE: nat := 188
  const BODY: nat := 184
  const MAX_SECTION: nat := 4095

  type Packet = p: seq<byte> | |p| == TS_SIZE witness seq(TS_SIZE, _ => 0)

  /** PSI_BUFFER_GET_SIZE: the whole length of the section whose header is given. */
  function SectionSize(s: seq<byte>): (n: nat)
    requires |s| >= 3
    ensures 3 <= n < 4099
  {
    3 + 256 * (s[1] as int % 16) + s[2] as int
  }

  predicate GoodSize(n: nat) {
    3 < n <= MAX_SECTION
  }

  predicate HasPayload(ts: Packet) { ts[3] / 16 % 2 == 1 }

  predicate HasAdaptation(ts: Packet) { ts[3] / 32 % 2 == 1 }

  predicate IsStart(ts: Packet) { ts[1] / 64 % 2 == 1 }

  function Counter(ts: Packet): nat { ts[3] % 16 }

  /** TS_GET_PAYLOAD. */
  function PayloadStart(ts: Packet): (p: Option<nat>)
    ensures p.Some? ==> 4 <= p.value < TS_SIZE
  {
    if !HasPayload(ts) then None
    else if !HasAdaptation(ts) then Some(4)
    else if ts[4] as nat >= BODY - 1 then None
    else Some(5 + ts[4])
  }

  function Bit(b: bool): nat {
    if b then 1 else 0
  }

  /** What the receiver reads off a packet whose four header bytes were written from their fields. */
  lemma WrittenHeader(ts: Packet, error: bool, start: bool, priority: bool, pid: nat, scrambling: nat, adapted: bool,
      payload: bool, counter: nat)
    requires pid < 0x2000 && scrambling < 4 && counter < 16
    requires ts[1] as int == 128 * Bit(error) + 64 * Bit(start) + 32 * Bit(priority) + pid / 256
    requires ts[3] as int == 64 * scrambling + 32 * Bit(adapted) + 16 * Bit(payload) + counter
    ensures IsStart(ts) == start && HasPayload(ts) == payload && HasAdaptation(ts) == adapted
    ensures Counter(ts) == counter
    ensures PayloadStart(ts) ==
      if !payload || (adapted && ts[4] >= 183) then None else Some(if adapted then 5 + ts[4] as nat else 4)
  {
    assert pid / 256 < 32;
  }

  /** part: the bytes gathered so far; known: its length has been read from a complete header. */
  datatype Gather = Gather(part: seq<byte>, known: bool, cc: nat)

  datatype Outcome = Outcome(g: Gather, sections: seq<seq<byte>>)

  function Take(s: seq<byte>, n: nat): seq<byte> {
    if n <= |s| then s[..n] else s
  }

  /** The sections that start in the rest of a packet with a pointer field. */
  function Scan(rest: seq<byte>, g: Gather): Outcome
    decreases |rest|
  {
    if rest == [] || rest[0] == 0xff then Outcome(g, [])
    else if |rest| < 3 then Outcome(g.(part := rest, known := false), [])
    else
      var n := SectionSize(rest);
      if !GoodSize(n) then Outcome(g.(known := false), [])
      else if n > |rest| then Outcome(g.(part := rest, known := true), [])
      else
        var o := Scan(rest[n..], g.(part := [], known := true));
        Outcome(o.g, [rest[..n]] + o.sections)
  }

  /** The end of the section in progress, found before the pointer: kept only if it has the length its own
      header announces. */
  function Finish(g: Gather, bytes: seq<byte>): Option<seq<byte>> {
    var all := g.part + bytes;
    if |all| >= 3 && GoodSize(SectionSize(all)) && SectionSize(all) == |all| then Some(all) else None
  }

  function StepStart(g: Gather, cc: nat, payload: seq<byte>): Outcome
    requires payload != []
  {
    var ptr: nat := payload[0];
    if ptr >= BODY then Outcome(g.(part := []), [])
    else if ptr == 0 || g.part == [] then
      var rest := if 1 + ptr <= |payload| then payload[1 + ptr..] else [];
      var o := Scan(rest, g);
      Outcome(o.g.(cc := cc), o.sections)
    else if (g.cc + 1) % 16 != cc then Outcome(g.(part := []), [])
    else
      match Finish(g, Take(payload[1..], ptr))
      case None => Outcome(g.(part := []), [])
      case Some(section) =>
        var rest := if 1 + ptr <= |payload| then payload[1 + ptr..] else [];
        var o := Scan(rest, g.(part := []));
        Outcome(o.g.(cc := cc), [section] + o.sections)
  }

  function StepContinue(g: Gather, cc: nat, payload: seq<byte>): Outcome {
    if g.part == [] then Outcome(g, [])
    else if (g.cc + 1) % 16 != cc then Outcome(g.(part := []), [])
    else if !g.known && |g.part| >= 3 then Outcome(g.(part := []), [])
    else
      var header := if g.known then g.part else g.part + Take(payload, 3 - |g.part|);
      if |header| < 3 || !GoodSize(SectionSize(header)) || SectionSize(header) <= |g.part| then
        Outcome(g.(part := []), [])
      else
        var remain := SectionSize(header) - |g.part|;
        if remain <= BODY then Outcome(Gather([], true, cc), [g.part + Take(payload, remain)])
        else Outcome(Gather(g.part + Take(payload, BODY), true, cc), [])
  }

  /** process_ts on one packet. */
  function Step(g: Gather, ts: Packet): Outcome {
    match PayloadStart(ts)
    case None => Outcome(g, [])
    case Some(p) =>
      if IsStart(ts) then StepStart(g, Counter(ts), ts[p..]) else StepContinue(g, Counter(ts), ts[p..])
  }

  function Run(g: Gather, pkts: seq<Packet>): Outcome
    decreases |pkts|
  {
    if pkts == [] then Outcome(g, [])
    else
      var o := Step(g, pkts[0]);
      var r := Run(o.g, pkts[1..]);
      Outcome(r.g, o.sections + r.sections)
  }

  // ----- what holds for arbitrary input -----

  /** A known length has been read from the gathered header and is not reached yet. */
  ghost predicate Sound(g: Gather) {
    g.known && g.part != [] ==> 3 <= |g.part| < SectionSize(g.part) && GoodSize(SectionSize(g.part))
  }

  ghost predicate IsSection(s: seq<byte>) {
    4 <= |s| <= MAX_SECTION && SectionSize(s) == |s|
  }

  ghost predicate AllSections(ss: seq<seq<byte>>) {
    forall i :: 0 <= i < |ss| ==> IsSection(ss[i])
  }

  lemma SizeFromHeader(a: seq<byte>, b: seq<byte>)
    requires |a| >= 3 && a <= b
    ensures SectionSize(b) == SectionSize(a)
  {
    assert a[1] == b[1] && a[2] == b[2];
  }

  lemma {:induction false} ScanSound(rest: seq<byte>, g: Gather)
    requires Sound(g)
    ensures Sound(Scan(rest, g).g) && AllSections(Scan(rest, g).sections)
    decreases |rest|
  {
    if rest != [] && rest[0] != 0xff && |rest| >= 3 {
      var n := SectionSize(rest);
      if GoodSize(n) && n <= |rest| {
        ScanSound(rest[n..], g.(part := [], known := true));
        SizeFromHeader(rest[..3], rest);
        SizeFromHeader(rest[..3], rest[..n]);
      }
    }
  }

  /** The reads of a packet stay inside it and the section stays inside the 4095-byte buffer. The C code checks
      neither: a continuation packet must hold the bytes that are taken from it, and a pointer field must leave its
      bytes inside the packet and, added to the bytes gathered, inside the buffer. Every permitted packetisation does
      (CarriedInBounds). */
  predicate InBounds(g: Gather, ts: Packet) {
    match PayloadStart(ts)
    case None => true
    case Some(p) =>
      if g.part == [] || (g.cc + 1) % 16 != Counter(ts) then true
      else if IsStart(ts) then
        ts[p] as nat >= BODY || (p + 1 + ts[p] <= TS_SIZE && |g.part| + ts[p] <= MAX_SECTION)
      else if !g.known && |g.part| >= 3 then true
      else
        (g.known || 3 - |g.part| <= TS_SIZE - p)
        && StepContinueRemain(g, ts[p..]) <= TS_SIZE - p
  }

  /** How many payload bytes a continuation packet contributes. */
  function StepContinueRemain(g: Gather, payload: seq<byte>): nat {
    var header := if g.known || |g.part| >= 3 then g.part else g.part + Take(payload, 3 - |g.part|);
    if |header| < 3 || SectionSize(header) <= |g.part| then 0
    else if SectionSize(header) - |g.part| <= BODY then SectionSize(header) - |g.part| else BODY
  }

  /** Every packet keeps the state sound, and every section handed out has 4..4095 bytes, exactly as many as its
      own header says. */
  lemma StepSound(g: Gather, ts: Packet)
    requires Sound(g) && InBounds(g, ts)
    ensures Sound(Step(g, ts).g) && AllSections(Step(g, ts).sections)
  {
    match PayloadStart(ts)
    case None =>
    case Some(p) =>
      if IsStart(ts) {
        StartSound(g, Counter(ts), ts[p..]);
      } else {
        ContinueSound(g, Counter(ts), ts[p..]);
      }
  }

  lemma StartSound(g: Gather, cc: nat, payload: seq<byte>)
    requires Sound(g) && payload != []
    ensures Sound(StepStart(g, cc, payload).g) && AllSections(StepStart(g, cc, payload).sections)
  {
    var ptr: nat := payload[0];
    var rest := if 1 + ptr <= |payload| then payload[1 + ptr..] else [];
    ScanSound(rest, g);
    ScanSound(rest, g.(part := []));
  }

  lemma ContinueSound(g: Gather, cc: nat, payload: seq<byte>)
    requires Sound(g)
    requires g.part != [] && (g.cc + 1) % 16 == cc && (g.known || |g.part| < 3) ==>
               StepContinueRemain(g, payload) <= |payload| && (g.known || 3 - |g.part| <= |payload|)
    ensures Sound(StepContinue(g, cc, payload).g) && AllSections(StepContinue(g, cc, payload).sections)
  {
    if g.part != [] && (g.cc + 1) % 16 == cc && (g.known || |g.part| < 3) {
      var header := if g.known then g.part else g.part + Take(payload, 3 - |g.part|);
      var remain := SectionSize(header) - |g.part|;
      if GoodSize(SectionSize(header)) && remain > 0 {
        if remain <= BODY {
          SizeFromHeader(header, g.part + Take(payload, remain));
        } else {
          SizeFromHeader(header, g.part + Take(payload, BODY));
        }
      }
    }
  }

  ghost predicate AllInBounds(g: Gather, pkts: seq<Packet>)
    decreases |pkts|
  {
    pkts == [] || (InBounds(g, pkts[0]) && AllInBounds(Step(g, pkts[0]).g, pkts[1..]))
  }

  /** Over whole runs on arbitrary packets. */
  lemma {:induction false} RunSound(g: Gather, pkts: seq<Packet>)
    requires Sound(g) && AllInBounds(g, pkts)
    ensures Sound(Run(g, pkts).g) && AllSections(Run(g, pkts).sections)
    decreases |pkts|
  {
    if pkts != [] {
      StepSound(g, pkts[0]);
      RunSound(Step(g, pkts[0]).g, pkts[1..]);
    }
  }

  // ----- packetisation -----

  /** A section a multiplex may carry: 0xff is reserved for stuffing. */
  ghost predicate Carriable(s: seq<byte>) {
    IsSection(s) && s[0] != 0xff
  }

  ghost predicate AllCarriable(ss: seq<seq<byte>>) {
    forall i :: 0 <= i < |ss| ==> Carriable(ss[i])
  }

  /** A section: table_id, the four bits in front of the length, and what follows the length. */
  datatype Section = Section(id: byte, flags: nat, body: seq<byte>)

  /** Up to 4095 bytes in all, at least one behind the length. */
  predicate Proper(x: Section) {
    x.id != 0xff && x.flags < 16 && 1 <= |x.body| <= 4092
  }

  predicate AllProper(xs: seq<Section>) {
    forall i :: 0 <= i < |xs| ==> Proper(xs[i])
  }

  /** The section as it is sent: the number of bytes behind the length, in the low twelve bits of two bytes. */
  function Written(x: Section): seq<byte>
    requires x.flags < 16 && |x.body| < 0x1000
  {
    [x.id] + Put16(0x1000 * x.flags + |x.body|) + x.body
  }

  ghost function AllWritten(xs: seq<Section>): (ss: seq<seq<byte>>)
    requires AllProper(xs)
    ensures |ss| == |xs|
  {
    seq(|xs|, i requires 0 <= i < |xs| => Written(xs[i]))
  }

  /** The receiver reads the length that was written, and accepts it exactly within those bounds. */
  lemma WrittenSize(x: Section)
    requires x.flags < 16 && |x.body| < 0x1000
    ensures SectionSize(Written(x)) == |Written(x)| == 3 + |x.body|
    ensures Carriable(Written(x)) <==> Proper(x)
  {
    SplitLength(x.flags, |x.body|);
  }

  lemma SplitLength(flags: nat, n: nat)
    requires flags < 16 && n < 0x1000
    ensures Put16(0x1000 * flags + n) == [16 * flags + n / 256, n % 256]
    ensures (16 * flags + n / 256) % 16 == n / 256
  {
  }

  /** Nothing else is a section: what the receiver takes for one is written that way. */
  lemma SectionsAreWritten(s: seq<byte>)
    requires Carriable(s)
    ensures Proper(Section(s[0], s[1] / 16, s[3..])) && s == Written(Section(s[0], s[1] / 16, s[3..]))
  {
    SplitLength(s[1] / 16, |s| - 3);
  }

  lemma WrittenCarriable(xs: seq<Section>)
    requires AllProper(xs)
    ensures AllCarriable(AllWritten(xs))
  {
    hide Carriable, Written;
    forall i | 0 <= i < |xs| ensures Carriable(AllWritten(xs)[i]) {
      assert Proper(xs[i]);
      WrittenSize(xs[i]);
    }
  }

  function Stuffing(n: nat): (s: seq<byte>)
    ensures |s| == n
  {
    seq(n, _ => 0xff)
  }

  ghost predicate PlainPacket(ts: Packet, cc: nat) {
    HasPayload(ts) && !HasAdaptation(ts) && Counter(ts) == cc % 16
  }

  /** The packets carry the rest `tail` of a section under way and then the sections `ss`, with counters from cc:
      sections may be split anywhere, follow each other within a packet, or be separated by stuffing. */
  ghost predicate Carries(pkts: seq<Packet>, cc: nat, tail: seq<byte>, ss: seq<seq<byte>>)
    decreases |pkts|, 0, 0
  {
    if pkts == [] then tail == [] && ss == []
    else
      var ts, body := pkts[0], pkts[0][4..];
      && PlainPacket(ts, cc)
      && if IsStart(ts) then
           && body[0] as nat == |tail| < BODY && body[1..1 + |tail|] == tail
           && Fills(body[1 + |tail|..], pkts[1..], cc + 1, ss)
         else if |tail| >= BODY then
           body == tail[..BODY] && Carries(pkts[1..], cc + 1, tail[BODY..], ss)
         else
           body == tail + Stuffing(BODY - |tail|) && Carries(pkts[1..], cc + 1, [], ss)
  }

  /** The rest of a packet behind its pointer target holds the first of `ss`; the remaining packets the rest. */
  ghost predicate Fills(room: seq<byte>, pkts: seq<Packet>, cc: nat, ss: seq<seq<byte>>)
    decreases |pkts|, 1, |room|
  {
    if room == [] then Carries(pkts, cc, [], ss)
    else if room[0] == 0xff then room == Stuffing(|room|) && Carries(pkts, cc, [], ss)
    else
      && ss != [] && ss[0] != []
      && if |ss[0]| <= |room| then
           room[..|ss[0]|] == ss[0] && Fills(room[|ss[0]|..], pkts, cc, ss[1..])
         else
           room == ss[0][..|room|] && Carries(pkts, cc, ss[0][|room|..], ss[1..])
  }

  /** The receiver holds the first part of section `cur`, of which `tail` is still to come. */
  ghost predicate InProgress(g: Gather, cc: nat, cur: seq<byte>, tail: seq<byte>) {
    if tail == [] then g.part == []
    else
      && g.part != [] && g.part + tail == cur && Carriable(cur)
      && g.known == (|g.part| >= 3) && (g.cc + 1) % 16 == cc % 16
  }

  ghost function Current(cur: seq<byte>, tail: seq<byte>): seq<seq<byte>> {
    if tail == [] then [] else [cur]
  }

  lemma HeaderOfPrefix(cur: seq<byte>, n: nat)
    requires Carriable(cur) && 3 <= n <= |cur|
    ensures SectionSize(cur[..n]) == |cur|
  {
    SizeFromHeader(cur[..n], cur);
  }

  /** The receiver scans the rest of a start packet exactly as the sender filled it. */
  lemma {:induction false} ScanOfFills(room: seq<byte>, g: Gather, pkts: seq<Packet>, cc: nat, ss: seq<seq<byte>>)
    returns (done: nat, cur: seq<byte>, tail: seq<byte>)
    requires Fills(room, pkts, cc, ss) && AllCarriable(ss) && g.part == [] && cc > 0
    ensures var o := Scan(room, g);
            && done + (if tail == [] then 0 else 1) <= |ss|
            && o.sections == ss[..done] && (tail != [] ==> cur == ss[done])
            && Carries(pkts, cc, tail, ss[done + (if tail == [] then 0 else 1)..])
            && InProgress(o.g.(cc := (cc - 1) % 16), cc, cur, tail)
    decreases |room|
  {
    hide Scan, Carriable, Carries;
    done, cur, tail := 0, [], [];
    if room == [] || room[0] == 0xff {
      ScanStops(room, g);
    } else {
      var s := ss[0];
      assert Carriable(s);
      if |s| <= |room| {
        ScanWhole(room, g, s);
        done, cur, tail := ScanOfFills(room[|s|..], g.(part := [], known := true), pkts, cc, ss[1..]);
        DropFirst(ss, done, if tail == [] then 0 else 1);
        done := done + 1;
      } else {
        ScanCut(room, g, s);
        cur, tail := s, s[|room|..];
      }
    }
  }

  lemma DropFirst<T>(ss: seq<T>, d: nat, k: nat)
    requires 1 + d + k <= |ss|
    ensures ss[..d + 1] == [ss[0]] + ss[1..][..d] && ss[1..][d + k..] == ss[d + 1 + k..]
    ensures k > 0 ==> ss[1..][d] == ss[d + 1]
  {
  }

  lemma ScanStops(room: seq<byte>, g: Gather)
    requires room == [] || room[0] == 0xff
    ensures Scan(room, g) == Outcome(g, [])
  {
  }

  lemma ScanWhole(room: seq<byte>, g: Gather, s: seq<byte>)
    requires Carriable(s) && s <= room && room[0] != 0xff
    ensures var o := Scan(room[|s|..], g.(part := [], known := true));
            Scan(room, g) == Outcome(o.g, [s] + o.sections)
  {
    SizeFromHeader(s, room);
    assert room[..|s|] == s;
  }

  lemma ScanCut(room: seq<byte>, g: Gather, s: seq<byte>)
    requires Carriable(s) && room != [] && |room| < |s| && room == s[..|room|] && room[0] != 0xff
    ensures Scan(room, g) == Outcome(g.(part := room, known := |room| >= 3), [])
    ensures room + s[|room|..] == s
  {
    if |room| >= 3 { HeaderOfPrefix(s, |room|); }
  }

  /** One packet of a well-formed stream moves the receiver along with the sender. */
  lemma ContinueTracks(g: Gather, ts: Packet, cc: nat, cur: seq<byte>, tail: seq<byte>)
    requires PlainPacket(ts, cc) && !IsStart(ts) && InProgress(g, cc, cur, tail) && tail != []
    requires if |tail| >= BODY then ts[4..] == tail[..BODY] else ts[4..] == tail + Stuffing(BODY - |tail|)
    ensures var next := if |tail| >= BODY then tail[BODY..] else [];
            InProgress(Step(g, ts).g, cc + 1, cur, next)
            && Step(g, ts).sections == if next == [] then [cur] else []
  {
    hide SectionSize;
    var payload := ts[4..];
    var n := if |g.part| >= 3 then |g.part| else 3;
    var header := if g.known then g.part else g.part + Take(payload, 3 - |g.part|);
    assert header == cur[..n];
    HeaderOfPrefix(cur, n);
    var remain := |cur| - |g.part|;
    assert remain == |tail|;
    if remain <= BODY {
      assert Take(payload, remain) == tail;
    } else {
      assert Take(payload, BODY) == tail[..BODY];
      assert (g.part + tail[..BODY]) + tail[BODY..] == cur;
    }
  }

  lemma StartTracks(g: Gather, ts: Packet, cc: nat, cur: seq<byte>, tail: seq<byte>)
    requires PlainPacket(ts, cc) && IsStart(ts) && InProgress(g, cc, cur, tail)
    requires ts[4] as nat == |tail| < BODY && ts[5..5 + |tail|] == tail
    ensures var o := Scan(ts[5 + |tail|..], g.(part := []));
            Step(g, ts) == Outcome(o.g.(cc := cc % 16), Current(cur, tail) + o.sections)
  {
    var payload := ts[4..];
    assert payload[1 + |tail|..] == ts[5 + |tail|..];
    if tail != [] {
      assert Take(payload[1..], |tail|) == tail;
    } else {
      assert g.(part := []) == g;
    }
  }

  /** A permitted packetisation never makes the receiver read outside a packet or write outside its buffer. */
  lemma {:induction false} CarriedInBounds(pkts: seq<Packet>, g: Gather, cc: nat, cur: seq<byte>, tail: seq<byte>,
      ss: seq<seq<byte>>)
    requires Carries(pkts, cc, tail, ss) && AllCarriable(ss) && InProgress(g, cc, cur, tail)
    ensures AllInBounds(g, pkts)
    decreases |pkts|
  {
    if pkts != [] {
      var ts := pkts[0];
      OnePacketInBounds(pkts, g, cc, cur, tail, ss);
      hide Step, Fills, Carriable, InBounds;
      if IsStart(ts) {
        var d, c, t := StartReceives(pkts, g, cc, cur, tail, ss);
        CarriedInBounds(pkts[1..], Step(g, ts).g, cc + 1, c, t, ss[d + |Current(c, t)|..]);
      } else if tail == [] {
        IdleIgnores(g, ts);
        CarriedInBounds(pkts[1..], g, cc + 1, [], [], ss);
      } else {
        ContinueTracks(g, ts, cc, cur, tail);
        CarriedInBounds(pkts[1..], Step(g, ts).g, cc + 1, cur, if |tail| >= BODY then tail[BODY..] else [], ss);
      }
    }
  }

  lemma OnePacketInBounds(pkts: seq<Packet>, g: Gather, cc: nat, cur: seq<byte>, tail: seq<byte>, ss: seq<seq<byte>>)
    requires pkts != [] && Carries(pkts, cc, tail, ss) && InProgress(g, cc, cur, tail)
    ensures InBounds(g, pkts[0])
  {
    hide Fills;
    if g.part != [] { assert |g.part| + |tail| == |cur| <= MAX_SECTION; }
  }

  /** Round trip for every permitted packetisation: the receiver hands out exactly the sections sent. */
  lemma {:induction false} ReceivesExactly(pkts: seq<Packet>, g: Gather, cc: nat, cur: seq<byte>, tail: seq<byte>,
      ss: seq<seq<byte>>)
    requires Carries(pkts, cc, tail, ss) && AllCarriable(ss) && InProgress(g, cc, cur, tail)
    ensures Run(g, pkts).sections == Current(cur, tail) + ss
    ensures Run(g, pkts).g.part == []
    decreases |pkts|
  {
    if pkts != [] {
      var ts := pkts[0];
      hide Step, Fills, Carriable;
      if IsStart(ts) {
        var d, c, t := StartReceives(pkts, g, cc, cur, tail, ss);
        var rest := ss[d + |Current(c, t)|..];
        ReceivesExactly(pkts[1..], Step(g, ts).g, cc + 1, c, t, rest);
        ConcatAssoc(Current(cur, tail) + ss[..d], Current(c, t), rest);
        ConcatAssoc(Current(cur, tail), ss[..d], Current(c, t) + rest);
        ConcatAssoc(ss[..d], Current(c, t), rest);
      } else if tail == [] {
        IdleIgnores(g, ts);
        ReceivesExactly(pkts[1..], g, cc + 1, [], [], ss);
      } else {
        ContinueTracks(g, ts, cc, cur, tail);
        ReceivesExactly(pkts[1..], Step(g, ts).g, cc + 1, cur, if |tail| >= BODY then tail[BODY..] else [], ss);
      }
    }
  }

  lemma IdleIgnores(g: Gather, ts: Packet)
    requires g.part == [] && !IsStart(ts)
    ensures Step(g, ts) == Outcome(g, [])
  {
  }

  lemma StartReceives(pkts: seq<Packet>, g: Gather, cc: nat, cur: seq<byte>, tail: seq<byte>, ss: seq<seq<byte>>)
    returns (done: nat, c: seq<byte>, t: seq<byte>)
    requires pkts != [] && IsStart(pkts[0])
    requires Carries(pkts, cc, tail, ss) && AllCarriable(ss) && InProgress(g, cc, cur, tail)
    ensures done + |Current(c, t)| <= |ss| && ss == ss[..done] + Current(c, t) + ss[done + |Current(c, t)|..]
    ensures Step(g, pkts[0]).sections == Current(cur, tail) + ss[..done]
    ensures Carries(pkts[1..], cc + 1, t, ss[done + |Current(c, t)|..])
    ensures InProgress(Step(g, pkts[0]).g, cc + 1, c, t) && AllCarriable(ss[done + |Current(c, t)|..])
  {
    hide Step, Scan, StepStart, Carriable;
    var ts := pkts[0];
    assert ts[4..][1 + |tail|..] == ts[5 + |tail|..] && ts[4..][1..1 + |tail|] == ts[5..5 + |tail|];
    StartTracks(g, ts, cc, cur, tail);
    done, c, t := ScanOfFills(ts[5 + |tail|..], g.(part := []), pkts[1..], cc + 1, ss);
  }

  // ----- packets missing -----

  /** A receiver that holds nothing hands out exactly the sections that begin from now on, also when it comes in between
      the packets of one. */
  lemma {:induction false} JoinsMidStream(pkts: seq<Packet>, g: Gather, cc: nat, tail: seq<byte>, ss: seq<seq<byte>>)
    requires Carries(pkts, cc, tail, ss) && AllCarriable(ss) && g.part == []
    ensures AllInBounds(g, pkts) && Run(g, pkts).sections == ss
    decreases |pkts|
  {
    if pkts != [] {
      var ts := pkts[0];
      IdleInBounds(g, pkts, cc, tail, ss);
      hide Step, Fills, AllCarriable, InBounds, InProgress;
      if IsStart(ts) {
        var d, c, t := IdleStart(pkts, g, cc, tail, ss);
        var rest := ss[d + |Current(c, t)|..];
        CarriedInBounds(pkts[1..], Step(g, ts).g, cc + 1, c, t, rest);
        ReceivesExactly(pkts[1..], Step(g, ts).g, cc + 1, c, t, rest);
        ConcatAssoc(ss[..d], Current(c, t), rest);
      } else {
        IdleIgnores(g, ts);
        JoinsMidStream(pkts[1..], g, cc + 1, if |tail| >= BODY then tail[BODY..] else [], ss);
      }
    }
  }

  lemma IdleInBounds(g: Gather, pkts: seq<Packet>, cc: nat, tail: seq<byte>, ss: seq<seq<byte>>)
    requires pkts != [] && Carries(pkts, cc, tail, ss) && g.part == []
    ensures InBounds(g, pkts[0])
  {
    hide Fills;
  }

  lemma IdleStart(pkts: seq<Packet>, g: Gather, cc: nat, tail: seq<byte>, ss: seq<seq<byte>>)
    returns (done: nat, c: seq<byte>, t: seq<byte>)
    requires pkts != [] && IsStart(pkts[0]) && g.part == []
    requires Carries(pkts, cc, tail, ss) && AllCarriable(ss)
    ensures done + |Current(c, t)| <= |ss| && ss == ss[..done] + Current(c, t) + ss[done + |Current(c, t)|..]
    ensures Step(g, pkts[0]).sections == ss[..done]
    ensures Carries(pkts[1..], cc + 1, t, ss[done + |Current(c, t)|..])
    ensures InProgress(Step(g, pkts[0]).g, cc + 1, c, t) && AllCarriable(ss[done + |Current(c, t)|..])
  {
    hide Scan, Carriable;
    var ts := pkts[0];
    assert ts[4..][1 + |tail|..] == ts[5 + |tail|..];
    done, c, t := ScanOfFills(ts[5 + |tail|..], g, pkts[1..], cc + 1, ss);
  }

  /** A packet whose counter does not follow ends the section under way, and is dropped with all that begins in it, if
      it continues a section. */
  lemma Interrupted(g: Gather, ts: Packet, cc: nat)
    requires PlainPacket(ts, cc) && g.part != [] && (g.cc + 1) % 16 != cc % 16
    requires IsStart(ts) ==> ts[4] != 0
    ensures Step(g, ts) == Outcome(g.(part := []), [])
  {
  }

  /** A pointer behind the packet ends the section under way; nothing of the packet is read. */
  lemma PointerBeyond(g: Gather, ts: Packet, cc: nat)
    requires PlainPacket(ts, cc) && IsStart(ts) && ts[4] >= 184
    ensures Step(g, ts) == Outcome(g.(part := []), [])
  {
  }

  /** The bytes in front of the pointer target end the section under way if that gives it the length it announces;
      otherwise it is given up, and nothing more of the packet is read. */
  lemma PointerDecides(g: Gather, ts: Packet, cc: nat)
    requires PlainPacket(ts, cc) && IsStart(ts) && 0 < ts[4] < 184 && g.part != [] && (g.cc + 1) % 16 == cc % 16
    ensures var all := g.part + ts[5..5 + ts[4]];
            if 4 <= |all| <= 4095 && 3 + 256 * (all[1] as int % 16) + all[2] as int == |all|
            then Step(g, ts).sections != [] && Step(g, ts).sections[0] == all
            else Step(g, ts) == Outcome(g.(part := []), [])
  {
    hide Scan;
    assert Take(ts[4..][1..], ts[4] as nat) == ts[5..5 + ts[4]];
  }

  /** Behind a section header with an impossible length nothing more of the packet is read; the sections in front of it
      are handed out. */
  lemma {:induction false} ScanMalformed(xs: seq<Section>, bad: seq<byte>, g: Gather)
    requires AllProper(xs) && |bad| >= 3 && bad[0] != 0xff
    requires var n := 256 * (bad[1] as nat % 16) + bad[2] as nat; n == 0 || n > 4092
    ensures Scan(Flatten(AllWritten(xs)) + bad, g)
         == Outcome(Gather(if xs == [] then g.part else [], false, g.cc), AllWritten(xs))
    decreases |xs|
  {
    hide Scan;
    if xs == [] {
      ScanBad(bad, g);
      assert Flatten([]) + bad == bad;
    } else {
      var w, rest := Written(xs[0]), Flatten(AllWritten(xs[1..])) + bad;
      assert AllWritten(xs)[0] == w && AllWritten(xs)[1..] == AllWritten(xs[1..]);
      assert Flatten(AllWritten(xs)) + bad == w + rest && (w + rest)[|w|..] == rest;
      assert Proper(xs[0]);
      WrittenSize(xs[0]);
      ScanWhole(w + rest, g, w);
      ScanMalformed(xs[1..], bad, g.(part := [], known := true));
    }
  }

  lemma ScanBad(bad: seq<byte>, g: Gather)
    requires |bad| >= 3 && bad[0] != 0xff && !GoodSize(SectionSize(bad))
    ensures Scan(bad, g) == Outcome(g.(known := false), [])
  {
  }

  /** After a loss, a packet that continues a section is dropped; from the next one on, the receiver hands out exactly
      the sections that begin. */
  lemma ResumesAfterLoss(pkts: seq<Packet>, g: Gather, cc: nat, tail: seq<byte>, ss: seq<seq<byte>>, more: seq<byte>,
      later: seq<seq<byte>>)
    requires pkts != [] && PlainPacket(pkts[0], cc) && g.part != [] && (g.cc + 1) % 16 != cc % 16
    requires IsStart(pkts[0]) ==> pkts[0][4] != 0
    requires Carries(pkts[1..], cc + 1, more, later) && AllCarriable(later)
    ensures Run(g, pkts).sections == later
  {
    hide Carries, Step, AllCarriable;
    Interrupted(g, pkts[0], cc);
    JoinsMidStream(pkts[1..], g.(part := []), cc + 1, more, later);
  }

  /** The same after a packet in which a section begins behind pointer 0: it replaces the one under way. */
  lemma RestartsAfterLoss(pkts: seq<Packet>, g: Gather, cc: nat, ss: seq<seq<byte>>)
    requires Carries(pkts, cc, [], ss) && AllCarriable(ss) && pkts != [] && IsStart(pkts[0]) && pkts[0][5] != 0xff
    ensures Run(g, pkts).sections == ss
  {
    var idle := g.(part := []);
    StepForgets(pkts, g, cc, ss);
    hide Carries, Step, AllCarriable;
    JoinsMidStream(pkts, idle, cc, [], ss);
  }

  lemma StepForgets(pkts: seq<Packet>, g: Gather, cc: nat, ss: seq<seq<byte>>)
    requires Carries(pkts, cc, [], ss) && AllCarriable(ss) && pkts != [] && IsStart(pkts[0]) && pkts[0][5] != 0xff
    ensures Step(g, pkts[0]) == Step(g.(part := []), pkts[0])
  {
    hide Scan;
    var room := pkts[0][5..];
    assert pkts[0][4..][1..] == room && Fills(room, pkts[1..], cc + 1, ss) && Carriable(ss[0]);
    ScanForgets(room, ss[0], g);
    ScanForgets(room, ss[0], g.(part := []));
  }

  lemma ScanForgets(room: seq<byte>, s: seq<byte>, g: Gather)
    requires room != [] && room[0] != 0xff && Carriable(s)
    requires if |s| <= |room| then s <= room else room == s[..|room|]
    ensures Scan(room, g) == Scan(room, g.(part := [], known := true))
  {
    if |s| <= |room| { ScanWhole(room, g, s); } else { ScanCut(room, g, s); }
  }

  /** But a packet with pointer 0 that holds only stuffing is not checked and leaves the section under way, with the new
      counter: a packet that continues nothing then completes it with bytes that are not its own. */
  lemma Spliced(g: Gather, a: Packet, b: Packet, cc: nat)
    requires Sound(g) && g.known && g.part != [] && SectionSize(g.part) <= |g.part| + BODY
    requires PlainPacket(a, cc) && IsStart(a) && a[4] == 0 && a[5] == 0xff
    requires PlainPacket(b, cc + 1) && !IsStart(b)
    ensures Run(g, [a, b]).sections == [g.part + b[4..4 + SectionSize(g.part) - |g.part|]]
  {
    hide Step;
    Unchecked(g, a, cc);
    Completed(g.(cc := cc % 16), b, cc + 1);
    RunTwo(g, a, b);
  }

  lemma Unchecked(g: Gather, a: Packet, cc: nat)
    requires PlainPacket(a, cc) && IsStart(a) && a[4] == 0 && a[5] == 0xff
    ensures Step(g, a) == Outcome(g.(cc := cc % 16), [])
  {
    assert a[4..][1..][0] == 0xff;
  }

  lemma RunTwo(g: Gather, a: Packet, b: Packet)
    ensures Run(g, [a, b]).sections == Step(g, a).sections + Step(Step(g, a).g, b).sections
  {
    hide Step;
    assert [a, b][1..] == [b] && [b][1..] == [];
    var o := Step(Step(g, a).g, b);
    assert Run(o.g, []) == Outcome(o.g, []);
    assert Run(Step(g, a).g, [b]).sections == o.sections + [];
  }

  lemma Completed(g: Gather, b: Packet, cc: nat)
    requires Sound(g) && g.known && g.part != [] && SectionSize(g.part) <= |g.part| + BODY
    requires PlainPacket(b, cc) && !IsStart(b) && (g.cc + 1) % 16 == cc % 16
    ensures Step(g, b).sections == [g.part + b[4..4 + SectionSize(g.part) - |g.part|]]
  {
    var n := SectionSize(g.part) - |g.part|;
    assert b[4..][..n] == b[4..4 + n];
    assert Step(g, b) == Outcome(Gather([], true, Counter(b)), [g.part + Take(b[4..], n)]);
  }

  // ----- a sender -----

  function MakePacket(start: bool, cc: nat, body: seq<byte>): (ts: Packet)
    requires |body| == BODY
    ensures ts[4..] == body && PlainPacket(ts, cc) && IsStart(ts) == start
  {
    [0x47, if start then 0x40 else 0, 0, 0x10 + cc % 16] + body
  }

  function Total(ss: seq<seq<byte>>): nat {
    if ss == [] then 0 else |ss[0]| + Total(ss[1..])
  }

  datatype Filled = Filled(bytes: seq<byte>, tail: seq<byte>, rest: seq<seq<byte>>)

  /** Fill n bytes of a packet with sections back to back, the last one possibly cut. */
  function FillRoom(n: nat, ss: seq<seq<byte>>): (f: Filled)
    ensures |f.bytes| == n && |f.tail| + Total(f.rest) <= Total(ss)
    ensures n > 0 && ss != [] && ss[0] != [] ==> |f.tail| + Total(f.rest) < Total(ss)
    decreases |ss|
  {
    if n == 0 then Filled([], [], ss)
    else if ss == [] then Filled(Stuffing(n), [], [])
    else if |ss[0]| <= n then
      var f := FillRoom(n - |ss[0]|, ss[1..]);
      f.(bytes := ss[0] + f.bytes)
    else Filled(ss[0][..n], ss[0][n..], ss[1..])
  }

  lemma {:induction false} FillRoomRest(n: nat, ss: seq<seq<byte>>)
    requires AllCarriable(ss)
    ensures AllCarriable(FillRoom(n, ss).rest)
    decreases |ss|
  {
    if n > 0 && ss != [] && |ss[0]| <= n { FillRoomRest(n - |ss[0]|, ss[1..]); }
  }

  lemma {:induction false} FillRoomFills(n: nat, ss: seq<seq<byte>>, pkts: seq<Packet>, cc: nat)
    requires AllCarriable(ss) && Carries(pkts, cc, FillRoom(n, ss).tail, FillRoom(n, ss).rest)
    ensures Fills(FillRoom(n, ss).bytes, pkts, cc, ss)
    decreases |ss|
  {
    if n > 0 && ss != [] {
      var s, room := ss[0], FillRoom(n, ss).bytes;
      assert Carriable(s);
      if |s| <= n {
        FillRoomFills(n - |s|, ss[1..], pkts, cc);
        assert room[..|s|] == s && room[|s|..] == FillRoom(n - |s|, ss[1..]).bytes;
      }
    }
  }

  /** Dense packing of the rest of a section under way and the sections after it. */
  function Pack(cc: nat, tail: seq<byte>, ss: seq<seq<byte>>): (pkts: seq<Packet>)
    requires AllCarriable(ss)
    decreases |tail| + Total(ss)
  {
    if tail == [] && ss == [] then []
    else if |tail| >= BODY then [MakePacket(false, cc, tail[..BODY])] + Pack(cc + 1, tail[BODY..], ss)
    else if ss == [] then [MakePacket(false, cc, tail + Stuffing(BODY - |tail|))]
    else
      assert Carriable(ss[0]);
      var f := FillRoom(BODY - 1 - |tail|, ss);
      FillRoomRest(BODY - 1 - |tail|, ss);
      [MakePacket(true, cc, [|tail|] + tail + f.bytes)] + Pack(cc + 1, f.tail, f.rest)
  }

  lemma {:induction false} PackCarries(cc: nat, tail: seq<byte>, ss: seq<seq<byte>>)
    requires AllCarriable(ss)
    ensures Carries(Pack(cc, tail, ss), cc, tail, ss)
    decreases |tail| + Total(ss)
  {
    if tail == [] && ss == [] {
    } else if |tail| >= BODY {
      PackCarries(cc + 1, tail[BODY..], ss);
    } else if ss == [] {
      assert Carries([], cc + 1, [], []);
      assert Pack(cc, tail, ss)[1..] == [];
    } else {
      assert Carriable(ss[0]);
      var n := BODY - 1 - |tail|;
      FillRoomRest(n, ss);
      PackStart(cc, tail, ss, n);
    }
  }

  lemma PackStart(cc: nat, tail: seq<byte>, ss: seq<seq<byte>>, n: nat)
    requires AllCarriable(ss) && ss != [] && ss[0] != [] && |tail| < BODY && n == BODY - 1 - |tail|
    requires AllCarriable(FillRoom(n, ss).rest)
    ensures Carries(Pack(cc, tail, ss), cc, tail, ss)
    decreases |tail| + Total(ss), 0
  {
    hide Fills, FillRoom, Carries, AllCarriable;
    var f := FillRoom(n, ss);
    PackCarries(cc + 1, f.tail, f.rest);
    var rest := Pack(cc + 1, f.tail, f.rest);
    FillRoomFills(n, ss, rest, cc + 1);
    CarriesStart(MakePacket(true, cc, [|tail|] + tail + f.bytes), rest, cc, tail, ss, f.bytes);
  }

  lemma CarriesStart(ts: Packet, rest: seq<Packet>, cc: nat, tail: seq<byte>, ss: seq<seq<byte>>, bytes: seq<byte>)
    requires |tail| < BODY && PlainPacket(ts, cc) && IsStart(ts) && ts[4..] == [|tail|] + tail + bytes
    requires Fills(bytes, rest, cc + 1, ss)
    ensures Carries([ts] + rest, cc, tail, ss)
  {
    var body, pkts := ts[4..], [ts] + rest;
    assert body[1 + |tail|..] == bytes && body[1..1 + |tail|] == tail;
    assert pkts[0] == ts && pkts[1..] == rest;
  }

  lemma {:induction false} RunSplit(g: Gather, a: seq<Packet>, b: seq<Packet>)
    requires AllInBounds(g, a + b)
    ensures AllInBounds(g, a) && AllInBounds(Run(g, a).g, b)
    ensures Run(g, a + b)
         == Outcome(Run(Run(g, a).g, b).g, Run(g, a).sections + Run(Run(g, a).g, b).sections)
    decreases |a|
  {
    hide Step, InBounds;
    if a == [] {
      assert a + b == b;
    } else {
      var one := Step(g, a[0]);
      assert (a + b)[0] == a[0] && (a + b)[1..] == a[1..] + b;
      RunSplit(one.g, a[1..], b);
      var x := Run(one.g, a[1..]);
      ConcatAssoc(one.sections, x.sections, Run(x.g, b).sections);
    }
  }

  /** Round trip: any list of sections, written and densely packed, comes out of the receiver as that list. */
  lemma RoundTrip(xs: seq<Section>, cc: nat, g: Gather)
    requires AllProper(xs) && g.part == []
    ensures AllCarriable(AllWritten(xs))
    ensures var ss := AllWritten(xs);
            AllInBounds(g, Pack(cc, [], ss)) && Run(g, Pack(cc, [], ss)).sections == ss
  {
    WrittenCarriable(xs);
    var ss := AllWritten(xs);
    PackCarries(cc, [], ss);
    CarriedInBounds(Pack(cc, [], ss), g, cc, [], [], ss);
    ReceivesExactly(Pack(cc, [], ss), g, cc, [], [], ss);
  }

  // ----- the receiver of the C code -----

  /** mpegts_psi_t: the section buffer, its expected size (0 while unknown) and the bytes present. The callback
      appends to `delivered`. */
  class PsiReceiver {
    var cc: nat
    var bufferSize: nat
    var bufferSkip: nat
    const buffer: array<byte>
    ghost var gather: Gather
    ghost var delivered: seq<seq<byte>>

    /** The buffer starts with the gathered bytes; between packets buffer_skip is 0, or buffer_size is 0, or
        buffer_skip < buffer_size <= 4095. Behind the gathered bytes the buffer may hold anything. */
    ghost predicate Valid()
      reads this, buffer
    {
      && buffer.Length == MAX_SECTION
      && Gathered()
      && (bufferSkip > 0 ==> bufferSize == if gather.known then SectionSize(gather.part) else 0)
    }

    ghost predicate Gathered()
      reads this, buffer
    {
      && buffer.Length == MAX_SECTION && Sound(gather)
      && cc == gather.cc && bufferSkip == |gather.part| <= MAX_SECTION && buffer[..bufferSkip] == gather.part
    }

    constructor ()
      ensures Valid() && gather == Gather([], false, 0) && delivered == [] && fresh(buffer)
    {
      cc, bufferSize, bufferSkip := 0, 0, 0;
      buffer := new byte[MAX_SECTION](_ => 0);
      gather, delivered := Gather([], false, 0), [];
    }

    /** memcpy(&buffer[at], bytes, |bytes|) */
    method Copy(at: nat, bytes: seq<byte>)
      requires at + |bytes| <= buffer.Length
      modifies buffer
      ensures buffer[..at] == old(buffer[..at]) && buffer[at..at + |bytes|] == bytes
    {
      var i := 0;
      while i < |bytes|
        invariant 0 <= i <= |bytes|
        invariant buffer[..at] == old(buffer[..at]) && buffer[at..at + i] == bytes[..i]
      {
        buffer[at + i] := bytes[i];
        i := i + 1;
      }
    }

    /** callback(): hands out the first buffer_size bytes. */
    method Callback()
      requires bufferSize <= buffer.Length
      modifies `delivered
      ensures delivered == old(delivered) + [buffer[..bufferSize]]
    {
      delivered := delivered + [buffer[..bufferSize]];
    }

    /** A section that reaches the end of the packet: its beginning is kept. */
    method Keep(here: seq<byte>, size: nat)
      requires Valid() && 0 < |here| <= MAX_SECTION
      requires if |here| < 3 then size == 0 else size == SectionSize(here) && GoodSize(size) && |here| < size
      modifies this, buffer
      ensures Valid() && cc == old(cc) && delivered == old(delivered)
      ensures gather == old(gather).(part := here, known := size > 0)
    {
      bufferSize := size;
      Copy(0, here);
      bufferSkip := |here|;
      gather := gather.(part := here, known := size > 0);
      assert buffer[..bufferSkip] == buffer[0..0 + |here|];
    }

    /** A section that lies in the packet as a whole. */
    method Whole(section: seq<byte>)
      requires Valid() && |section| <= MAX_SECTION
      modifies this, buffer
      ensures Valid() && cc == old(cc) && delivered == old(delivered) + [section]
      ensures gather == old(gather).(part := [], known := true)
    {
      bufferSize := |section|;
      Copy(0, section);
      bufferSkip := 0;
      gather := gather.(part := [], known := true);
      assert buffer[..bufferSize] == buffer[0..0 + |section|];
      Callback();
    }

    /** The loop over the sections that start in a packet. */
    method ScanPacket(rest: seq<byte>)
      requires Valid() && |rest| < BODY
      modifies this, buffer
      ensures Valid() && cc == old(cc)
      ensures var o := Scan(rest, old(gather));
              gather == o.g && delivered == old(delivered) + o.sections
    {
      ghost var start := gather;
      var p := 0;
      assert rest[0..] == rest;
      while p < |rest| && rest[p] != 0xff
        invariant 0 <= p <= |rest| && Valid() && cc == old(cc)
        invariant Scan(rest, start).g == Scan(rest[p..], gather).g
        invariant old(delivered) + Scan(rest, start).sections == delivered + Scan(rest[p..], gather).sections
        decreases |rest| - p
      {
        var here := rest[p..];
        if |here| < 3 {
          Keep(here, 0);
          return;
        }
        var size := SectionSize(here);
        if size <= 3 || size > MAX_SECTION {
          bufferSize := 0;
          gather := gather.(known := false);
          return;
        }
        if size > |here| {
          Keep(here, size);
          return;
        }
        ConcatAssoc(delivered, [here[..size]], Scan(here[size..], gather.(part := [], known := true)).sections);
        Whole(here[..size]);
        p := p + size;
        assert rest[p..] == here[size..];
      }
    }

    /** The section in progress is abandoned. */
    method Abandon()
      requires Gathered()
      modifies `bufferSkip, `gather
      ensures Valid() && gather == old(gather).(part := [])
    {
      bufferSkip := 0;
      gather := gather.(part := []);
    }

    /** The bytes in front of the pointer target end the section in progress, if its length fits. */
    method FinishPending(bytes: seq<byte>) returns (ok: bool)
      requires Valid() && gather.part != [] && bytes != [] && bufferSkip + |bytes| <= MAX_SECTION
      modifies this, buffer
      ensures Valid() && cc == old(cc)
      ensures match Finish(old(gather), bytes)
              case None => !ok && delivered == old(delivered) && gather == old(gather).(part := [])
              case Some(section) => ok && delivered == old(delivered) + [section] && gather == old(gather).(part := [])
    {
      ghost var all := gather.part + bytes;
      Copy(bufferSkip, bytes);
      var end := bufferSkip + |bytes|;
      assert buffer[..end] == buffer[..bufferSkip] + buffer[bufferSkip..end] == all;
      if bufferSize == 0 {
        var size := SectionSize(buffer[..3]);
        if end >= 3 {
          assert buffer[..3] == buffer[..end][..3];
          SizeFromHeader(buffer[..3], all);
        }
        if size <= 3 || size > MAX_SECTION {
          Abandon();
          return false;
        }
        bufferSize := size;
      } else {
        SizeFromHeader(gather.part, all);
      }
      if bufferSize != end {
        Abandon();
        return false;
      }
      bufferSkip := 0;
      gather := gather.(part := []);
      Callback();
      return true;
    }

    /** A packet without payload_unit_start. */
    method Continue(counter: nat, payload: seq<byte>)
      requires Valid() && |payload| <= BODY
      requires gather.part != [] && (gather.cc + 1) % 16 == counter && (gather.known || |gather.part| < 3) ==>
                 StepContinueRemain(gather, payload) <= |payload| && (gather.known || 3 - |gather.part| <= |payload|)
      modifies this, buffer
      ensures Valid()
      ensures var o := StepContinue(old(gather), counter, payload);
              gather == o.g && delivered == old(delivered) + o.sections
    {
      if bufferSkip == 0 {
        return;
      }
      if (cc + 1) % 16 != counter {
        Abandon();
        return;
      }
      var size := bufferSize;
      if size == 0 {
        if bufferSkip >= 3 {
          Abandon();
          return;
        }
        size := CompleteHeader(payload);
        if size <= 3 || size > MAX_SECTION {
          Abandon();
          return;
        }
      }
      Extend(counter, payload, size);
    }

    /** The header bytes that were still missing; buffer_skip does not move. */
    method CompleteHeader(payload: seq<byte>) returns (size: nat)
      requires Valid() && gather.part != [] && |gather.part| < 3 && 3 - |gather.part| <= |payload|
      modifies buffer
      ensures Valid()
      ensures size == SectionSize(gather.part + Take(payload, 3 - |gather.part|))
    {
      ghost var header := gather.part + payload[..3 - bufferSkip];
      Copy(bufferSkip, payload[..3 - bufferSkip]);
      assert buffer[..3] == buffer[..bufferSkip] + buffer[bufferSkip..3] == header;
      size := SectionSize(buffer[..3]);
    }

    /** The payload belongs to the section in progress, of the given size. */
    method Extend(counter: nat, payload: seq<byte>, size: nat)
      requires Valid() && gather.part != [] && |payload| <= BODY && GoodSize(size) && |gather.part| < size
      requires if size - |gather.part| <= BODY then size - |gather.part| <= |payload| else |payload| == BODY
      requires var n := if |gather.part| >= 3 then |gather.part| else 3;
               var header := if |gather.part| >= 3 then gather.part else gather.part + Take(payload, 3 - |gather.part|);
               |header| == n && SectionSize(header) == size
      modifies this, buffer
      ensures Valid()
      ensures var remain := size - |old(gather).part|;
              if remain <= BODY then
                gather == Gather([], true, counter)
                && delivered == old(delivered) + [old(gather).part + payload[..remain]]
              else
                gather == Gather(old(gather).part + payload, true, counter) && delivered == old(delivered)
    {
      ghost var part := gather.part;
      bufferSize := size;
      var remain := size - bufferSkip;
      if remain <= BODY {
        Copy(bufferSkip, payload[..remain]);
        assert buffer[..size] == buffer[..bufferSkip] + buffer[bufferSkip..bufferSkip + remain];
        bufferSkip := 0;
        gather := Gather([], true, counter);
        Callback();
      } else {
        Copy(bufferSkip, payload);
        assert buffer[..bufferSkip + BODY] == buffer[..bufferSkip] + buffer[bufferSkip..bufferSkip + BODY];
        bufferSkip := bufferSkip + BODY;
        ExtendSound(part, payload, size);
        gather := Gather(part + payload, true, counter);
      }
      cc := counter;
    }

    /** A packet with payload_unit_start. */
    method StartPacket(counter: nat, payload: seq<byte>)
      requires Valid() && 0 < |payload| <= BODY
      requires gather.part != [] && (gather.cc + 1) % 16 == counter && payload[0] as nat < BODY ==>
                 1 + payload[0] as nat <= |payload| && |gather.part| + payload[0] as nat <= MAX_SECTION
      modifies this, buffer
      ensures Valid()
      ensures var o := StepStart(old(gather), counter, payload);
              gather == o.g && delivered == old(delivered) + o.sections
    {
      hide Finish, Sound, GoodSize;
      var ptr: nat := payload[0];
      if ptr > 0 {
        if ptr >= BODY {
          Abandon();
          return;
        }
        if bufferSkip > 0 {
          if (cc + 1) % 16 != counter {
            Abandon();
            return;
          }
          assert Take(payload[1..], ptr) == payload[1..1 + ptr];
          var ok := FinishPending(payload[1..1 + ptr]);
          if !ok {
            return;
          }
        }
      }
      ScanPacket(if 1 + ptr <= |payload| then payload[1 + ptr..] else []);
      SetCounter(counter);
    }

    method SetCounter(counter: nat)
      requires Valid()
      modifies `cc, `gather
      ensures Valid() && gather == old(gather).(cc := counter)
    {
      cc := counter;
      gather := gather.(cc := counter);
    }

    /** process_ts: one packet is one step of the abstract receiver. */
    method ProcessTs(ts: Packet)
      requires Valid() && InBounds(gather, ts)
      modifies this, buffer
      ensures Valid()
      ensures var o := Step(old(gather), ts);
              gather == o.g && delivered == old(delivered) + o.sections
    {
      match PayloadStart(ts)
      case None =>
      case Some(p) =>
        if IsStart(ts) {
          StartPacket(Counter(ts), ts[p..]);
        } else {
          Continue(Counter(ts), ts[p..]);
        }
    }

    /** A stream of packets, one call each. */
    method ProcessAll(pkts: seq<Packet>)
      requires Valid() && AllInBounds(gather, pkts)
      modifies this, buffer
      ensures Valid()
      ensures var o := Run(old(gather), pkts);
              gather == o.g && delivered == old(delivered) + o.sections
    {
      hide Step, InBounds;
      ghost var start, before := gather, delivered;
      var i := 0;
      assert pkts[..0] == [];
      while i < |pkts|
        invariant 0 <= i <= |pkts| && Valid()
        invariant gather == Run(start, pkts[..i]).g && delivered == before + Run(start, pkts[..i]).sections
      {
        OneMore(start, pkts, i);
        ProcessTs(pkts[i]);
        ConcatAssoc(before, Run(start, pkts[..i]).sections, Step(Run(start, pkts[..i]).g, pkts[i]).sections);
        i := i + 1;
      }
      assert pkts[..i] == pkts;
    }

    /** What the sender wrote and packetised is called back: exactly its sections, in order, from any moment at which
        the receiver is in step with the stream. */
    method ReceiveSections(pkts: seq<Packet>, ghost counter: nat, ghost cur: seq<byte>, ghost tail: seq<byte>,
        ghost xs: seq<Section>)
      requires Valid() && AllProper(xs) && Carries(pkts, counter, tail, AllWritten(xs))
      requires InProgress(gather, counter, cur, tail)
      modifies this, buffer
      ensures Valid() && gather.part == []
      ensures delivered == old(delivered) + (Current(cur, tail) + AllWritten(xs))
    {
      hide Carries, AllCarriable, InProgress, AllInBounds, Run, AllWritten;
      WrittenCarriable(xs);
      CarriedInBounds(pkts, gather, counter, cur, tail, AllWritten(xs));
      ReceivesExactly(pkts, gather, counter, cur, tail, AllWritten(xs));
      ProcessAll(pkts);
    }

    /** The same when the receiver comes in while a section is under way: it calls back exactly those that begin
        afterwards. */
    method JoinSections(pkts: seq<Packet>, ghost counter: nat, ghost tail: seq<byte>, ghost xs: seq<Section>)
      requires Valid() && AllProper(xs) && Carries(pkts, counter, tail, AllWritten(xs)) && gather.part == []
      modifies this, buffer
      ensures Valid() && delivered == old(delivered) + AllWritten(xs)
    {
      hide Carries, AllCarriable, AllInBounds, Run, AllWritten;
      WrittenCarriable(xs);
      JoinsMidStream(pkts, gather, counter, tail, AllWritten(xs));
      ProcessAll(pkts);
    }
  }

  lemma OneMore(g: Gather, pkts: seq<Packet>, i: nat)
    requires AllInBounds(g, pkts) && i < |pkts|
    ensures InBounds(Run(g, pkts[..i]).g, pkts[i])
    ensures var o := Step(Run(g, pkts[..i]).g, pkts[i]);
            Run(g, pkts[..i + 1]) == Outcome(o.g, Run(g, pkts[..i]).sections + o.sections)
  {
    hide Step, InBounds;
    var a, b := pkts[..i], pkts[i..];
    assert a + b == pkts && b[0] == pkts[i];
    RunSplit(g, a, b);
    var c := [pkts[i]];
    assert a + c == pkts[..i + 1] && pkts[..i + 1] + pkts[i + 1..] == pkts;
    RunSplit(g, pkts[..i + 1], pkts[i + 1..]);
    RunSplit(g, a, c);
    assert c[1..] == [];
  }

  lemma ExtendSound(part: seq<byte>, payload: seq<byte>, size: nat)
    requires part != [] && |payload| == BODY && GoodSize(size) && |part| + BODY < size
    requires SectionSize(if |part| >= 3 then part else part + payload[..3 - |part|]) == size
    ensures Sound(Gather(part + payload, true, 0)) && SectionSize(part + payload) == size
  {
    SizeFromHeader(if |part| >= 3 then part else part + payload[..3 - |part|], part + payload);
  }
}
