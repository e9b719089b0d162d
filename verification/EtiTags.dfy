/** The TAG items of an EDI packet and what the decoder of tag_parser.c makes of them. */
module EtiTags {
  import opened Arith
  import opened Bits
  import opened EtiFrame

  const PTR := 0x2a707472
  const DETI := 0x64657469
  const EST := 0x657374
  const PROTOCOL := 0x44455449

  /** Tags that are recognised and skipped: *dmy, Fptt, Fsid, Fstt, avtm, stat. The code means Fsst by the fourth. */
  const SKIPPED := [0x2a646d79, 0x46707474, 0x46736964, 0x46737474, 0x6176746d, 0x73746174]

  datatype Time = Time(utco: byte, seconds: nat, tsta: nat)

  /** The content of a deti item. */
  datatype Deti = Deti(fct: nat, fcth: nat, err: nat, mid: nat, fp: nat, rfa: nat, rfu: bool, mnsc: nat,
    time: Option<Time>, fic: Option<seq<byte>>, rfud: Option<nat>)

  function FicBytes(ficf: bool, mid: nat): nat {
    4 * FicWords(ficf, mid)
  }

  ghost predicate DetiOk(d: Deti) {
    && d.fct < 256 && d.fcth < 32 && d.err < 256 && d.mid < 4 && d.fp < 8 && d.rfa < 4 && d.mnsc < 0x1_0000
    && (d.time.Some? ==> d.time.value.seconds < 0x1_0000_0000 && d.time.value.tsta < 0x100_0000)
    && (d.fic.Some? ==> |d.fic.value| == FicBytes(true, d.mid))
    && (d.rfud.Some? ==> d.rfud.value < 0x100_0000)
  }

  // ----- the fields of the two header words of a deti item -----

  function Atstf(h: nat): bool { h / 0x8000 % 2 == 1 }
  function Ficf(h: nat): bool { h / 0x4000 % 2 == 1 }
  function Rfudf(h: nat): bool { h / 0x2000 % 2 == 1 }
  function Fcth(h: nat): nat { h / 256 % 32 }
  function Fct(h: nat): nat { h % 256 }
  function Err(e: nat): nat { e / 0x100_0000 % 256 }
  function Mid(e: nat): (m: nat) ensures m < 4 { e / 0x40_0000 % 4 }
  function Fp(e: nat): nat { e / 0x8_0000 % 8 }
  function Rfa(e: nat): nat { e / 0x2_0000 % 4 }
  function Rfu(e: nat): bool { e / 0x1_0000 % 2 == 1 }
  function Mnsc(e: nat): nat { e % 0x1_0000 }

  function Bit(x: bool): nat { if x then 1 else 0 }

  function DetiHeader(d: Deti): nat {
    0x8000 * Bit(d.time.Some?) + 0x4000 * Bit(d.fic.Some?) + 0x2000 * Bit(d.rfud.Some?) + 256 * d.fcth + d.fct
  }

  function EtiHeader(d: Deti): nat {
    0x100_0000 * d.err + 0x40_0000 * d.mid + 0x8_0000 * d.fp + 0x2_0000 * d.rfa + 0x1_0000 * Bit(d.rfu) + d.mnsc
  }

  lemma DetiHeaderFields(d: Deti)
    requires DetiOk(d)
    ensures var h := DetiHeader(d);
            h < 0x1_0000 && Atstf(h) == d.time.Some? && Ficf(h) == d.fic.Some? && Rfudf(h) == d.rfud.Some?
            && Fcth(h) == d.fcth && Fct(h) == d.fct
  {
    var h := DetiHeader(d);
    assert h / 256 == 128 * Bit(d.time.Some?) + 64 * Bit(d.fic.Some?) + 32 * Bit(d.rfud.Some?) + d.fcth;
  }

  lemma EtiHeaderFields(d: Deti)
    requires DetiOk(d)
    ensures var e := EtiHeader(d);
            e < 0x1_0000_0000 && Err(e) == d.err && Mid(e) == d.mid && Fp(e) == d.fp && Rfa(e) == d.rfa
            && Rfu(e) == d.rfu && Mnsc(e) == d.mnsc
  {
    var e := EtiHeader(d);
    var q := 256 * d.err + 64 * d.mid + 8 * d.fp + 2 * d.rfa + Bit(d.rfu);
    DivModUnique(e, 0x1_0000, q, d.mnsc);
    HighFields(d.err, d.mid, d.fp, d.rfa, Bit(d.rfu));
    ShiftSixteen(e);
  }

  lemma ShiftSixteen(e: nat)
    ensures e / 0x2_0000 == e / 0x1_0000 / 2 && e / 0x8_0000 == e / 0x1_0000 / 8
    ensures e / 0x40_0000 == e / 0x1_0000 / 64 && e / 0x100_0000 == e / 0x1_0000 / 256
  {
  }

  lemma HighFields(err: nat, mid: nat, fp: nat, rfa: nat, rfu: nat)
    requires err < 256 && mid < 4 && fp < 8 && rfa < 4 && rfu < 2
    ensures var q := 256 * err + 64 * mid + 8 * fp + 2 * rfa + rfu;
            q < 0x1_0000 && q % 2 == rfu && q / 2 % 4 == rfa && q / 8 % 8 == fp && q / 64 % 4 == mid
            && q / 256 % 256 == err
  {
    var q := 256 * err + 64 * mid + 8 * fp + 2 * rfa + rfu;
    assert q / 2 == 128 * err + 32 * mid + 4 * fp + rfa;
    assert q / 8 == 32 * err + 8 * mid + fp;
    assert q / 64 == 4 * err + mid;
  }

  // ----- what the decoder does with an item -----

  /** Result of one handler: the flag it returns and the builder it leaves, or a read behind the packet. */
  datatype Handled = Handled(ok: bool, b: Builder) | Overrun

  /** decode_starptr. */
  function HandlePtr(b: Builder, rest: seq<byte>, len: nat): Handled {
    if len != 8 then Handled(false, b)
    else if |rest| < 8 then Overrun
    else Handled(true, b.(isEti := Read32(rest) == PROTOCOL && Read16(rest[4..]) == 0 && Read16(rest[6..]) == 0))
  }

  /** The fields decode_deti has already stored when it compares lengths. */
  function DetiFixed(b: Builder, h: nat, e: nat): Builder {
    b.(atstf := Atstf(h), ficf := Ficf(h), dflc := 250 * Fcth(h) + Fct(h), err := Err(e), mid := Mid(e), fp := Fp(e),
       mnsc := if Rfu(e) then 0xffff else Mnsc(e))
  }

  function DetiLength(h: nat, e: nat): nat {
    6 + (if Atstf(h) then 8 else 0) + FicBytes(Ficf(h), Mid(e)) + (if Rfudf(h) then 3 else 0)
  }

  /** The effect of a complete deti item. */
  function ApplyDeti(b: Builder, d: Deti): Builder {
    b.(atstf := d.time.Some?, ficf := d.fic.Some?, dflc := 250 * d.fcth + d.fct, err := d.err, mid := d.mid, fp := d.fp,
       mnsc := if d.rfu then 0xffff else d.mnsc,
       timeValid := d.time.Some?,
       utco := if d.time.Some? then d.time.value.utco else 0,
       seconds := if d.time.Some? then d.time.value.seconds else 0,
       tsta := if d.time.Some? then d.time.value.tsta else 0xffffff,
       fic := if d.fic.Some? then d.fic.value else b.fic,
       rfu := if d.rfud.Some? then d.rfud.value / 256 else 0xffff,
       fcValid := true)
  }

  function ReadTime(v: seq<byte>): Time
    requires |v| >= 8
  {
    Time(v[0], Read32(v[1..]), Read24(v[5..]))
  }

  function ReadDeti(v: seq<byte>): Deti
    requires |v| >= 6 && |v| >= DetiLength(Read16(v), Read32(v[2..]))
  {
    var h, e := Read16(v), Read32(v[2..]);
    var t := 6 + if Atstf(h) then 8 else 0;
    var u := t + FicBytes(Ficf(h), Mid(e));
    Deti(Fct(h), Fcth(h), Err(e), Mid(e), Fp(e), Rfa(e), Rfu(e), Mnsc(e),
      if Atstf(h) then Some(ReadTime(v[6..])) else None,
      if Ficf(h) then Some(v[t..u]) else None,
      if Rfudf(h) then Some(Read24(v[u..])) else None)
  }

  /** decode_deti. */
  function HandleDeti(b: Builder, rest: seq<byte>, len: nat): Handled {
    if |rest| < 6 then Overrun
    else
      var h, e := Read16(rest), Read32(rest[2..]);
      if len != DetiLength(h, e) then Handled(false, DetiFixed(b, h, e))
      else if len > |rest| then Overrun
      else Handled(true, ApplyDeti(b, ReadDeti(rest)))
  }

  /** decode_estn: mst_size is a 16-bit copy of the unsigned difference. */
  function EstSize(len: nat): (r: nat)
    ensures r < 0x1_0000
  {
    (len + 0x1_0000 - 3) % 0x1_0000
  }

  function ReadStream(v: seq<byte>, size: nat): Stream
    requires |v| >= 3 + size
  {
    var sstc := Read24(v);
    Stream(sstc / 0x4_0000 % 64, sstc / 256 % 1024, sstc / 4 % 64, v[3..3 + size])
  }

  function ApplyEst(b: Builder, n: nat, s: Stream): Builder
    requires 1 <= n <= |b.streams|
  {
    b.(streams := b.streams[n - 1 := s], nst := (b.nst + 1) % 256)
  }

  function HandleEst(b: Builder, rest: seq<byte>, len: nat, n: nat): Handled
    requires |b.streams| == 64
  {
    if |rest| < 3 then Overrun
    else if n > 64 || n == 0 then Handled(false, b)
    else if 3 + EstSize(len) > |rest| then Overrun
    else Handled(true, ApplyEst(b, n, ReadStream(rest, EstSize(len))))
  }

  predicate Known(id: nat) {
    id == PTR || id == DETI || id / 256 == EST || id in SKIPPED
  }

  function Handle(b: Builder, id: nat, rest: seq<byte>, len: nat): Handled
    requires |b.streams| == 64
  {
    if id == PTR then HandlePtr(b, rest, len)
    else if id == DETI then HandleDeti(b, rest, len)
    else if id / 256 == EST then HandleEst(b, rest, len, id % 256)
    else Handled(true, b)
  }

  /** decode_tagpacket behind its first statement: the items in order, up to an unknown or damaged one. */
  function Decode(b: Builder, pkt: seq<byte>): (r: Handled)
    requires |b.streams| == 64
    ensures r.Handled? ==> |r.b.streams| == 64
    decreases |pkt|
  {
    if |pkt| <= 8 then Handled(true, b)
    else
      var id, bits := Read32(pkt), Read32(pkt[4..]);
      if bits % 8 != 0 || !Known(id) then Handled(true, b)
      else
        var r := Handle(b, id, pkt[8..], bits / 8);
        if r.Overrun? || !r.ok then r
        else Decode(r.b, if 8 + bits / 8 <= |pkt| then pkt[8 + bits / 8..] else [])
  }

  /** The recognised tags by their four characters, and the protocol that *ptr has to name. */
  lemma TagNames()
    ensures PTR == Ascii("*ptr") && DETI == Ascii("deti") && PROTOCOL == Ascii("DETI")
    ensures EST == Ascii("est ") / 256
    ensures SKIPPED == [Ascii("*dmy"), Ascii("Fptt"), Ascii("Fsid"), Ascii("Fstt"), Ascii("avtm"), Ascii("stat")]
  {
    assert Ascii("*ptr") == 0x2a707472 && Ascii("deti") == 0x64657469 && Ascii("DETI") == 0x44455449;
    assert Ascii("est ") == 0x65737420 && Ascii("*dmy") == 0x2a646d79 && Ascii("Fptt") == 0x46707474;
    assert Ascii("Fsid") == 0x46736964 && Ascii("Fstt") == 0x46737474;
    assert Ascii("avtm") == 0x6176746d && Ascii("stat") == 0x73746174;
  }

  /** Four characters, the first one in the most significant byte. */
  function Ascii(t: string): nat
    requires |t| == 4
  {
    0x100_0000 * (t[0] as nat) + 0x1_0000 * (t[1] as nat) + 0x100 * (t[2] as nat) + t[3] as nat
  }

  // ----- any input keeps the builder in range -----

  /** The field widths of struct etiBuilder without the bound on the number of streams. */
  ghost predicate Stored(b: Builder) {
    && b.tsta < 0x1_0000_0000 && b.mid < 4 && b.fp < 8 && b.mnsc < 0x1_0000 && b.rfu < 0x1_0000
    && |b.fic| <= 128 && |b.streams| == 64 && b.nst < 256
    && AllInRange(b.streams)
  }

  lemma HandleStored(b: Builder, id: nat, rest: seq<byte>, len: nat)
    requires Stored(b)
    ensures var r := Handle(b, id, rest, len); r.Handled? ==> Stored(r.b)
  {
    hide Mid, Fp, Rfu, Mnsc, Err, Atstf, Ficf, Rfudf, Fct, Fcth, Read16, Read32, Read24, EstSize, DetiLength;
    if id == DETI && |rest| >= 6 { DetiStored(b, rest); }
    if id / 256 == EST && |rest| >= 3 + EstSize(len) { StreamStored(rest, EstSize(len)); }
  }

  lemma DetiStored(b: Builder, v: seq<byte>)
    requires Stored(b) && |v| >= 6
    ensures Stored(DetiFixed(b, Read16(v), Read32(v[2..])))
    ensures |v| >= DetiLength(Read16(v), Read32(v[2..])) ==> Stored(ApplyDeti(b, ReadDeti(v)))
  {
    hide Err, Atstf, Ficf, Rfudf, Fct, Fcth, Read16, Read32, Read24;
  }

  lemma StreamStored(v: seq<byte>, size: nat)
    requires |v| >= 3 + size && size < 0x1_0000
    ensures StreamInRange(ReadStream(v, size))
  {
  }

  /** Whatever bytes arrive, every field stays within its C type. */
  lemma {:induction false} DecodeStored(b: Builder, pkt: seq<byte>)
    requires Stored(b)
    ensures Decode(b, pkt).Handled? ==> Stored(Decode(b, pkt).b)
    decreases |pkt|
  {
    if |pkt| > 8 {
      var id, bits := Read32(pkt), Read32(pkt[4..]);
      if bits % 8 == 0 && Known(id) {
        var r := Handle(b, id, pkt[8..], bits / 8);
        HandleStored(b, id, pkt[8..], bits / 8);
        if r.Handled? && r.ok {
          DecodeStored(r.b, if 8 + bits / 8 <= |pkt| then pkt[8 + bits / 8..] else []);
        }
      }
    }
  }

  // ----- a packet as the sender writes it -----

  datatype Item =
    | Ptr(protocol: nat, major: nat, minor: nat)
    | DetiItem(d: Deti)
    | Est(n: nat, rfa: nat, s: Stream)
    | Skipped(id: nat, bytes: seq<byte>)

  ghost predicate ItemOk(i: Item) {
    match i
    case Ptr(p, ma, mi) => p < 0x1_0000_0000 && ma < 0x1_0000 && mi < 0x1_0000
    case DetiItem(d) => DetiOk(d)
    case Est(n, rfa, s) => 1 <= n <= 64 && rfa < 4 && StreamInRange(s)
    case Skipped(id, bytes) => id in SKIPPED && |bytes| < 0x2000_0000
  }

  function ItemId(i: Item): nat {
    match i
    case Ptr(_, _, _) => PTR
    case DetiItem(_) => DETI
    case Est(n, _, _) => 256 * EST + n
    case Skipped(id, _) => id
  }

  function WriteTime(t: Time): (r: seq<byte>)
    requires t.seconds < 0x1_0000_0000 && t.tsta < 0x100_0000
    ensures |r| == 8
  {
    [t.utco] + Put32(t.seconds) + Put24(t.tsta)
  }

  ghost function WriteDeti(d: Deti): seq<byte>
    requires DetiOk(d)
  {
    DetiHeaderFields(d);
    EtiHeaderFields(d);
    (Put16(DetiHeader(d)) + Put32(EtiHeader(d)))
    + (if d.time.Some? then WriteTime(d.time.value) else [])
    + (if d.fic.Some? then d.fic.value else [])
    + (if d.rfud.Some? then Put24(d.rfud.value) else [])
  }

  ghost function WriteStream(rfa: nat, s: Stream): seq<byte>
    requires StreamInRange(s) && rfa < 4
  {
    Put24(0x4_0000 * s.scid + 256 * s.sad + 4 * s.tpl + rfa) + s.mst
  }

  ghost function ItemValue(i: Item): (v: seq<byte>)
    requires ItemOk(i)
    ensures |v| < 0x2000_0000
  {
    match i
    case Ptr(p, ma, mi) => Put32(p) + Put16(ma) + Put16(mi)
    case DetiItem(d) => WriteDeti(d)
    case Est(_, rfa, s) => WriteStream(rfa, s)
    case Skipped(_, bytes) => bytes
  }

  lemma KnownId(i: Item)
    requires ItemOk(i)
    ensures ItemId(i) < 0x1_0000_0000 && Known(ItemId(i))
    ensures i.Est? ==> ItemId(i) / 256 == EST && ItemId(i) % 256 == i.n
    ensures i.Skipped? ==> ItemId(i) != PTR && ItemId(i) != DETI && ItemId(i) / 256 != EST
  {
  }

  ghost function WriteItem(i: Item): seq<byte>
    requires ItemOk(i)
  {
    KnownId(i);
    Put32(ItemId(i)) + Put32(8 * |ItemValue(i)|) + ItemValue(i)
  }

  ghost predicate AllOk(items: seq<Item>) {
    forall k :: 0 <= k < |items| ==> ItemOk(items[k])
  }

  ghost function WriteItems(items: seq<Item>): seq<byte>
    requires AllOk(items)
  {
    if items == [] then [] else WriteItem(items[0]) + WriteItems(items[1..])
  }

  /** What an item means. */
  function Apply(b: Builder, i: Item): Builder
    requires |b.streams| == 64 && (i.Est? ==> 1 <= i.n <= 64)
  {
    match i
    case Ptr(p, ma, mi) => b.(isEti := p == PROTOCOL && ma == 0 && mi == 0)
    case DetiItem(d) => ApplyDeti(b, d)
    case Est(n, _, s) => ApplyEst(b, n, s)
    case Skipped(_, _) => b
  }

  ghost function ApplyAll(b: Builder, items: seq<Item>): (r: Builder)
    requires |b.streams| == 64 && AllOk(items)
    ensures |r.streams| == 64
    decreases |items|
  {
    if items == [] then b else ApplyAll(Apply(b, items[0]), items[1..])
  }

  // ----- every handler recovers its item -----

  lemma PtrRead(b: Builder, i: Item, more: seq<byte>)
    requires |b.streams| == 64 && ItemOk(i) && i.Ptr?
    ensures HandlePtr(b, ItemValue(i) + more, 8) == Handled(true, Apply(b, i)) && |ItemValue(i)| == 8
  {
    hide Read16, Read32, Put16, Put32;
    var v := ItemValue(i) + more;
    ReadPut32At(v, i.protocol, v[4..]);
    ReadPut16(v[4..], i.major, v[6..]);
    ReadPut16(v[6..], i.minor, v[8..]);
  }

  lemma StreamRead(rfa: nat, s: Stream, more: seq<byte>)
    requires StreamInRange(s) && rfa < 4
    ensures |WriteStream(rfa, s)| == 3 + |s.mst| && EstSize(3 + |s.mst|) == |s.mst|
    ensures ReadStream(WriteStream(rfa, s) + more, |s.mst|) == s
  {
    hide Read24, Put24;
    var v, w := WriteStream(rfa, s) + more, 0x4_0000 * s.scid + 256 * s.sad + 4 * s.tpl + rfa;
    ReadPut24(v, w, v[3..]);
    assert v[3..3 + |s.mst|] == s.mst;
    SstcFields(s.scid, s.sad, s.tpl, rfa);
  }

  lemma SstcFields(scid: nat, sad: nat, tpl: nat, rfa: nat)
    requires scid < 64 && sad < 1024 && tpl < 64 && rfa < 4
    ensures var w := 0x4_0000 * scid + 256 * sad + 4 * tpl + rfa;
            w < 0x100_0000 && w / 0x4_0000 % 64 == scid && w / 256 % 1024 == sad && w / 4 % 64 == tpl
  {
    var w := 0x4_0000 * scid + 256 * sad + 4 * tpl + rfa;
    assert w / 4 == 0x1_0000 * scid + 64 * sad + tpl;
    assert w / 256 == 1024 * scid + sad;
  }

  lemma TimeRead(t: Time, v: seq<byte>, more: seq<byte>)
    requires t.seconds < 0x1_0000_0000 && t.tsta < 0x100_0000 && v == WriteTime(t) + more
    ensures ReadTime(v) == t
  {
    hide Read24, Read32, Put24, Put32;
    assert v[1..] == Put32(t.seconds) + v[5..];
    ReadPut32At(v[1..], t.seconds, v[5..]);
    assert v[5..] == Put24(t.tsta) + more;
    ReadPut24(v[5..], t.tsta, more);
  }

  lemma FiveParts(h: seq<byte>, t: seq<byte>, f: seq<byte>, r: seq<byte>, more: seq<byte>, v: seq<byte>)
    requires v == h + t + f + r + more && |h| == 6
    ensures v[..6] == h && v[6..] == t + (f + r + more)
    ensures v[6 + |t|..6 + |t| + |f|] == f && v[6 + |t| + |f|..] == r + more
  {
  }

  lemma HeaderRead(h: nat, e: nat, v: seq<byte>)
    requires h < 0x1_0000 && e < 0x1_0000_0000 && |v| >= 6 && v[..6] == Put16(h) + Put32(e)
    ensures Read16(v) == h && Read32(v[2..]) == e
  {
    hide Read16, Read32, Put16, Put32;
    assert v == Put16(h) + v[2..] by { assert v == v[..6] + v[6..]; }
    ReadPut16(v, h, v[2..]);
    assert v[2..] == Put32(e) + v[6..] by { assert v == v[..6] + v[6..]; }
    ReadPut32At(v[2..], e, v[6..]);
  }

  lemma DetiRead(d: Deti, more: seq<byte>)
    requires DetiOk(d)
    ensures var v := WriteDeti(d) + more;
            && Read16(v) == DetiHeader(d) && Read32(v[2..]) == EtiHeader(d)
            && DetiLength(Read16(v), Read32(v[2..])) == |WriteDeti(d)|
            && |WriteDeti(d)| >= 6 && ReadDeti(v) == d
  {
    hide Read16, Read24, Read32, Put16, Put24, Put32, DetiHeader, EtiHeader, Atstf, Ficf, Rfudf, Fct, Fcth, Err,
      Mid, Fp, Rfa, Rfu, Mnsc, WriteTime, ReadTime;
    DetiHeaderFields(d);
    EtiHeaderFields(d);
    var v := WriteDeti(d) + more;
    var t := if d.time.Some? then WriteTime(d.time.value) else [];
    var f := if d.fic.Some? then d.fic.value else [];
    var r := if d.rfud.Some? then Put24(d.rfud.value) else [];
    FiveParts(Put16(DetiHeader(d)) + Put32(EtiHeader(d)), t, f, r, more, v);
    HeaderRead(DetiHeader(d), EtiHeader(d), v);
    if d.time.Some? { TimeRead(d.time.value, v[6..], f + r + more); }
    if d.rfud.Some? { ReadPut24(v[6 + |t| + |f|..], d.rfud.value, more); }
  }

  lemma ItemHandled(b: Builder, i: Item, more: seq<byte>)
    requires |b.streams| == 64 && ItemOk(i)
    ensures Handle(b, ItemId(i), ItemValue(i) + more, |ItemValue(i)|) == Handled(true, Apply(b, i))
  {
    hide ReadDeti, ReadStream, WriteDeti, WriteStream, DetiLength, Read16, Read32, Read24, ApplyDeti, ApplyEst,
      EstSize, DetiOk, StreamInRange;
    KnownId(i);
    match i
    case Ptr(_, _, _) => PtrRead(b, i, more);
    case DetiItem(d) => DetiRead(d, more);
    case Est(_, rfa, s) => StreamRead(rfa, s, more);
    case Skipped(_, _) =>
  }

  /** The decoder gives every written packet its meaning, whatever its items and their order. */
  lemma {:induction false} DecodeOfWritten(b: Builder, items: seq<Item>)
    requires |b.streams| == 64 && AllOk(items)
    ensures Decode(b, WriteItems(items)) == Handled(true, ApplyAll(b, items))
    decreases |items|
  {
    if items != [] {
      var i, more := items[0], WriteItems(items[1..]);
      ItemDecoded(b, i, more);
      DecodeOfWritten(Apply(b, i), items[1..]);
    }
  }

  /** An item whose tag is not recognised ends the decoding, with success: what is behind it is not read. */
  lemma {:induction false} StopsAtUnknown(b: Builder, items: seq<Item>, id: nat, v: seq<byte>, more: seq<byte>)
    requires |b.streams| == 64 && AllOk(items) && id < 0x1_0000_0000 && |v| < 0x2000_0000 && !Known(id)
    ensures Decode(b, WriteItems(items) + (Put32(id) + Put32(8 * |v|) + v + more)) == Handled(true, ApplyAll(b, items))
    decreases |items|
  {
    hide Known, ItemOk, Apply, Decode, WriteItem, Put32;
    var tail := Put32(id) + Put32(8 * |v|) + v + more;
    if items == [] {
      UnknownFirst(b, id, v, more);
      assert [] + tail == tail;
    } else {
      var rest := WriteItems(items[1..]) + tail;
      KeepsStreams(b, items[0]);
      ItemDecoded(b, items[0], rest);
      StopsAtUnknown(Apply(b, items[0]), items[1..], id, v, more);
      ConcatAssoc(WriteItem(items[0]), WriteItems(items[1..]), tail);
    }
  }

  lemma UnknownFirst(b: Builder, id: nat, v: seq<byte>, more: seq<byte>)
    requires |b.streams| == 64 && id < 0x1_0000_0000 && |v| < 0x2000_0000 && !Known(id)
    ensures Decode(b, Put32(id) + Put32(8 * |v|) + v + more) == Handled(true, b)
  {
    hide Known, Handle, Put32, Read32;
    PacketParts(id, v, more, Put32(id) + Put32(8 * |v|) + v + more);
  }

  lemma KeepsStreams(b: Builder, i: Item)
    requires |b.streams| == 64 && ItemOk(i)
    ensures (i.Est? ==> 1 <= i.n <= 64) && |Apply(b, i).streams| == 64
  {
  }

  /** That happens to Fsst, which the code spells Fstt: all items behind an Fsst item are lost, unreported. */
  lemma FsstEndsPacket(b: Builder, items: seq<Item>, v: seq<byte>, rest: seq<Item>)
    requires |b.streams| == 64 && AllOk(items) && AllOk(rest) && |v| < 0x2000_0000
    ensures Ascii("Fsst") < 0x1_0000_0000
    ensures var fsst := Put32(Ascii("Fsst")) + Put32(8 * |v|) + v;
            Decode(b, WriteItems(items) + (fsst + WriteItems(rest))) == Decode(b, WriteItems(items))
  {
    hide WriteItems, ApplyAll, ItemOk, Decode;
    assert Ascii("Fsst") == 0x46737374 && !Known(0x46737374);
    StopsAtUnknown(b, items, 0x46737374, v, WriteItems(rest));
    DecodeOfWritten(b, items);
  }

  /** An item whose handler fails ends the decoding, without success, with what the handler left. */
  lemma {:induction false} StopsAtError(b: Builder, items: seq<Item>, id: nat, v: seq<byte>, more: seq<byte>,
      r: Builder)
    requires |b.streams| == 64 && AllOk(items) && id < 0x1_0000_0000 && 0 < |v| < 0x2000_0000 && Known(id)
    requires |ApplyAll(b, items).streams| == 64
    requires Handle(ApplyAll(b, items), id, v + more, |v|) == Handled(false, r)
    ensures Decode(b, WriteItems(items) + (Put32(id) + Put32(8 * |v|) + v + more)) == Handled(false, r)
    decreases |items|
  {
    hide Known, ItemOk, Apply, Decode, WriteItem, Put32, Handle;
    var tail := Put32(id) + Put32(8 * |v|) + v + more;
    if items == [] {
      ErrorFirst(b, id, v, more, r);
      assert [] + tail == tail;
    } else {
      KeepsStreams(b, items[0]);
      ItemDecoded(b, items[0], WriteItems(items[1..]) + tail);
      StopsAtError(Apply(b, items[0]), items[1..], id, v, more, r);
      ConcatAssoc(WriteItem(items[0]), WriteItems(items[1..]), tail);
    }
  }

  lemma ErrorFirst(b: Builder, id: nat, v: seq<byte>, more: seq<byte>, r: Builder)
    requires |b.streams| == 64 && id < 0x1_0000_0000 && 0 < |v| < 0x2000_0000 && Known(id)
    requires Handle(b, id, v + more, |v|) == Handled(false, r)
    ensures Decode(b, Put32(id) + Put32(8 * |v|) + v + more) == Handled(false, r)
  {
    hide Known, Handle, Put32, Read32;
    PacketParts(id, v, more, Put32(id) + Put32(8 * |v|) + v + more);
  }

  /** So does an est item whose number is not 1 to 64, or a *ptr item that is not eight bytes long; both leave the
      builder as the items in front of them made it. */
  lemma BadNumberStops(b: Builder, items: seq<Item>, n: nat, v: seq<byte>, more: seq<byte>)
    requires |b.streams| == 64 && AllOk(items) && n < 256 && (n == 0 || n > 64) && 3 <= |v| < 0x2000_0000
    ensures Ascii("est ") - 0x20 + n < 0x1_0000_0000
    ensures var est := Put32(Ascii("est ") - 0x20 + n) + Put32(8 * |v|) + v;
            Decode(b, WriteItems(items) + (est + more)) == Handled(false, ApplyAll(b, items))
  {
    hide Decode, WriteItems, ApplyAll, ItemOk, Put32;
    assert Ascii("est ") == 0x65737420;
    AllKeepStreams(b, items);
    StopsAtError(b, items, 0x65737400 + n, v, more, ApplyAll(b, items));
  }

  lemma BadPtrStops(b: Builder, items: seq<Item>, v: seq<byte>, more: seq<byte>)
    requires |b.streams| == 64 && AllOk(items) && 0 < |v| < 0x2000_0000 && |v| != 8
    ensures Ascii("*ptr") < 0x1_0000_0000
    ensures var ptr := Put32(Ascii("*ptr")) + Put32(8 * |v|) + v;
            Decode(b, WriteItems(items) + (ptr + more)) == Handled(false, ApplyAll(b, items))
  {
    hide Decode, WriteItems, ApplyAll, ItemOk, Put32;
    TagNames();
    AllKeepStreams(b, items);
    StopsAtError(b, items, 0x2a707472, v, more, ApplyAll(b, items));
  }

  lemma {:induction false} AllKeepStreams(b: Builder, items: seq<Item>)
    requires |b.streams| == 64 && AllOk(items)
    ensures |ApplyAll(b, items).streams| == 64
    decreases |items|
  {
    hide ItemOk, Apply;
    if items != [] {
      KeepsStreams(b, items[0]);
      AllKeepStreams(Apply(b, items[0]), items[1..]);
    }
  }

  /** A deti item of the wrong length is refused, but its frame count, mode, phase, error field, MNSC and flags are in
      the builder by then; time, FIC and RFU are not touched. */
  lemma WrongLengthKept(b: Builder, items: seq<Item>, d: Deti, rest: seq<byte>, more: seq<byte>)
    requires |b.streams| == 64 && AllOk(items) && DetiOk(d) && |rest| < 0x1000_0000
    requires |rest| != (if d.time.Some? then 8 else 0) + (if d.fic.Some? then |d.fic.value| else 0)
                       + (if d.rfud.Some? then 3 else 0)
    ensures DetiHeader(d) < 0x1_0000 && EtiHeader(d) < 0x1_0000_0000
    ensures var v := Put16(DetiHeader(d)) + Put32(EtiHeader(d)) + rest;
            var r := Decode(b, WriteItems(items) + (Put32(0x64657469) + Put32(8 * |v|) + v + more));
            var was := ApplyAll(b, items);
            && r.Handled? && !r.ok
            && r.b == was.(atstf := d.time.Some?, ficf := d.fic.Some?, dflc := 250 * d.fcth + d.fct, err := d.err,
                           mid := d.mid, fp := d.fp, mnsc := if d.rfu then 0xffff else d.mnsc)
  {
    hide Decode, WriteItems, ApplyAll, ItemOk, Put32, Put16, Read32, Read16, Atstf, Ficf, Rfudf, Fcth, Fct, Err, Mid,
      Fp, Rfa, Rfu, Mnsc, DetiHeader, EtiHeader;
    DetiHeaderFields(d);
    EtiHeaderFields(d);
    AllKeepStreams(b, items);
    var head := Put32(EtiHeader(d)) + rest;
    var v, was := Put16(DetiHeader(d)) + Put32(EtiHeader(d)) + rest, ApplyAll(b, items);
    assert v + more == Put16(DetiHeader(d)) + (head + more) && (v + more)[2..] == Put32(EtiHeader(d)) + (rest + more);
    ReadPut16(v + more, DetiHeader(d), head + more);
    ReadPut32At((v + more)[2..], EtiHeader(d), rest + more);
    StopsAtError(b, items, 0x64657469, v, more, DetiFixed(was, DetiHeader(d), EtiHeader(d)));
  }

  /** One item in front of anything; a skipped item without value may even close the packet unread. */
  lemma ItemDecoded(b: Builder, i: Item, more: seq<byte>)
    requires |b.streams| == 64 && ItemOk(i)
    ensures Decode(b, WriteItem(i) + more) == Decode(Apply(b, i), more)
  {
    hide Handle, Known, DetiOk, StreamInRange, ApplyDeti, ApplyEst;
    var v := ItemValue(i);
    var pkt := WriteItem(i) + more;
    KnownId(i);
    ItemHandled(b, i, more);
    PacketParts(ItemId(i), v, more, pkt);
    if |pkt| <= 8 {
      assert |v| == 0 && more == [];
      EmptyValue(i);
    }
  }

  lemma EmptyValue(i: Item)
    requires ItemOk(i) && ItemValue(i) == []
    ensures i.Skipped?
  {
  }

  lemma PacketParts(id: nat, v: seq<byte>, more: seq<byte>, pkt: seq<byte>)
    requires id < 0x1_0000_0000 && |v| < 0x2000_0000 && pkt == (Put32(id) + Put32(8 * |v|) + v) + more
    ensures |pkt| >= 8 && Read32(pkt) == id && Read32(pkt[4..]) == 8 * |v| && pkt[8..] == v + more
    ensures pkt[8 + |v|..] == more
  {
    hide Read32, Put32;
    ReadPut32At(pkt, id, pkt[4..]);
    ReadPut32At(pkt[4..], 8 * |v|, pkt[8..]);
  }

  // ----- the meaning of a well-formed packet does not depend on the order of its items -----

  ghost predicate HasPtr(items: seq<Item>) {
    exists k :: 0 <= k < |items| && items[k].Ptr?
  }

  ghost predicate HasDeti(items: seq<Item>) {
    exists k :: 0 <= k < |items| && items[k].DetiItem?
  }

  ghost predicate HasEst(items: seq<Item>, n: nat) {
    exists k :: 0 <= k < |items| && items[k].Est? && items[k].n == n
  }

  function CountEst(items: seq<Item>): nat {
    if items == [] then 0 else CountEst(items[..|items| - 1]) + if items[|items| - 1].Est? then 1 else 0
  }

  /** Every item that is there agrees with the one multiplex described by d and ss. */
  ghost predicate Agrees(items: seq<Item>, d: Deti, ss: seq<Stream>) {
    forall k :: 0 <= k < |items| ==> ItemAgrees(items[k], d, ss)
  }

  ghost predicate ItemAgrees(i: Item, d: Deti, ss: seq<Stream>) {
    && ItemOk(i)
    && (i.Ptr? ==> i.protocol == PROTOCOL && i.major == 0 && i.minor == 0)
    && (i.DetiItem? ==> i.d == d)
    && (i.Est? ==> 1 <= i.n <= |ss| && i.s == ss[i.n - 1])
  }

  /** *ptr, deti and est1 to estN, in any order, with skipped items anywhere between them. */
  ghost predicate Describes(items: seq<Item>, d: Deti, ss: seq<Stream>) {
    && Agrees(items, d, ss) && HasPtr(items) && HasDeti(items)
    && CountEst(items) == |ss| && (forall n :: 1 <= n <= |ss| ==> HasEst(items, n))
  }

  ghost predicate DetiStoredIn(b: Builder, d: Deti) {
    && b.fcValid && b.ficf == d.fic.Some? && b.mid == d.mid && b.fp == d.fp && b.dflc == 250 * d.fcth + d.fct
    && b.atstf == d.time.Some? && b.tsta == (if d.time.Some? then d.time.value.tsta else 0xffffff)
    && b.mnsc == (if d.rfu then 0xffff else d.mnsc)
    && b.rfu == (if d.rfud.Some? then d.rfud.value / 256 else 0xffff)
    && (d.fic.Some? ==> b.fic == d.fic.value)
    && b.err == d.err && b.timeValid == d.time.Some?
    && b.utco == (if d.time.Some? then d.time.value.utco else 0)
    && b.seconds == (if d.time.Some? then d.time.value.seconds else 0)
  }

  /** What the items seen so far have put into the builder. */
  ghost predicate Progress(b: Builder, seen: seq<Item>, d: Deti, ss: seq<Stream>) {
    && Stored(b) && |ss| <= 64 && b.nst == CountEst(seen) % 256
    && (HasPtr(seen) ==> b.isEti) && (HasDeti(seen) ==> DetiStoredIn(b, d))
    && (forall n :: 1 <= n <= |ss| && HasEst(seen, n) ==> b.streams[n - 1] == ss[n - 1])
  }

  lemma SeenStep(seen: seq<Item>, i: Item)
    ensures HasPtr(seen + [i]) <==> HasPtr(seen) || i.Ptr?
    ensures HasDeti(seen + [i]) <==> HasDeti(seen) || i.DetiItem?
    ensures forall n :: HasEst(seen + [i], n) <==> HasEst(seen, n) || (i.Est? && i.n == n)
    ensures CountEst(seen + [i]) == CountEst(seen) + if i.Est? then 1 else 0
  {
    var all := seen + [i];
    assert all[|all| - 1] == i && all[..|seen|] == seen;
    forall n | HasEst(seen, n) ensures HasEst(all, n) {
      var k :| 0 <= k < |seen| && seen[k].Est? && seen[k].n == n;
      assert all[k] == seen[k];
    }
    if HasPtr(seen) {
      var k :| 0 <= k < |seen| && seen[k].Ptr?;
      assert all[k] == seen[k];
    }
    if HasDeti(seen) {
      var k :| 0 <= k < |seen| && seen[k].DetiItem?;
      assert all[k] == seen[k];
    }
  }

  lemma ApplyStored(b: Builder, i: Item)
    requires Stored(b) && ItemOk(i)
    ensures Stored(Apply(b, i))
  {
  }

  lemma StoredSizes(b: Builder)
    requires Stored(b)
    ensures |b.streams| == 64 && Stored(b.(nst := 0)) && (b.nst <= 64 ==> InRange(b))
  {
  }

  lemma ProgressStep(b: Builder, seen: seq<Item>, i: Item, d: Deti, ss: seq<Stream>)
    requires Progress(b, seen, d, ss) && ItemAgrees(i, d, ss)
    ensures Progress(Apply(b, i), seen + [i], d, ss)
  {
    hide HasPtr, HasDeti, HasEst, CountEst, DetiOk, StreamInRange, Stored;
    StoredSizes(b);
    SeenStep(seen, i);
    ApplyStored(b, i);
  }

  lemma {:induction false} ProgressAll(b: Builder, seen: seq<Item>, rest: seq<Item>, d: Deti, ss: seq<Stream>)
    requires Progress(b, seen, d, ss) && Agrees(rest, d, ss) && AllOk(rest)
    ensures Progress(ApplyAll(b, rest), seen + rest, d, ss)
    decreases |rest|
  {
    hide HasPtr, HasDeti, HasEst, CountEst, DetiOk, StreamInRange, Stored, DetiStoredIn, Apply;
    StoredSizes(b);
    if rest == [] {
      assert seen + rest == seen;
    } else {
      ProgressStep(b, seen, rest[0], d, ss);
      ProgressAll(Apply(b, rest[0]), seen + [rest[0]], rest[1..], d, ss);
      assert seen + [rest[0]] + rest[1..] == seen + rest;
    }
  }

  lemma ProgressDone(r: Builder, items: seq<Item>, d: Deti, ss: seq<Stream>)
    requires Progress(r, items, d, ss) && Describes(items, d, ss)
    ensures r.isEti && DetiStoredIn(r, d) && InRange(r) && Used(r) == ss
  {
    hide Agrees, HasPtr, HasDeti, CountEst, DetiStoredIn, Stored, HasEst;
    StoredSizes(r);
    forall k | 0 <= k < |ss| ensures r.streams[k] == ss[k] {
      assert HasEst(items, k + 1);
    }
  }

  lemma ProgressStart(b: Builder, d: Deti, ss: seq<Stream>)
    requires Stored(b) && b.nst == 0 && |ss| <= 64
    ensures Progress(b, [], d, ss)
  {
  }

  /** Decoding a packet that describes a multiplex, from any earlier state, leaves exactly that multiplex. */
  lemma PacketMeaning(b: Builder, items: seq<Item>, d: Deti, ss: seq<Stream>)
    requires Stored(b) && |ss| <= 64 && AllOk(items) && Describes(items, d, ss)
    ensures var r := Decode(b.(nst := 0), WriteItems(items));
            && r.Handled? && r.ok && r.b.isEti && DetiStoredIn(r.b, d)
            && InRange(r.b) && Used(r.b) == ss
  {
    hide Decode, ApplyAll, Stored, Agrees, ItemOk, DetiStoredIn, Progress, InRange, HasPtr, HasDeti, HasEst, CountEst;
    StoredSizes(b);
    var start := b.(nst := 0);
    DecodeOfWritten(start, items);
    ProgressStart(start, d, ss);
    ProgressAll(start, [], items, d, ss);
    assert [] + items == items;
    ProgressDone(ApplyAll(start, items), items, d, ss);
  }

  // ----- a packet without FIC -----

  /** A deti item without FIC leaves the FIC of an earlier packet in the builder. */
  lemma {:induction false} FicStays(b: Builder, items: seq<Item>)
    requires |b.streams| == 64 && AllOk(items)
    requires forall k :: 0 <= k < |items| && items[k].DetiItem? ==> items[k].d.fic == None
    ensures ApplyAll(b, items).fic == b.fic
    decreases |items|
  {
    hide DetiOk, StreamInRange;
    if items != [] { FicStays(Apply(b, items[0]), items[1..]); }
  }

  // ----- every multiplex has a packet -----

  /** *ptr, deti, est1 to estN. */
  function Canonical(d: Deti, ss: seq<Stream>): (items: seq<Item>)
    ensures |items| == 2 + |ss| && items[0].Ptr? && items[1].DetiItem?
  {
    if ss == [] then [Ptr(PROTOCOL, 0, 0), DetiItem(d)]
    else Canonical(d, ss[..|ss| - 1]) + [Est(|ss|, 0, ss[|ss| - 1])]
  }

  lemma {:induction false} CanonicalDescribes(d: Deti, ss: seq<Stream>)
    requires DetiOk(d) && AllInRange(ss) && |ss| <= 64
    ensures AllOk(Canonical(d, ss)) && Describes(Canonical(d, ss), d, ss)
  {
    hide DetiOk, StreamInRange;
    var items := Canonical(d, ss);
    assert HasPtr(items) && HasDeti(items);
    if ss == [] {
      assert CountEst(items[..1]) == CountEst(items[..1][..0]) == 0;
    } else {
      var init, i := ss[..|ss| - 1], Est(|ss|, 0, ss[|ss| - 1]);
      CanonicalDescribes(d, init);
      SeenStep(Canonical(d, init), i);
      assert forall k :: 0 <= k < |items| - 1 ==> items[k] == Canonical(d, init)[k];
    }
  }

  /** The TAG packet of a multiplex. */
  ghost function Sent(d: Deti, ss: seq<Stream>): seq<byte>
    requires DetiOk(d) && AllInRange(ss) && |ss| <= 64
  {
    CanonicalDescribes(d, ss);
    WriteItems(Canonical(d, ss))
  }

  lemma {:induction false} WriteItemsAppend(items: seq<Item>, i: Item)
    requires AllOk(items) && ItemOk(i)
    ensures AllOk(items + [i]) && WriteItems(items + [i]) == WriteItems(items) + WriteItem(i)
    decreases |items|
  {
    hide WriteItem, ItemOk;
    if items == [] {
      assert items + [i] == [i] && WriteItems([i][1..]) == [];
    } else {
      WriteItemsAppend(items[1..], i);
      assert (items + [i])[1..] == items[1..] + [i];
      ConcatAssoc(WriteItem(items[0]), WriteItems(items[1..]), WriteItem(i));
    }
  }

  /** It is never much longer than the streams. */
  lemma {:induction false} SentLength(d: Deti, ss: seq<Stream>)
    requires DetiOk(d) && AllInRange(ss) && |ss| <= 64
    ensures |Sent(d, ss)| <= 169 + 11 * |ss| + SumBytes(ss)
  {
    CanonicalDescribes(d, ss);
    if ss == [] {
      WriteItemsAppend([], Ptr(PROTOCOL, 0, 0));
      WriteItemsAppend([Ptr(PROTOCOL, 0, 0)], DetiItem(d));
      DetiItemLength(d);
    } else {
      var init, i := ss[..|ss| - 1], Est(|ss|, 0, ss[|ss| - 1]);
      CanonicalDescribes(d, init);
      SentLength(d, init);
      WriteItemsAppend(Canonical(d, init), i);
      StreamRead(0, i.s, []);
    }
  }

  lemma DetiItemLength(d: Deti)
    requires DetiOk(d)
    ensures |WriteItem(DetiItem(d))| <= 153
  {
  }
}
