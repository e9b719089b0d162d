/** The two resynchronising stream scanners of bbfedi2eti.cpp: DVB-S2 baseband frames (sections 5.1.4 and 5.1.6 of
    EN 302 307) and raw IPv4/Ethernet packets. Both read the input in pieces of any size; what they find is what a
    scan of the whole input finds. */
module Scanners {
  import opened Bits
  import opened Crc
  import opened Ipv4
  import Gse

  // ----- raw packets -----

  /** The packets found by one left-to-right scan of all bytes. An incomplete packet ends the scan. */
  ghost function RawScan(s: seq<byte>): seq<seq<byte>>
    decreases |s|
  {
    if |s| < 42 then []
    else
      match InspectStream(s)
      case Incomplete => []
      case Invalid => RawScan(s[1..])
      case Valid(offset, length, _, _) => [s[..offset + length]] + RawScan(s[offset + length..])
  }

  /** One decision on the bytes at hand is the decision on all bytes to come. */
  lemma RawStep(have: seq<byte>, more: seq<byte>)
    requires |have| >= 42 && !InspectStream(have).Incomplete?
    ensures var v := InspectStream(have);
            RawScan(have + more) ==
              if v.Valid? then
                [have[..v.ipOffset + v.ipLength]] + RawScan(have[v.ipOffset + v.ipLength..] + more)
              else RawScan(have[1..] + more)
  {
    hide InspectStream;
    VerdictStable(have, more);
    var v := InspectStream(have);
    var n := if v.Valid? then v.ipOffset + v.ipLength else 1;
    assert (have + more)[n..] == have[n..] + more && (have + more)[..n] == have[..n];
  }

  /** The inner loop of processRawStream: whatever follows the buffer, the packets found and the scan of what is
      left over make up the scan of everything. */
  method ScanBuffer(tab: seq<nat>, buffer: seq<byte>, ghost more: seq<byte>)
    returns (found: seq<seq<byte>>, scan: nat)
    requires IsTable(16, POLY, tab)
    ensures scan <= |buffer| && found + RawScan(buffer[scan..] + more) == RawScan(buffer + more)
    ensures RawScan(buffer[scan..]) == []
  {
    hide InspectStream, RawScan;
    found, scan := [], 0;
    assert buffer[0..] == buffer && [] + RawScan(buffer + more) == RawScan(buffer + more);
    while scan + 42 <= |buffer|
      invariant 0 <= scan <= |buffer|
      invariant found + RawScan(buffer[scan..] + more) == RawScan(buffer + more)
      decreases |buffer| - scan
    {
      var here := buffer[scan..];
      var verdict := InspectStreamPacket(tab, here);
      if verdict.Incomplete? {
        ScanEnds(here);
        return;
      }
      RawStep(here, more);
      var n := if verdict.Valid? then verdict.ipOffset + verdict.ipLength else 1;
      assert buffer[scan + n..] == here[n..];
      if verdict.Valid? {
        ConcatAssoc(found, [here[..n]], RawScan(here[n..] + more));
        found := found + [here[..n]];
      }
      scan := scan + n;
    }
    ScanEnds(buffer[scan..]);
  }

  lemma ScanEnds(s: seq<byte>)
    requires |s| < 42 || InspectStream(s).Incomplete?
    ensures RawScan(s) == []
  {
  }

  /** processRawStream: reads pieces until the input ends and scans the buffer after each. The packets found do
      not depend on how the input was cut. */
  method RawStream(tab: seq<nat>, prefix: seq<byte>, pieces: seq<seq<byte>>) returns (found: seq<seq<byte>>)
    requires IsTable(16, POLY, tab) && pieces != []
    ensures found == RawScan(prefix + Flatten(pieces))
  {
    var buffer := prefix;
    found := [];
    var i := 0;
    assert pieces[0..] == pieces;
    while i < |pieces|
      invariant 0 <= i <= |pieces|
      invariant found + RawScan(buffer + Flatten(pieces[i..])) == RawScan(prefix + Flatten(pieces))
      invariant i > 0 ==> RawScan(buffer) == []
    {
      NextPiece(buffer, pieces, i);
      buffer := buffer + pieces[i];
      i := i + 1;
      var more, scan := ScanBuffer(tab, buffer, Flatten(pieces[i..]));
      ConcatAssoc(found, more, RawScan(buffer[scan..] + Flatten(pieces[i..])));
      found := found + more;
      buffer := buffer[scan..];
    }
    assert pieces[i..] == [] && buffer + [] == buffer;
    assert found + [] == found;
  }

  lemma NextPiece(buffer: seq<byte>, pieces: seq<seq<byte>>, i: nat)
    requires i < |pieces|
    ensures buffer + Flatten(pieces[i..]) == (buffer + pieces[i]) + Flatten(pieces[i + 1..])
  {
    assert pieces[i..][1..] == pieces[i + 1..];
    ConcatAssoc(buffer, pieces[i], Flatten(pieces[i + 1..]));
  }

  /** A datagram on a packet interface. */
  datatype RawPacket = RawPacket(framing: Framing, datagram: Datagram)

  ghost predicate Recognisable(p: RawPacket) {
    && FramingOk(p.framing) && Proper(p.datagram) && (p.framing.Raw? ==> !LooksFramed(p.datagram))
    && p.datagram.protocol == 17 && p.datagram.fragment == 0 && IsPft(p.datagram.payload)
  }

  ghost predicate AllRecognisable(ps: seq<RawPacket>) {
    forall i :: 0 <= i < |ps| ==> Recognisable(ps[i])
  }

  ghost function RawBytes(p: RawPacket): seq<byte>
    requires Recognisable(p)
  {
    Front(p.framing) + WriteIp(p.datagram)
  }

  ghost function AllRaw(ps: seq<RawPacket>): seq<seq<byte>>
    requires AllRecognisable(ps)
  {
    if ps == [] then [] else [RawBytes(ps[0])] + AllRaw(ps[1..])
  }

  /** Round trip: the scan finds exactly the packets that were sent one behind the other, and goes on behind them. */
  lemma {:induction false} RawScanOfSent(ps: seq<RawPacket>, more: seq<byte>)
    requires AllRecognisable(ps)
    ensures RawScan(Flatten(AllRaw(ps)) + more) == AllRaw(ps) + RawScan(more)
    decreases |ps|
  {
    hide RawScan, Recognisable, RawBytes;
    if ps == [] {
      assert Flatten([]) + more == more && [] + RawScan(more) == RawScan(more);
    } else {
      var w, rest := RawBytes(ps[0]), Flatten(AllRaw(ps[1..])) + more;
      RawScanOfSent(ps[1..], more);
      OneRaw(ps[0], rest);
      assert AllRaw(ps)[1..] == AllRaw(ps[1..]);
      ConcatAssoc(w, Flatten(AllRaw(ps[1..])), more);
      ConcatAssoc([w], AllRaw(ps[1..]), RawScan(more));
    }
  }

  /** Resynchronisation: bytes at which no packet begins are skipped one by one. */
  lemma {:induction false} RawJunkSkipped(junk: seq<byte>, rest: seq<byte>)
    requires |rest| >= 42 && forall i :: 0 <= i < |junk| ==> InspectStream(junk[i..] + rest).Invalid?
    ensures RawScan(junk + rest) == RawScan(rest)
    decreases |junk|
  {
    hide InspectStream;
    if junk == [] {
      assert junk + rest == rest;
    } else {
      assert junk[0..] == junk && (junk + rest)[1..] == junk[1..] + rest;
      assert forall i :: 0 <= i < |junk| - 1 ==> junk[1..][i..] == junk[i + 1..];
      RawJunkSkipped(junk[1..], rest);
    }
  }

  lemma OneRaw(p: RawPacket, rest: seq<byte>)
    requires Recognisable(p)
    ensures RawScan(RawBytes(p) + rest) == [RawBytes(p)] + RawScan(rest)
  {
    hide InspectStream, FramingOk, Proper, LooksFramed, Front, WriteIp;
    var w := RawBytes(p);
    RawSizes(p);
    FramedRecognised(p.framing, p.datagram, rest);
    assert (w + rest)[..|w|] == w && (w + rest)[|w|..] == rest;
  }

  lemma RawSizes(p: RawPacket)
    requires Recognisable(p)
    ensures |RawBytes(p)| >= 42 && |p.datagram.payload| >= 14
    ensures |RawBytes(p)| == |Front(p.framing)| + |WriteIp(p.datagram)|
  {
  }

  // ----- baseband frames -----

  lemma DvbWidths()
    ensures Word(8, 0xd5) && Word(8, 0) && Word(32, 0x04c1_1db7) && Word(32, 0)
  {
    Widths();
    ShlShl(1, 16, 8);
    Shl8(Pow2(16));
    ShlShl(1, 24, 8);
    Shl8(Pow2(24));
  }

  /** crc8DvbS2 and crc32Mpeg2: the byte is added at the top of the register, then eight steps. */
  method BitwiseCrc(w: nat, code: nat, data: seq<byte>) returns (crc: nat)
    requires w >= 8 && Word(w, code) && Word(w, 0)
    ensures crc == CrcOf(w, code, 0, data)
  {
    hide Xor, Zeros;
    crc := 0;
    var i := 0;
    assert data[..0] == [];
    while i < |data|
      invariant 0 <= i <= |data|
      invariant Word(w, crc) && crc == CrcOf(w, code, 0, data[..i])
    {
      ByteAtTop(w, code, crc, data[i]);
      crc := Xor(crc, Shl(data[i], w - 8));
      crc := EightSteps(w, code, crc);
      CrcConcat(w, code, 0, data[..i], [data[i]]);
      assert data[..i + 1] == data[..i] + [data[i]];
      i := i + 1;
    }
    assert data[..i] == data;
  }

  method EightSteps(w: nat, code: nat, loaded: nat) returns (crc: nat)
    requires w >= 8 && Word(w, code) && Word(w, loaded)
    ensures crc == Zeros(w, code, loaded, 8)
  {
    hide Xor;
    var half := Pow2(w - 1);
    crc := loaded;
    var bit := 0;
    while bit < 8
      invariant 0 <= bit <= 8
      invariant Word(w, crc) && crc == Zeros(w, code, loaded, bit)
    {
      assert Zeros(w, code, loaded, bit + 1) == ShiftIn(w, code, crc, false);
      if crc >= half {
        crc := Xor(2 * (crc - half), code);
      } else {
        crc := 2 * crc;
      }
      bit := bit + 1;
    }
  }

  lemma ByteAtTop(w: nat, code: nat, reg: nat, b: byte)
    requires w >= 8 && Word(w, code) && Word(w, reg)
    ensures Word(w, Xor(reg, Shl(b, w - 8)))
    ensures CrcOf(w, code, reg, [b]) == Zeros(w, code, Xor(reg, Shl(b, w - 8)), 8)
  {
    Widths();
    CrcOneByte(w, code, reg, b);
    SerialWord(w, code, reg, b, 8);
  }

  /** The ten-byte header: CRC-8 of section 5.1.4, a data field of 1..7264 whole bytes, whole-byte user packets. */
  ghost predicate HeaderOk(header: seq<byte>)
    requires |header| >= 10
  {
    DvbWidths();
    && CrcOf(8, 0xd5, 0, header[..9]) == header[9] as nat
    && 0 < Read16(header[4..]) <= 58112 && Read16(header[4..]) % 8 == 0 && Read16(header[2..]) % 8 == 0
  }

  function FrameLength(header: seq<byte>): nat
    requires |header| >= 10
  {
    10 + Read16(header[4..]) / 8
  }

  /** The frames found by one left-to-right scan of all bytes; `sync` tells whether each frame has a 0xB8 prefix. A
      truncated frame ends the scan. */
  ghost function FrameScan(sync: bool, s: seq<byte>): seq<seq<byte>>
    decreases |s|
  {
    var skip := if sync then 1 else 0;
    if |s| < 10 then []
    else if sync && s[0] != 0xb8 then FrameScan(sync, s[1..])
    else if |s| < skip + 10 then []
    else if !HeaderOk(s[skip..]) then FrameScan(sync, s[1..])
    else
      var n := skip + FrameLength(s[skip..]);
      if |s| < n then [] else [s[skip..n]] + FrameScan(sync, s[n..])
  }

  lemma HeaderStable(a: seq<byte>, b: seq<byte>)
    requires a <= b && |a| >= 10
    ensures HeaderOk(a) == HeaderOk(b) && FrameLength(a) == FrameLength(b)
  {
    SameField(a, b, 2);
    SameField(a, b, 4);
    assert a[..9] == b[..9];
  }

  method CheckHeader(header: seq<byte>) returns (ok: bool)
    requires |header| >= 10
    ensures ok == HeaderOk(header)
  {
    DvbWidths();
    var crc := BitwiseCrc(8, 0xd5, header[..9]);
    var upl, dfl := Read16(header[2..]), Read16(header[4..]);
    ok := !(crc != header[9] as nat || dfl == 0 || dfl > 58112 || dfl % 8 != 0 || upl % 8 != 0);
  }

  /** The usable part of a frame's data field: without the trailing CRC-32 if there is a valid one. */
  ghost function UsableField(frame: seq<byte>): seq<byte>
    requires |frame| >= 10
  {
    DvbWidths();
    var n := |frame|;
    if n >= 14 && CrcOf(32, 0x04c1_1db7, 0, frame[..n - 4]) == Read32(frame[n - 4..]) then frame[10..n - 4]
    else frame[10..]
  }

  // ----- frames as they are sent -----

  /** A baseband frame: two bytes of MATYPE, the second one naming the input stream, UPL in bits, SYNC and SYNCD, and
      the data of its field, with a CRC-32 behind it or without. */
  datatype Frame = Frame(matype: byte, stream: byte, upl: nat, sync: byte, syncd: nat, data: seq<byte>, checked: bool)

  function FieldSize(f: Frame): nat {
    |f.data| + if f.checked then 4 else 0
  }

  predicate Sendable(f: Frame) {
    f.upl < 0x1_0000 && f.upl % 8 == 0 && f.syncd < 0x1_0000 && 1 <= FieldSize(f) <= 7264
  }

  function HeaderFields(f: Frame): (h: seq<byte>)
    requires Sendable(f)
    ensures |h| == 9
  {
    [f.matype, f.stream] + Put16(f.upl) + Put16(8 * FieldSize(f)) + [f.sync] + Put16(f.syncd)
  }

  ghost function Header(f: Frame): (h: seq<byte>)
    requires Sendable(f)
    ensures |h| == 10
  {
    DvbWidths();
    Widths();
    HeaderFields(f) + [CrcOf(8, 0xd5, 0, HeaderFields(f))]
  }

  ghost function Crc32(bytes: seq<byte>): (r: seq<byte>)
    ensures |r| == 4
  {
    DvbWidths();
    WordOf32();
    Put32(CrcOf(32, 0x04c1_1db7, 0, bytes))
  }

  lemma WordOf32()
    ensures Pow2(32) == 0x1_0000_0000
  {
    Widths();
    ShlShl(1, 16, 8);
    Shl8(Pow2(16));
    ShlShl(1, 24, 8);
    Shl8(Pow2(24));
  }

  ghost function WriteFrame(f: Frame): (w: seq<byte>)
    requires Sendable(f)
    ensures |w| == 10 + FieldSize(f)
  {
    Header(f) + f.data + if f.checked then Crc32(Header(f) + f.data) else []
  }

  predicate AllSendable(fs: seq<Frame>) {
    forall i :: 0 <= i < |fs| ==> Sendable(fs[i])
  }

  ghost function Frames(fs: seq<Frame>): seq<seq<byte>>
    requires AllSendable(fs)
  {
    if fs == [] then [] else [WriteFrame(fs[0])] + Frames(fs[1..])
  }

  /** The frames one behind the other, each with 0xB8 in front if `sync`. */
  ghost function OnLine(sync: bool, fs: seq<Frame>): seq<byte>
    requires AllSendable(fs)
  {
    if fs == [] then [] else (if sync then [0xb8] else []) + WriteFrame(fs[0]) + OnLine(sync, fs[1..])
  }

  /** What the receiver makes of any ten bytes written as a header: they are one if the CRC-8 is right, the data field
      has 8 to 58112 bits, and field and user packets are whole bytes. */
  lemma HeaderDecides(matype: byte, stream: byte, upl: nat, dfl: nat, sync: byte, syncd: nat, check: byte,
      more: seq<byte>)
    requires upl < 0x1_0000 && dfl < 0x1_0000 && syncd < 0x1_0000
    ensures Word(8, 0xd5) && Word(8, 0)
    ensures var fields := [matype, stream] + Put16(upl) + Put16(dfl) + [sync] + Put16(syncd);
            var h := fields + [check] + more;
            && (HeaderOk(h) <==>
                  check as nat == CrcOf(8, 0xd5, 0, fields) && 8 <= dfl <= 58112 && dfl % 8 == 0 && upl % 8 == 0)
            && FrameLength(h) == 10 + dfl / 8
  {
    hide Put16, Read16, CrcOf;
    DvbWidths();
    var fields := [matype, stream] + Put16(upl) + Put16(dfl) + [sync] + Put16(syncd);
    var h := fields + [check] + more;
    assert h[..9] == fields;
    var rest := [sync] + Put16(syncd) + [check] + more;
    assert h[4..] == Put16(dfl) + rest && h[2..] == Put16(upl) + (Put16(dfl) + rest);
    ReadPut16(h[4..], dfl, rest);
    ReadPut16(h[2..], upl, Put16(dfl) + rest);
  }

  lemma HeaderWritten(f: Frame, more: seq<byte>)
    requires Sendable(f)
    ensures |WriteFrame(f) + more| >= 10 && HeaderOk(WriteFrame(f) + more)
    ensures FrameLength(WriteFrame(f) + more) == |WriteFrame(f)|
  {
    hide Put16, Read16, Crc32, HeaderOk, FrameLength, CrcOf;
    var w := WriteFrame(f) + more;
    DvbWidths();
    Widths();
    HeaderDecides(f.matype, f.stream, f.upl, 8 * FieldSize(f), f.sync, f.syncd, CrcOf(8, 0xd5, 0, HeaderFields(f)),
      w[10..]);
    assert w == HeaderFields(f) + [CrcOf(8, 0xd5, 0, HeaderFields(f))] + w[10..];
  }

  /** Round trip: the scan finds exactly the frames that were sent, and goes on behind them. */
  lemma {:induction false} ScanOfSent(sync: bool, fs: seq<Frame>, more: seq<byte>)
    requires AllSendable(fs)
    ensures FrameScan(sync, OnLine(sync, fs) + more) == Frames(fs) + FrameScan(sync, more)
    decreases |fs|
  {
    hide FrameScan, HeaderOk, FrameLength, WriteFrame, Sendable;
    if fs == [] {
      assert OnLine(sync, fs) + more == more && Frames(fs) + FrameScan(sync, more) == FrameScan(sync, more);
    } else {
      var w, rest := WriteFrame(fs[0]), OnLine(sync, fs[1..]) + more;
      ScanOfSent(sync, fs[1..], more);
      OneSent(sync, fs[0], rest);
      assert OnLine(sync, fs) + more == (if sync then [0xb8] else []) + w + rest;
      ConcatAssoc([w], Frames(fs[1..]), FrameScan(sync, more));
    }
  }

  lemma OneSent(sync: bool, f: Frame, rest: seq<byte>)
    requires Sendable(f)
    ensures var mark: seq<byte> := if sync then [0xb8] else [];
            FrameScan(sync, mark + WriteFrame(f) + rest) == [WriteFrame(f)] + FrameScan(sync, rest)
  {
    hide FrameScan, HeaderOk, FrameLength;
    var mark: seq<byte> := if sync then [0xb8] else [];
    var w := WriteFrame(f);
    var s := mark + w + rest;
    HeaderWritten(f, rest);
    assert s[|mark|..] == w + rest;
    assert s[|mark|..|mark| + |w|] == w && s[|mark| + |w|..] == rest;
    FrameScanFinds(sync, s, |mark| + |w|);
  }

  /** Without a CRC-32 the last four bytes of the field are not one by chance. */
  ghost predicate Distinct(f: Frame)
    requires Sendable(f)
  {
    !f.checked && |f.data| >= 4 ==>
      var n := |f.data| - 4;
      f.data[n..] != Crc32(Header(f) + f.data[..n])
  }

  /** The data of the field is what the receiver uses: a CRC-32 is taken off, and nothing else. */
  lemma UsableIsData(f: Frame)
    requires Sendable(f)
    ensures UsableField(WriteFrame(f)) == f.data <==> Distinct(f)
  {
    hide Put32, Read32, CrcOf, Put16, HeaderFields;
    var w := WriteFrame(f);
    var n := |w|;
    DvbWidths();
    WordOf32();
    if f.checked {
      assert w[..n - 4] == Header(f) + f.data && w[n - 4..] == Crc32(Header(f) + f.data) + [];
      ReadPut32At(w[n - 4..], CrcOf(32, 0x04c1_1db7, 0, w[..n - 4]), []);
      assert w[10..n - 4] == f.data;
    } else {
      assert w[10..] == f.data;
      if n >= 14 {
        assert w[..n - 4] == Header(f) + f.data[..n - 14] && w[n - 4..] == f.data[n - 14..];
        FourBytes(w[n - 4..], CrcOf(32, 0x04c1_1db7, 0, w[..n - 4]));
      }
    }
  }

  lemma FourBytes(s: seq<byte>, v: nat)
    requires |s| == 4 && v < 0x1_0000_0000
    ensures Read32(s) == v <==> s == Put32(v)
  {
  }

  /** The packets of those frames that pass the filter. */
  function Kept(isi: Option<byte>, fs: seq<Frame>, ps: seq<seq<Gse.Written>>): seq<seq<Gse.Written>>
    requires |ps| == |fs|
  {
    if fs == [] then []
    else
      var n := |fs| - 1;
      Kept(isi, fs[..n], ps[..n]) + if isi.None? || fs[n].stream == isi.value then [ps[n]] else []
  }

  /** Frame i carries the packets ps[i], and nothing or zeros behind them. */
  ghost predicate Loaded(fs: seq<Frame>, ps: seq<seq<Gse.Written>>) {
    && |fs| == |ps| && AllSendable(fs)
    && forall i :: 0 <= i < |fs| ==> Distinct(fs[i]) && Gse.FieldOf(fs[i].data, ps[i])
  }

  lemma {:induction false} KeptEvents(isi: Option<byte>, fs: seq<Frame>, ps: seq<seq<Gse.Written>>)
    requires Loaded(fs, ps)
    ensures FrameEvents(isi, Frames(fs)) == Gse.AllEvents(Kept(isi, fs, ps))
    ensures Passing(isi, Frames(fs)) == |Kept(isi, fs, ps)|
  {
    hide Sendable, Distinct, Gse.FieldOf, WriteFrame, EventsIn, Passes, Frames, FrameEvents, Passing, Gse.AllEvents;
    if fs == [] {
      NothingSent(isi);
    } else {
      var n := |fs| - 1;
      KeptEvents(isi, fs[..n], ps[..n]);
      FramesLast(fs);
      OneKept(isi, fs[n], ps[n]);
      LastFrame(isi, Frames(fs[..n]), WriteFrame(fs[n]));
      if isi.None? || fs[n].stream == isi.value {
        LastPackets(Kept(isi, fs[..n], ps[..n]), ps[n]);
      } else {
        assert FrameEvents(isi, Frames(fs[..n])) + [] == FrameEvents(isi, Frames(fs[..n]));
        assert Kept(isi, fs, ps) == Kept(isi, fs[..n], ps[..n]);
      }
    }
  }

  lemma NothingSent(isi: Option<byte>)
    ensures FrameEvents(isi, Frames([])) == [] == Gse.AllEvents([]) && Passing(isi, Frames([])) == 0
  {
  }

  lemma LastFrame(isi: Option<byte>, frames: seq<seq<byte>>, frame: seq<byte>)
    ensures FrameEvents(isi, frames + [frame]) == FrameEvents(isi, frames) + EventsIn(isi, frame)
    ensures Passing(isi, frames + [frame]) == Passing(isi, frames) + if Passes(isi, frame) then 1 else 0
  {
    hide EventsIn, Passes;
    assert (frames + [frame])[..|frames|] == frames;
  }

  lemma LastPackets(ps: seq<seq<Gse.Written>>, last: seq<Gse.Written>)
    ensures Gse.AllEvents(ps + [last]) == Gse.AllEvents(ps) + Gse.EventsOf(last)
  {
    assert (ps + [last])[..|ps|] == ps;
  }

  lemma {:induction false} FramesLast(fs: seq<Frame>)
    requires AllSendable(fs) && fs != []
    ensures Frames(fs) == Frames(fs[..|fs| - 1]) + [WriteFrame(fs[|fs| - 1])]
  {
    hide Sendable, WriteFrame;
    if |fs| > 1 {
      FramesLast(fs[1..]);
      assert fs[..|fs| - 1][1..] == fs[1..][..|fs| - 2];
    }
  }

  lemma OneKept(isi: Option<byte>, f: Frame, ps: seq<Gse.Written>)
    requires Sendable(f) && Distinct(f) && Gse.FieldOf(f.data, ps)
    ensures Passes(isi, WriteFrame(f)) <==> isi.None? || f.stream == isi.value
    ensures EventsIn(isi, WriteFrame(f)) == if isi.None? || f.stream == isi.value then Gse.EventsOf(ps) else []
  {
    hide UsableField, Distinct, Gse.FieldOf, Gse.Events;
    UsableIsData(f);
    Gse.OneField(f.data, ps);
    assert WriteFrame(f)[1] == HeaderFields(f)[1];
  }

  /** A frame with a good header seems to begin here. */
  ghost predicate SeemsFrame(sync: bool, s: seq<byte>) {
    var skip := if sync then 1 else 0;
    |s| >= skip + 10 && (sync ==> s[0] == 0xb8) && HeaderOk(s[skip..])
  }

  /** Resynchronisation: bytes in which no frame seems to begin are skipped one by one, and the frames behind them are
      found as if the input began there. */
  lemma {:induction false} JunkSkipped(sync: bool, junk: seq<byte>, rest: seq<byte>)
    requires |rest| >= 11
    requires forall i :: 0 <= i < |junk| ==> !SeemsFrame(sync, junk[i..] + rest)
    ensures FrameScan(sync, junk + rest) == FrameScan(sync, rest)
    decreases |junk|
  {
    hide HeaderOk;
    if junk == [] {
      assert junk + rest == rest;
    } else {
      assert junk[0..] == junk && (junk + rest)[1..] == junk[1..] + rest;
      assert forall i :: 0 <= i < |junk| - 1 ==> junk[1..][i..] == junk[i + 1..];
      JunkSkipped(sync, junk[1..], rest);
    }
  }

  // ----- what the frames carry -----

  /** The GSE packets of all frames that pass the input-stream filter. */
  ghost function FrameEvents(isi: Option<byte>, frames: seq<seq<byte>>): seq<Gse.Event> {
    if frames == [] then []
    else
      FrameEvents(isi, frames[..|frames| - 1]) + EventsIn(isi, frames[|frames| - 1])
  }

  ghost function EventsIn(isi: Option<byte>, frame: seq<byte>): seq<Gse.Event> {
    if Passes(isi, frame) then Gse.Events(UsableField(frame)) else []
  }

  predicate Passes(isi: Option<byte>, frame: seq<byte>) {
    |frame| >= 10 && (isi.None? || frame[1] == isi.value)
  }

  /** How many frames pass the filter. */
  function Passing(isi: Option<byte>, frames: seq<seq<byte>>): nat {
    if frames == [] then 0
    else Passing(isi, frames[..|frames| - 1]) + if Passes(isi, frames[|frames| - 1]) then 1 else 0
  }

  method HandleFrame(isi: Option<byte>, frame: seq<byte>, gse: Gse.GseReceiver) returns (counted: bool)
    requires |frame| >= 10
    modifies gse
    ensures var end := Gse.After(old(gse.View()), EventsIn(isi, frame));
            gse.fragments == end.fragments && gse.delivered == end.delivered
    ensures counted == Passes(isi, frame)
  {
    hide Gse.Apply;
    var n := |frame|;
    var usable := n;
    if n >= 14 {
      DvbWidths();
      var crc := BitwiseCrc(32, 0x04c1_1db7, frame[..n - 4]);
      if crc == Read32(frame[n - 4..]) {
        usable := n - 4;
      }
    }
    assert frame[10..n] == frame[10..];
    counted := isi.None? || frame[1] == isi.value;
    if counted {
      gse.ProcessDataField(frame[10..usable]);
    }
  }

  /** The buffered reader of processBbframeStream: `pieces` is what the input still has to give. */
  class BbframeScanner {
    var buffer: seq<byte>
    var scan: nat
    var eof: bool
    var pieces: seq<seq<byte>>
    /** The frames found so far. */
    ghost var found: seq<seq<byte>>

    ghost predicate Valid()
      reads this
    {
      scan <= |buffer| && (eof ==> pieces == [])
    }

    /** All bytes from the scan position on, read or not. */
    ghost function Rest(): seq<byte>
      requires Valid()
      reads this
    {
      buffer[scan..] + Flatten(pieces)
    }

    constructor (prefix: seq<byte>, input: seq<seq<byte>>)
      ensures Valid() && found == [] && Rest() == prefix + Flatten(input)
    {
      buffer, scan, eof, pieces, found := prefix, 0, false, input, [];
      new;
      assert buffer[0..] == buffer;
    }

    /** ensureAvailable: reads until `length` bytes are at hand or the input has ended. */
    method EnsureAvailable(length: nat) returns (ok: bool)
      requires Valid()
      modifies `buffer, `eof, `pieces
      ensures Valid() && Rest() == old(Rest()) && ok == (|Rest()| >= length)
      ensures ok ==> |buffer| - scan >= length
    {
      while |buffer| - scan < length && !eof
        invariant Valid() && Rest() == old(Rest())
        decreases !eof, |pieces|
      {
        if pieces == [] {
          eof := true;
        } else {
          assert (buffer + pieces[0])[scan..] == buffer[scan..] + pieces[0];
          ConcatAssoc(buffer[scan..], pieces[0], Flatten(pieces[1..]));
          buffer := buffer + pieces[0];
          pieces := pieces[1..];
          eof := pieces == [];
        }
      }
      ok := |buffer| - scan >= length;
    }

    /** Drop the bytes already scanned once there are 8192 of them. */
    method Compact()
      requires Valid()
      modifies `buffer, `scan
      ensures Valid() && Rest() == old(Rest()) && pieces == old(pieces) && eof == old(eof)
    {
      if scan >= 8192 {
        buffer := buffer[scan..];
        scan := 0;
        assert buffer[0..] == buffer;
      }
    }

    /** One pass of the frame loop. `going` is false when the input has no further frame. */
    method NextFrame(sync: bool) returns (going: bool, frame: Option<seq<byte>>)
      requires Valid()
      modifies this
      ensures Valid() && (frame.Some? ==> |frame.value| >= 10)
      ensures var one := if frame.Some? then [frame.value] else [];
              found == old(found) + one && FrameScan(sync, old(Rest())) == one + FrameScan(sync, Rest())
      ensures !going ==> FrameScan(sync, Rest()) == []
      ensures going ==> |Rest()| < |old(Rest())|
    {
      hide FrameScan, HeaderOk;
      ghost var s := Rest();
      frame := None;
      var skip := if sync then 1 else 0;
      var ok := EnsureAvailable(10);
      if !ok {
        FrameScanStops(sync, s);
        return false, None;
      }
      if sync && buffer[scan] != 0xb8 {
        FrameScanSkips(sync, s);
        Advance(1);
        return true, None;
      }
      ok := EnsureAvailable(skip + 10);
      if !ok {
        FrameScanStops(sync, s);
        return false, None;
      }
      var header := buffer[scan + skip..];
      Ahead(buffer, scan, skip, Flatten(pieces), s);
      HeaderStable(header, s[skip..]);
      var good := CheckHeader(header);
      if !good {
        FrameScanSkips(sync, s);
        Advance(1);
        return true, None;
      }
      going, frame := TakeFrame(sync, skip, skip + FrameLength(header));
    }

    /** A good header is at the scan position: the frame is taken if all of it arrives. */
    method TakeFrame(sync: bool, skip: nat, n: nat) returns (going: bool, frame: Option<seq<byte>>)
      requires Valid() && skip == (if sync then 1 else 0) && |Rest()| >= skip + 10 && (sync ==> Rest()[0] == 0xb8)
      requires HeaderOk(Rest()[skip..]) && n == skip + FrameLength(Rest()[skip..])
      modifies this
      ensures Valid() && (frame.Some? ==> |frame.value| >= 10)
      ensures var one := if frame.Some? then [frame.value] else [];
              found == old(found) + one && FrameScan(sync, old(Rest())) == one + FrameScan(sync, Rest())
      ensures !going ==> FrameScan(sync, Rest()) == []
      ensures going ==> |Rest()| < |old(Rest())|
    {
      hide FrameScan, HeaderOk;
      ghost var s := Rest();
      var ok := EnsureAvailable(n);
      if !ok {
        FrameScanStops(sync, s);
        return false, None;
      }
      var f := buffer[scan + skip..scan + n];
      Between(buffer, scan, skip, n, Flatten(pieces), s);
      FrameScanFinds(sync, s, n);
      found := found + [f];
      Advance(n);
      going, frame := true, Some(f);
    }

    /** What a modulator sent is handed out: over a stream of its frames, those of the input stream that passes are
        found and counted, and the PDUs delivered are those their packets were made of. */
    method RunSent(sync: bool, isi: Option<byte>, gse: Gse.GseReceiver, ghost fs: seq<Frame>,
        ghost ps: seq<seq<Gse.Written>>, ghost cuts: seq<seq<Gse.Division>>) returns (bbframes: nat)
      requires Valid() && found == [] && gse.View() == Gse.EMPTY
      requires Loaded(fs, ps) && Rest() == OnLine(sync, fs)
      requires Gse.Sends(Gse.AllEvents(Kept(isi, fs, ps)), cuts)
      modifies this, gse
      ensures found == Frames(fs) && bbframes == |Kept(isi, fs, ps)|
      ensures var evs := Gse.AllEvents(Kept(isi, fs, ps));
              && gse.delivered == Gse.Pdus(Gse.Meant(evs))
              && Gse.Unfragmented(Gse.Meant(evs)) == Gse.WholePdus(evs)
              && forall id: byte :: Gse.PdusOf(id, Gse.Meant(evs)) == Gse.CutPdus(cuts[id])
    {
      hide Gse.Sends, Gse.Apply, UsableField, FrameScan, Frames, OnLine, Kept, Sendable, Distinct, Gse.FieldOf;
      SentIsScanned(sync, fs, ps);
      KeptEvents(isi, fs, ps);
      Gse.SenderIsReceived(Gse.AllEvents(Kept(isi, fs, ps)), cuts);
      bbframes := Run(sync, isi, gse);
    }

    /** Move the scan position and compact. */
    method Advance(n: nat)
      requires Valid() && 0 < n <= |buffer| - scan
      modifies `buffer, `scan
      ensures Valid() && Rest() == old(Rest())[n..] && pieces == old(pieces) && eof == old(eof)
    {
      assert buffer[scan + n..] + Flatten(pieces) == (buffer[scan..] + Flatten(pieces))[n..];
      scan := scan + n;
      Compact();
    }

    /** processBbframeStream: every frame that passes the filter goes to the GSE receiver. The result depends on the
        input's bytes alone, not on the pieces they were read in or on compactions of the buffer. */
    method Run(sync: bool, isi: Option<byte>, gse: Gse.GseReceiver) returns (bbframes: nat)
      requires Valid() && found == [] && gse.View() == Gse.EMPTY
      modifies this, gse
      ensures found == FrameScan(sync, old(Rest())) && bbframes == Passing(isi, found)
      ensures var end := Gse.After(Gse.EMPTY, FrameEvents(isi, found));
              gse.fragments == end.fragments && gse.delivered == end.delivered
    {
      hide FrameScan, Gse.Apply, UsableField;
      bbframes := 0;
      ghost var whole := Rest();
      var going := true;
      assert [] + FrameScan(sync, whole) == FrameScan(sync, whole);
      while going
        invariant Valid()
        invariant found + FrameScan(sync, Rest()) == FrameScan(sync, whole)
        invariant !going ==> FrameScan(sync, Rest()) == []
        invariant bbframes == Passing(isi, found)
        invariant var end := Gse.After(Gse.EMPTY, FrameEvents(isi, found));
                  gse.fragments == end.fragments && gse.delivered == end.delivered
        decreases going, |Rest()|
      {
        ghost var before, rest := found, Rest();
        var frame;
        going, frame := NextFrame(sync);
        if frame.Some? {
          ConcatAssoc(before, [frame.value], FrameScan(sync, Rest()));
          NextEvents(isi, before, frame.value, gse.View());
          assert found[..|found| - 1] == before;
          var counted := HandleFrame(isi, frame.value, gse);
          if counted {
            bbframes := bbframes + 1;
          }
        } else {
          ConcatAssoc(before, [], FrameScan(sync, Rest()));
          assert before + [] == before;
        }
      }
      assert found + [] == found;
    }
  }

  lemma SentIsScanned(sync: bool, fs: seq<Frame>, ps: seq<seq<Gse.Written>>)
    requires Loaded(fs, ps)
    ensures FrameScan(sync, OnLine(sync, fs)) == Frames(fs)
  {
    hide Sendable, Distinct, Gse.FieldOf;
    ScanOfSent(sync, fs, []);
    assert OnLine(sync, fs) + [] == OnLine(sync, fs);
    assert FrameScan(sync, []) == [];
  }

  lemma Ahead(buffer: seq<byte>, scan: nat, skip: nat, more: seq<byte>, s: seq<byte>)
    requires scan + skip <= |buffer| && s == buffer[scan..] + more
    ensures s[skip..] == buffer[scan + skip..] + more && buffer[scan + skip..] <= s[skip..]
  {
  }

  lemma Between(buffer: seq<byte>, scan: nat, skip: nat, n: nat, more: seq<byte>, s: seq<byte>)
    requires skip <= n && scan + n <= |buffer| && s == buffer[scan..] + more
    ensures s[skip..n] == buffer[scan + skip..scan + n]
  {
  }

  lemma FrameScanStops(sync: bool, s: seq<byte>)
    requires var skip := if sync then 1 else 0;
             || |s| < 10
             || (sync && s[0] == 0xb8 && |s| < skip + 10)
             || (|s| >= skip + 10 && (sync ==> s[0] == 0xb8) && HeaderOk(s[skip..])
                 && |s| < skip + FrameLength(s[skip..]))
    ensures FrameScan(sync, s) == []
  {
  }

  lemma FrameScanSkips(sync: bool, s: seq<byte>)
    requires |s| >= 10
    requires (sync && s[0] != 0xb8) || (var skip := if sync then 1 else 0; |s| >= skip + 10 && !HeaderOk(s[skip..]))
    ensures FrameScan(sync, s) == [] + FrameScan(sync, s[1..])
  {
  }

  lemma FrameScanFinds(sync: bool, s: seq<byte>, n: nat)
    requires var skip := if sync then 1 else 0;
             |s| >= skip + 10 && (sync ==> s[0] == 0xb8) && HeaderOk(s[skip..])
             && n == skip + FrameLength(s[skip..]) && n <= |s|
    ensures FrameScan(sync, s) == [s[if sync then 1 else 0..n]] + FrameScan(sync, s[n..])
  {
  }

  /** The state of the GSE receiver as far as frames determine it. */
  lemma NextEvents(isi: Option<byte>, frames: seq<seq<byte>>, frame: seq<byte>, st: Gse.State)
    requires var end := Gse.After(Gse.EMPTY, FrameEvents(isi, frames));
             st.fragments == end.fragments && st.delivered == end.delivered
    ensures var a := Gse.After(st, EventsIn(isi, frame));
            var b := Gse.After(Gse.EMPTY, FrameEvents(isi, frames + [frame]));
            a.fragments == b.fragments && a.delivered == b.delivered
  {
    var evs := EventsIn(isi, frame);
    assert (frames + [frame])[..|frames|] == frames;
    Gse.AfterConcat(Gse.EMPTY, FrameEvents(isi, frames), evs);
    Gse.SameButInvalid(st, Gse.After(Gse.EMPTY, FrameEvents(isi, frames)), evs);
  }
}
