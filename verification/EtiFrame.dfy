/** The ETI(NI) frame (section 5 of ETS 300 799): AssembleETIFrame of eti_assembler.c writes it, the frame walk of
    ni2out.c reads it back. */
module EtiFrame {
  import opened Bits
  import opened Crc

  /** struct eti_stc_data: one stream of the multiplex. */
  datatype Stream = Stream(scid: nat, sad: nat, tpl: nat, mst: seq<byte>)

  /** struct etiBuilder with its eti_fc_data. */
  datatype Builder = Builder(isEti: bool, fcValid: bool, atstf: bool, tsta: nat, ficf: bool, nst: nat, dflc: nat,
    mid: nat, fp: nat, err: nat, mnsc: nat, rfu: nat, timeValid: bool, utco: nat, seconds: nat,
    fic: seq<byte>, streams: seq<Stream>)

  /** The field widths; the decoders never store anything wider. */
  ghost predicate StreamInRange(s: Stream) {
    s.scid < 64 && s.sad < 1024 && s.tpl < 64 && |s.mst| < 0x1_0000
  }

  ghost predicate AllInRange(ss: seq<Stream>) {
    forall i :: 0 <= i < |ss| ==> StreamInRange(ss[i])
  }

  ghost predicate InRange(b: Builder) {
    && b.tsta < 0x1_0000_0000 && b.mid < 4 && b.fp < 8 && b.mnsc < 0x1_0000 && b.rfu < 0x1_0000
    && |b.fic| <= 128 && |b.streams| == 64 && b.nst <= 64
    && AllInRange(b.streams)
  }

  function SumWords(ss: seq<Stream>): nat {
    if ss == [] then 0 else SumWords(ss[..|ss| - 1]) + |ss[|ss| - 1].mst| / 4
  }

  function SumBytes(ss: seq<Stream>): nat {
    if ss == [] then 0 else SumBytes(ss[..|ss| - 1]) + |ss[|ss| - 1].mst|
  }

  function Used(b: Builder): (ss: seq<Stream>)
    requires b.nst <= |b.streams|
    ensures |ss| == b.nst
  {
    b.streams[..b.nst]
  }

  // ----- the layout -----

  function Sync(fct: nat): (s: seq<byte>)
    ensures |s| == 4
  {
    if fct % 2 == 1 then [0xff, 0xf8, 0xc5, 0x49] else [0xff, 0x07, 0x3a, 0xb6]
  }

  /** The frame length field: words from the stream characterisation on. */
  function FrameWords(b: Builder): nat
    requires b.nst <= |b.streams|
  {
    b.nst + 1 + |b.fic| / 4 + SumWords(Used(b))
  }

  ghost function Fc(b: Builder): seq<byte>
    requires InRange(b) && FrameWords(b) < 2048
  {
    [b.dflc % 250, (if b.ficf then 128 else 0) + b.nst] + Put16(8192 * b.fp + 2048 * b.mid + FrameWords(b))
  }

  function StcWord(s: Stream): (v: nat)
    requires StreamInRange(s)
    ensures v < 0x1_0000_0000
  {
    0x400_0000 * s.scid + 0x1_0000 * s.sad + 0x400 * s.tpl + |s.mst| / 8 % 1024
  }

  ghost function Stc(ss: seq<Stream>): (r: seq<byte>)
    requires AllInRange(ss)
    ensures |r| == 4 * |ss|
  {
    if ss == [] then [] else Stc(ss[..|ss| - 1]) + Put32(StcWord(ss[|ss| - 1]))
  }

  function Mst(ss: seq<Stream>): (r: seq<byte>)
    ensures |r| == SumBytes(ss)
  {
    if ss == [] then [] else Mst(ss[..|ss| - 1]) + ss[|ss| - 1].mst
  }

  ghost function CrcBytes(data: seq<byte>): (r: seq<byte>)
    ensures |r| == 2 && CheckCrc(data + r)
  {
    AppendedCrcAccepted(data);
    Put16(Xor(Crc16(0xffff, data), 0xffff))
  }

  ghost function Head(b: Builder): seq<byte>
    requires InRange(b) && FrameWords(b) < 2048
  {
    Fc(b) + Stc(Used(b)) + Put16(b.mnsc)
  }

  function Body(b: Builder): seq<byte>
    requires b.nst <= |b.streams|
  {
    b.fic + Mst(Used(b))
  }

  /** Sync, header with its CRC, main stream with its CRC, RFU and time stamp. */
  ghost function Frame(b: Builder): seq<byte>
    requires InRange(b) && FrameWords(b) < 2048
  {
    Sync(b.dflc % 250) + Head(b) + CrcBytes(Head(b)) + Body(b) + CrcBytes(Body(b)) + Put16(b.rfu) + Put32(b.tsta)
  }

  // ----- when a frame is built -----

  predicate Complete(b: Builder) {
    b.isEti && b.fcValid && |b.fic| > 0 && |b.fic| == if b.mid == 3 then 128 else 96
  }

  /** Where the last stream would end. */
  function End(b: Builder): nat
    requires b.nst <= |b.streams|
  {
    12 + 4 * b.nst + |b.fic| + SumBytes(Used(b))
  }

  predicate Fits(b: Builder)
    requires b.nst <= |b.streams|
  {
    b.nst == 0 || End(b) < 6136
  }

  lemma {:induction false} WordsBelowBytes(ss: seq<Stream>)
    ensures 4 * SumWords(ss) <= SumBytes(ss)
  {
    if ss != [] { WordsBelowBytes(ss[..|ss| - 1]); }
  }

  /** Every frame that fits has a length below 2048, so the 11-bit field cannot spill into MID or FP. */
  lemma FittingLength(b: Builder)
    requires InRange(b) && Complete(b) && Fits(b)
    ensures FrameWords(b) < 2048 && End(b) < 6136
  {
    WordsBelowBytes(Used(b));
    if b.nst == 0 { assert Used(b) == []; }
  }

  // ----- the walk of ni2out.c -----

  datatype Walked = Walked(ficf: bool, nst: nat, fp: nat, mid: nat, fl: nat, fic: seq<byte>, streams: seq<Stream>)

  function FicWords(ficf: bool, mid: nat): nat {
    if !ficf then 0 else if mid == 3 then 32 else 24
  }

  /** One stream read from its characterisation at `stc` and its data at `from`. */
  function StreamAt(f: seq<byte>, stc: nat, from: nat): Stream
    requires stc + 4 <= |f|
  {
    var v := Read32(f[stc..]);
    var to := from + 8 * (v % 1024);
    Stream(v / 0x400_0000, v / 0x1_0000 % 1024, v / 0x400 % 64, if to <= |f| then f[from..to] else [])
  }

  /** process_stc: stream idx, its data behind `prev` units of eight bytes. */
  function WalkStream(f: seq<byte>, stc: nat, msc: nat, idx: nat, prev: nat): Stream
    requires stc + 4 * idx + 4 <= |f|
  {
    StreamAt(f, stc + 4 * idx, msc + 8 * prev)
  }

  function Units(f: seq<byte>, stc: nat, idx: nat): nat
    requires stc + 4 * idx + 4 <= |f|
  {
    Read32(f[stc + 4 * idx..]) % 1024
  }

  function Before(f: seq<byte>, stc: nat, n: nat): nat
    requires stc + 4 * n <= |f|
  {
    if n == 0 then 0 else Before(f, stc, n - 1) + Units(f, stc, n - 1)
  }

  function WalkStreams(f: seq<byte>, stc: nat, msc: nat, n: nat): (ss: seq<Stream>)
    requires stc + 4 * n <= |f|
    ensures |ss| == n
  {
    if n == 0 then []
    else WalkStreams(f, stc, msc, n - 1) + [WalkStream(f, stc, msc, n - 1, Before(f, stc, n - 1))]
  }

  /** The loop `len += process_stc(...)`. */
  method WalkLoop(f: seq<byte>, stc: nat, msc: nat, n: nat) returns (ss: seq<Stream>, len: nat)
    requires stc + 4 * n <= |f|
    ensures ss == WalkStreams(f, stc, msc, n) && len == Before(f, stc, n)
  {
    ss, len := [], 0;
    for idx := 0 to n
      invariant ss == WalkStreams(f, stc, msc, idx) && len == Before(f, stc, idx)
    {
      ss := ss + [WalkStream(f, stc, msc, idx, len)];
      len := len + Units(f, stc, idx);
    }
  }

  function FcFicf(f: seq<byte>): bool
    requires |f| >= 8
  {
    f[5] / 128 == 1
  }

  function FcNst(f: seq<byte>): (n: nat)
    requires |f| >= 8
    ensures n < 128
  {
    f[5] as nat % 128
  }

  function FcFp(f: seq<byte>): nat
    requires |f| >= 8
  {
    Read16(f[6..]) / 8192
  }

  function FcMid(f: seq<byte>): nat
    requires |f| >= 8
  {
    Read16(f[6..]) / 2048 % 4
  }

  function FcFl(f: seq<byte>): nat
    requires |f| >= 8
  {
    Read16(f[6..]) % 2048
  }

  /** The fields and positions that main derives from a frame. */
  function Walk(f: seq<byte>): Walked
    requires |f| >= 1000
  {
    var nst, ficl := FcNst(f), FicWords(FcFicf(f), FcMid(f));
    var fic, msc := 8 + 4 * (nst + 1), 8 + 4 * (nst + 1 + ficl);
    Walked(FcFicf(f), nst, FcFp(f), FcMid(f), FcFl(f), f[fic..fic + 4 * ficl], WalkStreams(f, 8, msc, nst))
  }

  // ----- the walk undoes the assembly -----

  ghost predicate WholeUnits(ss: seq<Stream>) {
    forall i :: 0 <= i < |ss| ==> |ss[i].mst| % 8 == 0 && |ss[i].mst| < 8192
  }

  lemma StcWordFields(s: Stream)
    requires StreamInRange(s)
    ensures var v := StcWord(s);
            v < 0x1_0000_0000 && v / 0x400_0000 == s.scid && v / 0x1_0000 % 1024 == s.sad
            && v / 0x400 % 64 == s.tpl && v % 1024 == |s.mst| / 8 % 1024
  {
    var v := StcWord(s);
    assert v / 0x1_0000 == 1024 * s.scid + s.sad;
    assert v / 0x400 == 0x1_0000 * s.scid + 64 * s.sad + s.tpl;
  }

  lemma {:induction false} StcAt(ss: seq<Stream>, i: nat)
    requires AllInRange(ss) && i < |ss|
    ensures StcWord(ss[i]) < 0x1_0000_0000
    ensures Stc(ss)[4 * i..4 * i + 4] == Put32(StcWord(ss[i]))
  {
    StcWordFields(ss[i]);
    if i < |ss| - 1 {
      StcAt(ss[..|ss| - 1], i);
      assert Stc(ss)[4 * i..4 * i + 4] == Stc(ss[..|ss| - 1])[4 * i..4 * i + 4];
    }
  }

  lemma {:induction false} MstAt(ss: seq<Stream>, i: nat)
    requires i < |ss|
    ensures SumBytes(ss[..i]) + |ss[i].mst| <= SumBytes(ss)
    ensures Mst(ss)[SumBytes(ss[..i])..SumBytes(ss[..i]) + |ss[i].mst|] == ss[i].mst
  {
    var init := ss[..|ss| - 1];
    if i < |ss| - 1 {
      MstAt(init, i);
      assert init[..i] == ss[..i];
      MstPrefix(Mst(init), ss[|ss| - 1].mst, SumBytes(ss[..i]), |ss[i].mst|);
    } else {
      assert ss[..i] == init;
    }
  }

  lemma MstPrefix(a: seq<byte>, b: seq<byte>, at: nat, n: nat)
    requires at + n <= |a|
    ensures (a + b)[at..at + n] == a[at..at + n]
  {
  }

  /** Streams of whole units leave no rest in the frame length. */
  lemma {:induction false} WordsOfWhole(ss: seq<Stream>)
    requires WholeUnits(ss)
    ensures 4 * SumWords(ss) == SumBytes(ss)
  {
    if ss != [] {
      assert |ss[|ss| - 1].mst| % 8 == 0;
      WordsOfWhole(ss[..|ss| - 1]);
    }
  }

  /** Where the parts of a frame lie. */
  ghost predicate Laid(f: seq<byte>, b: Builder)
    requires InRange(b) && FrameWords(b) < 2048
  {
    var n := b.nst;
    && |f| >= End(b)
    && f[4..8] == Fc(b) && f[8..8 + 4 * n] == Stc(Used(b))
    && f[12 + 4 * n..End(b)] == Body(b)
  }

  lemma {:induction false} WalkPrefix(f: seq<byte>, b: Builder, i: nat)
    requires InRange(b) && FrameWords(b) < 2048 && Laid(f, b) && WholeUnits(Used(b)) && i <= b.nst
    ensures 8 + 4 * i <= |f|
    ensures 8 * Before(f, 8, i) == SumBytes(Used(b)[..i])
    ensures WalkStreams(f, 8, 12 + 4 * b.nst + |b.fic|, i) == Used(b)[..i]
  {
    hide WalkStream, Units, StcWord, Laid, FrameWords, WholeUnits, StreamInRange;
    LaidLength(f, b);
    if i == 0 {
      assert Used(b)[..0] == [];
    } else {
      var ss := Used(b);
      WalkPrefix(f, b, i - 1);
      WalkOne(f, b, i - 1);
      SumBytesStep(ss, i - 1);
      WalkStep(f, 8, 12 + 4 * b.nst + |b.fic|, i - 1, ss);
    }
  }

  lemma WalkStep(f: seq<byte>, stc: nat, msc: nat, i: nat, ss: seq<Stream>)
    requires stc + 4 * i + 4 <= |f| && i < |ss|
    requires WalkStreams(f, stc, msc, i) == ss[..i] && WalkStream(f, stc, msc, i, Before(f, stc, i)) == ss[i]
    ensures WalkStreams(f, stc, msc, i + 1) == ss[..i + 1]
    ensures Before(f, stc, i + 1) == Before(f, stc, i) + Units(f, stc, i)
  {
    hide WalkStream, Units;
    assert ss[..i + 1] == ss[..i] + [ss[i]];
  }

  lemma SumBytesStep(ss: seq<Stream>, i: nat)
    requires i < |ss|
    ensures SumBytes(ss[..i + 1]) == SumBytes(ss[..i]) + |ss[i].mst|
  {
    assert ss[..i + 1][..i] == ss[..i];
  }

  lemma LaidLength(f: seq<byte>, b: Builder)
    requires InRange(b) && FrameWords(b) < 2048 && Laid(f, b)
    ensures |f| >= 12 + 4 * b.nst && f[4..8] == Fc(b)
  {
  }

  lemma StcInFrame(f: seq<byte>, b: Builder, i: nat)
    requires InRange(b) && FrameWords(b) < 2048 && Laid(f, b) && i < b.nst
    ensures 12 + 4 * i <= |f| && Read32(f[8 + 4 * i..]) == StcWord(Used(b)[i])
  {
    var ss := Used(b);
    StcAt(ss, i);
    SubSlice(f, 8, 8 + 4 * b.nst, 4 * i, 4 * i + 4);
    ReadPut32(f[8 + 4 * i..], StcWord(ss[i]));
  }

  lemma SubSlice(f: seq<byte>, x: nat, y: nat, a: nat, c: nat)
    requires a <= c && x + c <= y <= |f|
    ensures f[x..y][a..c] == f[x + a..x + c]
    ensures f[x + a..][..c - a] == f[x + a..x + c]
  {
    var p, q, r := f[x..y][a..c], f[x + a..x + c], f[x + a..][..c - a];
    assert |p| == |q| == |r|;
    assert forall k :: 0 <= k < |q| ==> p[k] == q[k] == r[k];
  }

  lemma MstInFrame(f: seq<byte>, b: Builder, i: nat)
    requires InRange(b) && FrameWords(b) < 2048 && Laid(f, b) && i < b.nst
    ensures var at := 12 + 4 * b.nst + |b.fic| + SumBytes(Used(b)[..i]);
            at + |Used(b)[i].mst| <= |f| && f[at..at + |Used(b)[i].mst|] == Used(b)[i].mst
  {
    var ss := Used(b);
    MstAt(ss, i);
    InBody(f, b.fic, Mst(ss), 12 + 4 * b.nst, SumBytes(ss[..i]), |ss[i].mst|);
  }

  lemma InBody(f: seq<byte>, fic: seq<byte>, mst: seq<byte>, x: nat, at: nat, n: nat)
    requires at + n <= |mst| && x + |fic| + |mst| <= |f| && f[x..x + |fic| + |mst|] == fic + mst
    ensures f[x + |fic| + at..x + |fic| + at + n] == mst[at..at + n]
  {
    SubSlice(f, x, x + |fic| + |mst|, |fic| + at, |fic| + at + n);
    SliceOfTail(fic, mst, at, n);
  }

  lemma SliceOfTail(a: seq<byte>, b: seq<byte>, at: nat, n: nat)
    requires at + n <= |b|
    ensures (a + b)[|a| + at..|a| + at + n] == b[at..at + n]
  {
    var p, q := (a + b)[|a| + at..|a| + at + n], b[at..at + n];
    assert |p| == |q|;
    assert forall k :: 0 <= k < n ==> p[k] == q[k];
  }

  lemma WalkOne(f: seq<byte>, b: Builder, i: nat)
    requires InRange(b) && FrameWords(b) < 2048 && Laid(f, b) && WholeUnits(Used(b)) && i < b.nst
    requires 12 + 4 * i <= |f| && 8 * Before(f, 8, i) == SumBytes(Used(b)[..i])
    ensures 8 * Units(f, 8, i) == |Used(b)[i].mst|
    ensures WalkStream(f, 8, 12 + 4 * b.nst + |b.fic|, i, Before(f, 8, i)) == Used(b)[i]
  {
    hide StcWord, Laid, FrameWords, SumBytes, Read32, WalkStream, Units, Before;
    StcInFrame(f, b, i);
    MstInFrame(f, b, i);
    OneStream(f, 8 + 4 * i, 12 + 4 * b.nst + |b.fic| + SumBytes(Used(b)[..i]), Used(b)[i]);
    WalkStreamAt(f, 8, 12 + 4 * b.nst + |b.fic|, i, Before(f, 8, i), 8 + 4 * i, SumBytes(Used(b)[..i]));
  }

  lemma OneStream(f: seq<byte>, stc: nat, from: nat, s: Stream)
    requires stc + 4 <= |f| && StreamInRange(s) && |s.mst| % 8 == 0 && |s.mst| < 8192
    requires Read32(f[stc..]) == StcWord(s)
    requires from + |s.mst| <= |f| && f[from..from + |s.mst|] == s.mst
    ensures 8 * (Read32(f[stc..]) % 1024) == |s.mst| && StreamAt(f, stc, from) == s
  {
    hide StcWord, Read32;
    StcWordFields(s);
    UnitsExact(|s.mst|);
  }

  lemma WalkStreamAt(f: seq<byte>, stc: nat, msc: nat, idx: nat, prev: nat, at: nat, bytes: nat)
    requires stc + 4 * idx + 4 <= |f| && at == stc + 4 * idx && bytes == 8 * prev
    ensures WalkStream(f, stc, msc, idx, prev) == StreamAt(f, at, msc + bytes)
    ensures Units(f, stc, idx) == Read32(f[at..]) % 1024
  {
    hide Read32;
  }

  lemma UnitsExact(n: nat)
    requires n % 8 == 0 && n < 8192
    ensures 8 * (n / 8 % 1024) == n
  {
  }

  lemma FcFields(b: Builder, f: seq<byte>)
    requires InRange(b) && FrameWords(b) < 2048 && |f| >= 8 && f[4..8] == Fc(b)
    ensures FcFicf(f) == b.ficf && FcNst(f) == b.nst && f[4] as nat == b.dflc % 250
    ensures FcFp(f) == b.fp && FcMid(f) == b.mid && FcFl(f) == FrameWords(b)
  {
    var w := 8192 * b.fp + 2048 * b.mid + FrameWords(b);
    assert f[5] == f[4..8][1] && f[6] == f[4..8][2] && f[7] == f[4..8][3] && f[4] == f[4..8][0];
    assert w / 2048 == 4 * b.fp + b.mid;
  }

  /** Meaning preservation: walking a frame gives back the FIC and every stream with its parameters and bytes. */
  lemma WalkOfFrame(b: Builder, f: seq<byte>)
    requires InRange(b) && Complete(b) && Fits(b) && b.ficf && WholeUnits(Used(b)) && |f| >= 1000
    requires FrameWords(b) < 2048 && Laid(f, b)
    ensures Walk(f) == Walked(true, b.nst, b.fp, b.mid, FrameWords(b), b.fic, Used(b))
  {
    hide FcFicf, FcNst, FcFp, FcMid, FcFl, FrameWords, Laid, WholeUnits, WalkStream, Units, StreamInRange, Fc, Fits;
    LaidLength(f, b);
    FcFields(b, f);
    FicInFrame(f, b);
    WalkPrefix(f, b, b.nst);
    assert Used(b)[..b.nst] == Used(b);
  }

  lemma FicInFrame(f: seq<byte>, b: Builder)
    requires InRange(b) && FrameWords(b) < 2048 && Laid(f, b)
    ensures var fic := 12 + 4 * b.nst;
            fic + |b.fic| <= |f| && f[fic..fic + |b.fic|] == b.fic
  {
    SubSlice(f, 12 + 4 * b.nst, End(b), 0, |b.fic|);
    assert Body(b)[..|b.fic|] == b.fic;
  }

  lemma {:induction false} WalkStreamsAt(f: seq<byte>, stc: nat, msc: nat, n: nat, i: nat)
    requires stc + 4 * n <= |f| && i < n
    ensures WalkStreams(f, stc, msc, n)[i] == WalkStream(f, stc, msc, i, Before(f, stc, i))
  {
    hide WalkStream, Units;
    if i < n - 1 { WalkStreamsAt(f, stc, msc, n - 1, i); }
  }

  /** Without the FIC flag the walk takes the FIC for stream data: every stream keeps its parameters and its length,
      but its bytes are those that stand |fic| bytes in front of it. */
  lemma StreamsDisplaced(b: Builder, f: seq<byte>, i: nat)
    requires InRange(b) && Complete(b) && Fits(b) && !b.ficf && WholeUnits(Used(b)) && |f| >= 1000
    requires FrameWords(b) < 2048 && Laid(f, b) && i < b.nst
    ensures |Walk(f).streams| == b.nst
    ensures var s, at := Used(b)[i], SumBytes(Used(b)[..i]);
            && at + |s.mst| <= |Body(b)|
            && Walk(f).streams[i] == s.(mst := Body(b)[at..at + |s.mst|])
  {
    hide FcFicf, FcNst, FcFp, FcMid, FcFl, FrameWords, Laid, WholeUnits, StreamInRange, Fc, Fits, WalkStream, Units;
    LaidLength(f, b);
    FcFields(b, f);
    WalkPrefix(f, b, i);
    WalkStreamsAt(f, 8, 12 + 4 * b.nst, b.nst, i);
    ShownStream(f, b, i);
  }

  lemma BodyInFrame(f: seq<byte>, b: Builder, i: nat)
    requires InRange(b) && FrameWords(b) < 2048 && Laid(f, b) && i < b.nst
    ensures var n, at := |Used(b)[i].mst|, SumBytes(Used(b)[..i]);
            at + n <= |Body(b)| && 12 + 4 * b.nst + at + n <= |f|
            && f[12 + 4 * b.nst + at..12 + 4 * b.nst + at + n] == Body(b)[at..at + n]
  {
    var n, at := |Used(b)[i].mst|, SumBytes(Used(b)[..i]);
    MstAt(Used(b), i);
    SubSlice(f, 12 + 4 * b.nst, End(b), at, at + n);
  }

  lemma SameStcWord(a: Stream, b: Stream)
    requires StreamInRange(a) && StreamInRange(b) && a == b.(mst := a.mst) && |a.mst| == |b.mst|
    ensures StcWord(a) == StcWord(b)
  {
  }

  lemma ShownStream(f: seq<byte>, b: Builder, i: nat)
    requires InRange(b) && FrameWords(b) < 2048 && Laid(f, b) && WholeUnits(Used(b)) && i < b.nst
    requires 12 + 4 * i <= |f| && 8 * Before(f, 8, i) == SumBytes(Used(b)[..i])
    ensures var s, at := Used(b)[i], SumBytes(Used(b)[..i]);
            && at + |s.mst| <= |Body(b)|
            && WalkStream(f, 8, 12 + 4 * b.nst, i, Before(f, 8, i)) == s.(mst := Body(b)[at..at + |s.mst|])
  {
    hide Laid, FrameWords, SumBytes, Read32, WalkStream, Units, Before, Body, StcWord;
    var s, at := Used(b)[i], SumBytes(Used(b)[..i]);
    StcInFrame(f, b, i);
    BodyInFrame(f, b, i);
    var shown := s.(mst := Body(b)[at..at + |s.mst|]);
    SameStcWord(shown, s);
    OneStream(f, 8 + 4 * i, 12 + 4 * b.nst + at, shown);
    WalkStreamAt(f, 8, 12 + 4 * b.nst, i, Before(f, 8, i), 8 + 4 * i, at);
  }

  /** The FIC flag decides: without it the walk finds no FIC, although the assembler always writes one. */
  lemma FicNeedsFlag(b: Builder, f: seq<byte>)
    requires InRange(b) && Complete(b) && Fits(b) && |f| >= 1000
    requires FrameWords(b) < 2048 && Laid(f, b)
    ensures Walk(f).fic == b.fic <==> b.ficf
  {
    LaidLength(f, b);
    FcFields(b, f);
    FicInFrame(f, b);
  }

  lemma FrameParts(b: Builder, pad: seq<byte>)
    requires InRange(b) && FrameWords(b) < 2048
    ensures var f := Frame(b) + pad;
            && |Frame(b)| == End(b) + 8 && |f| >= End(b) + 8 && f[..4] == Sync(b.dflc % 250)
            && f[4..10 + 4 * b.nst] == Head(b) && f[4..12 + 4 * b.nst] == Head(b) + CrcBytes(Head(b))
            && f[12 + 4 * b.nst..End(b)] == Body(b)
            && f[12 + 4 * b.nst..End(b) + 2] == Body(b) + CrcBytes(Body(b))
  {
    hide Fc, Stc, Mst, SumBytes, CheckCrc, Head, StreamInRange, Fits, Complete;
    HeadParts(b);
    Parts(Sync(b.dflc % 250), Head(b), CrcBytes(Head(b)), Body(b), CrcBytes(Body(b)),
      Put16(b.rfu) + Put32(b.tsta), pad, Frame(b) + pad);
  }

  /** A frame is laid out as the walk expects. */
  lemma FrameIsLaid(b: Builder, pad: seq<byte>)
    requires InRange(b) && FrameWords(b) < 2048
    ensures Laid(Frame(b) + pad, b)
  {
    hide Fc, Stc, SumBytes, Mst, Frame, Head, Body, StreamInRange, FrameWords, CheckCrc, CrcBytes, Sync;
    FrameParts(b, pad);
    HeadParts(b);
    var f := Frame(b) + pad;
    SubSlice(f, 4, 10 + 4 * b.nst, 0, 4);
    SubSlice(f, 4, 10 + 4 * b.nst, 4, 4 + 4 * b.nst);
  }

  /** Both CRC fields verify, and the frame is never mistaken for an empty one, whose characterisation is all ones. */
  lemma FrameIsValid(b: Builder, pad: seq<byte>)
    requires InRange(b) && FrameWords(b) < 2048
    ensures var f := Frame(b) + pad;
            && |f| >= End(b) + 8
            && CheckCrc(f[4..12 + 4 * b.nst]) && CheckCrc(f[12 + 4 * b.nst..End(b) + 2])
            && f[4] != 0xff && f[..4] == Sync(b.dflc % 250)
  {
    FrameParts(b, pad);
    HeadParts(b);
    var f := Frame(b) + pad;
    hide Fc, Stc, SumBytes, FrameWords, Frame, Head, Body, CheckCrc;
    assert f[4] == f[4..10 + 4 * b.nst][..4][0];
  }

  /** The bytes of a frame around its streams: synchronisation by the parity of the frame count, the count, MNSC behind
      n stream characterisations, RFU and time stamp behind the CRC of the main stream, which ends at `end`, and the
      filling. */
  ghost predicate Bears(f: seq<byte>, n: nat, end: nat, count: nat, mnsc: nat, rfu: nat, tsta: nat) {
    && 12 + 4 * n <= end && end + 8 <= |f|
    && f[0] == 0xff && Read24(f[1..]) == (if count % 2 == 1 then 0xf8c549 else 0x073ab6) && f[4] as nat == count
    && Read16(f[8 + 4 * n..]) == mnsc
    && Read16(f[end + 2..]) == rfu && Read32(f[end + 4..]) == tsta
    && forall i :: end + 8 <= i < |f| ==> f[i] == 0x55
  }

  /** Every frame bears its count, MNSC, RFU and time stamp where ETI has them. */
  lemma FrameBears(b: Builder, pad: seq<byte>)
    requires InRange(b) && FrameWords(b) < 2048 && forall x :: x in pad ==> x == 0x55
    ensures |Frame(b)| == End(b) + 8
    ensures Bears(Frame(b) + pad, b.nst, End(b), b.dflc % 250, b.mnsc, b.rfu, b.tsta)
  {
    hide Stc, Mst, SumBytes, CheckCrc, Head, StreamInRange, FrameWords, CrcBytes, Sync, Put16, Put32, Fc, AllInRange;
    HeadBears(b);
    HeadParts(b);
    SyncBytes(b.dflc % 250);
    FieldsAt(Sync(b.dflc % 250), Head(b), CrcBytes(Head(b)), Body(b), CrcBytes(Body(b)), b.mnsc, b.rfu, b.tsta, pad,
      b.nst, Frame(b) + pad);
    var f, z := Frame(b) + pad, End(b) + 8;
    forall i | z <= i < |f| ensures f[i] == 0x55 {
      assert f[i] == f[z..][i - z] && pad[i - z] in pad;
    }
  }

  lemma HeadBears(b: Builder)
    requires InRange(b) && FrameWords(b) < 2048
    ensures |Head(b)| == 6 + 4 * b.nst && Head(b)[0] as nat == b.dflc % 250 && Head(b)[4 + 4 * b.nst..] == Put16(b.mnsc)
  {
    hide Stc, Put16, FrameWords;
  }

  lemma SyncBytes(count: nat)
    ensures Sync(count)[0] == 0xff
    ensures Read24(Sync(count)[1..]) == if count % 2 == 1 then 0xf8c549 else 0x073ab6
  {
  }

  lemma FieldsAt(s: seq<byte>, h: seq<byte>, c: seq<byte>, m: seq<byte>, e: seq<byte>, mnsc: nat, rfu: nat, tsta: nat,
      pad: seq<byte>, n: nat, f: seq<byte>)
    requires mnsc < 0x1_0000 && rfu < 0x1_0000 && tsta < 0x1_0000_0000
    requires |s| == 4 && |h| == 6 + 4 * n && |c| == 2 && |e| == 2 && h[4 + 4 * n..] == Put16(mnsc)
    requires f == s + h + c + m + e + Put16(rfu) + Put32(tsta) + pad
    ensures var end := 12 + 4 * n + |m|;
            && |f| == end + 8 + |pad| && f[0] == s[0] && f[1..][..3] == s[1..] && f[4] == h[0]
            && Read24(f[1..]) == Read24(s[1..])
            && Read16(f[8 + 4 * n..]) == mnsc && Read16(f[end + 2..]) == rfu && Read32(f[end + 4..]) == tsta
            && f[end + 8..] == pad
  {
    hide Read16, Read32, Put16, Put32;
    var end, u, v := 12 + 4 * n + |m|, Put16(rfu), Put32(tsta);
    Behind(s + h[..4 + 4 * n], Put16(mnsc) + (c + m + e + u + v + pad), f);
    ReadPut16(f[8 + 4 * n..], mnsc, c + m + e + u + v + pad);
    Behind(s + h + c + m + e, u + (v + pad), f);
    ReadPut16(f[end + 2..], rfu, v + pad);
    Behind(s + h + c + m + e + u, v + pad, f);
    ReadPut32At(f[end + 4..], tsta, pad);
    Behind(s + h + c + m + e + u + v, pad, f);
  }

  lemma Behind(a: seq<byte>, b: seq<byte>, f: seq<byte>)
    requires f == a + b
    ensures f[|a|..] == b
  {
  }

  lemma HeadParts(b: Builder)
    requires InRange(b) && FrameWords(b) < 2048
    ensures |Fc(b)| == 4 && |Head(b)| == 6 + 4 * b.nst && Fc(b)[0] < 250
    ensures Head(b)[..4] == Fc(b) && Head(b)[4..4 + 4 * b.nst] == Stc(Used(b))
  {
  }

  lemma Parts(s: seq<byte>, h: seq<byte>, c: seq<byte>, m: seq<byte>, e: seq<byte>, t: seq<byte>, pad: seq<byte>,
      f: seq<byte>)
    requires |s| == 4 && |c| == 2 && |e| == 2 && f[..] == s + h + c + m + e + t + pad
    ensures var a, z := 4 + |h|, 6 + |h| + |m|;
            f[..4] == s && f[4..a] == h && f[4..a + 2] == h + c && f[a + 2..z] == m && f[a + 2..z + 2] == m + e
  {
  }

  // ----- the assembler -----

  /** Stores bytes at eti[idx] and behind. */
  method Put(eti: array<byte>, idx: nat, bytes: seq<byte>) returns (next: nat)
    requires idx + |bytes| <= eti.Length
    modifies eti
    ensures next == idx + |bytes| && eti[..next] == old(eti[..idx]) + bytes
  {
    var i := 0;
    while i < |bytes|
      invariant 0 <= i <= |bytes|
      invariant eti[..idx + i] == old(eti[..idx]) + bytes[..i]
    {
      eti[idx + i] := bytes[i];
      i := i + 1;
    }
    next := idx + |bytes|;
  }

  /** The 16-bit FL sum, wrapping as the C type does. */
  method FrameLength(b: Builder) returns (fl: nat)
    requires b.nst <= |b.streams| && b.nst + |b.fic| < 1000
    ensures fl == FrameWords(b) % 0x1_0000
  {
    hide SumWords;
    fl := b.nst + 1 + |b.fic| / 4;
    ghost var start := fl;
    SumWordsStep(Used(b), 0);
    var i := 0;
    while i < b.nst
      invariant 0 <= i <= b.nst && fl == (start + SumWords(Used(b)[..i])) % 0x1_0000
    {
      SumWordsStep(Used(b), i);
      AddWrapped(start + SumWords(Used(b)[..i]), |b.streams[i].mst| / 4);
      fl := (fl + |b.streams[i].mst| / 4) % 0x1_0000;
      i := i + 1;
    }
    assert Used(b)[..i] == Used(b);
  }

  lemma SumWordsStep(ss: seq<Stream>, i: nat)
    requires i <= |ss|
    ensures SumWords(ss[..0]) == 0
    ensures i < |ss| ==> SumWords(ss[..i + 1]) == SumWords(ss[..i]) + |ss[i].mst| / 4
  {
    assert i < |ss| ==> ss[..i + 1][..i] == ss[..i];
  }

  lemma AddWrapped(a: nat, n: nat)
    ensures (a % 0x1_0000 + n) % 0x1_0000 == (a + n) % 0x1_0000
  {
  }

  /** (fp << 13) | (mid << 11) | FL keeps the three fields apart as long as FL has at most 11 bits. */
  lemma FcBits(fp: nat, mid: nat, fl: nat)
    requires fp < 8 && mid < 4 && fl < 2048
    ensures Or(Or(Shl(fp, 13), Shl(mid, 11)), fl) == 8192 * fp + 2048 * mid + fl
  {
    hide Or, Shl;
    ShlNumbers(fp, mid);
    OrDisjoint(13, fp, Shl(mid, 11));
    OrDisjoint(11, 4 * fp + mid, fl);
  }

  lemma ShlNumbers(fp: nat, mid: nat)
    requires mid < 4
    ensures Shl(mid, 11) == 2048 * mid && Shl(fp, 13) == 8192 * fp && Shl(4 * fp + mid, 11) == 8192 * fp + 2048 * mid
    ensures Pow2(11) == 2048 && Pow2(13) == 8192
  {
    Shl11(mid);
    Shl11(4 * fp + mid);
    Shl11(1);
    Shl13(fp);
    Shl13(1);
  }

  lemma Shl13(x: nat)
    ensures Shl(x, 13) == 8192 * x
  {
    Shl11(x);
    assert Shl(x, 13) == 2 * Shl(x, 12) == 4 * Shl(x, 11);
  }

  lemma Shl11(x: nat)
    ensures Shl(x, 11) == 2048 * x
  {
    Shl8(8 * x);
    ShlShl(x, 3, 8);
    assert Shl(x, 3) == 2 * Shl(x, 2) == 4 * Shl(x, 1) == 8 * x;
  }

  /** (ficf << 7) | NST. */
  lemma FlagBits(flag: nat, nst: nat)
    requires flag < 2 && nst < 128
    ensures Or(Shl(flag, 7), nst) == 128 * flag + nst
  {
    assert Shl(flag, 7) == 2 * Shl(flag, 6) == 4 * Shl(flag, 5) == 8 * Shl(flag, 4);
    assert Shl(flag, 4) == 2 * Shl(flag, 3) == 4 * Shl(flag, 2) == 8 * Shl(flag, 1) == 16 * flag;
    assert Shl(1, 7) == 128 by {
      assert Shl(1, 7) == 2 * Shl(1, 6) == 4 * Shl(1, 5) == 8 * Shl(1, 4);
      assert Shl(1, 4) == 2 * Shl(1, 3) == 4 * Shl(1, 2) == 8 * Shl(1, 1) == 16;
    }
    OrDisjoint(7, flag, nst);
  }

  /** The four bytes of a stream's characterisation, as the C code packs them. */
  function PackStc(s: Stream): (r: seq<byte>)
    requires s.scid < 64 && s.tpl < 64
    ensures |r| == 4
  {
    [4 * s.scid + s.sad / 256 % 4, s.sad % 256, 4 * s.tpl + |s.mst| / 8 / 256 % 4, |s.mst| / 8 % 256]
  }

  lemma PackedStc(s: Stream)
    requires StreamInRange(s)
    ensures PackStc(s) == Put32(StcWord(s))
  {
    hide Put32;
    var n := |s.mst| / 8;
    TenBits(n);
    Pack32(s.scid, s.sad, s.tpl, n % 1024);
  }

  lemma TenBits(n: nat)
    ensures n % 1024 / 256 == n / 256 % 4 && n % 1024 % 256 == n % 256
  {
  }

  lemma Pack32(scid: nat, sad: nat, tpl: nat, stl: nat)
    requires scid < 64 && sad < 1024 && tpl < 64 && stl < 1024
    ensures 0x400_0000 * scid + 0x1_0000 * sad + 0x400 * tpl + stl < 0x1_0000_0000
    ensures Put32(0x400_0000 * scid + 0x1_0000 * sad + 0x400 * tpl + stl)
         == [4 * scid + sad / 256, sad % 256, 4 * tpl + stl / 256, stl % 256]
  {
    var hi, lo := 0x400 * scid + sad, 0x400 * tpl + stl;
    assert Put16(hi) == [4 * scid + sad / 256, sad % 256];
    assert Put16(lo) == [4 * tpl + stl / 256, stl % 256];
    var v := 0x1_0000 * hi + lo;
    assert v / 0x1_0000 == hi && v % 0x1_0000 == lo;
  }

  method WriteStcs(eti: array<byte>, b: Builder, at: nat) returns (idx: nat)
    requires InRange(b) && at + 4 * b.nst <= eti.Length
    modifies eti
    ensures idx == at + 4 * b.nst && eti[..idx] == old(eti[..at]) + Stc(Used(b))
  {
    idx := at;
    var i := 0;
    assert Used(b)[..0] == [];
    while i < b.nst
      invariant 0 <= i <= b.nst && idx == at + 4 * i
      invariant eti[..idx] == old(eti[..at]) + Stc(Used(b)[..i])
    {
      NextStc(Used(b), i, old(eti[..at]));
      idx := Put(eti, idx, PackStc(b.streams[i]));
      i := i + 1;
    }
    assert Used(b)[..i] == Used(b);
  }

  lemma NextStc(ss: seq<Stream>, i: nat, before: seq<byte>)
    requires AllInRange(ss) && i < |ss|
    ensures before + Stc(ss[..i]) + PackStc(ss[i]) == before + Stc(ss[..i + 1])
  {
    assert ss[..i + 1][..i] == ss[..i];
    PackedStc(ss[i]);
    ConcatAssoc(before, Stc(ss[..i]), PackStc(ss[i]));
  }

  /** The streams, each only while it ends in front of the last eight bytes. */
  method WriteMsts(eti: array<byte>, b: Builder, at: nat) returns (ok: bool, idx: nat)
    requires InRange(b) && at == 12 + 4 * b.nst + |b.fic| && eti.Length == 6144
    modifies eti
    ensures ok == Fits(b)
    ensures ok ==> idx == End(b) && idx <= 6136 && eti[..idx] == old(eti[..at]) + Mst(Used(b))
  {
    idx := at;
    var i := 0;
    assert Used(b)[..0] == [];
    while i < b.nst
      invariant 0 <= i <= b.nst && idx == at + SumBytes(Used(b)[..i]) && (i > 0 ==> idx < 6136) && idx <= 6136
      invariant eti[..idx] == old(eti[..at]) + Mst(Used(b)[..i])
    {
      NextMst(Used(b), i, old(eti[..at]));
      if idx + |b.streams[i].mst| >= 6144 - 8 {
        return false, idx;
      }
      idx := Put(eti, idx, b.streams[i].mst);
      i := i + 1;
    }
    assert Used(b)[..i] == Used(b);
    ok := true;
  }

  lemma NextMst(ss: seq<Stream>, i: nat, before: seq<byte>)
    requires i < |ss|
    ensures before + Mst(ss[..i]) + ss[i].mst == before + Mst(ss[..i + 1])
    ensures SumBytes(ss[..i]) + |ss[i].mst| == SumBytes(ss[..i + 1]) <= SumBytes(ss)
  {
    assert ss[..i + 1][..i] == ss[..i];
    MstAt(ss, i);
    ConcatAssoc(before, Mst(ss[..i]), ss[i].mst);
  }

  function Pad(raw: bool, n: nat): seq<byte> {
    if raw && n < 6144 then seq(6144 - n, _ => 0x55) else []
  }

  /** The CRC over eti[from..idx], appended big-endian. */
  method AppendCrc(tab: seq<nat>, eti: array<byte>, from: nat, idx: nat) returns (next: nat)
    requires IsTable(16, POLY, tab) && from <= idx && idx + 2 <= eti.Length
    modifies eti
    ensures next == idx + 2 && eti[..next] == old(eti[..idx]) + CrcBytes(old(eti[from..idx]))
  {
    Widths();
    var crc := CrcLoop(16, POLY, tab, 0xffff, eti[from..idx]);
    AppendedCrcAccepted(eti[from..idx]);
    next := Put(eti, idx, Put16(Xor(crc, 0xffff)));
  }

  /** The four bytes of the frame characterisation, as the C code packs them. */
  function PackFc(b: Builder, fl: nat): (r: seq<byte>)
    requires b.nst <= 64
    ensures |r| == 4
  {
    FlagBits(if b.ficf then 1 else 0, b.nst);
    [b.dflc % 250, Or(Shl(if b.ficf then 1 else 0, 7), b.nst)]
    + Put16(Or(Or(Shl(b.fp, 13), Shl(b.mid, 11)), fl) % 0x1_0000)
  }

  lemma PackedFc(b: Builder)
    requires InRange(b) && FrameWords(b) < 2048
    ensures PackFc(b, FrameWords(b)) == Fc(b)
  {
    hide Or, Shl, FrameWords, Put16;
    FlagBits(if b.ficf then 1 else 0, b.nst);
    FcBits(b.fp, b.mid, FrameWords(b));
  }

  /** Lines 57 to 94: synchronisation and frame characterisation. */
  method WriteFc(eti: array<byte>, b: Builder) returns (idx: nat)
    requires InRange(b) && eti.Length == 6144
    modifies eti
    ensures idx == 8
    ensures FrameWords(b) < 2048 ==> eti[..8] == Sync(b.dflc % 250) + Fc(b)
  {
    hide PackFc, Fc, FrameWords;
    var fl := FrameLength(b);
    if FrameWords(b) < 2048 { PackedFc(b); }
    idx := Put(eti, 0, Sync(b.dflc % 250));
    idx := Put(eti, idx, PackFc(b, fl));
  }

  method WriteHeader(tab: seq<nat>, eti: array<byte>, b: Builder) returns (idx: nat)
    requires IsTable(16, POLY, tab) && InRange(b) && eti.Length == 6144
    modifies eti
    ensures idx == 12 + 4 * b.nst
    ensures FrameWords(b) < 2048 ==> eti[..idx] == Sync(b.dflc % 250) + Head(b) + CrcBytes(Head(b))
  {
    idx := WriteFc(eti, b);
    ghost var start := eti[..8];
    idx := WriteStcs(eti, b, idx);
    idx := Put(eti, idx, Put16(b.mnsc));
    assert eti[..idx] == start + Stc(Used(b)) + Put16(b.mnsc);
    if FrameWords(b) < 2048 {
      AfterSync(Sync(b.dflc % 250), Fc(b), Stc(Used(b)), Put16(b.mnsc), eti[..idx]);
    }
    idx := AppendCrc(tab, eti, 4, idx);
  }

  lemma AfterSync(s: seq<byte>, fc: seq<byte>, stc: seq<byte>, mnsc: seq<byte>, f: seq<byte>)
    requires |s| == 4 && f == s + fc + stc + mnsc
    ensures f == s + (fc + stc + mnsc) && f[4..] == fc + stc + mnsc
  {
  }

  /** AssembleETIFrame: the frame handed to the callback, or None where the function returns 0. */
  method AssembleEtiFrame(tab: seq<nat>, b: Builder, raw: bool) returns (r: Option<seq<byte>>)
    requires IsTable(16, POLY, tab) && InRange(b)
    ensures r.Some? <==> Complete(b) && Fits(b)
    ensures r.Some? ==> FrameWords(b) < 2048 && r.value == Frame(b) + Pad(raw, |Frame(b)|)
    ensures r.Some? ==> |r.value| == if raw then 6144 else End(b) + 8
    ensures r.Some? ==> Bears(r.value, b.nst, End(b), b.dflc % 250, b.mnsc, b.rfu, b.tsta)
  {
    hide Fc, Stc, Mst, SumBytes, FrameWords, CheckCrc, StreamInRange, CrcBytes, Bears, Sync, Head, Put16, Put32;
    if !b.isEti || !b.fcValid || |b.fic| == 0 { return None; }
    if (b.mid == 3 && |b.fic| != 32 * 4) || (b.mid != 3 && |b.fic| != 24 * 4) { return None; }
    var eti := new byte[6144];
    var idx := WriteHeader(tab, eti, b);
    ghost var head := eti[..idx];
    var start := idx;
    idx := Put(eti, idx, b.fic);
    var ok;
    ok, idx := WriteMsts(eti, b, idx);
    if !ok { return None; }
    FittingLength(b);
    assert eti[..idx] == head + Body(b);
    idx := AppendCrc(tab, eti, start, idx);
    idx := Put(eti, idx, Put16(b.rfu));
    idx := Put(eti, idx, Put32(b.tsta));
    ghost var frame := eti[..idx];
    assert frame == Frame(b);
    FrameBears(b, Pad(raw, |Frame(b)|));
    if raw && idx < 6144 {
      idx := Put(eti, idx, seq(6144 - idx, _ => 0x55));
    }
    return Some(eti[..idx]);
  }

  /** Whatever the bytes, the walk only finds streams of whole units: STL counts them in eights. */
  lemma {:induction false} WalkIsWhole(f: seq<byte>, stc: nat, msc: nat, n: nat)
    requires stc + 4 * n <= |f|
    ensures WholeUnits(WalkStreams(f, stc, msc, n))
  {
    hide WalkStream, Units;
    if n > 0 {
      WalkIsWhole(f, stc, msc, n - 1);
      StreamIsWhole(f, stc + 4 * (n - 1), msc + 8 * Before(f, stc, n - 1));
      WalkStreamAt(f, stc, msc, n - 1, Before(f, stc, n - 1), stc + 4 * (n - 1), 8 * Before(f, stc, n - 1));
    }
  }

  lemma StreamIsWhole(f: seq<byte>, stc: nat, from: nat)
    requires stc + 4 <= |f|
    ensures |StreamAt(f, stc, from).mst| % 8 == 0 && |StreamAt(f, stc, from).mst| < 8192
  {
    hide Read32;
  }

  /** The data of a raw frame, 6144 bytes when it fits. */
  ghost function Emitted(b: Builder): seq<byte>
    requires InRange(b) && FrameWords(b) < 2048
  {
    Frame(b) + Pad(true, |Frame(b)|)
  }

  /** The header CRC and the CRC of the main stream, which ends at `end`. */
  ghost predicate CrcsRight(f: seq<byte>, nst: nat, end: nat) {
    12 + 4 * nst <= end && end + 2 <= |f| && CheckCrc(f[4..12 + 4 * nst]) && CheckCrc(f[12 + 4 * nst..end + 2])
  }

  /** End to end: whatever builder is accepted, the emitted bytes have two good CRCs, bear count, MNSC, RFU and time
      stamp in their places, and they read back as exactly the builder's content if and only if the FIC flag is set and
      the streams are whole units of eight bytes. */
  lemma EmittedFrameReadsBack(b: Builder)
    requires InRange(b) && Complete(b) && Fits(b)
    ensures FrameWords(b) < 2048 && |Emitted(b)| == 6144
    ensures CrcsRight(Emitted(b), b.nst, End(b)) && Emitted(b)[4] != 0xff
    ensures Bears(Emitted(b), b.nst, End(b), b.dflc % 250, b.mnsc, b.rfu, b.tsta)
    ensures b.ficf && WholeUnits(Used(b))
       <==> Walk(Emitted(b)) == Walked(b.ficf, b.nst, b.fp, b.mid, FrameWords(b), b.fic, Used(b))
  {
    hide Walk, Laid, Frame, CheckCrc, WholeUnits, Fc, Head, Body, Bears;
    FittingLength(b);
    var f, pad := Emitted(b), Pad(true, |Frame(b)|);
    FrameBears(b, pad);
    FrameIsValid(b, pad);
    FrameIsLaid(b, pad);
    FrameParts(b, pad);
    if b.ficf && WholeUnits(Used(b)) { WalkOfFrame(b, f); }
    WalkedWhole(f);
    FicNeedsFlag(b, f);
  }

  lemma WalkedWhole(f: seq<byte>)
    requires |f| >= 1000
    ensures WholeUnits(Walk(f).streams)
  {
    hide WholeUnits, FcMid, FcFp, FcFl, FcFicf;
    WalkIsWhole(f, 8, 8 + 4 * (FcNst(f) + 1 + FicWords(FcFicf(f), FcMid(f))), FcNst(f));
  }

  /** Partial units happen: a multiplex of one stream of one byte is assembled and does not read back. */
  lemma PartialUnitLost() returns (b: Builder)
    ensures InRange(b) && Complete(b) && Fits(b) && b.ficf && FrameWords(b) < 2048
    ensures |Emitted(b)| == 6144 && Walk(Emitted(b)).streams != Used(b)
  {
    var odd := Stream(0, 0, 0, [0]);
    b := Builder(true, true, false, 0, true, 1, 0, 1, 0, 0, 0, 0, false, 0, 0, seq(96, _ => 0), seq(64, _ => odd));
    OneByteFits(b, odd);
    hide Frame, Walk, InRange, Complete, Fits, FrameWords, Emitted;
    EmittedFrameReadsBack(b);
    WalkedWhole(Emitted(b));
    assert |Used(b)[0].mst| == 1;
  }

  lemma OneByteFits(b: Builder, odd: Stream)
    requires b == Builder(true, true, false, 0, true, 1, 0, 1, 0, 0, 0, 0, false, 0, 0, seq(96, _ => 0),
                          seq(64, _ => odd))
    requires odd == Stream(0, 0, 0, [0])
    ensures InRange(b) && Complete(b) && Fits(b)
  {
    assert Used(b) == [odd];
    assert SumBytes([odd]) == SumBytes([odd][..0]) + 1;
  }
}
