/** The imperative collector of pf_parser.c, proved against the abstract collector of module Pft. */
module PftHandler {
  import opened Arith
  import opened Bits
  import opened Crc
  import opened Fec
  import opened Pft

  /** struct afSingleCollector; the buffer holds fcount cells of plen bytes. */
  datatype Collector = Collector(pseqThis: nat, bytes: nat, frags: nat, received: seq<bool>, packets: seq<byte>,
    processed: bool)

  ghost function SumLengths(frags: map<nat, seq<byte>>, n: nat): nat {
    if n == 0 then 0 else SumLengths(frags, n - 1) + if n - 1 in frags then |frags[n - 1]| else 0
  }

  /** A payload sits at the start of its cell. */
  ghost predicate InCell(packets: seq<byte>, s: nat, i: nat, payload: seq<byte>) {
    |payload| <= s && i * s + s <= |packets| && packets[i * s..i * s + |payload|] == payload
  }

  /** The collector's counters, flags and buffer agree with the set of fragments received. */
  ghost predicate Tracks(c: Collector, slot: Slot, f: nat, s: nat) {
    && c.pseqThis == slot.pseq
    && c.frags == |slot.frags|
    && c.bytes == SumLengths(slot.frags, f)
    && |c.received| == f
    && (forall i :: i in slot.frags ==> i < f)
    && (forall i :: 0 <= i < f ==> (c.received[i] <==> i in slot.frags))
    && (forall i :: i in slot.frags ==> InCell(c.packets, s, i, slot.frags[i]))
  }

  /** All fragments but the last have the full length, as section 7.3.2 of TS 102 821 demands. */
  ghost predicate Conforming(frags: map<nat, seq<byte>>, f: nat, s: nat) {
    forall i :: i in frags && i + 1 < f ==> |frags[i]| == s
  }

  ghost predicate FullCells(frags: map<nat, seq<byte>>, s: nat) {
    forall i :: i in frags ==> |frags[i]| == s
  }

  /** The erasure table is large enough for the missing fragments of a slot about to be decoded: their bytes lie in
      chunks that it has rows for. */
  ghost predicate Decodable(h: Header, s: nat, frags: map<nat, seq<byte>>) {
    h.fec ==>
      && h.rsz as nat <= CMax(h, s) * h.rsk
      && LossInside(h.fcount, s, ChunkSize(h), frags.Keys, CMax(h, s), h.fcount)
  }

  /** A slot that holds nothing is decoded exactly when chunks have no data bytes and fill the fragments. That is
      harmless without padding; with padding the size in the C code wraps, and the slot is not Decodable. */
  lemma EmptySlotReadyIff(h: Header, s: nat)
    requires h.fec && h.fcount > 0 && s > 0
    ensures Ready(h, s, map[]) <==> h.rsk == 0 && h.fcount * s % 48 == 0
    ensures Ready(h, s, map[]) ==> (Decodable(h, s, map[]) <==> h.rsz == 0)
  {
    if h.rsk > 0 {
      EmptyNotReady(h, s);
    } else {
      var x, c := h.fcount * s, CMax(h, s);
      DivMod(x, 48);
      if x % 48 == 0 {
        DivModUnique(c * 48, s, h.fcount, 0);
        ExactFit(h.fcount, s, ChunkSize(h), {}, c);
      } else {
        DivBelow(c * 48, s, h.fcount);
      }
    }
  }

  // ----- lemmas about one collector -----

  lemma {:induction false} SumUpdate(frags: map<nat, seq<byte>>, i: nat, payload: seq<byte>, n: nat)
    requires i !in frags
    ensures SumLengths(frags[i := payload], n) == SumLengths(frags, n) + if i < n then |payload| else 0
  {
    if n > 0 { SumUpdate(frags, i, payload, n - 1); }
  }

  lemma {:induction false} SumOfNone(n: nat)
    ensures SumLengths(map[], n) == 0
  {
    if n > 0 { SumOfNone(n - 1); }
  }

  lemma {:induction false} SumBound(frags: map<nat, seq<byte>>, s: nat, n: nat)
    requires forall i :: i in frags ==> |frags[i]| <= s
    ensures SumLengths(frags, n) <= n * s
  {
    if n > 0 {
      SumBound(frags, s, n - 1);
      Predecessor(n, s);
    }
  }

  /** Writing one cell leaves the others alone. */
  lemma OtherCell(packets: seq<byte>, s: nat, i: nat, payload: seq<byte>, j: nat, other: seq<byte>)
    requires i != j && InCell(packets, s, j, other) && |payload| <= s && i * s + s <= |packets|
    ensures InCell(Written(packets, i * s, payload), s, j, other)
  {
    if s > 0 {
      if i < j { MulStrict(i, j, s); } else { MulStrict(j, i, s); }
    }
  }

  /** memcpy to offset at. */
  function Written(packets: seq<byte>, at: nat, payload: seq<byte>): (r: seq<byte>)
    requires at + |payload| <= |packets|
    ensures |r| == |packets|
  {
    packets[..at] + payload + packets[at + |payload|..]
  }

  /** Storing a new fragment keeps the collector in step with the slot. */
  lemma StoreTracks(c: Collector, slot: Slot, f: nat, s: nat, i: nat, payload: seq<byte>)
    requires Tracks(c, slot, f, s) && i < f && i !in slot.frags && |payload| <= s && i * s + s <= |c.packets|
    ensures Tracks(c.(packets := Written(c.packets, i * s, payload), received := c.received[i := true],
                       bytes := c.bytes + |payload|, frags := c.frags + 1),
                   Slot(slot.pseq, slot.frags[i := payload]), f, s)
  {
    SumUpdate(slot.frags, i, payload, f);
    var written := Written(c.packets, i * s, payload);
    assert InCell(written, s, i, payload);
    forall j | j in slot.frags ensures InCell(written, s, j, slot.frags[j]) {
      OtherCell(c.packets, s, i, payload, j, slot.frags[j]);
    }
  }

  /** Without FEC the buffer of a complete, conforming slot starts with the joined payloads. */
  lemma {:induction false} BufferJoins(packets: seq<byte>, frags: map<nat, seq<byte>>, f: nat, s: nat, n: nat)
    requires n <= f && Conforming(frags, f, s) && forall i :: 0 <= i < n ==> i in frags
    requires forall i: nat :: i < n ==> InCell(packets, s, i, frags[i])
    ensures SumLengths(frags, n) <= |packets| && packets[..SumLengths(frags, n)] == Join(frags, n)
    ensures n < f ==> SumLengths(frags, n) == n * s
  {
    hide Join, SumLengths, InCell;
    if n == 0 {
      NothingJoined(packets, frags);
    } else {
      BufferJoins(packets, frags, f, s, n - 1);
      var i: nat := n - 1;
      assert InCell(packets, s, i, frags[i]);
      assert n < f ==> |frags[i]| == s;
      CellFollows(packets, s, i, frags[i], i * s);
      Predecessor(n, s);
      JoinNext(packets, frags, i, i * s);
    }
  }

  lemma NothingJoined(packets: seq<byte>, frags: map<nat, seq<byte>>)
    ensures SumLengths(frags, 0) == 0 && packets[..0] == Join(frags, 0)
  {
  }

  lemma JoinNext(packets: seq<byte>, frags: map<nat, seq<byte>>, i: nat, a: nat)
    requires i in frags && a == SumLengths(frags, i) && a + |frags[i]| <= |packets|
    requires packets[..a] == Join(frags, i) && packets[..a + |frags[i]|] == packets[..a] + frags[i]
    ensures SumLengths(frags, i + 1) == a + |frags[i]| && packets[..a + |frags[i]|] == Join(frags, i + 1)
  {
  }

  lemma CellFollows(packets: seq<byte>, s: nat, i: nat, payload: seq<byte>, a: nat)
    requires InCell(packets, s, i, payload) && a == i * s
    ensures a + |payload| <= |packets| && packets[..a + |payload|] == packets[..a] + payload
  {
    assert packets[..a + |payload|] == packets[..a] + packets[a..a + |payload|];
  }

  /** As many fragments as indices means every index. */
  lemma AllPresent(frags: map<nat, seq<byte>>, f: nat)
    requires |frags| >= f && forall i :: i in frags ==> i < f
    ensures forall i: nat :: i < f ==> i in frags
  {
    MissingCount(frags.Keys, f);
    forall i: nat | i < f ensures i in frags {
      NoneMissing(frags.Keys, f, i);
    }
  }

  // ----- deinterleaving -----

  /** Byte i of the deinterleaved block, read from the collector's buffer. */
  function CellByte(received: seq<bool>, packets: seq<byte>, f: nat, s: nat, i: nat): byte
    requires f > 0 && |received| == f && |packets| == f * s && i < f * s
  {
    CellInside(f, s, i);
    var j, k := FragmentOf(f, i), OffsetIn(f, i);
    if received[j] then packets[j * s + k] else 0
  }

  lemma CellInside(f: nat, s: nat, i: nat)
    requires f > 0 && i < f * s
    ensures FragmentOf(f, i) < f && OffsetIn(f, i) < s
    ensures FragmentOf(f, i) * s + OffsetIn(f, i) < f * s
  {
    DivMod(i, f);
    DivBelow(i, f, s);
    MulStrict(FragmentOf(f, i), f, s);
  }

  /** The bytes of the block that come before byte k of fragment j in column order. */
  ghost predicate Before(f: nat, i: nat, j: nat, k: nat)
    requires f > 0
  {
    FragmentOf(f, i) < j || (FragmentOf(f, i) == j && OffsetIn(f, i) < k)
  }

  lemma NextByte(f: nat, i: nat, j: nat, k: nat)
    requires j < f && Before(f, i, j, k + 1) && !Before(f, i, j, k)
    ensures i == Position(f, j, k)
  {
    DivMod(i, f);
  }

  lemma NotBefore(f: nat, j: nat, k: nat)
    requires j < f
    ensures !Before(f, Position(f, j, k), j, k)
  {
    PositionInverse(f, j, k);
  }

  /** One column: fragment j is copied to every f-th byte, or zero-filled when it is missing. */
  method FillColumn(block: array<byte>, received: seq<bool>, packets: seq<byte>, f: nat, s: nat, j: nat)
    requires f > 0 && |received| == f && |packets| == f * s == block.Length && j < f
    requires forall i :: 0 <= i < f * s && Before(f, i, j, 0) ==> block[i] == CellByte(received, packets, f, s, i)
    modifies block
    ensures forall i :: 0 <= i < f * s && Before(f, i, j + 1, 0) ==> block[i] == CellByte(received, packets, f, s, i)
  {
    var k := 0;
    while k < s
      invariant 0 <= k <= s
      invariant forall i :: 0 <= i < f * s && Before(f, i, j, k) ==> block[i] == CellByte(received, packets, f, s, i)
    {
      PositionBound(f, s, j, k);
      PositionInverse(f, j, k);
      CellInside(f, s, Position(f, j, k));
      NotBefore(f, j, k);
      ghost var was := block[..];
      block[Position(f, j, k)] := if received[j] then packets[j * s + k] else 0;
      forall i | 0 <= i < f * s && Before(f, i, j, k + 1) ensures block[i] == CellByte(received, packets, f, s, i) {
        if !Before(f, i, j, k) { NextByte(f, i, j, k); } else { assert block[i] == was[i]; }
      }
      k := k + 1;
    }
    forall i | 0 <= i < f * s && Before(f, i, j + 1, 0) ensures Before(f, i, j, s) {
      CellInside(f, s, i);
    }
  }

  method Deinterleave(received: seq<bool>, packets: seq<byte>, f: nat, s: nat) returns (block: array<byte>)
    requires f > 0 && |received| == f && |packets| == f * s
    ensures fresh(block) && block.Length == f * s
    ensures forall i :: 0 <= i < f * s ==> block[i] == CellByte(received, packets, f, s, i)
  {
    block := new byte[f * s];
    var j := 0;
    while j < f
      invariant 0 <= j <= f
      invariant forall i :: 0 <= i < f * s && Before(f, i, j, 0) ==> block[i] == CellByte(received, packets, f, s, i)
    {
      FillColumn(block, received, packets, f, s, j);
      j := j + 1;
    }
    forall i | 0 <= i < f * s ensures Before(f, i, f, 0) { CellInside(f, s, i); }
  }

  /** The erasure offsets of one missing fragment go to the rows of their chunks. */
  method MarkColumn(rows: array<seq<nat>>, f: nat, s: nat, n: nat, j: nat, ghost before: seq<seq<nat>>)
    requires n > 0 && j < f && Inside(f, s, j, rows.Length * n)
    requires rows[..] == before
    modifies rows
    ensures forall c :: 0 <= c < rows.Length ==> rows[c] == before[c] + Column(f, n, c, j, s)
  {
    var k := 0;
    while k < s
      invariant 0 <= k <= s
      invariant forall c :: 0 <= c < rows.Length ==> rows[c] == before[c] + Column(f, n, c, j, k)
    {
      var p := Position(f, j, k);
      MulMono(k, s - 1, f);
      DivBelow(p, n, rows.Length);
      var c := p / n;
      rows[c] := rows[c] + [p % n];
      k := k + 1;
    }
  }

  /** The erasure table: one row per chunk. Each row stays within the 256 cells the C code gives it. */
  method MarkErasures(received: seq<bool>, h: Header, s: nat, ghost have: set<nat>) returns (rows: array<seq<nat>>)
    requires h.fec && h.fcount > 0 && h.rsk <= 207 && |received| == h.fcount
    requires forall i :: 0 <= i < h.fcount ==> (received[i] <==> i in have)
    requires LossInside(h.fcount, s, ChunkSize(h), have, CMax(h, s), h.fcount)
    ensures fresh(rows) && rows[..] == Rows(h, s, have)
    ensures forall c :: 0 <= c < rows.Length ==> |rows[c]| < 256
  {
    var f, n := h.fcount, ChunkSize(h);
    rows := new seq<nat>[CMax(h, s)](_ => []);
    var j := 0;
    while j < f
      invariant 0 <= j <= f
      invariant forall c :: 0 <= c < rows.Length ==> rows[c] == Row(f, s, n, have, c, j)
    {
      if !received[j] {
        MarkColumn(rows, f, s, n, j, rows[..]);
      }
      j := j + 1;
    }
    RowsFit(h, s, have);
    hide Row;
  }

  lemma RowsFit(h: Header, s: nat, have: set<nat>)
    requires h.fec && h.fcount > 0 && h.rsk <= 207
    ensures forall c :: 0 <= c < CMax(h, s) ==> |Row(h.fcount, s, ChunkSize(h), have, c, h.fcount)| < 256
  {
    forall c | 0 <= c < CMax(h, s) ensures |Row(h.fcount, s, ChunkSize(h), have, c, h.fcount)| < 256 {
      RowFits(h.fcount, s, ChunkSize(h), have, c, h.fcount);
    }
  }

  lemma BlockAgrees(c: Collector, slot: Slot, f: nat, s: nat, block: seq<byte>)
    requires f > 0 && Tracks(c, slot, f, s) && FullCells(slot.frags, s) && |c.packets| == f * s == |block|
    requires forall i :: 0 <= i < f * s ==> block[i] == CellByte(c.received, c.packets, f, s, i)
    ensures block == Block(f, s, slot.frags)
  {
    hide Tracks, CellByte, BlockByte;
    forall i | 0 <= i < f * s ensures block[i] == BlockByte(f, slot.frags, i) {
      CellAgrees(c, slot, f, s, i);
    }
  }

  lemma CellAgrees(c: Collector, slot: Slot, f: nat, s: nat, i: nat)
    requires f > 0 && Tracks(c, slot, f, s) && FullCells(slot.frags, s) && |c.packets| == f * s && i < f * s
    ensures CellByte(c.received, c.packets, f, s, i) == BlockByte(f, slot.frags, i)
  {
    CellInside(f, s, i);
    var j: nat, k: nat := FragmentOf(f, i), OffsetIn(f, i);
    hide FragmentOf, OffsetIn;
    if j in slot.frags {
      CellAt(c.packets, s, j, slot.frags[j], k);
    }
  }

  lemma CellAt(packets: seq<byte>, s: nat, j: nat, payload: seq<byte>, k: nat)
    requires InCell(packets, s, j, payload) && k < |payload|
    ensures j * s + k < |packets| && packets[j * s + k] == payload[k]
  {
    assert packets[j * s..j * s + |payload|][k] == packets[j * s + k];
  }

  lemma ChunkOfRest(k: nat, block: seq<byte>, b: nat)
    requires k <= 207 && b + k + 48 <= |block|
    ensures ChunkAt(k, block[b..], 0) == ChunkAt(k, block, b)
    ensures block[b..][k + 48..] == block[b + k + 48..]
  {
  }

  lemma DecodedNext(rs: RsDecoder, k: nat, block: seq<byte>, rows: seq<seq<nat>>, af: seq<byte>, b: nat, i: nat)
    requires k <= 207 && b + k + 48 <= |block| && i < |rows|
    ensures af + Decoded(rs, k, block[b..], rows[i..])
         == af + rs(ChunkAt(k, block, b), rows[i])[..k] + Decoded(rs, k, block[b + k + 48..], rows[i + 1..])
  {
    ChunkOfRest(k, block, b);
    assert rows[i..][1..] == rows[i + 1..];
    ConcatAssoc(af, rs(ChunkAt(k, block, b), rows[i])[..k], Decoded(rs, k, block[b + k + 48..], rows[i + 1..]));
  }

  /** Chunk by chunk through the Reed-Solomon decoder; `marked` is the number of erasures handed to it. */
  method DecodeChunks(rs: RsDecoder, k: nat, block: seq<byte>, rows: seq<seq<nat>>)
    returns (af: seq<byte>, marked: nat)
    requires k <= 207 && |rows| * (k + 48) <= |block|
    ensures af == Decoded(rs, k, block, rows)
    ensures marked == TotalLength(rows, |rows|)
  {
    af, marked := [], 0;
    var i, b := 0, 0;
    assert block[0..] == block && rows[0..] == rows;
    while i < |rows|
      invariant 0 <= i <= |rows| && b == i * (k + 48)
      invariant af + Decoded(rs, k, block[b..], rows[i..]) == Decoded(rs, k, block, rows)
      invariant marked == TotalLength(rows, i)
    {
      MulStrict(i, |rows|, k + 48);
      var chunk := rs(ChunkAt(k, block, b), rows[i]);
      DecodedNext(rs, k, block, rows, af, b, i);
      af := af + chunk[..k];
      marked := marked + |rows[i]|;
      Predecessor(i + 1, k + 48);
      i, b := i + 1, b + k + 48;
    }
    assert Decoded(rs, k, block[b..], rows[i..]) == [];
    assert af + [] == af;
  }

  ghost function TotalLength(rows: seq<seq<nat>>, n: nat): nat
    requires n <= |rows|
  {
    if n == 0 then 0 else TotalLength(rows, n - 1) + |rows[n - 1]|
  }

  lemma {:induction false} TotalIsErasures(h: Header, s: nat, have: set<nat>, n: nat)
    requires n <= CMax(h, s)
    ensures TotalLength(Rows(h, s, have), n) == Erasures(h.fcount, s, ChunkSize(h), have, n, h.fcount)
  {
    if n > 0 { TotalIsErasures(h, s, have, n - 1); }
  }

  lemma MarkedIsLoss(h: Header, s: nat, slot: Slot)
    requires h.fec && h.fcount > 0 && Decodable(h, s, slot.frags) && forall i :: i in slot.frags ==> i < h.fcount
    ensures TotalLength(Rows(h, s, slot.frags.Keys), CMax(h, s)) == (h.fcount - |slot.frags|) * s
  {
    var have := slot.frags.Keys;
    TotalIsErasures(h, s, have, CMax(h, s));
    MissingCount(have, h.fcount);
    assert |slot.frags| == |have|;
    ErasuresTotal(h.fcount, s, ChunkSize(h), have, CMax(h, s), h.fcount);
  }

  lemma ChunksFit(h: Header, s: nat)
    requires h.fec
    ensures CMax(h, s) * ChunkSize(h) <= h.fcount * s
  {
    DivMod(h.fcount * s, ChunkSize(h));
  }

  /** malloc and realloc: a buffer of the given size whose contents callers may not rely on. */
  method Allocate(size: nat) returns (buffer: seq<byte>)
    ensures |buffer| == size
  {
    buffer := seq(size, _ => 0);
  }

  const WRAP: nat := 0x1_0000_0000

  /** A collector after (re)initialisation: no fragment marked, a buffer of the new size, counters untouched. */
  ghost predicate Cleared(was: Collector, c: Collector, pseq: nat, f: nat, s: nat) {
    && c.pseqThis == pseq && !c.processed && c.frags == was.frags && c.bytes == was.bytes
    && |c.received| == f && |c.packets| == f * s && forall j :: 0 <= j < f ==> !c.received[j]
  }

  method ResetCollectors(was: seq<Collector>, f: nat, s: nat, pf: Fragment) returns (r: seq<Collector>)
    requires |was| == SLOTS
    ensures |r| == SLOTS && forall i :: 0 <= i < SLOTS ==> Cleared(was[i], r[i], Start(pf)[i].pseq, f, s)
  {
    r := was;
    var i := 0;
    while i < SLOTS
      invariant 0 <= i <= SLOTS == |r|
      invariant forall k :: i <= k < SLOTS ==> r[k] == was[k]
      invariant forall k :: 0 <= k < i ==> Cleared(was[k], r[k], k + 1, f, s)
    {
      var buffer := Allocate(f * s);
      r := r[i := Collector(i + 1, r[i].bytes, r[i].frags, seq(f, _ => false), buffer, false)];
      i := i + 1;
    }
    var k := pf.pseq % SLOTS;
    r := r[k := r[k].(pseqThis := pf.pseq)];
  }

  /** The chunk count and the fragment threshold of a configuration. cmax is the number of whole chunks that fit into
      the fragments; the fragments that may be missing are the most whose bytes do not exceed the check bytes of those
      chunks. */
  method Thresholds(h: Header, s: nat) returns (cmax: nat, rxmin: int)
    requires h.fec ==> s > 0
    ensures cmax == CMax(h, s) && rxmin == RxMin(h, s) && 0 <= rxmin <= h.fcount
    ensures h.fec ==> cmax * ChunkSize(h) <= h.fcount * s < (cmax + 1) * ChunkSize(h)
    ensures h.fec ==> (h.fcount - rxmin) * s <= 48 * cmax < (h.fcount - rxmin + 1) * s
    ensures h.fec && h.rsk > 0 && h.fcount > 0 ==> rxmin > 0
  {
    var n := ChunkSize(h);
    assert n == h.rsk as nat + 48;
    hide ChunkSize;
    if h.fec {
      ThresholdFacts(h.fcount, s, n, (h.fcount * s) / n);
      cmax := (h.fcount * s) / ChunkSize(h);
      var lost := (cmax * 48) / s;
      rxmin := h.fcount - lost;
      assert h.fcount - rxmin == lost;
    } else {
      cmax, rxmin := 0, h.fcount;
    }
  }

  lemma ThresholdFacts(f: nat, s: nat, n: nat, c: nat)
    requires s > 0 && n >= 48 && c == (f * s) / n
    ensures c * n <= f * s < (c + 1) * n
    ensures var lost := (c * 48) / s;
            0 <= lost <= f && lost * s <= 48 * c < (lost + 1) * s && (n > 48 && f > 0 ==> lost < f)
  {
    QuotientRange(f * s, n);
    QuotientRange(c * 48, s);
    CheckBytesBelow(c, n, c * n);
    if f > 0 { MulMono(1, f, s); }
    DivAtMost(c * 48, s, f, f * s);
  }

  lemma QuotientRange(x: nat, p: nat)
    requires p > 0
    ensures 0 <= x / p && (x / p) * p <= x < (x / p + 1) * p
  {
    DivMod(x, p);
  }

  lemma CheckBytesBelow(c: nat, n: nat, coded: nat)
    requires n >= 48 && coded == c * n
    ensures c * 48 <= coded && (n > 48 && c > 0 ==> c * 48 < coded)
  {
    MulMono(48, n, c);
    if n > 48 { MulMono(49, n, c); }
  }

  lemma DivAtMost(x: nat, p: nat, k: nat, product: nat)
    requires p > 0 && product == k * p
    ensures x <= product ==> x / p <= k
    ensures x < product ==> x / p < k
  {
    if x < product { DivBelow(x, p, k); }
    if x == product { DivModUnique(x, p, k, 0); }
  }

  lemma ClearedTracks(was: Collector, c: Collector, pseq: nat, f: nat, s: nat)
    requires Cleared(was, c, pseq, f, s) && was.frags == was.bytes == 0
    ensures Tracks(c, Slot(pseq, map[]), f, s)
  {
    SumOfNone(f);
  }

  /** What decodePFTFrags leaves behind: the size and, if it is accepted, the bytes of the AF packet. */
  ghost predicate DecodedAs(rs: RsDecoder, h: Header, s: nat, frags: map<nat, seq<byte>>,
      size: nat, packet: seq<byte>)
    requires h.fec ==> h.rsk <= 207 && h.fcount > 0
  {
    size == |Rebuilt(rs, h, s, frags)| && Rebuilt(rs, h, s, frags) <= packet
  }

  method RebuildFec(rs: RsDecoder, h: Header, s: nat, c: Collector, ghost slot: Slot)
    returns (packet: seq<byte>, size: nat, marked: nat)
    requires h.fec && h.rsk <= 207 && h.fcount > 0 && s > 0 && Tracks(c, slot, h.fcount, s)
    requires FullCells(slot.frags, s) && Decodable(h, s, slot.frags) && |c.packets| == h.fcount * s
    ensures DecodedAs(rs, h, s, slot.frags, size, packet) && size <= |packet|
    ensures marked == (h.fcount - |slot.frags|) * s
  {
    var block := Deinterleave(c.received, c.packets, h.fcount, s);
    BlockAgrees(c, slot, h.fcount, s, block[..]);
    var rows := MarkErasures(c.received, h, s, slot.frags.Keys);
    ChunksFit(h, s);
    hide Tracks, FullCells, CellByte, Row;
    DecodedLength(rs, h.rsk, block[..], rows[..]);
    packet, marked := DecodeChunks(rs, h.rsk, block[..], rows[..]);
    MarkedIsLoss(h, s, slot);
    size := CMax(h, s) * h.rsk as nat - h.rsz as nat;
  }

  method RebuildPlain(ghost rs: RsDecoder, h: Header, s: nat, c: Collector, ghost slot: Slot)
    returns (packet: seq<byte>, size: nat)
    requires !h.fec && Tracks(c, slot, h.fcount, s) && |slot.frags| >= h.fcount && |c.packets| == h.fcount * s
    ensures packet == c.packets && size == SumLengths(slot.frags, h.fcount) <= |packet|
    ensures Conforming(slot.frags, h.fcount, s) ==> DecodedAs(rs, h, s, slot.frags, size, packet)
  {
    packet, size := c.packets, c.bytes;
    SizeWithin(c, slot, h.fcount, s);
    if Conforming(slot.frags, h.fcount, s) {
      AllPresent(slot.frags, h.fcount);
      BufferJoins(c.packets, slot.frags, h.fcount, s, h.fcount);
    }
  }

  lemma SizeWithin(c: Collector, slot: Slot, f: nat, s: nat)
    requires Tracks(c, slot, f, s)
    ensures c.bytes <= f * s
  {
    forall i | i in slot.frags ensures |slot.frags[i]| <= s {
      assert InCell(c.packets, s, i, slot.frags[i]);
    }
    SumBound(slot.frags, s, f);
  }

  /** The final check: at least 12 bytes, and the CRC if it is flagged. */
  method CheckAf(tab: seq<nat>, packet: seq<byte>, size: nat) returns (ok: bool)
    requires IsTable(16, POLY, tab) && size <= |packet|
    ensures ok == Accepted(packet[..size])
  {
    ok := false;
    if size >= 12 {
      if packet[8] < 128 {
        ok := true;
      } else {
        ok := CheckCrcLoop(tab, packet[..size]);
      }
    }
  }

  /** struct afBuilders with the state that pushPFTFrag and decodePFTFrags share. */
  class AfBuilders {
    var header: Header
    var plen: nat
    var isInitial: bool
    var pktLost: nat
    var errorsCorrected: nat
    var pktCount: nat
    var rxmin: int
    var cmax: nat
    var collectors: seq<Collector>
    var afPacket: seq<byte>
    const rs: RsDecoder
    const crcTab: seq<nat>

    /** What has been collected, as an abstract collector. */
    ghost var state: State

    ghost predicate Shape()
      reads this
    {
      && IsTable(16, POLY, crcTab)
      && |collectors| == SLOTS
      && forall i :: 0 <= i < SLOTS ==> Shaped(collectors[i], header.fcount, plen)
    }

    static ghost predicate Shaped(c: Collector, f: nat, s: nat) {
      !c.processed && |c.received| == f && |c.packets| == f * s
    }

    ghost predicate CountersZero()
      reads this
    {
      forall i :: 0 <= i < |collectors| ==> collectors[i].frags == 0 && collectors[i].bytes == 0
    }

    static ghost predicate Collects(c: Collector, slot: Slot, h: Header, s: nat) {
      Tracks(c, slot, h.fcount, s) && (h.fec ==> FullCells(slot.frags, s))
    }

    ghost predicate Configured()
      reads this
    {
      && header.fcount > 0 && rxmin == RxMin(header, plen) && cmax == CMax(header, plen)
      && (header.fec ==> header.rsk <= 207 && plen > 0)
    }

    ghost predicate Refines(slots: seq<Slot>)
      reads this
    {
      |slots| == SLOTS == |collectors| && forall i :: 0 <= i < SLOTS ==> Collects(collectors[i], slots[i], header, plen)
    }

    ghost predicate Valid()
      reads this
    {
      && Shape()
      && match state
         case Idle => header.fcount == 0 && CountersZero()
         case Running(slots) => Configured() && Refines(slots)
         case Stale => Configured()
    }

    ghost function Stats(): Statistics
      reads `errorsCorrected, `pktLost, `isInitial
    {
      Statistics(errorsCorrected, pktLost, isInitial)
    }

    /** A zeroed handle. */
    constructor (decoder: RsDecoder, tab: seq<nat>)
      requires IsTable(16, POLY, tab)
      ensures Valid() && state == Idle && rs == decoder && pktLost == errorsCorrected == pktCount == 0
    {
      header := Header(0, false, false, 0, 0, 0, 0);
      plen, isInitial, pktLost, errorsCorrected, pktCount, rxmin, cmax := 0, false, 0, 0, 0, 0, 0;
      collectors := seq(SLOTS, _ => Collector(0, 0, 0, [], [], false));
      afPacket := [];
      rs, crcTab := decoder, tab;
      state := Idle;
    }

    /** checkConsistency, section 7.3.2 of TS 102 821. */
    predicate Consistent(pf: Fragment)
      reads this
    {
      pf.header == header && (header.fec ==> plen == |pf.payload|)
    }

    /** A short last fragment cannot configure the collector. */
    static predicate LastOfMany(pf: Fragment) {
      !pf.header.fec && pf.header.fcount > 1 && pf.findex + 1 == pf.header.fcount
    }

    method Initialise(pf: Fragment)
      requires Shape() && pf.findex < pf.header.fcount
      requires pf.header.fec ==> pf.payload != [] && pf.header.rsk <= 207
      modifies this
      ensures Shape() && Configured() && header == pf.header && plen == |pf.payload| && isInitial
      ensures forall i :: 0 <= i < SLOTS ==>
                Cleared(old(collectors)[i], collectors[i], Start(pf)[i].pseq, header.fcount, plen)
      ensures pktLost == old(pktLost) && errorsCorrected == old(errorsCorrected) && pktCount == old(pktCount)
      ensures state == old(state)
    {
      hide CMax, RxMin;
      header, plen, isInitial := pf.header, |pf.payload|, true;
      collectors := ResetCollectors(collectors, header.fcount, plen, pf);
      afPacket := Allocate(header.fcount * plen);
      cmax, rxmin := Thresholds(header, plen);
    }

    /** decodePFTFrags: rebuilds the AF packet of slot k and checks it. The size is what the C code leaves in
        bytesCollected, which its caller reads and then clears. */
    method Decode(k: nat, ghost slot: Slot) returns (ok: bool, size: nat)
      requires k < SLOTS && Shape() && Configured() && Collects(collectors[k], slot, header, plen)
      requires Ready(header, plen, slot.frags) && Decodable(header, plen, slot.frags)
      modifies `afPacket, `errorsCorrected
      ensures errorsCorrected == if header.fec
                then (old(errorsCorrected) + (header.fcount - |slot.frags|) * plen) % WRAP else old(errorsCorrected)
      ensures header.fec || Conforming(slot.frags, header.fcount, plen) ==>
                DecodedAs(rs, header, plen, slot.frags, size, afPacket)
      ensures !header.fec ==>
                afPacket == collectors[k].packets && size == SumLengths(slot.frags, header.fcount)
      ensures size <= |afPacket| && ok == Accepted(afPacket[..size])
    {
      hide Rebuilt, Accepted, Tracks, Ready, Decodable, FullCells, Conforming, DecodedAs, CMax, RxMin, IsTable,
        SumLengths;
      AllThere(header, plen, slot.frags);
      if header.fec {
        var packet, n, marked := RebuildFec(rs, header, plen, collectors[k], slot);
        errorsCorrected := (errorsCorrected + marked) % WRAP;
        afPacket, size := packet, n;
      } else {
        var packet, n := RebuildPlain(rs, header, plen, collectors[k], slot);
        afPacket, size := packet, n;
      }
      ok := CheckAf(crcTab, afPacket, size);
    }

    /** The slot is claimed by another Pseq: decode what it holds if there is enough, and count the losses.
        Returns the size of the AF packet, or zero. */
    method GiveUp(k: nat, ghost slot: Slot) returns (ret: nat)
      requires k < SLOTS && Shape() && Configured() && Collects(collectors[k], slot, header, plen)
      requires Ready(header, plen, slot.frags) ==> Decodable(header, plen, slot.frags)
      modifies `afPacket, `errorsCorrected, `pktLost, `isInitial
      ensures header.fec || Conforming(slot.frags, header.fcount, plen) ==>
                Returned(rs, header, plen, slot.frags, ret, afPacket)
      ensures !header.fec ==> PlainOutcome(header, plen, slot.frags, collectors[k].packets, ret, afPacket)
      ensures Accounted(header, plen, slot.frags, old(Statistics(errorsCorrected, pktLost, isInitial)),
                Statistics(errorsCorrected, pktLost, isInitial))
    {
      hide Tracks, Rebuilt, Accepted, Decodable, Returned;
      ret := 0;
      CountsMatch(collectors[k], slot, header, plen);
      var c := collectors[k];
      if c.frags >= rxmin && (!header.fec || c.frags > rxmin || !c.received[header.fcount - 1]) {
        var ok, size := Decode(k, slot);
        if ok {
          ret := size;
        }
        if header.fec || Conforming(slot.frags, header.fcount, plen) {
          ReturnedAfterDecode(rs, header, plen, slot.frags, size, afPacket, ret);
        }
        pktLost := (pktLost + header.fcount - c.frags) % WRAP;
        isInitial := false;
      } else {
        if !isInitial {
          pktLost := (pktLost + header.fcount) % WRAP;
        }
        ReturnedNothing(rs, header, plen, slot.frags, afPacket);
      }
    }

    /** The branch of an inconsistent fragment: set up all collectors, then keep the fragment. */
    method Configure(pf: Fragment)
      requires Valid() && pf.findex < pf.header.fcount
      requires pf.header.fec ==> pf.payload != [] && pf.header.rsk <= 207
      modifies this
      ensures Valid() && header == pf.header && plen == |pf.payload| && isInitial
      ensures pktLost == old(pktLost) && errorsCorrected == old(errorsCorrected) && pktCount == old(pktCount)
      ensures state == if old(CountersZero()) then Running(Push(Start(pf), pf)) else Stale
    {
      ghost var zero := CountersZero();
      ghost var was := collectors;
      Initialise(pf);
      var k := pf.pseq % SLOTS;
      ghost var reset := collectors;
      collectors := collectors[k := Kept(collectors[k], pf, plen)];
      if zero {
        state := Running(Push(Start(pf), pf));
        forall i | 0 <= i < SLOTS ensures Collects(collectors[i], state.slots[i], header, plen) {
          ClearedTracks(was[i], reset[i], Start(pf)[i].pseq, header.fcount, plen);
          if i == k { StoredCollects(reset[k], Start(pf)[k], pf, header, plen); }
        }
      } else {
        state := Stale;
      }
    }

    /** The branch of a consistent fragment: give up the slot if another Pseq holds it, then keep the fragment. */
    method Collect(pf: Fragment) returns (ret: nat)
      requires Valid() && state.Running? && Consistent(pf) && pf.findex < header.fcount && |pf.payload| <= plen
      requires Evicts(state.slots, pf) ==>
                 var frags := state.slots[pf.pseq % SLOTS].frags;
                 Ready(header, plen, frags) ==> Decodable(header, plen, frags)
      modifies `afPacket, `errorsCorrected, `collectors, `pktLost, `isInitial, `state
      ensures Valid() && state == Running(Push(old(state).slots, pf))
      ensures var was := Statistics(old(errorsCorrected), old(pktLost), old(isInitial));
              var now := Statistics(errorsCorrected, pktLost, isInitial);
              if !Evicts(old(state).slots, pf) then ret == 0 && now == was
              else
                var frags := old(state).slots[pf.pseq % SLOTS].frags;
                && Accounted(header, plen, frags, was, now)
                && (header.fec || Conforming(frags, header.fcount, plen) ==>
                      Returned(rs, header, plen, frags, ret, afPacket))
                && (!header.fec ==>
                      PlainOutcome(header, plen, frags, old(collectors)[pf.pseq % SLOTS].packets, ret, afPacket))
    {
      hide PlainOutcome, Tracks, Rebuilt, Accepted, Decodable, Returned, Accounted, Ready, Conforming;
      ret := 0;
      var k := pf.pseq % SLOTS;
      ghost var slots := state.slots;
      ghost var slot := slots[k];
      SamePseq(collectors[k], slot, header, plen);
      if pf.pseq != collectors[k].pseqThis {
        ret := GiveUp(k, slot);
        EmptyTracks(pf.pseq, collectors[k].packets, header.fcount, plen);
        collectors := collectors[k := Collector(
          pf.pseq, 0, 0, seq(header.fcount, _ => false), collectors[k].packets, false)];
        slot := Slot(pf.pseq, map[]);
      }
      StoredCollects(collectors[k], slot, pf, header, plen);
      collectors := collectors[k := Kept(collectors[k], pf, plen)];
      state := Running(Push(slots, pf));
      assert state.slots == slots[k := WithFragment(slot, pf)];
    }

    /** pushPFTFrag. A consistent fragment is one step of the abstract collector; when it evicts a slot, the
        return value and afPacket are that slot's AF packet. An inconsistent one starts a new configuration,
        unless it is the last of several. After a new configuration with counters that are not zero (Stale), consistent
        fragments are left out: the C code then decodes buffers that need not hold any of the fragments counted. */
    method PushFragment(pf: Fragment) returns (ret: nat)
      requires Valid() && pf.findex < pf.header.fcount
      requires pf.header.fec ==> pf.payload != [] && pf.header.rsk <= 207
      requires Consistent(pf) ==> !state.Stale? && |pf.payload| <= plen
      requires Consistent(pf) && state.Running? && Evicts(state.slots, pf) ==>
                 var frags := state.slots[pf.pseq % SLOTS].frags;
                 Ready(header, plen, frags) ==> Decodable(header, plen, frags)
      modifies this
      ensures Valid()
      ensures old(!Consistent(pf)) && LastOfMany(pf) ==>
                ret == 0 && state == old(state) && header == old(header) && plen == old(plen)
                && pktCount == old(pktCount) && Stats() == old(Stats())
      ensures old(!Consistent(pf)) && !LastOfMany(pf) ==>
                && pktCount == (old(pktCount) + 1) % WRAP && isInitial
                && pktLost == old(pktLost) && errorsCorrected == old(errorsCorrected)
                && ret == 0 && header == pf.header && plen == |pf.payload|
                && state == if old(CountersZero()) then Running(Push(Start(pf), pf)) else Stale
      ensures old(Consistent(pf)) ==>
                && old(state).Running? && header == old(header) && plen == old(plen)
                && state == Running(Push(old(state).slots, pf))
                && pktCount == (old(pktCount) + 1) % WRAP
                && var was := Statistics(old(errorsCorrected), old(pktLost), old(isInitial));
                   var now := Statistics(errorsCorrected, pktLost, isInitial);
                   if !Evicts(old(state).slots, pf) then ret == 0 && now == was
                   else
                     var frags := old(state).slots[pf.pseq % SLOTS].frags;
                     && Accounted(header, plen, frags, was, now)
                     && (header.fec || Conforming(frags, header.fcount, plen) ==>
                           Returned(rs, header, plen, frags, ret, afPacket))
                     && (!header.fec ==>
                           PlainOutcome(header, plen, frags, old(collectors)[pf.pseq % SLOTS].packets, ret, afPacket))
    {
      hide PlainOutcome, Accounted, Returned, Ready, Decodable, Conforming, Push, Start, Tracks;
      ret := 0;
      var k := pf.pseq % SLOTS;
      if !Consistent(pf) {
        if LastOfMany(pf) {
          return;
        }
        Configure(pf);
      } else {
        ret := Collect(pf);
      }
      pktCount := (pktCount + 1) % WRAP;
    }

    lemma IdleIffZeroed()
      requires Valid()
      ensures state.Idle? <==> header.fcount == 0
    {
    }

    /** The run so far, from a zeroed handle. */
    ghost predicate Collected(pfs: seq<Fragment>)
      reads this
    {
      if pfs == [] then state.Idle?
      else state == Running(After(Start(pfs[0]), pfs)) && header == pfs[0].header && plen == |pfs[0].payload|
    }

    /** The next fragment of a run: a packet is returned exactly when the abstract collector hands one out, and it is
        that packet. */
    method PushOne(pf: Fragment, ghost pfs: seq<Fragment>, ghost i: nat) returns (ret: nat)
      requires Valid() && i < |pfs| && RunFits(pfs) && pf == pfs[i] && Collected(pfs[..i])
      modifies this
      ensures Valid() && Collected(pfs[..i + 1]) && ret <= |afPacket|
      ensures Reached(rs, pfs, i + 1) == Reached(rs, pfs, i) + if ret > 0 then [afPacket[..ret]] else []
      ensures i == 0 ==> Stats() == old(Stats()).(initial := true)
      ensures i > 0 ==>
                old(state).Running? && AccountedStep(header, plen, old(state).slots, pf, old(Stats()), Stats())
      ensures pktCount == (old(pktCount) + 1) % WRAP
    {
      hide Valid, Delivered, After, Orderly, RunFits, Packets, AccountedStep, Start, Push, Regular, Conforming, Ready,
        Decodable, Returned;
      IdleIffZeroed();
      assert if i == 0 then pfs[..i] == [] else pfs[..i][0] == pfs[0];
      RunFacts(pfs);
      if header.fcount == 0 {
        AfterFirst(rs, pfs[0].header, |pfs[0].payload|, pfs);
        ret := FirstPush(pf, pfs);
      } else {
        NextFits(pfs, i);
        ret := PushNext(pf);
        NextDelivery(rs, pfs[0].header, |pfs[0].payload|, Start(pfs[0]), pfs, i, ret, afPacket);
      }
    }

    /** A whole run from a zeroed handle: the packets returned, one after the other, are exactly those that the abstract
        collector hands out. `st` records the statistics on the way. */
    method PushAll(pfs: seq<Fragment>) returns (got: seq<seq<byte>>, ghost st: seq<Statistics>)
      requires Valid() && state.Idle? && pfs != [] && RunFits(pfs)
      modifies this
      ensures Valid() && state == Running(After(Start(pfs[0]), pfs))
      ensures got == Packets(Delivered(rs, pfs[0].header, |pfs[0].payload|, Start(pfs[0]), pfs))
      ensures |st| == |pfs| + 1 && Record(pfs[0].header, |pfs[0].payload|, Start(pfs[0]), pfs, st)
      ensures st[0] == old(Stats()).(initial := true) && Stats() == st[|pfs|]
    {
      hide Valid, RunFits, Delivered, Packets, After, Start, AccountedStep, Record;
      got := [];
      var i := 0;
      ghost var h, s := pfs[0].header, |pfs[0].payload|;
      st := [Stats().(initial := true)];
      NothingRecorded(h, s, pfs, st);
      while i < |pfs|
        invariant 0 <= i <= |pfs| && Valid() && Collected(pfs[..i]) && got == Reached(rs, pfs, i)
        invariant |st| == i + 1 && Record(h, s, Start(pfs[0]), pfs[..i], st)
        invariant st[0] == old(Stats()).(initial := true)
        invariant if i == 0 then Stats() == old(Stats()) else Stats() == st[i]
      {
        ghost var was := st;
        FirstStays(h, s, pfs, i, st[0]);
        assert if i == 0 then pfs[..i] == [] else pfs[..i][0] == pfs[0];
        var ret := PushOne(pfs[i], pfs, i);
        assert pfs[..i + 1][0] == pfs[0];
        if ret > 0 {
          got := got + [afPacket[..ret]];
        }
        st := st + [Stats()];
        RecordMore(h, s, pfs, i, was, Stats());
        i := i + 1;
      }
      assert pfs[..i] == pfs;
    }

    /** The same when the receiver comes in at the end of packets: last fragments of several, which do not show the
        length of the others, are passed over, and the run begins with what follows them. */
    method TuneIn(tails: seq<Fragment>, pfs: seq<Fragment>) returns (got: seq<seq<byte>>, ghost st: seq<Statistics>)
      requires Valid() && state.Idle? && pfs != [] && RunFits(pfs)
      requires forall i :: 0 <= i < |tails| ==> tails[i].findex < tails[i].header.fcount && !ShowsLength(tails[i])
      modifies this
      ensures Valid() && state == Running(After(Start(pfs[0]), pfs))
      ensures got == Packets(Delivered(rs, pfs[0].header, |pfs[0].payload|, Start(pfs[0]), pfs))
      ensures |st| == |pfs| + 1 && Record(pfs[0].header, |pfs[0].payload|, Start(pfs[0]), pfs, st)
      ensures st[0] == old(Stats()).(initial := true) && Stats() == st[|pfs|]
    {
      hide RunFits, Delivered, Packets, After, Start, Record;
      var i := 0;
      while i < |tails|
        invariant 0 <= i <= |tails| && Valid() && state.Idle? && Stats() == old(Stats())
      {
        var ret := PushFragment(tails[i]);
        i := i + 1;
      }
      got, st := PushAll(pfs);
    }

    method PushNext(pf: Fragment) returns (ret: nat)
      requires Valid() && state.Running? && Regular(pf, header, plen)
      requires var slot := state.slots[pf.pseq % SLOTS];
               && Conforming(slot.frags, header.fcount, plen)
               && (slot.pseq != pf.pseq && Ready(header, plen, slot.frags) ==> Decodable(header, plen, slot.frags))
      modifies this
      ensures Valid() && state == Running(Push(old(state).slots, pf)) && header == old(header) && plen == old(plen)
      ensures ret <= |afPacket|
      ensures if !Evicts(old(state).slots, pf) then ret == 0
              else Returned(rs, header, plen, old(state).slots[pf.pseq % SLOTS].frags, ret, afPacket)
      ensures AccountedStep(header, plen, old(state).slots, pf, old(Stats()), Stats())
      ensures pktCount == (old(pktCount) + 1) % WRAP
    {
      hide Refines, Shape, Accounted, PlainOutcome, Ready, Decodable, Conforming, Push, Result;
      ret := PushFragment(pf);
    }

    method FirstPush(first: Fragment, ghost pfs: seq<Fragment>) returns (ret: nat)
      requires Valid() && state.Idle? && pfs != [] && first == pfs[0] && RunFits(pfs)
      modifies this
      ensures Valid() && state == Running(Push(Start(first), first)) && ret == 0
      ensures header == first.header && plen == |first.payload|
      ensures Stats() == old(Stats()).(initial := true) && pktCount == (old(pktCount) + 1) % WRAP
    {
      assert Regular(first, first.header, |first.payload|);
      hide Orderly;
      ret := PushFragment(first);
    }
  }

  /** A fragment from which the length of all others can be read: with FEC any, without it any but the last of
      several. */
  ghost predicate ShowsLength(pf: Fragment) {
    pf.header.fec || pf.header.fcount == 1 || pf.findex + 1 < pf.header.fcount
  }

  /** Fragments as section 7.3.2 of TS 102 821 wants them: one header, and one length s for all but the last fragment
      of a packet, with FEC for that too. */
  ghost predicate Regular(e: Fragment, h: Header, s: nat) {
    && e.header == h && e.findex < h.fcount && |e.payload| <= s
    && (h.fec || e.findex + 1 < h.fcount ==> |e.payload| == s)
  }

  ghost predicate AllRegular(pfs: seq<Fragment>, h: Header, s: nat) {
    forall i :: 0 <= i < |pfs| ==> Regular(pfs[i], h, s)
  }

  lemma RegularAt(pfs: seq<Fragment>, h: Header, s: nat, i: nat)
    requires AllRegular(pfs, h, s) && i < |pfs|
    ensures Regular(pfs[i], h, s)
  {
  }

  /** Whenever a slot is about to be decoded, the erasure table is large enough. */
  ghost predicate Orderly(h: Header, s: nat, slots: seq<Slot>, pfs: seq<Fragment>)
    requires |slots| == SLOTS
  {
    forall i :: 0 <= i < |pfs| ==>
      var slot := After(slots, pfs[..i])[pfs[i].pseq % SLOTS];
      slot.pseq != pfs[i].pseq && Ready(h, s, slot.frags) ==> Decodable(h, s, slot.frags)
  }

  /** A run that may start on a zeroed handle. */
  ghost predicate RunFits(pfs: seq<Fragment>)
    requires pfs != []
  {
    var first, h, s := pfs[0], pfs[0].header, |pfs[0].payload|;
    && AllRegular(pfs, h, s) && ShowsLength(first) && (h.fec ==> s > 0 && h.rsk <= 207)
    && Orderly(h, s, Start(first), pfs)
  }

  lemma RunFacts(pfs: seq<Fragment>)
    requires pfs != [] && RunFits(pfs)
    ensures var first, h, s := pfs[0], pfs[0].header, |pfs[0].payload|;
            && AllRegular(pfs, h, s) && Orderly(h, s, Start(first), pfs) && h.fcount > 0
            && (h.fec ==> h.rsk <= 207 && s > 0)
  {
    hide Orderly;
    assert Regular(pfs[0], pfs[0].header, |pfs[0].payload|);
  }

  /** Without FEC every run of regular fragments will do. */
  lemma PlainRunFits(pfs: seq<Fragment>)
    requires pfs != [] && AllRegular(pfs, pfs[0].header, |pfs[0].payload|)
    requires !pfs[0].header.fec && ShowsLength(pfs[0])
    ensures RunFits(pfs)
  {
    hide Ready;
  }

  /** With FEC every run of regular fragments will do, whatever is lost, if the fragments hold exactly the chunks. */
  lemma CodedRunFits(pfs: seq<Fragment>)
    requires pfs != [] && AllRegular(pfs, pfs[0].header, |pfs[0].payload|)
    requires var h, s := pfs[0].header, |pfs[0].payload|;
             && h.fec && s > 0 && h.rsk <= 207 && h.fcount * s == CMax(h, s) * ChunkSize(h)
             && h.rsz as nat <= CMax(h, s) * h.rsk
    ensures RunFits(pfs)
  {
    var h, s := pfs[0].header, |pfs[0].payload|;
    hide Ready, CMax, ChunkSize, LossInside, After;
    forall i | 0 <= i < |pfs|
      ensures Decodable(h, s, After(Start(pfs[0]), pfs[..i])[pfs[i].pseq % SLOTS].frags)
    {
      ExactFit(h.fcount, s, ChunkSize(h), After(Start(pfs[0]), pfs[..i])[pfs[i].pseq % SLOTS].frags.Keys, CMax(h, s));
    }
  }

  /** A packet that is coded as CodedAs says, sent in order and claimed by a fragment of the same length, is such a run,
      also where the fragments are longer than the chunks. */
  lemma CodedSendingFits(af: seq<byte>, chunks: seq<seq<byte>>, parity: Parity, p: nat, h: Header, s: nat,
      q: Fragment)
    requires CodedAs(af, chunks, h, s) && Accepted(af)
    requires q.pseq != p && q.pseq % SLOTS == p % SLOTS && Regular(q, h, s)
    ensures var pfs := InOrder(p, h, Spreads(h.fcount, s, Encoded(parity, chunks))) + [q];
            pfs[0].header == h && |pfs[0].payload| == s && RunFits(pfs)
  {
    var parts := Spreads(h.fcount, s, Encoded(parity, chunks));
    CodedBounds(af, chunks, h, s);
    PaddingBound(af, chunks, parity, h, s);
    hide CodedAs, Accepted, CMax, Spreads, Encoded, RunFits;
    forall i | 0 <= i < h.fcount ensures |parts[i]| == s { SpreadLength(h.fcount, s, Encoded(parity, chunks), i); }
    CompleteRunFits(p, h, s, parts, q);
  }

  lemma CompleteRunFits(p: nat, h: Header, s: nat, parts: seq<seq<byte>>, q: Fragment)
    requires h.fec && h.fcount > 0 && h.rsk <= 207 && s > 0 && |parts| == h.fcount
    requires q.pseq != p && q.pseq % SLOTS == p % SLOTS && Regular(q, h, s)
    requires h.rsz as nat <= CMax(h, s) * h.rsk && forall i :: 0 <= i < h.fcount ==> |parts[i]| == s
    ensures RunFits(InOrder(p, h, parts) + [q])
  {
    var pfs := InOrder(p, h, parts) + [q];
    hide Ready, Decodable, CMax, Start, After;
    forall i | 0 <= i < |pfs|
      ensures var slot := After(Start(pfs[0]), pfs[..i])[pfs[i].pseq % SLOTS];
              slot.pseq != pfs[i].pseq ==> Decodable(h, s, slot.frags)
    {
      assert pfs[..i] == InOrder(p, h, parts)[..i];
      InOrderSlot(p, h, s, parts, i);
    }
  }

  lemma SpreadLength(f: nat, s: nat, packet: seq<byte>, i: nat)
    requires i < f
    ensures |Spreads(f, s, packet)[i]| == s
  {
  }

  lemma PaddingBound(af: seq<byte>, chunks: seq<seq<byte>>, parity: Parity, h: Header, s: nat)
    requires CodedAs(af, chunks, h, s)
    ensures h.rsz as nat <= CMax(h, s) * h.rsk
  {
    hide AllOfLength, Encoded, CMax, Flatten;
    Geometry(parity, h, s, chunks);
    EncodedLength(parity, chunks, h.rsk);
  }

  /** After i fragments in order the slot is still p's, and after all of them it lacks nothing. */
  lemma InOrderSlot(p: nat, h: Header, s: nat, parts: seq<seq<byte>>, i: nat)
    requires h.fec && h.fcount > 0 && h.rsk <= 207 && |parts| == h.fcount && i <= h.fcount
    requires h.rsz as nat <= CMax(h, s) * h.rsk
    ensures var slot := After(Start(InOrder(p, h, parts)[0]), InOrder(p, h, parts)[..i])[p % SLOTS];
            slot.pseq == p && (i == h.fcount ==> Decodable(h, s, slot.frags))
  {
    var pfs := InOrder(p, h, parts);
    var slots, rs := Start(pfs[0]), NoDecoder();
    StartIsClear(p, pfs[0]);
    hide CMax, Start;
    Collecting(p, parts, rs, h, s, slots, pfs[..i]);
    if i == h.fcount {
      assert pfs[..i] == pfs;
      InOrderComplete(p, h, parts);
      assert 0 in Indices(p, pfs);
    }
  }

  ghost function Packets(ds: seq<Delivery>): seq<seq<byte>> {
    if ds == [] then [] else Packets(ds[..|ds| - 1]) + [ds[|ds| - 1].af]
  }

  /** The packets that the first n fragments of a run make the collector hand out. */
  ghost function Reached(rs: RsDecoder, pfs: seq<Fragment>, n: nat): seq<seq<byte>>
    requires n <= |pfs| && pfs != [] && RunFits(pfs)
  {
    RunFacts(pfs);
    if n == 0 then []
    else Packets(Delivered(rs, pfs[0].header, |pfs[0].payload|, Start(pfs[0]), pfs[..n]))
  }

  /** The packet, if any, that fragment n of a run makes the collector hand out. */
  ghost function NewPacket(rs: RsDecoder, pfs: seq<Fragment>, n: nat): (r: seq<seq<byte>>)
    requires n < |pfs| && RunFits(pfs)
    ensures |r| <= 1
  {
    RunFacts(pfs);
    var h, s := pfs[0].header, |pfs[0].payload|;
    var slot := After(Start(pfs[0]), pfs[..n])[pfs[n].pseq % SLOTS];
    if slot.pseq != pfs[n].pseq && Result(rs, h, s, slot.frags).Some? then [Result(rs, h, s, slot.frags).value] else []
  }

  lemma ReachedGrows(rs: RsDecoder, pfs: seq<Fragment>, n: nat)
    requires n < |pfs| && RunFits(pfs)
    ensures Reached(rs, pfs, n + 1) == Reached(rs, pfs, n) + NewPacket(rs, pfs, n)
  {
    RunFacts(pfs);
    hide RunFits, Result, AllRegular, Orderly, After, Start;
    var h, s, slots := pfs[0].header, |pfs[0].payload|, Start(pfs[0]);
    assert pfs[..n + 1][..n] == pfs[..n] && pfs[..n + 1][n] == pfs[n];
    var before := Delivered(rs, h, s, slots, pfs[..n]);
    var slot := After(slots, pfs[..n])[pfs[n].pseq % SLOTS];
    var more := if slot.pseq != pfs[n].pseq && Result(rs, h, s, slot.frags).Some?
                then [Delivery(slot.pseq, Result(rs, h, s, slot.frags).value)] else [];
    assert Delivered(rs, h, s, slots, pfs[..n + 1]) == before + more;
    PacketsMore(before, more);
    if n == 0 { assert before == []; }
  }

  lemma PacketsMore(ds: seq<Delivery>, more: seq<Delivery>)
    requires |more| <= 1
    ensures Packets(ds + more) == Packets(ds) + if more == [] then [] else [more[0].af]
  {
    if more == [] {
      assert ds + more == ds;
    } else {
      assert (ds + more)[..|ds|] == ds;
    }
  }

  lemma AfterFirst(rs: RsDecoder, h: Header, s: nat, pfs: seq<Fragment>)
    requires pfs != [] && (h.fec ==> h.rsk <= 207 && h.fcount > 0)
    ensures After(Start(pfs[0]), pfs[..1]) == Push(Start(pfs[0]), pfs[0])
    ensures Packets(Delivered(rs, h, s, Start(pfs[0]), pfs[..1])) == []
  {
    assert pfs[..1][..0] == [] && pfs[..1][0] == pfs[0];
    assert Delivered(rs, h, s, Start(pfs[0]), pfs[..1]) == [];
  }

  /** What the collector needs of the next fragment of a run. */
  lemma NextFits(pfs: seq<Fragment>, i: nat)
    requires i < |pfs| && RunFits(pfs)
    ensures var h, s, slot := pfs[0].header, |pfs[0].payload|, After(Start(pfs[0]), pfs[..i])[pfs[i].pseq % SLOTS];
            && Regular(pfs[i], h, s) && Conforming(slot.frags, h.fcount, s)
            && (slot.pseq != pfs[i].pseq && Ready(h, s, slot.frags) ==> Decodable(h, s, slot.frags))
  {
    hide Orderly, After, Ready, Decodable, Conforming, AllRegular, Regular, RunFits, Start;
    var h, s := pfs[0].header, |pfs[0].payload|;
    RunFacts(pfs);
    RegularAt(pfs, h, s, i);
    OrderlyAt(h, s, Start(pfs[0]), pfs, i);
    SlotConforms(h, s, pfs[0], pfs, i, pfs[i].pseq % SLOTS);
  }

  lemma OrderlyAt(h: Header, s: nat, slots: seq<Slot>, pfs: seq<Fragment>, i: nat)
    requires |slots| == SLOTS && Orderly(h, s, slots, pfs) && i < |pfs|
    ensures var slot := After(slots, pfs[..i])[pfs[i].pseq % SLOTS];
            slot.pseq != pfs[i].pseq && Ready(h, s, slot.frags) ==> Decodable(h, s, slot.frags)
  {
    hide Ready, Decodable;
  }

  /** Regular fragments make conforming slots. */
  lemma {:induction false} SlotConforms(h: Header, s: nat, first: Fragment, pfs: seq<Fragment>, n: nat, k: nat)
    requires AllRegular(pfs, h, s) && n <= |pfs| && k < SLOTS
    ensures Conforming(After(Start(first), pfs[..n])[k].frags, h.fcount, s)
  {
    if n > 0 {
      assert pfs[..n][..n - 1] == pfs[..n - 1] && Regular(pfs[n - 1], h, s);
      SlotConforms(h, s, first, pfs, n - 1, k);
    }
  }

  lemma NextDelivery(rs: RsDecoder, h: Header, s: nat, slots: seq<Slot>, pfs: seq<Fragment>, i: nat, ret: nat,
      packet: seq<byte>)
    requires |slots| == SLOTS && i < |pfs| && (h.fec ==> h.rsk <= 207 && h.fcount > 0)
    requires var now := After(slots, pfs[..i]);
             if !Evicts(now, pfs[i]) then ret == 0
             else Returned(rs, h, s, now[pfs[i].pseq % SLOTS].frags, ret, packet)
    ensures After(slots, pfs[..i + 1]) == Push(After(slots, pfs[..i]), pfs[i])
    ensures ret <= |packet| || ret == 0
    ensures Packets(Delivered(rs, h, s, slots, pfs[..i + 1]))
         == Packets(Delivered(rs, h, s, slots, pfs[..i])) + if ret > 0 then [packet[..ret]] else []
  {
    hide Rebuilt, Ready;
    assert pfs[..i + 1][..i] == pfs[..i];
    var before, all := Delivered(rs, h, s, slots, pfs[..i]), Delivered(rs, h, s, slots, pfs[..i + 1]);
    var slot := After(slots, pfs[..i])[pfs[i].pseq % SLOTS];
    if Evicts(After(slots, pfs[..i]), pfs[i]) && Result(rs, h, s, slot.frags).Some? {
      var af := Result(rs, h, s, slot.frags).value;
      assert all == before + [Delivery(slot.pseq, af)];
      assert all[..|all| - 1] == before && packet[..ret] == af && ret >= 12;
    } else {
      assert all == before;
    }
  }

  /** The pieces of a packet cut without FEC are regular: all but the last are full. */
  lemma PiecesConform(af: seq<byte>, s: nat, f: nat)
    requires f > 0 && (f - 1) * s <= |af|
    ensures Conforming(FullMap(Pieces(af, s, f)), f, s)
    ensures forall i :: 0 <= i < f ==> |Pieces(af, s, f)[i]| <= s
  {
    forall i: nat | i + 1 < f ensures |Piece(af, s, i)| == s {
      MulMono(i + 1, f - 1, s);
      Predecessor(i + 1, s);
    }
  }

  datatype Statistics = Statistics(errors: nat, lost: nat, initial: bool)

  /** What the caller gets for a slot that is given up. */
  ghost predicate Returned(rs: RsDecoder, h: Header, s: nat, frags: map<nat, seq<byte>>, ret: nat, packet: seq<byte>)
    requires h.fec ==> h.rsk <= 207 && h.fcount > 0
  {
    match Result(rs, h, s, frags)
    case None => ret == 0
    case Some(af) => ret == |af| && af <= packet
  }

  /** Without FEC and with all fragments there, the collector's buffer is handed over at the length of the payloads
      together, also when they leave gaps in it. */
  ghost predicate PlainOutcome(h: Header, s: nat, frags: map<nat, seq<byte>>, buffer: seq<byte>, ret: nat,
      packet: seq<byte>)
  {
    if !Ready(h, s, frags) then ret == 0
    else
      var n := SumLengths(frags, h.fcount);
      packet == buffer && n <= |buffer| && ret == if Accepted(buffer[..n]) then n else 0
  }

  lemma AllThere(h: Header, s: nat, frags: map<nat, seq<byte>>)
    requires Ready(h, s, frags)
    ensures !h.fec ==> |frags| >= h.fcount
  {
  }

  lemma ReturnedAfterDecode(rs: RsDecoder, h: Header, s: nat, frags: map<nat, seq<byte>>, size: nat,
      packet: seq<byte>, ret: nat)
    requires h.fec ==> h.rsk <= 207 && h.fcount > 0
    requires Ready(h, s, frags) && DecodedAs(rs, h, s, frags, size, packet) && size <= |packet|
    requires ret == if Accepted(packet[..size]) then size else 0
    ensures Returned(rs, h, s, frags, ret, packet)
  {
    assert packet[..size] == Rebuilt(rs, h, s, frags);
  }

  lemma ReturnedNothing(rs: RsDecoder, h: Header, s: nat, frags: map<nat, seq<byte>>, packet: seq<byte>)
    requires h.fec ==> h.rsk <= 207 && h.fcount > 0
    requires !Ready(h, s, frags)
    ensures Returned(rs, h, s, frags, 0, packet)
  {
  }

  /** Loss statistics: a decoded slot counts its missing fragments, one given up counts all of them unless
      nothing was ever decoded; FEC adds one erasure per byte of every missing fragment. */
  ghost predicate Accounted(h: Header, s: nat, frags: map<nat, seq<byte>>, was: Statistics, now: Statistics) {
    var ready := Ready(h, s, frags);
    && now.errors == (if ready && h.fec then (was.errors + (h.fcount - |frags|) * s) % WRAP else was.errors)
    && now.lost == (if ready then (was.lost + h.fcount - |frags|) % WRAP
                    else if was.initial then was.lost else (was.lost + h.fcount) % WRAP)
    && now.initial == (was.initial && !ready)
  }

  /** One fragment either leaves the statistics alone or gives up the slot that it claims. */
  ghost predicate AccountedStep(h: Header, s: nat, slots: seq<Slot>, pf: Fragment, was: Statistics, now: Statistics)
    requires |slots| == SLOTS
  {
    if Evicts(slots, pf) then Accounted(h, s, slots[pf.pseq % SLOTS].frags, was, now) else now == was
  }

  /** The statistics st[0], st[1], ... before every fragment of a run and after the last one. */
  ghost predicate Record(h: Header, s: nat, slots: seq<Slot>, pfs: seq<Fragment>, st: seq<Statistics>)
    requires |slots| == SLOTS
  {
    && |st| == |pfs| + 1
    && forall i :: 0 <= i < |pfs| ==> AccountedStep(h, s, After(slots, pfs[..i]), pfs[i], st[i], st[i + 1])
  }

  lemma NothingRecorded(h: Header, s: nat, pfs: seq<Fragment>, st: seq<Statistics>)
    requires pfs != [] && |st| == 1
    ensures pfs[..0] == [] && Record(h, s, Start(pfs[0]), pfs[..0], st)
  {
  }

  /** The configuring fragment gives up nothing. */
  lemma FirstStays(h: Header, s: nat, pfs: seq<Fragment>, i: nat, x: Statistics)
    requires i < |pfs|
    ensures i == 0 ==> AccountedStep(h, s, After(Start(pfs[0]), pfs[..0]), pfs[0], x, x)
  {
    hide Accounted;
    assert pfs[..0] == [];
  }

  lemma RecordMore(h: Header, s: nat, pfs: seq<Fragment>, i: nat, st: seq<Statistics>, next: Statistics)
    requires i < |pfs| && |st| == i + 1 && Record(h, s, Start(pfs[0]), pfs[..i], st)
    requires AccountedStep(h, s, After(Start(pfs[0]), pfs[..i]), pfs[i], st[i], next)
    ensures Record(h, s, Start(pfs[0]), pfs[..i + 1], st + [next])
  {
    hide AccountedStep, After;
    var more, all := st + [next], pfs[..i + 1];
    forall j | 0 <= j < i + 1
      ensures AccountedStep(h, s, After(Start(pfs[0]), all[..j]), all[j], more[j], more[j + 1])
    {
      assert all[..j] == pfs[..j];
      if j < i { assert pfs[..i][..j] == pfs[..j] && pfs[..i][j] == pfs[j]; }
    }
  }

  /** The collector after fragment pf: copied to its cell unless it is already there. */
  function Kept(c: Collector, pf: Fragment, s: nat): Collector
    requires pf.findex < |c.received| && |pf.payload| <= s && |c.packets| == |c.received| * s
  {
    MulMono(pf.findex + 1, |c.received|, s);
    Predecessor(pf.findex + 1, s);
    if c.received[pf.findex] then c
    else c.(packets := Written(c.packets, pf.findex * s, pf.payload), received := c.received[pf.findex := true],
            bytes := c.bytes + |pf.payload|, frags := c.frags + 1)
  }

  function WithFragment(slot: Slot, pf: Fragment): Slot {
    if pf.findex in slot.frags then slot else Slot(slot.pseq, slot.frags[pf.findex := pf.payload])
  }

  lemma StoredCollects(c: Collector, slot: Slot, pf: Fragment, h: Header, s: nat)
    requires AfBuilders.Collects(c, slot, h, s) && AfBuilders.Shaped(c, h.fcount, s)
    requires pf.findex < h.fcount && |pf.payload| <= s && (h.fec ==> |pf.payload| == s)
    ensures AfBuilders.Collects(Kept(c, pf, s), WithFragment(slot, pf), h, s)
    ensures AfBuilders.Shaped(Kept(c, pf, s), h.fcount, s)
  {
    MulMono(pf.findex + 1, h.fcount, s);
    Predecessor(pf.findex + 1, s);
    if pf.findex !in slot.frags {
      StoreTracks(c, slot, h.fcount, s, pf.findex, pf.payload);
    }
  }

  lemma SamePseq(c: Collector, slot: Slot, h: Header, s: nat)
    requires Tracks(c, slot, h.fcount, s)
    ensures c.pseqThis == slot.pseq
  {
  }

  lemma CountsMatch(c: Collector, slot: Slot, h: Header, s: nat)
    requires Tracks(c, slot, h.fcount, s) && h.fcount > 0
    ensures c.frags == |slot.frags| && |c.received| == h.fcount
    ensures c.received[h.fcount - 1] <==> h.fcount - 1 in slot.frags
  {
  }

  lemma EmptyTracks(pseq: nat, packets: seq<byte>, f: nat, s: nat)
    ensures Tracks(Collector(pseq, 0, 0, seq(f, _ => false), packets, false), Slot(pseq, map[]), f, s)
  {
    SumOfNone(f);
  }
}
