/** ETI(NA) to ETI(NI): the bit realignment, the deinterleaver and the payload gather of na2ni.c (with FEC off). */
module Na2Ni {
  import opened Arith
  import opened Bits
  import opened Crc
  import opened EtiFrame

  // ----- bit realignment -----

  function Flip(s: seq<bool>): (r: seq<bool>)
    ensures |r| == |s|
  {
    seq(|s|, i requires 0 <= i < |s| => !s[i])
  }

  function Polarity(s: seq<bool>, inverted: bool): (r: seq<bool>)
    ensures |r| == |s|
  {
    if inverted then Flip(s) else s
  }

  lemma PolarityConcat(s: seq<bool>, t: seq<bool>, inverted: bool)
    ensures Polarity(s + t, inverted) == Polarity(s, inverted) + Polarity(t, inverted)
  {
  }

  /** Nothing is lost between the carried bits, the input and the output: over any stretch of input, the bits
      carried in followed by the input are the output followed by the bits carried out. */
  ghost predicate Conserved(r: nat, c0: nat, input: seq<byte>, output: seq<byte>, inverted: bool, c1: nat) {
    NatBits(c0, r) + BitsOf(input) == Polarity(BitsOf(output), inverted) + NatBits(c1, r)
  }

  lemma ConservedNothing(r: nat, c: nat, inverted: bool)
    ensures Conserved(r, c, [], [], inverted, c)
  {
  }

  lemma ConservedConcat(r: nat, c0: nat, in1: seq<byte>, out1: seq<byte>, c1: nat, in2: seq<byte>, out2: seq<byte>,
      c2: nat, inverted: bool)
    requires Conserved(r, c0, in1, out1, inverted, c1) && Conserved(r, c1, in2, out2, inverted, c2)
    ensures Conserved(r, c0, in1 + in2, out1 + out2, inverted, c2)
  {
    hide NatBits, BitsOf, Polarity;
    BitsOfConcat(in1, in2);
    BitsOfConcat(out1, out2);
    PolarityConcat(BitsOf(out1), BitsOf(out2), inverted);
    var o1, o2 := Polarity(BitsOf(out1), inverted), Polarity(BitsOf(out2), inverted);
    ConcatAssoc(NatBits(c0, r), BitsOf(in1), BitsOf(in2));
    ConcatAssoc(o1, NatBits(c1, r), BitsOf(in2));
    ConcatAssoc(o1, o2, NatBits(c2, r));
  }

  /** One 32-bit word through the shifter: (block >> r) | (carried << (32 - r)), the low r bits saved. */
  function Shifted(carried: nat, block: nat, r: nat, inverted: bool): nat
    requires r <= 32
  {
    var word := Or(Shl(carried, 32 - r), Shr(block, r));
    if inverted then Xor(word, 0xFFFF_FFFF) else word
  }

  function Shr(a: nat, k: nat): nat {
    QuotientOfNat(a, Pow2(k));
    a / Pow2(k)
  }

  lemma ShrParts(a: nat, k: nat)
    ensures a == Shr(a, k) * Pow2(k) + a % Pow2(k)
  {
    DivMod(a, Pow2(k));
  }

  lemma QuotientOfNat(a: nat, p: nat)
    requires p > 0
    ensures a / p >= 0
  {
  }

  lemma {:induction false} FlippedBits(v: nat, n: nat)
    requires v < Pow2(n)
    ensures NatBits(Pow2(n) - 1 - v, n) == Flip(NatBits(v, n))
  {
    if n > 0 {
      FlippedBits(v / 2, n - 1);
      var p := Pow2(n - 1);
      assert (2 * p - 1 - v) / 2 == p - 1 - v / 2;
    }
  }

  lemma QuotientBound(block: nat, r: nat, k: nat)
    requires r <= k && block < Pow2(k)
    ensures Shr(block, r) < Pow2(k - r) && block % Pow2(r) < Pow2(r)
  {
    DivMod(block, Pow2(r));
    ShlShl(1, k - r, r);
    ShlIsProduct(Pow2(k - r), r);
    DivBelow(block, Pow2(r), Pow2(k - r));
  }

  lemma Width32()
    ensures Pow2(32) == 0x1_0000_0000
  {
    Widths();
    ShlShl(1, 16, 16);
    ShlIsProduct(0x1_0000, 16);
  }

  /** The plain shifted word is the high part of carried:block, the saved bits are its low part. */
  lemma WordSplit(c: nat, w: nat, r: nat)
    requires r <= 32 && c < Pow2(r) && w < Pow2(32)
    ensures var word := Or(Shl(c, 32 - r), Shr(w, r));
            word < Pow2(32) && Shl(word, r) + w % Pow2(r) == Shl(c, 32) + w
  {
    hide Or, Shl, Pow2, Shr;
    ShrParts(w, r);
    QuotientBound(w, r, 32);
    OrDisjoint(32 - r, c, Shr(w, r));
    ShlLinear(Shl(c, 32 - r), Shr(w, r), r);
    ShlShl(c, 32 - r, r);
    ShlIsProduct(Shr(w, r), r);
    HighPartFits(c, Shr(w, r), r);
  }

  lemma HighPartFits(c: nat, q: nat, r: nat)
    requires r <= 32 && c < Pow2(r) && q < Pow2(32 - r)
    ensures Shl(c, 32 - r) + q < Pow2(32)
  {
    hide Shl;
    ShlIsProduct(c, 32 - r);
    ShlShl(1, r, 32 - r);
    ShlIsProduct(Pow2(r), 32 - r);
    MulStrict(c, Pow2(r), Pow2(32 - r));
  }

  lemma WordBits(c: nat, w: nat, r: nat, inverted: bool)
    requires r <= 32 && c < Pow2(r) && w < Pow2(32)
    ensures Shifted(c, w, r, inverted) < Pow2(32) && w % Pow2(r) < Pow2(r)
    ensures NatBits(c, r) + NatBits(w, 32)
         == Polarity(NatBits(Shifted(c, w, r, inverted), 32), inverted) + NatBits(w % Pow2(r), r)
  {
    hide Or, Shl, Xor, NatBits;
    var word := Or(Shl(c, 32 - r), Shr(w, r));
    WordSplit(c, w, r);
    QuotientBound(w, r, 32);
    NatBitsConcat(c, r, w, 32);
    NatBitsConcat(word, 32, w % Pow2(r), r);
    if inverted {
      Width32();
      XorOnes(32, word);
      FlippedBits(word, 32);
      assert Flip(Flip(NatBits(word, 32))) == NatBits(word, 32);
    }
  }

  lemma FourBytes(s: seq<byte>)
    requires |s| == 4
    ensures BitsOf(s) == NatBits(Read32(s), 32) && Read32(s) < Pow2(32)
  {
    hide NatBits, BitsOf, Read16;
    Widths();
    Width32();
    TwoBytesAreWord(s[..2]);
    TwoBytesAreWord(s[2..]);
    HalfWords(s);
    ShlIsProduct(Read16(s), 16);
    NatBitsConcat(Read16(s), 16, Read16(s[2..]), 16);
    assert s == s[..2] + s[2..];
    BitsOfConcat(s[..2], s[2..]);
  }

  lemma HalfWords(s: seq<byte>)
    requires |s| == 4
    ensures Read16(s[..2]) == Read16(s)
  {
  }

  lemma WordConserved(c: nat, input: seq<byte>, output: seq<byte>, r: nat, inverted: bool)
    requires r <= 32 && c < Pow2(r) && |input| == 4 && |output| == 4
    requires Read32(output) == Shifted(c, Read32(input), r, inverted)
    ensures Conserved(r, c, input, output, inverted, Read32(input) % Pow2(r))
    ensures Read32(input) % Pow2(r) < Pow2(r)
  {
    hide NatBits, BitsOf, Read32, Shifted, Polarity;
    FourBytes(input);
    FourBytes(output);
    WordBits(c, Read32(input), r, inverted);
  }

  method StoreWord(a: array<byte>, at: nat, word: nat)
    requires word < 0x1_0000_0000 && at + 4 <= a.Length
    modifies a
    ensures a[..at] == old(a[..at]) && a[at + 4..] == old(a[at + 4..])
    ensures Read32(a[at..at + 4]) == word
  {
    hide Put32, Read32;
    var bytes := Put32(word);
    a[at], a[at + 1], a[at + 2], a[at + 3] := bytes[0], bytes[1], bytes[2], bytes[3];
    assert a[at..at + 4] == bytes;
  }

  /** shift_frame_mem: one E1 frame of eight words, realigned into frame[at..at + 32]. */
  method ShiftFrame(input: seq<byte>, carried: nat, r: nat, inverted: bool, frame: array<byte>, at: nat)
    returns (saved: nat)
    requires |input| >= 32 && 1 <= r <= 8 && at + 32 <= frame.Length
    modifies frame
    ensures saved < Pow2(r)
    ensures Conserved(r, carried % Pow2(r), input[..32], frame[at..at + 32], inverted, saved)
    ensures frame[..at] == old(frame[..at]) && frame[at + 32..] == old(frame[at + 32..])
  {
    hide Conserved, Shifted, Shl, Pow2, Read32, Put32;
    saved := carried % Pow2(r);
    ConservedNothing(r, saved, inverted);
    assert input[..0] == [] && frame[at..at] == [];
    Width32();
    for i := 0 to 8
      invariant saved < Pow2(r)
      invariant Conserved(r, carried % Pow2(r), input[..4 * i], frame[at..at + 4 * i], inverted, saved)
      invariant frame[..at] == old(frame[..at]) && frame[at + 32..] == old(frame[at + 32..])
    {
      ghost var start, c := frame[at..at + 4 * i], saved;
      ghost var before := frame[..at + 4 * i];
      var window := input[4 * i..4 * i + 4];
      var block := Read32(window);
      FourBytes(window);
      WordBits(saved, block, r, inverted);
      StoreWord(frame, at + 4 * i, Shifted(saved, block, r, inverted));
      saved := block % Pow2(r);
      WordConserved(c, window, frame[at + 4 * i..at + 4 * i + 4], r, inverted);
      ConservedConcat(r, carried % Pow2(r), input[..4 * i], start, c, window,
        frame[at + 4 * i..at + 4 * i + 4], saved, inverted);
      assert input[..4 * i] + window == input[..4 * (i + 1)];
      assert frame[at..at + 4 * i] == before[at..] == start;
      assert frame[..at] == before[..at];
      assert start + frame[at + 4 * i..at + 4 * i + 4] == frame[at..at + 4 * (i + 1)];
    }
  }

  lemma SmallRemainder(a: nat, p: nat)
    requires a < p
    ensures a % p == a
  {
  }

  /** The filling loops of main: n consecutive windows, the bits carried from call to call. */
  method ShiftFrames(input: seq<byte>, n: nat, carried: nat, r: nat, inverted: bool, frames: array<byte>, filled: nat)
      returns (saved: nat)
    requires |input| == 32 * n && 1 <= r <= 8 && 32 * (filled + n) <= frames.Length
    modifies frames
    ensures Conserved(r, carried % Pow2(r), input, frames[32 * filled..32 * (filled + n)], inverted, saved % Pow2(r))
    ensures frames[..32 * filled] == old(frames[..32 * filled])
  {
    hide Conserved, Shl, Pow2;
    saved := carried;
    ConservedNothing(r, saved % Pow2(r), inverted);
    var from := 32 * filled;
    assert input[..0] == [] && frames[from..from] == [];
    var i := 0;
    while i < n
      invariant i <= n && frames[..from] == old(frames[..from])
      invariant Conserved(r, carried % Pow2(r), input[..32 * i], frames[from..from + 32 * i], inverted, saved % Pow2(r))
    {
      ghost var at, c := from + 32 * i, saved;
      ghost var before := frames[..at];
      var window := input[32 * i..32 * i + 32];
      saved := ShiftFrame(window, saved, r, inverted, frames, from + 32 * i);
      assert window[..32] == window;
      SmallRemainder(saved, Pow2(r));
      ConservedConcat(r, carried % Pow2(r), input[..32 * i], before[from..], c % Pow2(r), window, frames[at..at + 32],
        saved % Pow2(r), inverted);
      assert input[..32 * i] + window == input[..32 * (i + 1)];
      assert frames[..from] == frames[..at][..from];
      assert before[from..] + frames[at..at + 32] == frames[from..at + 32];
      i := i + 1;
    }
    assert input[..32 * n] == input;
  }

  /** With the byte that holds the synchronisation in front of the input, output bit n is input bit offset + n,
      complemented on an inverted line, for every offset 0 to 7 and any amount of input. */
  lemma BitRealignment(offset: nat, first: byte, input: seq<byte>, output: seq<byte>, inverted: bool, saved: nat,
      n: nat)
    requires offset < 8 && n < 8 * |output|
    requires Conserved(8 - offset, first as nat % Pow2(8 - offset), input, output, inverted, saved)
    ensures |output| == |input|
    ensures BitsOf(output)[n] == (BitsOf([first] + input)[offset + n] != inverted)
  {
    hide NatBits, BitsOf, Shl, Pow2;
    LowBits(first, offset);
    BitsOfConcat([first], input);
    BitsOfOne(first);
    var low := NatBits(first as nat % Pow2(8 - offset), 8 - offset);
    BitAt(NatBits(first, 8), BitsOf(input), offset, low, Polarity(BitsOf(output), inverted),
      NatBits(saved, 8 - offset), n);
  }

  lemma BitAt(a: seq<bool>, b: seq<bool>, k: nat, low: seq<bool>, x: seq<bool>, y: seq<bool>, n: nat)
    requires k <= |a| && low == a[k..] && low + b == x + y && |low| == |y| && n < |x|
    ensures |b| == |x| && (a + b)[k + n] == x[n]
  {
    assert |low + b| == |x + y|;
    assert (low + b)[n] == (x + y)[n];
  }

  lemma {:induction false} LowBitsOf(v: nat, r: nat, n: nat)
    requires r <= n
    ensures NatBits(v % Pow2(r), r) == NatBits(v, n)[n - r..]
  {
    if r == 0 {
      assert NatBits(v, n)[n..] == [];
    } else {
      LowBitsOf(v / 2, r - 1, n - 1);
      HalfOfRemainder(v, Pow2(r - 1));
      assert NatBits(v, n)[n - r..] == NatBits(v / 2, n - 1)[n - r..] + [v % 2 == 1];
    }
  }

  lemma HalfOfRemainder(v: nat, p: nat)
    requires p > 0
    ensures v % (2 * p) / 2 == v / 2 % p && v % (2 * p) % 2 == v % 2
  {
    var q, m := v / 2 / p, v / 2 % p;
    DivMod(v / 2, p);
    assert v == q * (2 * p) + (2 * m + v % 2) by { assert q * (2 * p) == 2 * (q * p); }
    QuotientOfNat(v / 2, p);
    DivModUnique(v, 2 * p, q, 2 * m + v % 2);
  }

  lemma LowBits(first: byte, offset: nat)
    requires offset < 8
    ensures NatBits(first as nat % Pow2(8 - offset), 8 - offset) == NatBits(first, 8)[offset..]
  {
    LowBitsOf(first, 8 - offset, 8);
  }

  // ----- the interleaving table -----

  const ROWS := 8
  const COLS := 240
  const SUPERBLOCK := 2048
  const TABLE := 1920

  /** Where the n-th byte of the table lies in its superblock: the bytes at multiples of 16 are skipped. */
  function Source(n: nat): nat {
    n + n / 15 + 1
  }

  /** The input pointer when n bytes have been taken, before the test for a multiple of 16. */
  function Pointer(n: nat): nat {
    if n == 0 then 0 else Source(n - 1) + 1
  }

  lemma PointerStep(n: nat)
    ensures Source(n) == if Pointer(n) % 16 == 0 then Pointer(n) + 1 else Pointer(n)
    ensures Pointer(n + 1) == Source(n) + 1
  {
    if n > 0 {
      DivMod(n - 1, 15);
      var q, m := (n - 1) / 15, (n - 1) % 15;
      if m < 14 {
        DivModUnique(n, 15, q, m + 1);
      } else {
        DivModUnique(n, 15, q + 1, 0);
      }
    }
  }

  /** The table takes exactly the bytes of a superblock that are not at multiples of 16, each once and in order. */
  lemma SourceBijection(i: nat, n: nat)
    requires n < TABLE
    ensures Source(n) < SUPERBLOCK && Source(n) % 16 != 0
    ensures i < SUPERBLOCK && i % 16 != 0 ==> i / 16 + 1 <= i && i - i / 16 - 1 < TABLE && Source(i - i / 16 - 1) == i
    ensures i == Source(n) ==> n == i - i / 16 - 1
  {
    var a, b := n / 15, n % 15;
    DivMod(n, 15);
    DivModUnique(Source(n), 16, a, b + 1);
    if i % 16 != 0 {
      DivModUnique(i - i / 16 - 1, 15, i / 16, i % 16 - 1);
    }
  }

  /** Cell (row, col) of the table of superblock s, in the deinterleaved multiframe. */
  function Cell(s: nat, row: nat, col: nat): nat {
    TABLE * s + COLS * row + col
  }

  /** The byte of the multiframe that belongs there. */
  function Origin(s: nat, row: nat, col: nat): nat {
    SUPERBLOCK * s + Source(ROWS * col + row)
  }

  lemma CellBounds(s: nat, row: nat, col: nat)
    requires s < 3 && row < ROWS && col < COLS
    ensures Cell(s, row, col) < 3 * TABLE && Origin(s, row, col) < 3 * SUPERBLOCK
  {
    SourceBijection(0, ROWS * col + row);
  }

  lemma CellInjective(s: nat, row: nat, col: nat, s': nat, row': nat, col': nat)
    requires row < ROWS && col < COLS && row' < ROWS && col' < COLS
    requires Cell(s, row, col) == Cell(s', row', col')
    ensures s == s' && row == row' && col == col'
  {
  }

  /** Every cell of the table holds the byte it was sent in. */
  ghost predicate Deinterleaved(m: seq<byte>, d: seq<byte>)
    requires |m| == 3 * SUPERBLOCK && |d| == 3 * TABLE
  {
    forall s, row, col :: 0 <= s < 3 && 0 <= row < ROWS && 0 <= col < COLS ==> CellHolds(m, d, s, row, col)
  }

  ghost predicate CellHolds(m: seq<byte>, d: seq<byte>, s: nat, row: nat, col: nat)
    requires |m| == 3 * SUPERBLOCK && |d| == 3 * TABLE && s < 3 && row < ROWS && col < COLS
  {
    CellBounds(s, row, col);
    d[Cell(s, row, col)] == m[Origin(s, row, col)]
  }

  /** The first n cells, counted the way the loops visit them. */
  ghost predicate Done(m: seq<byte>, d: seq<byte>, n: nat)
    requires |m| == 3 * SUPERBLOCK && |d| == 3 * TABLE
  {
    forall s, row, col :: 0 <= s < 3 && 0 <= row < ROWS && 0 <= col < COLS && TABLE * s + ROWS * col + row < n
      ==> CellHolds(m, d, s, row, col)
  }

  lemma DoneStep(m: seq<byte>, d: seq<byte>, s: nat, row: nat, col: nat)
    requires |m| == 3 * SUPERBLOCK && |d| == 3 * TABLE && s < 3 && row < ROWS && col < COLS
    requires Done(m, d, TABLE * s + ROWS * col + row)
    ensures Cell(s, row, col) < 3 * TABLE && Origin(s, row, col) < 3 * SUPERBLOCK
    ensures Done(m, d[Cell(s, row, col) := m[Origin(s, row, col)]], TABLE * s + ROWS * col + row + 1)
  {
    hide Source;
    CellBounds(s, row, col);
    var e := d[Cell(s, row, col) := m[Origin(s, row, col)]];
    forall s', row', col' | 0 <= s' < 3 && 0 <= row' < ROWS && 0 <= col' < COLS
      && TABLE * s' + ROWS * col' + row' < TABLE * s + ROWS * col + row + 1
      ensures CellHolds(m, e, s', row', col')
    {
      OneCell(m, d, s, row, col, s', row', col');
    }
  }

  lemma OneCell(m: seq<byte>, d: seq<byte>, s: nat, row: nat, col: nat, s': nat, row': nat, col': nat)
    requires |m| == 3 * SUPERBLOCK && |d| == 3 * TABLE && s < 3 && row < ROWS && col < COLS
    requires s' < 3 && row' < ROWS && col' < COLS
    requires Done(m, d, TABLE * s + ROWS * col + row)
    requires TABLE * s' + ROWS * col' + row' <= TABLE * s + ROWS * col + row
    requires Cell(s, row, col) < 3 * TABLE && Origin(s, row, col) < 3 * SUPERBLOCK
    ensures CellHolds(m, d[Cell(s, row, col) := m[Origin(s, row, col)]], s', row', col')
  {
    hide Source, Cell, Origin;
    CellBounds(s', row', col');
    if Cell(s, row, col) == Cell(s', row', col') { CellInjective(s, row, col, s', row', col'); }
    if TABLE * s' + ROWS * col' + row' < TABLE * s + ROWS * col + row {
      assert CellHolds(m, d, s', row', col');
    } else {
      SameTurn(s, row, col, s', row', col');
    }
  }

  lemma SameTurn(s: nat, row: nat, col: nat, s': nat, row': nat, col': nat)
    requires row < ROWS && col < COLS && row' < ROWS && col' < COLS
    requires TABLE * s' + ROWS * col' + row' == TABLE * s + ROWS * col + row
    ensures s == s' && row == row' && col == col'
  {
  }

  method FillColumn(m: seq<byte>, d: array<byte>, s: nat, col: nat, from: nat) returns (inPtr: nat)
    requires |m| == 3 * SUPERBLOCK && d.Length == 3 * TABLE && s < 3 && col < COLS
    requires from == Pointer(ROWS * col) && Done(m, d[..], TABLE * s + ROWS * col)
    modifies d
    ensures inPtr == Pointer(ROWS * (col + 1)) && Done(m, d[..], TABLE * s + ROWS * (col + 1))
  {
    hide Done, Source, Pointer;
    inPtr := from;
    for row := 0 to ROWS
      invariant inPtr == Pointer(ROWS * col + row) && Done(m, d[..], TABLE * s + ROWS * col + row)
    {
      PointerStep(ROWS * col + row);
      DoneStep(m, d[..], s, row, col);
      ghost var before := d[..];
      if inPtr % 16 == 0 {
        inPtr := inPtr + 1;
      }
      var outputPtr := col + row * COLS;
      d[TABLE * s + outputPtr] := m[SUPERBLOCK * s + inPtr];
      assert d[..] == before[Cell(s, row, col) := m[Origin(s, row, col)]];
      inPtr := inPtr + 1;
    }
  }

  method FillTable(m: seq<byte>, d: array<byte>, s: nat)
    requires |m| == 3 * SUPERBLOCK && d.Length == 3 * TABLE && s < 3
    requires Done(m, d[..], TABLE * s)
    modifies d
    ensures Done(m, d[..], TABLE * (s + 1))
  {
    hide Done, Source;
    var inPtr := 0;
    for col := 0 to COLS
      invariant inPtr == Pointer(ROWS * col) && Done(m, d[..], TABLE * s + ROWS * col)
    {
      inPtr := FillColumn(m, d, s, col, inPtr);
    }
  }

  /** eti_superblocks_deinterleave without FEC: -1 unless the management byte names block 1 of superblock 0. */
  method Deinterleave(m: seq<byte>, d: array<byte>) returns (r: int)
    requires |m| == 3 * SUPERBLOCK && d.Length == 3 * TABLE
    modifies d
    ensures r == if IsBlockOne(m[257]) then 5760 else -1
    ensures if r == -1 then d[..] == old(d[..]) else Deinterleaved(m, d[..])
  {
    hide Done;
    if !IsBlockOne(m[32 * 8 + 1]) { return -1; }
    NothingDone(m, d[..]);
    var s := 0;
    while s < 3
      invariant 0 <= s <= 3 && Done(m, d[..], TABLE * s)
    {
      FillTable(m, d, s);
      s := s + 1;
    }
    AllDone(m, d[..]);
    r := ROWS * COLS * 3;
  }

  lemma NothingDone(m: seq<byte>, d: seq<byte>)
    requires |m| == 3 * SUPERBLOCK && |d| == 3 * TABLE
    ensures Done(m, d, 0)
  {
  }

  lemma AllDone(m: seq<byte>, d: seq<byte>)
    requires |m| == 3 * SUPERBLOCK && |d| == 3 * TABLE && Done(m, d, 3 * TABLE)
    ensures Deinterleaved(m, d)
  {
    hide CellHolds;
  }

  /** Bits 3 and 4 are the superblock number, bits 5 to 7 the block number. */
  predicate IsBlockOne(mgmt: byte) {
    mgmt as nat / 8 % 4 == 0 && mgmt as nat / 32 % 8 == 1
  }

  /** Bit 1 selects the stronger coding, with 226 instead of 235 data columns. */
  function MaxRead(mgmt: byte): (n: nat)
    ensures n == 226 || n == 235
  {
    if mgmt as nat / 2 % 2 == 1 then 226 else 235
  }

  /** A management byte written from its fields: it begins a multiframe exactly for block 1 of superblock 0, and its
      coding flag selects the number of data columns. */
  lemma ManagementFields(mgmt: byte, block: nat, superblock: nat, flag: bool, coded: bool, last: bool)
    requires block < 8 && superblock < 4
    requires mgmt as int == 32 * block + 8 * superblock + (if flag then 4 else 0) + (if coded then 2 else 0)
                            + (if last then 1 else 0)
    ensures IsBlockOne(mgmt) <==> block == 1 && superblock == 0
    ensures MaxRead(mgmt) == if coded then 226 else 235
  {
  }

  /** The management byte tested in the multiframe is the byte tested again in the table, so the second test cannot
      fail after the first. */
  lemma ManagementByte(m: seq<byte>, d: seq<byte>)
    requires |m| == 3 * SUPERBLOCK && |d| == 3 * TABLE && Deinterleaved(m, d)
    ensures d[30] == m[257]
  {
    assert CellHolds(m, d, 0, 0, 30);
  }

  // ----- the payload -----

  /** The first n bytes of a row without the management bytes, one in every thirty columns. */
  function Keep(row: seq<byte>, n: nat): (r: seq<byte>)
    requires n <= |row|
    ensures |r| == n - (n + 29) / 30
  {
    if n == 0 then [] else Keep(row, n - 1) + if (n - 1) % 30 == 0 then [] else [row[n - 1]]
  }

  /** What row r (counted over the three superblocks) contributes; the first two rows of a superblock carry
      management. */
  function RowData(d: seq<byte>, r: nat, max: nat): (p: seq<byte>)
    requires COLS * r + max <= |d|
    ensures |p| == if r % 8 < 2 then max - (max + 29) / 30 else max
  {
    var row := d[COLS * r..COLS * r + max];
    if r % 8 < 2 then Keep(row, max) else row
  }

  function Payload(d: seq<byte>, max: nat, rows: nat): seq<byte>
    requires max <= COLS && COLS * rows <= |d|
  {
    if rows == 0 then [] else Payload(d, max, rows - 1) + RowData(d, rows - 1, max)
  }

  function Start(max: nat, rows: nat): nat {
    if rows == 0 then 0 else Start(max, rows - 1) + if (rows - 1) % 8 < 2 then max - (max + 29) / 30 else max
  }

  lemma {:induction false} PayloadLength(d: seq<byte>, max: nat, rows: nat)
    requires max <= COLS && COLS * rows <= |d|
    ensures |Payload(d, max, rows)| == Start(max, rows)
  {
    if rows > 0 { PayloadLength(d, max, rows - 1); }
  }

  /** The two coded rows of each superblock are eight bytes shorter than the others. */
  function CodedRows(rows: nat): nat {
    2 * (rows / 8) + if rows % 8 < 2 then rows % 8 else 2
  }

  lemma {:induction false} StartClosed(max: nat, rows: nat)
    requires max == 226 || max == 235
    ensures Start(max, rows) == (if max == 226 then 226 * rows else 235 * rows) - 8 * CodedRows(rows)
  {
    hide CodedRows;
    if rows == 0 {
      assert CodedRows(0) == 0 by { NextCoded(0); }
    } else {
      StartClosed(max, rows - 1);
      NextCoded(rows - 1);
      assert (max + 29) / 30 == 8;
    }
  }

  lemma NextCoded(rows: nat)
    ensures CodedRows(0) == 0
    ensures CodedRows(rows + 1) == CodedRows(rows) + if rows % 8 < 2 then 1 else 0
  {
  }

  /** A multiframe carries exactly 5376 or 5592 bytes. */
  lemma PayloadSize(d: seq<byte>, max: nat)
    requires |d| == 3 * TABLE && (max == 226 || max == 235)
    ensures |Payload(d, max, 24)| == Start(max, 24) == if max == 226 then 5376 else 5592
  {
    hide Payload, Start;
    PayloadLength(d, max, 24);
    StartClosed(max, 24);
  }

  lemma {:induction false} KeepChunk(row: seq<byte>, p: nat, n: nat)
    requires p % 30 == 0 && n <= 29 && p + 1 + n <= |row|
    ensures Keep(row, p + 1 + n) == Keep(row, p) + row[p + 1..p + 1 + n]
  {
    if n > 0 {
      KeepChunk(row, p, n - 1);
      assert row[p + 1..p + 1 + n] == row[p + 1..p + n] + [row[p + n]];
    }
  }

  /** The do-while loop over a row with management bytes: up to 29 bytes behind each of them. */
  method CopyCodedRow(row: seq<byte>, frame: array<byte>, at: nat) returns (next: nat)
    requires |row| > 0 && |row| % 30 != 29 && at + |row| <= frame.Length
    modifies frame
    ensures next == at + |Keep(row, |row|)| && frame[..next] == old(frame[..at]) + Keep(row, |row|)
  {
    hide Keep;
    KeepNothing(row);
    next := at;
    var readPtr := 0;
    while readPtr < |row|
      invariant readPtr <= |row| && (readPtr == |row| || readPtr % 30 == 0)
      invariant next == at + |Keep(row, readPtr)| && frame[..next] == old(frame[..at]) + Keep(row, readPtr)
    {
      var toRead := if readPtr + 29 > |row| then |row| - readPtr - 1 else 29;
      KeepNext(row, readPtr, toRead, old(frame[..at]));
      readPtr := readPtr + 1;
      next := Put(frame, next, row[readPtr..readPtr + toRead]);
      readPtr := readPtr + toRead;
    }
  }

  lemma KeepNext(row: seq<byte>, p: nat, n: nat, before: seq<byte>)
    requires p < |row| && p % 30 == 0 && n == if p + 29 > |row| then |row| - p - 1 else 29
    requires |row| % 30 != 29
    ensures p + 1 + n <= |row| && (p + 1 + n == |row| || (p + 1 + n) % 30 == 0)
    ensures before + Keep(row, p) + row[p + 1..p + 1 + n] == before + Keep(row, p + 1 + n)
    ensures |Keep(row, p)| + n == |Keep(row, p + 1 + n)| <= |row|
  {
    hide Keep;
    KeepChunk(row, p, n);
    KeepShorter(row, p + 1 + n);
    ConcatAssoc(before, Keep(row, p), row[p + 1..p + 1 + n]);
  }

  lemma KeepShorter(row: seq<byte>, n: nat)
    requires n <= |row|
    ensures |Keep(row, n)| <= n
  {
  }

  lemma KeepNothing(row: seq<byte>)
    ensures Keep(row, 0) == []
  {
  }

  lemma NoRows(d: seq<byte>, max: nat)
    requires max <= COLS
    ensures Payload(d, max, 0) == []
  {
  }

  lemma NextRow(d: seq<byte>, max: nat, row: nat)
    requires max <= COLS && row < 24 && |d| == 3 * TABLE && (max == 226 || max == 235)
    ensures Payload(d, max, row + 1) == Payload(d, max, row) + RowData(d, row, max)
    ensures |RowData(d, row, max)| <= max
    ensures var cells := d[COLS * row..COLS * row + max];
            RowData(d, row, max) == if row % 8 < 2 then Keep(cells, max) else cells
  {
    hide Keep;
  }

  /** eti_ni_copy: synchronisation, the payload of the 24 rows, and padding up to 6144 bytes. */
  method NiCopy(d: seq<byte>, frame: array<byte>, even: bool)
    requires |d| == 3 * TABLE && IsBlockOne(d[30]) && frame.Length == 6144
    modifies frame
    ensures var p := Payload(d, MaxRead(d[30]), 24);
            |p| <= 5592 && frame[..] == Sync(if even then 0 else 1) + p + seq(6140 - |p|, _ => 0x55)
  {
    hide Keep, RowData, Payload, Start;
    var max := MaxRead(d[30]);
    PayloadSize(d, max);
    NoRows(d, max);
    var sync := if even then [0xff, 0x07, 0x3a, 0xb6] else [0xff, 0xf8, 0xc5, 0x49];
    var next := Put(frame, 0, sync);
    var row := 0;
    while row < 24
      invariant 0 <= row <= 24 && next == 4 + |Payload(d, max, row)| <= 4 + COLS * row
      invariant frame[..next] == sync + Payload(d, max, row)
    {
      NextRow(d, max, row);
      var cells := d[row * COLS..row * COLS + max];
      if row % ROWS < 2 {
        next := CopyCodedRow(cells, frame, next);
      } else {
        next := Put(frame, next, cells);
      }
      ConcatAssoc(sync, Payload(d, max, row), RowData(d, row, max));
      row := row + 1;
    }
    next := Put(frame, next, seq(6144 - next, _ => 0x55));
    assert frame[..next] == frame[..];
  }

  // ----- the matching interleaver -----

  function RowLength(r: nat, max: nat): (n: nat)
    ensures n <= max
  {
    if r % 8 < 2 then max - (max + 29) / 30 else max
  }

  predicate IsManagement(r: nat, col: nat) {
    r % 8 < 2 && col % 30 == 0
  }

  /** The place of a data column inside its row's share of the payload. */
  function Column(r: nat, col: nat): nat {
    if r % 8 < 2 then col - (col + 29) / 30 else col
  }

  lemma {:induction false} StartBound(max: nat, r: nat, rows: nat)
    requires r < rows
    ensures Start(max, r) + RowLength(r, max) <= Start(max, rows)
  {
    if r < rows - 1 { StartBound(max, r, rows - 1); }
  }

  lemma ColumnBound(r: nat, col: nat, max: nat)
    requires col < max && !IsManagement(r, col)
    ensures Column(r, col) < RowLength(r, max)
  {
  }

  /** The byte a sender puts in the place of column col of row r; fill supplies everything that is not payload. */
  function SentByte(p: seq<byte>, max: nat, r: nat, col: nat, fill: byte): byte
    requires r < 24 && |p| == Start(max, 24)
  {
    if col >= max || IsManagement(r, col) then fill
    else
      StartBound(max, r, 24);
      ColumnBound(r, col, max);
      p[Start(max, r) + Column(r, col)]
  }

  /** A multiframe of three superblocks for payload p. */
  function Interleave(p: seq<byte>, max: nat, fill: seq<byte>): (m: seq<byte>)
    requires |p| == Start(max, 24) && |fill| == 3 * SUPERBLOCK
    ensures |m| == 3 * SUPERBLOCK
  {
    seq(3 * SUPERBLOCK, i requires 0 <= i < 3 * SUPERBLOCK => InterleavedByte(p, max, i, fill[i]))
  }

  function InterleavedByte(p: seq<byte>, max: nat, i: nat, fill: byte): byte
    requires |p| == Start(max, 24) && i < 3 * SUPERBLOCK
  {
    var j := i % SUPERBLOCK;
    if j % 16 == 0 then fill
    else
      var n := j - j / 16 - 1;
      SentByte(p, max, 8 * (i / SUPERBLOCK) + n % 8, n / 8, fill)
  }

  lemma InterleavedAt(p: seq<byte>, max: nat, s: nat, row: nat, col: nat, fill: byte)
    requires |p| == Start(max, 24) && s < 3 && row < ROWS && col < COLS
    ensures Origin(s, row, col) < 3 * SUPERBLOCK
    ensures InterleavedByte(p, max, Origin(s, row, col), fill) == SentByte(p, max, 8 * s + row, col, fill)
  {
    hide SentByte, Start, Source;
    var n := ROWS * col + row;
    SourceBijection(Source(n), n);
    DivModUnique(Origin(s, row, col), SUPERBLOCK, s, Source(n));
    DivModUnique(n, 8, col, row);
  }

  /** Row r of the table holds its share of the payload. */
  ghost predicate RowHolds(d: seq<byte>, p: seq<byte>, max: nat, r: nat)
    requires |d| == 3 * TABLE && |p| == Start(max, 24) && r < 24 && max <= COLS
  {
    forall col :: 0 <= col < max && !IsManagement(r, col) ==> CellSent(d, p, max, r, col)
  }

  ghost predicate CellSent(d: seq<byte>, p: seq<byte>, max: nat, r: nat, col: nat)
    requires |d| == 3 * TABLE && |p| == Start(max, 24) && r < 24 && col < max <= COLS && !IsManagement(r, col)
  {
    StartBound(max, r, 24);
    ColumnBound(r, col, max);
    d[COLS * r + col] == p[Start(max, r) + Column(r, col)]
  }

  lemma RowArrives(p: seq<byte>, max: nat, fill: seq<byte>, d: seq<byte>, r: nat)
    requires |p| == Start(max, 24) && |fill| == 3 * SUPERBLOCK && |d| == 3 * TABLE && max <= COLS && r < 24
    requires Deinterleaved(Interleave(p, max, fill), d)
    ensures RowHolds(d, p, max, r)
  {
    hide InterleavedByte, Start, Source, IsManagement, Column, RowLength;
    var m, s, row := Interleave(p, max, fill), r / 8, r % 8;
    forall col | 0 <= col < max && !IsManagement(r, col) ensures CellSent(d, p, max, r, col) {
      CellBounds(s, row, col);
      InterleavedAt(p, max, s, row, col, fill[Origin(s, row, col)]);
      assert CellHolds(m, d, s, row, col);
    }
  }

  /** The data bytes of a coded row are q, in order. */
  ghost predicate Spread(row: seq<byte>, q: seq<byte>, col: nat) {
    col < |row| && Column(0, col) < |q| && row[col] == q[Column(0, col)]
  }

  lemma {:induction false} KeepOfSpread(row: seq<byte>, q: seq<byte>, n: nat)
    requires n <= |row| && Column(0, n) <= |q|
    requires forall col :: 0 <= col < n && col % 30 != 0 ==> Spread(row, q, col)
    ensures Keep(row, n) == q[..Column(0, n)]
  {
    if n > 0 {
      KeptStep(n);
      KeepOfSpread(row, q, n - 1);
      if (n - 1) % 30 != 0 { assert Spread(row, q, n - 1); }
    }
  }

  lemma KeepArrives(d: seq<byte>, p: seq<byte>, max: nat, r: nat)
    requires |d| == 3 * TABLE && |p| == Start(max, 24) && r < 24 && r % 8 < 2 && max <= COLS && RowHolds(d, p, max, r)
    ensures Start(max, r) + Column(0, max) <= |p|
    ensures Keep(d[COLS * r..COLS * r + max], max) == p[Start(max, r)..Start(max, r) + Column(0, max)]
  {
    hide Start, Keep;
    StartBound(max, r, 24);
    var row, q := d[COLS * r..COLS * r + max], p[Start(max, r)..Start(max, r) + Column(0, max)];
    forall col | 0 <= col < max && col % 30 != 0 ensures Spread(row, q, col) {
      ColumnBound(r, col, max);
      assert CellSent(d, p, max, r, col);
    }
    KeepOfSpread(row, q, max);
  }

  lemma KeptStep(n: nat)
    requires n > 0
    ensures Column(0, n) == Column(0, n - 1) + if (n - 1) % 30 == 0 then 0 else 1
  {
  }

  lemma PlainArrives(d: seq<byte>, p: seq<byte>, max: nat, r: nat)
    requires |d| == 3 * TABLE && |p| == Start(max, 24) && r < 24 && r % 8 >= 2 && max <= COLS && RowHolds(d, p, max, r)
    ensures Start(max, r) + max <= |p|
    ensures d[COLS * r..COLS * r + max] == p[Start(max, r)..Start(max, r) + max]
  {
    hide Start;
    StartBound(max, r, 24);
    var got, sent := d[COLS * r..COLS * r + max], p[Start(max, r)..Start(max, r) + max];
    forall c | 0 <= c < max ensures got[c] == sent[c] {
      assert CellSent(d, p, max, r, c);
    }
  }

  lemma RowArrived(d: seq<byte>, p: seq<byte>, max: nat, r: nat)
    requires |d| == 3 * TABLE && |p| == Start(max, 24) && r < 24 && max <= COLS && RowHolds(d, p, max, r)
    ensures Start(max, r) <= Start(max, r + 1) <= |p|
    ensures RowData(d, r, max) == p[Start(max, r)..Start(max, r + 1)]
  {
    hide RowHolds, Keep;
    StartBound(max, r, 24);
    if r % 8 < 2 { KeepArrives(d, p, max, r); } else { PlainArrives(d, p, max, r); }
  }

  lemma {:induction false} RowsArrive(d: seq<byte>, p: seq<byte>, max: nat, rows: nat)
    requires |d| == 3 * TABLE && |p| == Start(max, 24) && rows <= 24 && max <= COLS
    requires forall r :: 0 <= r < rows ==> RowHolds(d, p, max, r)
    ensures Start(max, rows) <= |p| && Payload(d, max, rows) == p[..Start(max, rows)]
  {
    hide RowHolds, Keep, RowData;
    if rows > 0 {
      var r := rows - 1;
      RowsArrive(d, p, max, r);
      RowArrived(d, p, max, r);
      var at, next := Start(max, r), Start(max, rows);
      assert p[..next] == p[..at] + p[at..next];
    }
  }

  /** Deinterleaving and gathering undo the interleaver, whatever fills the remaining bytes; the management byte
      of block 1 arrives where it is looked for. */
  lemma PayloadArrives(p: seq<byte>, max: nat, fill: seq<byte>, d: seq<byte>)
    requires |p| == Start(max, 24) && |fill| == 3 * SUPERBLOCK && |d| == 3 * TABLE && max <= COLS
    requires Deinterleaved(Interleave(p, max, fill), d)
    ensures Payload(d, max, 24) == p && d[30] == fill[257]
  {
    hide RowHolds, Payload, Start, Deinterleaved;
    forall r | 0 <= r < 24 ensures RowHolds(d, p, max, r) { RowArrives(p, max, fill, d, r); }
    RowsArrive(d, p, max, 24);
    assert p[..|p|] == p;
    ManagementByte(Interleave(p, max, fill), d);
  }

  // ----- from the line to the frame -----

  /** The bits of the multiframe stand on the line from bit offset on, complemented on an inverted line. */
  ghost predicate OnLine(m: seq<byte>, first: byte, input: seq<byte>, offset: nat, inverted: bool) {
    && offset < 8 && |input| == |m|
    && forall n :: 0 <= n < 8 * |m| ==> BitsOf(m)[n] == (BitsOf([first] + input)[offset + n] != inverted)
  }

  /** Realignment finds the multiframe again. */
  lemma Realigned(m: seq<byte>, first: byte, input: seq<byte>, offset: nat, inverted: bool, output: seq<byte>,
      saved: nat)
    requires OnLine(m, first, input, offset, inverted)
    requires Conserved(8 - offset, first as nat % Pow2(8 - offset), input, output, inverted, saved)
    ensures output == m
  {
    hide Conserved, BitsOf, Pow2;
    ConservedLength(8 - offset, first as nat % Pow2(8 - offset), input, output, inverted, saved);
    forall n | 0 <= n < 8 * |m| ensures BitsOf(output)[n] == BitsOf(m)[n] {
      BitRealignment(offset, first, input, output, inverted, saved, n);
    }
    BitsOfInjective(output, m);
  }

  lemma ConservedLength(r: nat, c0: nat, input: seq<byte>, output: seq<byte>, inverted: bool, c1: nat)
    requires Conserved(r, c0, input, output, inverted, c1)
    ensures |output| == |input|
  {
    hide NatBits, BitsOf;
    assert |NatBits(c0, r) + BitsOf(input)| == |Polarity(BitsOf(output), inverted) + NatBits(c1, r)|;
  }

  /** Deinterleaving and eti_ni_copy put together: the payload that was interleaved is in the frame. */
  method CopyMultiframe(m: seq<byte>, even: bool, d: array<byte>, frame: array<byte>, ghost p: seq<byte>,
      ghost fill: seq<byte>) returns (r: int)
    requires d.Length == 3 * TABLE && frame.Length == 6144 && d != frame
    requires |fill| == 3 * SUPERBLOCK && |p| == Start(MaxRead(fill[257]), 24)
    requires m == Interleave(p, MaxRead(fill[257]), fill)
    modifies d, frame
    ensures if IsBlockOne(fill[257])
            then |p| <= 5592 && r == 5760
                 && frame[..] == Sync(if even then 0 else 1) + p + seq(6140 - |p|, _ => 0x55)
            else r == -1 && frame[..] == old(frame[..])
  {
    hide Start, Payload, Deinterleaved, InterleavedByte;
    ManagementSent(p, MaxRead(fill[257]), fill);
    r := Deinterleave(m, d);
    if r != -1 {
      PayloadArrives(p, MaxRead(fill[257]), fill, d[..]);
      NiCopy(d[..], frame, even);
    }
  }

  lemma ManagementSent(p: seq<byte>, max: nat, fill: seq<byte>)
    requires |p| == Start(max, 24) && |fill| == 3 * SUPERBLOCK
    ensures Interleave(p, max, fill)[257] == fill[257]
  {
    hide Start;
    assert InterleavedByte(p, max, 257, fill[257]) == fill[257];
  }

  /** From the line to the frame: wherever the multiframe stands in the bits of the line, and inverted or not, its
      payload comes out whole and in order. */
  method ConvertLine(first: byte, input: seq<byte>, offset: nat, inverted: bool, even: bool, frames: array<byte>,
      d: array<byte>, frame: array<byte>, ghost p: seq<byte>, ghost fill: seq<byte>) returns (r: int)
    requires frames.Length == |input| == 3 * SUPERBLOCK && d.Length == 3 * TABLE && frame.Length == 6144
    requires d != frame && d != frames && frames != frame
    requires |fill| == 3 * SUPERBLOCK && |p| == Start(MaxRead(fill[257]), 24) && IsBlockOne(fill[257])
    requires OnLine(Interleave(p, MaxRead(fill[257]), fill), first, input, offset, inverted)
    modifies frames, d, frame
    ensures r == 5760 && |p| <= 5592
    ensures frame[..] == Sync(if even then 0 else 1) + p + seq(6140 - |p|, _ => 0x55)
  {
    hide Start, Conserved, Pow2, InterleavedByte, BitsOf;
    ghost var m := Interleave(p, MaxRead(fill[257]), fill);
    var saved := ShiftFrames(input, 192, first as nat, 8 - offset, inverted, frames, 0);
    assert frames[0..6144] == frames[..];
    Realigned(m, first, input, offset, inverted, frames[..], saved % Pow2(8 - offset));
    r := CopyMultiframe(frames[..], even, d, frame, p, fill);
  }
}
