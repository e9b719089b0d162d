/** The CRC family of crc.c, buffer_unpack.h and wfcrc.c.
    The specification is a bit-serial shift register of w bits; the three table-driven loops of crc.c are
    the instances w = 8, 16, 32. */
module Crc {
  import opened Arith
  import opened Bits

  ghost predicate Word(w: nat, x: nat) {
    x < Pow2(w)
  }

  /** One step of the shift register: shift left, feed back `code` when the bit shifted out differs
      from the message bit. */
  ghost function ShiftIn(w: nat, code: nat, reg: nat, bit: bool): (r: nat)
    requires w > 0 && Word(w, code) && Word(w, reg)
    ensures Word(w, r)
  {
    var half := Pow2(w - 1);
    var shifted := if reg >= half then 2 * (reg - half) else 2 * reg;
    XorBound(w, shifted, code);
    if (reg >= half) != bit then Xor(shifted, code) else shifted
  }

  /** The register after the whole message. */
  ghost function Serial(w: nat, code: nat, reg: nat, bits: seq<bool>): (r: nat)
    requires w > 0 && Word(w, code) && Word(w, reg)
    ensures Word(w, r)
  {
    if bits == [] then reg
    else ShiftIn(w, code, Serial(w, code, reg, bits[..|bits| - 1]), bits[|bits| - 1])
  }

  /** The register after n zero bits. */
  ghost function Zeros(w: nat, code: nat, reg: nat, n: nat): (r: nat)
    requires w > 0 && Word(w, code) && Word(w, reg)
    ensures Word(w, r)
  {
    if n == 0 then reg else ShiftIn(w, code, Zeros(w, code, reg, n - 1), false)
  }

  lemma {:induction false} SerialConcat(w: nat, code: nat, reg: nat, a: seq<bool>, b: seq<bool>)
    requires w > 0 && Word(w, code) && Word(w, reg)
    ensures Serial(w, code, reg, a + b) == Serial(w, code, Serial(w, code, reg, a), b)
  {
    if b == [] {
      assert a + b == a;
    } else {
      SerialConcat(w, code, reg, a, b[..|b| - 1]);
      assert (a + b)[..|a + b| - 1] == a + b[..|b| - 1];
    }
  }

  lemma XorSwap(a: nat, b: nat, c: nat, d: nat)
    ensures Xor(Xor(a, b), Xor(c, d)) == Xor(Xor(a, c), Xor(b, d))
  {
    XorAssoc(a, b, Xor(c, d));
    XorAssoc(b, c, d);
    XorComm(b, c);
    XorAssoc(c, b, d);
    XorAssoc(a, c, Xor(b, d));
  }

  lemma XorTop(w: nat, a: nat, b: nat)
    requires w > 0 && Word(w, a) && Word(w, b)
    ensures Word(w, Xor(a, b))
    ensures (Xor(a, b) >= Pow2(w - 1)) == ((a >= Pow2(w - 1)) != (b >= Pow2(w - 1)))
    ensures Shifted(w, Xor(a, b)) == Xor(Shifted(w, a), Shifted(w, b))
  {
    var h := Pow2(w - 1);
    var i, x := TopBit(w, a);
    var j, y := TopBit(w, b);
    XorSplit(w - 1, i, x, j, y);
    hide Xor; XorOfBits(i, j);
    ShlZero(w - 1);
    XorTwice(x, y);
  }

  lemma TopBit(w: nat, a: nat) returns (i: nat, x: nat)
    requires w > 0 && Word(w, a)
    ensures i < 2 && x < Pow2(w - 1) && a == Shl(i, w - 1) + x
    ensures (i == 1) == (a >= Pow2(w - 1)) && Shifted(w, a) == 2 * x
  {
    var h := Pow2(w - 1);
    ShlZero(w - 1);
    i, x := if a >= h then 1 else 0, if a >= h then a - h else a;
  }

  /** reg << 1 in a w-bit register. */
  ghost function Shifted(w: nat, reg: nat): (r: nat)
    requires w > 0 && Word(w, reg)
    ensures Word(w, r)
  {
    if reg >= Pow2(w - 1) then 2 * (reg - Pow2(w - 1)) else 2 * reg
  }

  lemma ShiftInLinear(w: nat, code: nat, a: nat, b: nat)
    requires w > 0 && Word(w, code) && Word(w, a) && Word(w, b)
    ensures Word(w, Xor(a, b))
    ensures ShiftIn(w, code, Xor(a, b), false) == Xor(ShiftIn(w, code, a, false), ShiftIn(w, code, b, false))
  {
    XorTop(w, a, b);
    var s, t := Shifted(w, a), Shifted(w, b);
    XorAssoc(s, t, code);
    XorComm(t, code);
    XorAssoc(s, code, t);
    XorSwap(s, code, t, code);
    XorSelf(code);
    XorZero(Xor(s, t));
  }

  lemma {:induction false} ZerosLinear(w: nat, code: nat, a: nat, b: nat, n: nat)
    requires w > 0 && Word(w, code) && Word(w, a) && Word(w, b)
    ensures Word(w, Xor(a, b))
    ensures Zeros(w, code, Xor(a, b), n) == Xor(Zeros(w, code, a, n), Zeros(w, code, b, n))
  {
    XorBound(w, a, b);
    if n > 0 {
      ZerosLinear(w, code, a, b, n - 1);
      ShiftInLinear(w, code, Zeros(w, code, a, n - 1), Zeros(w, code, b, n - 1));
    }
  }

  /** While no set bit reaches the top, zero bits merely shift. */
  lemma {:induction false} ZerosShift(w: nat, code: nat, x: nat, n: nat)
    requires w > 0 && Word(w, code) && n <= w && x < Pow2(w - n)
    ensures Word(w, x) && Zeros(w, code, x, n) == Shl(x, n) && Word(w, Shl(x, n))
    decreases n
  {
    Pow2Monotone(w - n, w);
    if n > 0 {
      Pow2Monotone(w - n, w - n + 1);
      ZerosShift(w, code, x, n - 1);
      ShlBound(x, w - n, n - 1);
    }
  }

  lemma {:induction false} Pow2Monotone(j: nat, k: nat)
    requires j <= k
    ensures Pow2(j) <= Pow2(k)
  {
    if j < k { Pow2Monotone(j, k - 1); }
  }

  /** A message bit acts on the top bit of the register. */
  lemma ShiftInTop(w: nat, code: nat, reg: nat, bit: bool)
    requires w > 0 && Word(w, code) && Word(w, reg)
    ensures var top := if bit then Pow2(w - 1) else 0;
            Word(w, Xor(reg, top)) && ShiftIn(w, code, reg, bit) == ShiftIn(w, code, Xor(reg, top), false)
  {
    var top := if bit then Pow2(w - 1) else 0;
    Pow2Monotone(w - 1, w);
    XorTop(w, reg, top);
    XorZero(Shifted(w, reg));
    XorZero(reg);
  }

  lemma ShlParts(v: nat, k: nat)
    ensures Shl(v, k) == Shl(v / 2, k + 1) + Shl(v % 2, k)
  {
    var u, b := v / 2, v % 2;
    ShlShl(u, 1, k);
    assert Shl(u, 1) == 2 * u;
    ShlLinear(2 * u, b, k);
  }

  /** The top n bits of the register, filled with v: the upper n - 1 of them and the lowest one. */
  lemma TopWordSplit(w: nat, v: nat, n: nat)
    requires 0 < n <= w && v < Pow2(n)
    ensures Word(w, Shl(v, w - n)) && Word(w, Shl(v / 2, w - n + 1)) && Word(w, Shl(v % 2, w - n))
    ensures Shl(v, w - n) == Xor(Shl(v / 2, w - n + 1), Shl(v % 2, w - n))
  {
    hide Xor;
    var k := w - n;
    ShlBound(v, n, k);
    ShlBound(v / 2, n - 1, k + 1);
    ShlParts(v, k);
    ShlBound(v % 2, 1, k);
    Pow2Monotone(k + 1, w);
    XorDisjoint(k + 1, v / 2, Shl(v % 2, k));
  }

  /** n - 1 zero bits carry the lowest of the top n bits to the top without feedback. */
  lemma CarryUp(w: nat, code: nat, b: nat, n: nat)
    requires 0 < n <= w && b < 2 && Word(w, code)
    ensures Word(w, Shl(b, w - n))
    ensures Zeros(w, code, Shl(b, w - n), n - 1) == if b == 1 then Pow2(w - 1) else 0
  {
    ShlBound(b, 1, w - n);
    ZerosShift(w, code, Shl(b, w - n), n - 1);
    ShlShl(b, w - n, n - 1);
    ShlZero(w - 1);
  }

  /** Feeding an n-bit number is the same as adding it to the top of the register and feeding zeros. */
  lemma {:induction false} SerialWord(w: nat, code: nat, reg: nat, v: nat, n: nat)
    requires w > 0 && Word(w, code) && Word(w, reg) && n <= w && v < Pow2(n)
    ensures Word(w, Shl(v, w - n)) && Word(w, Xor(reg, Shl(v, w - n)))
    ensures Serial(w, code, reg, NatBits(v, n)) == Zeros(w, code, Xor(reg, Shl(v, w - n)), n)
  {
    hide Xor;
    ShlBound(v, n, w - n);
    XorBound(w, reg, Shl(v, w - n));
    if n == 0 {
      ShlZero(w);
      XorZero(reg);
    } else {
      var u, b := v / 2, v % 2;
      SerialWord(w, code, reg, u, n - 1);
      TopWordSplit(w, v, n);
      var hi, lo := Shl(u, w - n + 1), Shl(b, w - n);
      XorAssoc(reg, hi, lo);
      ZerosLinear(w, code, Xor(reg, hi), lo, n - 1);
      CarryUp(w, code, b, n);
      SerialLast(w, code, reg, v, n);
      ShiftInTop(w, code, Zeros(w, code, Xor(reg, hi), n - 1), b == 1);
    }
  }

  lemma SerialLast(w: nat, code: nat, reg: nat, v: nat, n: nat)
    requires w > 0 && Word(w, code) && Word(w, reg) && n > 0
    ensures Serial(w, code, reg, NatBits(v, n))
         == ShiftIn(w, code, Serial(w, code, reg, NatBits(v / 2, n - 1)), v % 2 == 1)
  {
    assert NatBits(v, n)[..n - 1] == NatBits(v / 2, n - 1);
  }

  // ----- the table-driven loops -----

  /** Entry i of the table for `code`: the register after i at the top and eight zero bits. */
  ghost function TableEntry(w: nat, code: nat, i: nat): (r: nat)
    requires w >= 8 && Word(w, code) && i < 256
    ensures Word(w, r)
  {
    Widths();
    ShlBound(i, 8, w - 8);
    Zeros(w, code, Shl(i, w - 8), 8)
  }

  ghost predicate IsTable(w: nat, code: nat, tab: seq<nat>) {
    w >= 8 && Word(w, code) && |tab| == 256 && forall i :: 0 <= i < 256 ==> tab[i] == TableEntry(w, code, i)
  }

  /** What the byte-wise loop computes: the register over all message bits. */
  ghost function CrcOf(w: nat, code: nat, reg: nat, data: seq<byte>): (r: nat)
    requires w > 0 && Word(w, code) && Word(w, reg)
    ensures Word(w, r)
  {
    Serial(w, code, reg, BitsOf(data))
  }

  lemma CrcConcat(w: nat, code: nat, reg: nat, a: seq<byte>, b: seq<byte>)
    requires w > 0 && Word(w, code) && Word(w, reg)
    ensures CrcOf(w, code, reg, a + b) == CrcOf(w, code, CrcOf(w, code, reg, a), b)
  {
    BitsOfConcat(a, b);
    SerialConcat(w, code, reg, BitsOf(a), BitsOf(b));
  }

  lemma CrcOneByte(w: nat, code: nat, reg: nat, b: byte)
    requires w > 0 && Word(w, code) && Word(w, reg)
    ensures CrcOf(w, code, reg, [b]) == Serial(w, code, reg, NatBits(b, 8))
  {
    BitsOfOne(b);
  }

  /** Eight zero bits turn the top byte into its table entry and shift the rest. */
  lemma ZerosByte(w: nat, code: nat, top: nat, lo: nat)
    requires w >= 8 && Word(w, code) && top < 256 && lo < Pow2(w - 8)
    ensures Word(w, Shl(top, w - 8) + lo)
    ensures Zeros(w, code, Shl(top, w - 8) + lo, 8) == Xor(TableEntry(w, code, top), 256 * lo)
  {
    hide Xor;
    var k := w - 8;
    XorDisjoint(k, top, lo);
    Widths();
    ShlBound(top, 8, k);
    Pow2Monotone(k, w);
    ZerosLinear(w, code, Shl(top, k), lo, 8);
    ZerosShift(w, code, lo, 8);
    Shl8(lo);
  }

  /** The byte step of crc8, crc16 and crc32 is eight steps of the shift register. */
  lemma ByteStep(w: nat, code: nat, hi: nat, lo: nat, b: byte)
    requires w >= 8 && Word(w, code) && hi < 256 && lo < Pow2(w - 8)
    ensures Xor(hi, b) < 256 && Word(w, Shl(hi, w - 8) + lo)
    ensures CrcOf(w, code, Shl(hi, w - 8) + lo, [b]) == Xor(256 * lo, TableEntry(w, code, Xor(hi, b)))
  {
    hide Xor, Zeros;
    Widths();
    XorBound(8, hi, b);
    ZerosByte(w, code, hi, lo);
    CrcOneByte(w, code, Shl(hi, w - 8) + lo, b);
    SerialWord(w, code, Shl(hi, w - 8) + lo, b, 8);
    XorSplit(w - 8, hi, lo, b, 0);
    XorZero(lo);
    ZerosByte(w, code, Xor(hi, b), lo);
    XorComm(256 * lo, TableEntry(w, code, Xor(hi, b)));
  }

  lemma Shl8(x: nat)
    ensures Shl(x, 8) == 256 * x
  {
    assert Shl(x, 8) == 2 * Shl(x, 7) == 4 * Shl(x, 6) == 8 * Shl(x, 5) == 16 * Shl(x, 4);
    assert Shl(x, 4) == 2 * Shl(x, 3) == 4 * Shl(x, 2) == 8 * Shl(x, 1) == 16 * x;
  }

  /** crc >> (w - 8) and the bits below. */
  function SplitWord(w: nat, reg: nat): (p: (nat, nat))
    requires w >= 8 && Word(w, reg)
    ensures p.0 < 256 && p.1 < Pow2(w - 8) && reg == Shl(p.0, w - 8) + p.1
  {
    SplitWordParts(w, reg);
    (reg / Pow2(w - 8), reg % Pow2(w - 8))
  }

  lemma SplitWordParts(w: nat, reg: nat)
    requires w >= 8 && Word(w, reg)
    ensures reg / Pow2(w - 8) < 256 && reg % Pow2(w - 8) < Pow2(w - 8)
    ensures reg == Shl(reg / Pow2(w - 8), w - 8) + reg % Pow2(w - 8)
  {
    var p := Pow2(w - 8);
    ShlIsProduct(reg / p, w - 8);
    ShlShl(1, w - 8, 8);
    Shl8(p);
    DivBelow(reg, p, 256);
    DivMod(reg, p);
  }

  lemma {:induction false} ShlIsProduct(a: nat, k: nat)
    ensures Shl(a, k) == a * Pow2(k)
  {
    if k > 0 {
      ShlIsProduct(a, k - 1);
      assert a * Pow2(k) == 2 * (a * Pow2(k - 1));
    }
  }

  /** crc8, crc16 and crc32 (w = 8, 16, 32): the table-driven loop computes the bit-serial CRC. */
  method CrcLoop(w: nat, ghost code: nat, tab: seq<nat>, crc: nat, data: seq<byte>) returns (r: nat)
    requires IsTable(w, code, tab) && Word(w, crc)
    ensures r == CrcOf(w, code, crc, data)
  {
    r := crc;
    var i := 0;
    assert data[..0] == [];
    while i < |data|
      invariant 0 <= i <= |data|
      invariant Word(w, r) && r == CrcOf(w, code, crc, data[..i])
    {
      var (hi, lo) := SplitWord(w, r);
      ByteStep(w, code, hi, lo, data[i]);
      CrcConcat(w, code, crc, data[..i], [data[i]]);
      assert data[..i + 1] == data[..i] + [data[i]];
      r := Xor(256 * lo, tab[Xor(hi, data[i])]);
      i := i + 1;
    }
    assert data[..i] == data;
  }

  /** What init_crc8tab, init_crc16tab and init_crc32tab leave in entry i for the start value `init`:
      they feed the complement of i and flip all but the low byte. */
  ghost function GeneratedEntry(w: nat, code: nat, init: nat, i: nat): nat
    requires w >= 8 && Word(w, code) && Word(w, init) && i < 256
  {
    Widths();
    Pow2Monotone(8, w);
    Xor(Serial(w, code, init, NatBits(255 - i, 8)), Pow2(w) - 256)
  }

  /** The inner loop of the generators: bit j of nb, most significant first, is fed in step j. */
  method FeedByte(w: nat, code: nat, init: nat, nb: byte) returns (crc: nat)
    requires w >= 8 && Word(w, code) && Word(w, init)
    ensures Word(w, crc) && crc == Serial(w, code, init, NatBits(nb, 8))
  {
    hide Xor;
    var half := Pow2(w - 1);
    ghost var bits := NatBits(nb, 8);
    crc := init;
    var j := 0;
    while j < 8
      invariant 0 <= j <= 8
      invariant Word(w, crc) && crc == Serial(w, code, init, bits[..j])
    {
      var msb := nb as nat / Pow2(7 - j) % 2 == 1;
      NatBitAt(nb, 8, j);
      assert bits[..j + 1][..j] == bits[..j] && bits[..j + 1][j] == msb;
      assert Serial(w, code, init, bits[..j + 1]) == ShiftIn(w, code, crc, msb);
      if crc >= half {
        msb := !msb;
        crc := 2 * (crc - half);
      } else {
        crc := 2 * crc;
      }
      if msb {
        crc := Xor(crc, code);
      }
      j := j + 1;
    }
    assert bits[..8] == bits;
  }

  /** The generators of crc.c: entry i comes from feeding i ^ 0xff. */
  method InitTable(w: nat, code: nat, init: nat) returns (tab: array<nat>)
    requires w >= 8 && Word(w, code) && Word(w, init)
    ensures fresh(tab) && tab.Length == 256
    ensures forall i :: 0 <= i < 256 ==> tab[i] == GeneratedEntry(w, code, init, i)
  {
    hide Xor, Serial;
    tab := new nat[256];
    Pow2Monotone(8, w);
    Widths();
    var i := 0;
    while i < 256
      invariant 0 <= i <= 256
      invariant forall k :: 0 <= k < i ==> tab[k] == GeneratedEntry(w, code, init, k)
    {
      XorOnes(8, i);
      var crc := FeedByte(w, code, init, Xor(i, 255));
      tab[i] := Xor(crc, Pow2(w) - 256);
      i := i + 1;
    }
  }

  lemma {:induction false} NatBitAt(v: nat, n: nat, j: nat)
    requires j < n
    ensures NatBits(v, n)[j] == (v / Pow2(n - 1 - j) % 2 == 1)
  {
    if j < n - 1 {
      NatBitAt(v / 2, n - 1, j);
      var q := Pow2(n - 2 - j);
      HalfThenDivide(v, q);
    }
  }

  lemma HalfThenDivide(v: nat, q: nat)
    requires q > 0
    ensures v / 2 / q == v / (2 * q)
  {
    var d, m := v / (2 * q), v % (2 * q);
    DivMod(v, 2 * q);
    assert v / 2 == d * q + m / 2;
    DivModUnique(v / 2, q, d, m / 2);
  }

  /** With the all-ones start value every generator builds the table of its polynomial. */
  lemma GeneratorBuildsTable(w: nat, code: nat, i: nat)
    requires w >= 8 && Word(w, code) && i < 256
    ensures GeneratedEntry(w, code, Pow2(w) - 1, i) == TableEntry(w, code, i)
  {
    hide Xor, Zeros, Serial;
    var ones, nb, k := Pow2(w) - 1, 255 - i, w - 8;
    Widths();
    SerialWord(w, code, ones, nb, 8);
    FeedOnes(w, i);
    ZerosByte(w, code, i, Pow2(k) - 1);
    ShlShl(1, k, 8);
    Shl8(Pow2(k));
    XorTwoTimes(TableEntry(w, code, i), Pow2(w) - 256);
  }

  lemma FeedOnes(w: nat, i: nat)
    requires w >= 8 && i < 256
    ensures Xor(Pow2(w) - 1, Shl(255 - i, w - 8)) == Shl(i, w - 8) + (Pow2(w - 8) - 1)
  {
    hide Xor;
    var k := w - 8;
    Widths();
    ShlShl(1, 8, k);
    ShlLinear(255, 1, k);
    XorSplit(k, 255, Pow2(k) - 1, 255 - i, 0);
    XorZero(Pow2(k) - 1);
    XorOnes(8, 255 - i);
    XorComm(255, 255 - i);
  }

  lemma XorTwoTimes(a: nat, m: nat)
    ensures Xor(Xor(a, m), m) == a
  {
    hide Xor;
    XorAssoc(a, m, m);
    XorSelf(m);
    XorZero(a);
  }

  // ----- the 16-bit packet check -----

  const POLY: nat := 0x1021

  lemma Widths()
    ensures Pow2(8) == 256 && Pow2(15) == 0x8000 && Pow2(16) == 0x1_0000
    ensures Word(16, POLY) && Word(16, 0xffff)
  {
    Shl8(1);
    Shl8(256);
    ShlShl(1, 8, 8);
    assert Pow2(16) == 2 * Pow2(15);
  }

  ghost function Crc16(reg: nat, data: seq<byte>): (r: nat)
    requires reg < 0x1_0000
    ensures r < 0x1_0000
  {
    Widths();
    CrcOf(16, POLY, reg, data)
  }

  /** checkCRC of buffer_unpack.h. */
  ghost predicate CheckCrc(buf: seq<byte>)
    requires |buf| >= 2
  {
    Read16(buf[|buf| - 2..]) == Xor(Crc16(0xffff, buf[..|buf| - 2]), 0xffff)
  }

  /** checkCRC as the loop over the table of the polynomial. */
  method CheckCrcLoop(tab: seq<nat>, buf: seq<byte>) returns (ok: bool)
    requires IsTable(16, POLY, tab) && |buf| >= 2
    ensures ok == CheckCrc(buf)
  {
    Widths();
    var fromPacket := Read16(buf[|buf| - 2..]);
    var crc := CrcLoop(16, POLY, tab, 0xffff, buf[..|buf| - 2]);
    ok := fromPacket == Xor(crc, 0xffff);
  }

  /** A feedback polynomial with constant term makes every register step reversible. */
  lemma ShiftInInjective(w: nat, code: nat, a: nat, b: nat, bit: bool)
    requires w > 0 && Word(w, code) && code % 2 == 1 && Word(w, a) && Word(w, b)
    requires ShiftIn(w, code, a, bit) == ShiftIn(w, code, b, bit)
    ensures a == b
  {
    hide Xor;
    var s, t := Shifted(w, a), Shifted(w, b);
    XorHalves(s, code);
    XorHalves(t, code);
    XorAssoc(s, code, code);
    XorAssoc(t, code, code);
    XorSelf(code);
    XorZero(s);
    XorZero(t);
  }

  lemma {:induction false} SerialInjective(w: nat, code: nat, a: nat, b: nat, bits: seq<bool>)
    requires w > 0 && Word(w, code) && code % 2 == 1 && Word(w, a) && Word(w, b)
    requires Serial(w, code, a, bits) == Serial(w, code, b, bits)
    ensures a == b
  {
    if bits != [] {
      var init := bits[..|bits| - 1];
      ShiftInInjective(w, code, Serial(w, code, a, init), Serial(w, code, b, init), bits[|bits| - 1]);
      SerialInjective(w, code, a, b, init);
    }
  }

  lemma {:induction false} ZerosInjective(w: nat, code: nat, a: nat, b: nat, n: nat)
    requires w > 0 && Word(w, code) && code % 2 == 1 && Word(w, a) && Word(w, b)
    requires Zeros(w, code, a, n) == Zeros(w, code, b, n)
    ensures a == b
  {
    if n > 0 {
      ShiftInInjective(w, code, Zeros(w, code, a, n - 1), Zeros(w, code, b, n - 1), false);
      ZerosInjective(w, code, a, b, n - 1);
    }
  }

  lemma TopWordInjective(w: nat, code: nat, reg: nat, x: nat, y: nat, n: nat)
    requires w > 0 && Word(w, code) && code % 2 == 1 && Word(w, Xor(reg, x)) && Word(w, Xor(reg, y))
    requires Zeros(w, code, Xor(reg, x), n) == Zeros(w, code, Xor(reg, y), n)
    ensures x == y
  {
    ZerosInjective(w, code, Xor(reg, x), Xor(reg, y), n);
    XorCancel(reg, x, y);
  }

  /** From one register state, two strings of up to w bits that leave the same state are equal. */
  lemma WindowInjective(w: nat, code: nat, reg: nat, a: seq<bool>, b: seq<bool>)
    requires w > 0 && Word(w, code) && code % 2 == 1 && Word(w, reg) && |a| == |b| <= w
    requires Serial(w, code, reg, a) == Serial(w, code, reg, b)
    ensures a == b
  {
    var n, v, u := |a|, BitsToNat(a), BitsToNat(b);
    assert Shl(v, w - n) == Shl(u, w - n) by {
      SerialWord(w, code, reg, v, n);
      SerialWord(w, code, reg, u, n);
      TopWordInjective(w, code, reg, Shl(v, w - n), Shl(u, w - n), n);
    }
    ShlInjective(v, u, w - n);
  }

  lemma XorCancel(a: nat, x: nat, y: nat)
    requires Xor(a, x) == Xor(a, y)
    ensures x == y
  {
    XorAssoc(a, a, x);
    XorAssoc(a, a, y);
    XorSelf(a);
    XorZero(x);
    XorZero(y);
  }

  lemma {:induction false} ShlInjective(a: nat, b: nat, k: nat)
    ensures Shl(a, k) == Shl(b, k) ==> a == b
  {
    if k > 0 { ShlInjective(a, b, k - 1); }
  }

  /** The number whose bits are given, most significant first. */
  ghost function BitsToNat(bits: seq<bool>): (v: nat)
    ensures v < Pow2(|bits|) && NatBits(v, |bits|) == bits
  {
    if bits == [] then 0
    else 2 * BitsToNat(bits[..|bits| - 1]) + if bits[|bits| - 1] then 1 else 0
  }

  /** A packet passes exactly when the register over all of its bits ends in one fixed residue. */
  lemma CheckIsResidue(buf: seq<byte>)
    requires |buf| >= 2
    ensures Word(16, POLY) && Word(16, 0xffff)
    ensures CheckCrc(buf) <==> Crc16(0xffff, buf) == Zeros(16, POLY, 0xffff, 16)
  {
    Widths();
    var body, tail := buf[..|buf| - 2], buf[|buf| - 2..];
    assert buf == body + tail;
    CrcConcat(16, POLY, 0xffff, body, tail);
    var c, v := Crc16(0xffff, body), Read16(tail);
    TwoBytesAreWord(tail);
    SerialWord(16, POLY, c, v, 16);
    if Zeros(16, POLY, Xor(c, v), 16) == Zeros(16, POLY, 0xffff, 16) {
      ZerosInjective(16, POLY, Xor(c, v), 0xffff, 16);
    }
    // c ^ v == 0xffff exactly when v == c ^ 0xffff
    XorAssoc(c, c, v);
    XorAssoc(c, c, 0xffff);
    XorSelf(c);
    XorZero(v);
    XorZero(0xffff);
  }

  lemma TwoBytesAreWord(t: seq<byte>)
    requires |t| == 2
    ensures BitsOf(t) == NatBits(Read16(t), 16)
  {
    hide NatBits;
    Widths();
    Shl8(t[0]);
    NatBitsConcat(t[0], 8, t[1], 8);
    assert t == [t[0]] + [t[1]];
    BitsOfConcat([t[0]], [t[1]]);
    BitsOfOne(t[0]);
    BitsOfOne(t[1]);
  }

  lemma BitsOfOne(b: byte)
    ensures BitsOf([b]) == NatBits(b, 8)
  {
    assert BitsOf([b]) == ByteBits(b) + BitsOf([]);
  }

  /** The bit strings agree outside the n bits that start at k. */
  ghost predicate AgreeOutside(p: seq<bool>, q: seq<bool>, k: nat, n: nat)
    requires |p| == |q| && k + n <= |p|
  {
    p[..k] == q[..k] && p[k + n..] == q[k + n..]
  }

  /** Burst detection: two accepted packets of one length that differ only within 16 consecutive bits
      are the same packet, wherever the window lies and whatever the length. */
  lemma BurstDetected(p: seq<byte>, q: seq<byte>, k: nat)
    requires |p| == |q| >= 2 && k + 16 <= 8 * |p|
    requires AgreeOutside(BitsOf(p), BitsOf(q), k, 16)
    requires CheckCrc(p) && CheckCrc(q)
    ensures p == q
  {
    CheckIsResidue(p);
    CheckIsResidue(q);
    Widths();
    var a, b := BitsOf(p), BitsOf(q);
    var state := Serial(16, POLY, 0xffff, a[..k]);
    var v, u := a[k..k + 16], b[k..k + 16];
    SplitAround(a, k, state);
    SplitAround(b, k, state);
    SerialInjective(16, POLY, Serial(16, POLY, state, v), Serial(16, POLY, state, u), a[k + 16..]);
    WindowInjective(16, POLY, state, v, u);
    assert a == a[..k] + v + a[k + 16..] && b == b[..k] + u + b[k + 16..];
    BitsOfInjective(p, q);
  }

  lemma SplitAround(a: seq<bool>, k: nat, state: nat)
    requires k + 16 <= |a|
    requires Word(16, POLY) && Word(16, 0xffff) && state == Serial(16, POLY, 0xffff, a[..k])
    ensures Serial(16, POLY, 0xffff, a)
         == Serial(16, POLY, Serial(16, POLY, state, a[k..k + 16]), a[k + 16..])
  {
    SerialConcat(16, POLY, 0xffff, a[..k], a[k..]);
    SerialConcat(16, POLY, state, a[k..k + 16], a[k + 16..]);
    assert a == a[..k] + a[k..] && a[k..] == a[k..k + 16] + a[k + 16..];
  }

  /** Two adjacent damaged bytes are always noticed. */
  lemma AdjacentBytesDetected(p: seq<byte>, q: seq<byte>, i: nat)
    requires |p| == |q| && i + 2 <= |p| && p != q
    requires p[..i] == q[..i] && p[i + 2..] == q[i + 2..]
    ensures !(CheckCrc(p) && CheckCrc(q))
  {
    if CheckCrc(p) && CheckCrc(q) {
      BitsOfSplit(p, i);
      BitsOfSplit(q, i);
      assert BitsOf(p)[8 * i + 16..] == BitsOf(p[i + 2..]);
      BurstDetected(p, q, 8 * i);
    }
  }

  lemma BitsOfSplit(p: seq<byte>, i: nat)
    requires i + 2 <= |p|
    ensures BitsOf(p)[..8 * i] == BitsOf(p[..i])
    ensures BitsOf(p)[8 * i + 16..] == BitsOf(p[i + 2..])
  {
    BitsOfConcat(p[..i], p[i..]);
    BitsOfConcat(p[i..i + 2], p[i + 2..]);
    assert p == p[..i] + p[i..] && p[i..] == p[i..i + 2] + p[i + 2..];
  }

  /** crccheck of wfcrc.c: the register over the whole buffer ends in zero. */
  method CrcCheck(tab: seq<nat>, buf: seq<byte>) returns (ok: bool)
    requires IsTable(16, POLY, tab)
    ensures ok == (Crc16(0xffff, buf) == 0)
  {
    Widths();
    var crc := CrcLoop(16, POLY, tab, 0xffff, buf);
    ok := crc == 0;
  }

  function InvertLastTwo(buf: seq<byte>): (r: seq<byte>)
    requires |buf| >= 2
    ensures |r| == |buf|
  {
    buf[..|buf| - 2] + [255 - buf[|buf| - 2], 255 - buf[|buf| - 1]]
  }

  /** process_dabplus inverts the CRC bytes in place and asks crccheck; that is checkCRC of the original. */
  lemma CheckersAgree(buf: seq<byte>)
    requires |buf| >= 2
    ensures Crc16(0xffff, InvertLastTwo(buf)) == 0 <==> CheckCrc(buf)
  {
    Widths();
    var n := |buf|;
    var body, tail := buf[..n - 2], InvertLastTwo(buf)[n - 2..];
    assert InvertLastTwo(buf) == body + tail;
    CrcConcat(16, POLY, 0xffff, body, tail);
    var c, v := Crc16(0xffff, body), Read16(tail);
    TwoBytesAreWord(tail);
    SerialWord(16, POLY, c, v, 16);
    ZeroStaysZero(16);
    if Zeros(16, POLY, Xor(c, v), 16) == 0 {
      ZerosInjective(16, POLY, Xor(c, v), 0, 16);
      XorEqual(c, v);
    }
    XorSelf(c);
    assert v == 0xffff - Read16(buf[n - 2..]);
    XorOnes(16, c);
  }

  lemma {:induction false} ZeroStaysZero(n: nat)
    requires Word(16, POLY) && Word(16, 0)
    ensures Zeros(16, POLY, 0, n) == 0
  {
    if n > 0 { ZeroStaysZero(n - 1); }
  }

  /** The access-unit check of process_dabplus: flip the two CRC bytes in place, then run crccheck. For a unit of
      two bytes or more that accepts exactly when checkCRC accepts the unit as it came. */
  method AccessUnitCheck(tab: seq<nat>, data: array<byte>, start: nat, size: nat) returns (ok: bool)
    requires IsTable(16, POLY, tab)
    requires size > 0 && start + size >= 2 && start + size <= data.Length
    modifies data
    ensures data[..] == InvertLastTwo(old(data[..start + size])) + old(data[start + size..])
    ensures ok == (Crc16(0xffff, data[start..start + size]) == 0)
    ensures size >= 2 ==> ok == CheckCrc(old(data[start..start + size]))
  {
    ghost var unit := data[start..start + size];
    var e := start + size;
    data[e - 2] := 255 - data[e - 2];
    data[e - 1] := 255 - data[e - 1];
    ok := CrcCheck(tab, data[start..e]);
    if size >= 2 {
      assert data[start..e] == InvertLastTwo(unit);
      CheckersAgree(unit);
    }
    assert data[..] == data[..e] + data[e..];
  }

  /** The sender's two check bytes make the packet acceptable. */
  lemma AppendedCrcAccepted(body: seq<byte>)
    ensures Xor(Crc16(0xffff, body), 0xffff) < 0x1_0000
    ensures CheckCrc(body + Put16(Xor(Crc16(0xffff, body), 0xffff)))
  {
    Widths();
    XorBound(16, Crc16(0xffff, body), 0xffff);
    var buf := body + Put16(Xor(Crc16(0xffff, body), 0xffff));
    assert buf[..|buf| - 2] == body && buf[|buf| - 2..] == Put16(Xor(Crc16(0xffff, body), 0xffff));
  }

  /** And no others do. */
  lemma FieldUnique(body: seq<byte>, field: seq<byte>)
    requires |field| == 2
    ensures Xor(Crc16(0xffff, body), 0xffff) < 0x1_0000
    ensures CheckCrc(body + field) <==> field == Put16(Xor(Crc16(0xffff, body), 0xffff))
  {
    AppendedCrcAccepted(body);
    var buf := body + field;
    assert buf[..|buf| - 2] == body && buf[|buf| - 2..] == field;
  }

  // ----- the constants -----

  /** Entry 1 of a table is its polynomial: 0x07, 0x1021 and 0x04c11db7 in the three tables of crc.c. */
  lemma PolynomialInTable(w: nat, code: nat, tab: seq<nat>)
    requires w >= 8 && IsTable(w, code, tab)
    ensures tab[1] == code
  {
    ShlShl(1, w - 8, 7);
    Pow2Monotone(w - 7, w);
    ShlBound(1, 1, w - 8);
    ZerosShift(w, code, Shl(1, w - 8), 7);
    XorZero(code);
    assert tab[1] == TableEntry(w, code, 1);
  }

  /** One packet in numbers: behind the byte 01, checkCRC takes 0e 2e and nothing else. */
  lemma KnownPacket(hi: byte, lo: byte)
    ensures CheckCrc([1, hi, lo]) <==> hi == 0x0e && lo == 0x2e
  {
    Widths();
    CrcOneByte(16, POLY, 0xffff, 1);
    RegisterAfterOne();
    XorOnes(16, 0xf1d1);
    XorComm(0xf1d1, 0xffff);
    assert [1, hi, lo][..1] == [1] && [1, hi, lo][1..] == [hi, lo];
  }

  lemma RegisterAfterOne()
    ensures Word(16, POLY) && Word(16, 0xffff) && Serial(16, POLY, 0xffff, NatBits(1, 8)) == 0xf1d1
  {
    hide ShiftIn, Xor;
    Widths();
    NatBitsOfOne();
    var z := [false, false, false, false, false, false, false];
    SevenZeros();
    assert NatBits(1, 8)[..7] == z && NatBits(1, 8)[7];
    ShiftPoly(0x70f8, true);
  }

  lemma NatBitsOfOne()
    ensures NatBits(1, 8) == [false, false, false, false, false, false, false, true]
  {
    assert NatBits(0, 7) == NatBits(0, 6) + [false] && NatBits(0, 6) == NatBits(0, 5) + [false];
    assert NatBits(0, 5) == NatBits(0, 4) + [false] && NatBits(0, 4) == NatBits(0, 3) + [false];
    assert NatBits(0, 3) == NatBits(0, 2) + [false] && NatBits(0, 2) == NatBits(0, 1) + [false];
  }

  lemma SevenZeros()
    ensures Word(16, POLY) && Word(16, 0xffff)
    ensures Serial(16, POLY, 0xffff, [false, false, false, false, false, false, false]) == 0x70f8
  {
    hide Serial, AllFalse, ShiftedZero;
    FirstValues();
    LastValues();
    MoreZeros(0);
    NextZero(0, 0xffff);
    NextZero(1, 0xefdf);
    NextZero(2, 0xcf9f);
    NextZero(3, 0x8f1f);
    NextZero(4, 0x0e1f);
    NextZero(5, 0x1c3e);
    NextZero(6, 0x387c);
    SevenFalse();
  }

  lemma FirstValues()
    ensures ShiftedZero(0xffff) == 0xefdf && ShiftedZero(0xefdf) == 0xcf9f && ShiftedZero(0xcf9f) == 0x8f1f
  {
  }

  lemma LastValues()
    ensures ShiftedZero(0x8f1f) == 0x0e1f && ShiftedZero(0x0e1f) == 0x1c3e && ShiftedZero(0x1c3e) == 0x387c
    ensures ShiftedZero(0x387c) == 0x70f8
  {
  }

  lemma SevenFalse()
    ensures AllFalse(7) == [false, false, false, false, false, false, false]
  {
  }

  lemma NextZero(n: nat, reg: nat)
    requires reg < 0x1_0000
    ensures Word(16, POLY) && Word(16, 0xffff)
    ensures Serial(16, POLY, 0xffff, AllFalse(n)) == reg ==>
      Serial(16, POLY, 0xffff, AllFalse(n + 1)) == ShiftedZero(reg)
  {
    hide ShiftIn, Serial, AllFalse;
    MoreZeros(n);
    ShiftPoly(reg, false);
  }

  function ShiftedZero(reg: nat): nat {
    var s := 2 * reg % 0x1_0000;
    if reg >= 0x8000 then Turn(Turn(Turn(s, 0x1000), 0x20), 1) else s
  }

  function AllFalse(n: nat): (z: seq<bool>)
    ensures |z| == n
  {
    seq(n, _ => false)
  }

  lemma MoreZeros(n: nat)
    ensures Word(16, POLY) && Word(16, 0xffff)
    ensures Serial(16, POLY, 0xffff, AllFalse(0)) == 0xffff
    ensures Serial(16, POLY, 0xffff, AllFalse(n + 1)) == ShiftIn(16, POLY, Serial(16, POLY, 0xffff, AllFalse(n)), false)
  {
    Widths();
    assert AllFalse(n + 1)[..n] == AllFalse(n);
  }

  /** One step of the 16-bit register as arithmetic: the polynomial turns over bits 12, 5 and 0. */
  lemma ShiftPoly(reg: nat, bit: bool)
    requires reg < 0x1_0000
    ensures Word(16, POLY) && Word(16, reg)
    ensures var s := 2 * reg % 0x1_0000;
            ShiftIn(16, POLY, reg, bit) == if (reg >= 0x8000) != bit then Turn(Turn(Turn(s, 0x1000), 0x20), 1) else s
  {
    hide Xor;
    Widths();
    var s := 2 * reg % 0x1_0000;
    XorPower(s, 12);
    XorPower(Turn(s, 0x1000), 5);
    XorPower(Turn(Turn(s, 0x1000), 0x20), 0);
    Powers();
    XorAssoc(Xor(s, 0x1000), 0x20, 1);
    XorAssoc(s, 0x1000, 0x21);
    XorPower(0x20, 0);
    XorPower(0x1000, 5);
    XorPower(0x1020, 0);
    XorAssoc(0x1000, 0x20, 1);
  }

  lemma Powers()
    ensures Pow2(0) == 1 && Pow2(5) == 0x20 && Pow2(12) == 0x1000
  {
    assert Pow2(5) == 2 * Pow2(4) == 4 * Pow2(3) == 8 * Pow2(2) == 16 * Pow2(1);
    ShlShl(1, 5, 5);
    assert Shl(0x20, 5) == 2 * Shl(0x20, 4) == 4 * Shl(0x20, 3) == 8 * Shl(0x20, 2) == 16 * Shl(0x20, 1) == 0x400;
    assert Pow2(12) == 2 * Pow2(11) == 4 * Pow2(10);
  }

  function Turn(x: nat, p: nat): nat
    requires p > 0
  {
    if x / p % 2 == 1 && x >= p then x - p else x + p
  }

  lemma {:induction false} XorPower(x: nat, k: nat)
    ensures Xor(x, Pow2(k)) == Turn(x, Pow2(k))
  {
    if k == 0 {
      XorZero(x / 2);
    } else {
      XorPower(x / 2, k - 1);
      TurnDoubled(x, Pow2(k - 1));
      XorDoubled(x / 2, x % 2, Pow2(k - 1), 0);
      hide Xor, Turn;
    }
  }

  lemma TurnDoubled(x: nat, p: nat)
    requires p > 0
    ensures Turn(x, 2 * p) == 2 * Turn(x / 2, p) + x % 2
  {
    HalfThenDivide(x, p);
  }
}
