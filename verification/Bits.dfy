/** Bytes, big-endian fields and the bit operations the C code applies to unsigned words.
    A word is a natural number below a power of two; shifts are multiplications and divisions by
    powers of two, and exclusive-or is defined bit by bit. */
module Bits {

  type byte = x: int | 0 <= x < 256

  datatype Option<+T> = None | Some(value: T)

  lemma ConcatAssoc<T>(a: seq<T>, b: seq<T>, c: seq<T>)
    ensures (a + b) + c == a + (b + c)
  {
  }

  function Flatten(pieces: seq<seq<byte>>): seq<byte> {
    if pieces == [] then [] else pieces[0] + Flatten(pieces[1..])
  }

  function Read16(s: seq<byte>): (r: nat)
    requires |s| >= 2
    ensures r < 0x1_0000
  {
    256 * (s[0] as int) + s[1]
  }

  function Read24(s: seq<byte>): (r: nat)
    requires |s| >= 3
    ensures r < 0x100_0000
  {
    0x1_0000 * (s[0] as int) + 256 * (s[1] as int) + s[2]
  }

  function Read32(s: seq<byte>): (r: nat)
    requires |s| >= 4
    ensures r < 0x1_0000_0000
  {
    0x1_0000 * Read16(s) + Read16(s[2..])
  }

  function Put16(n: nat): (s: seq<byte>)
    requires n < 0x1_0000
    ensures |s| == 2 && Read16(s) == n
  {
    [n / 256, n % 256]
  }

  function Put24(n: nat): (s: seq<byte>)
    requires n < 0x100_0000
    ensures |s| == 3 && Read24(s) == n
  {
    [n / 0x1_0000] + Put16(n % 0x1_0000)
  }

  function Put32(n: nat): (s: seq<byte>)
    requires n < 0x1_0000_0000
    ensures |s| == 4 && Read32(s) == n
  {
    Put16(n / 0x1_0000) + Put16(n % 0x1_0000)
  }

  /** The most significant byte stands first. */
  lemma BigEndian(a: byte, b: byte, c: byte, d: byte)
    ensures Read16([a, b]) == 0x100 * a + b
    ensures Read24([a, b, c]) == 0x1_0000 * a + 0x100 * b + c
    ensures Read32([a, b, c, d]) == 0x100_0000 * a + 0x1_0000 * b + 0x100 * c + d
  {
    assert [a, b, c, d][2..] == [c, d];
  }

  lemma ReadPut32(s: seq<byte>, v: nat)
    requires v < 0x1_0000_0000 && |s| >= 4 && s[..4] == Put32(v)
    ensures Read32(s) == v
  {
    assert forall k :: 0 <= k < 4 ==> s[k] == s[..4][k];
  }

  lemma ReadPut16(s: seq<byte>, v: nat, more: seq<byte>)
    requires v < 0x1_0000 && s == Put16(v) + more
    ensures Read16(s) == v
  {
    assert s[0] == Put16(v)[0] && s[1] == Put16(v)[1];
  }

  lemma ReadPut24(s: seq<byte>, v: nat, more: seq<byte>)
    requires v < 0x100_0000 && s == Put24(v) + more
    ensures Read24(s) == v
  {
    assert s[0] == Put24(v)[0] && s[1] == Put24(v)[1] && s[2] == Put24(v)[2];
  }

  lemma ReadPut32At(s: seq<byte>, v: nat, more: seq<byte>)
    requires v < 0x1_0000_0000 && s == Put32(v) + more
    ensures Read32(s) == v
  {
    hide Read32, Put32;
    assert s[..4] == Put32(v);
    ReadPut32(s, v);
  }

  /** The C expression a << k on an unbounded word. */
  function Shl(a: nat, k: nat): (r: nat)
    ensures a <= r
  {
    if k == 0 then a else 2 * Shl(a, k - 1)
  }

  function Pow2(k: nat): (p: nat)
    ensures p > 0
  {
    Shl(1, k)
  }

  lemma {:induction false} ShlLinear(a: nat, b: nat, k: nat)
    ensures Shl(a + b, k) == Shl(a, k) + Shl(b, k)
  {
    if k > 0 { ShlLinear(a, b, k - 1); }
  }

  lemma ShlZero(k: nat)
    ensures Shl(0, k) == 0
  {
    ShlLinear(0, 0, k);
  }

  lemma {:induction false} ShlShl(a: nat, j: nat, k: nat)
    ensures Shl(Shl(a, j), k) == Shl(a, j + k)
  {
    if k > 0 { ShlShl(a, j, k - 1); }
  }

  lemma {:induction false} ShlBound(a: nat, j: nat, k: nat)
    requires a < Pow2(j)
    ensures Shl(a, k) < Pow2(j + k)
  {
    if k > 0 { ShlBound(a, j, k - 1); }
  }

  /** Bitwise exclusive-or of two unsigned words. */
  function Xor(a: nat, b: nat): nat {
    if a == 0 && b == 0 then 0
    else 2 * Xor(a / 2, b / 2) + if a % 2 == b % 2 then 0 else 1
  }

  /** Bitwise inclusive-or of two unsigned words. */
  function Or(a: nat, b: nat): nat {
    if a == 0 && b == 0 then 0
    else 2 * Or(a / 2, b / 2) + if a % 2 == 0 && b % 2 == 0 then 0 else 1
  }

  lemma {:induction false} XorComm(a: nat, b: nat)
    ensures Xor(a, b) == Xor(b, a)
  {
    if a != 0 || b != 0 { XorComm(a / 2, b / 2); }
  }

  lemma {:induction false} XorAssoc(a: nat, b: nat, c: nat)
    ensures Xor(Xor(a, b), c) == Xor(a, Xor(b, c))
    decreases a + b + c
  {
    if a != 0 || b != 0 || c != 0 {
      XorAssoc(a / 2, b / 2, c / 2);
      XorHalves(a, b);
      XorHalves(b, c);
      XorHalves(Xor(a, b), c);
      XorHalves(a, Xor(b, c));
    }
  }

  lemma XorHalves(a: nat, b: nat)
    ensures Xor(a, b) / 2 == Xor(a / 2, b / 2)
    ensures Xor(a, b) % 2 == if a % 2 == b % 2 then 0 else 1
  {
  }

  lemma {:induction false} XorZero(a: nat)
    ensures Xor(a, 0) == a && Xor(0, a) == a
  {
    if a != 0 { XorZero(a / 2); }
  }

  lemma {:induction false} XorSelf(a: nat)
    ensures Xor(a, a) == 0
  {
    if a != 0 { XorSelf(a / 2); }
  }

  lemma {:induction false} XorEqual(a: nat, b: nat)
    requires Xor(a, b) == 0
    ensures a == b
  {
    if a != 0 || b != 0 { XorEqual(a / 2, b / 2); }
  }

  /** Exclusive-or works on the high and the low part of a word separately. */
  lemma {:induction false} XorSplit(k: nat, a: nat, x: nat, b: nat, y: nat)
    requires x < Pow2(k) && y < Pow2(k)
    ensures Xor(x, y) < Pow2(k)
    ensures Xor(Shl(a, k) + x, Shl(b, k) + y) == Shl(Xor(a, b), k) + Xor(x, y)
  {
    hide Xor;
    if k == 0 {
      XorZero(0);
    } else {
      XorSplit(k - 1, a, x / 2, b, y / 2);
      XorDoubled(Shl(a, k - 1), x, Shl(b, k - 1), y);
      XorDoubled(0, x, 0, y);
    }
  }

  lemma XorDoubled(a: nat, x: nat, b: nat, y: nat)
    ensures Xor(2 * a + x, 2 * b + y) == 2 * Xor(a + x / 2, b + y / 2) + if x % 2 == y % 2 then 0 else 1
  {
    assert (2 * a + x) / 2 == a + x / 2 && (2 * b + y) / 2 == b + y / 2;
  }

  lemma XorTwice(a: nat, b: nat)
    ensures Xor(2 * a, 2 * b) == 2 * Xor(a, b)
  {
    XorDoubled(a, 0, b, 0);
  }

  lemma XorOfBits(a: nat, b: nat)
    requires a < 2 && b < 2
    ensures Xor(a, b) == if a == b then 0 else 1
  {
    assert Xor(0, 0) == 0;
  }

  lemma XorBound(k: nat, x: nat, y: nat)
    requires x < Pow2(k) && y < Pow2(k)
    ensures Xor(x, y) < Pow2(k)
  {
    XorSplit(k, 0, x, 0, y);
    ShlLinear(0, 0, k);
  }

  /** A shifted word and a word below the shift have no bit in common. */
  lemma XorDisjoint(k: nat, a: nat, x: nat)
    requires x < Pow2(k)
    ensures Xor(Shl(a, k), x) == Shl(a, k) + x
  {
    hide Xor;
    ShlZero(k);
    XorSplit(k, a, 0, 0, x);
    XorZero(a);
    XorZero(x);
  }

  lemma {:induction false} OrDisjoint(k: nat, a: nat, x: nat)
    requires x < Pow2(k)
    ensures Or(Shl(a, k), x) == Shl(a, k) + x
  {
    if k == 0 {
      OrZero(a);
    } else {
      OrDisjoint(k - 1, a, x / 2);
    }
  }

  lemma {:induction false} OrZero(a: nat)
    ensures Or(a, 0) == a
  {
    if a != 0 { OrZero(a / 2); }
  }

  /** Complementing every bit of an n-bit word is subtraction from the all-ones word. */
  lemma {:induction false} XorOnes(n: nat, v: nat)
    requires v < Pow2(n)
    ensures Xor(v, Pow2(n) - 1) == Pow2(n) - 1 - v
  {
    if n > 0 {
      XorOnes(n - 1, v / 2);
    }
  }

  /** The low n bits of v, most significant bit first. */
  function NatBits(v: nat, n: nat): (r: seq<bool>)
    ensures |r| == n
  {
    if n == 0 then [] else NatBits(v / 2, n - 1) + [v % 2 == 1]
  }

  function ByteBits(b: byte): seq<bool> {
    NatBits(b, 8)
  }

  /** The bits of a byte string in transmission order. */
  function BitsOf(s: seq<byte>): (r: seq<bool>)
    ensures |r| == 8 * |s|
  {
    if s == [] then [] else ByteBits(s[0]) + BitsOf(s[1..])
  }

  lemma {:induction false} BitsOfConcat(s: seq<byte>, t: seq<byte>)
    ensures BitsOf(s + t) == BitsOf(s) + BitsOf(t)
  {
    if s == [] {
      assert s + t == t;
    } else {
      BitsOfConcat(s[1..], t);
      assert (s + t)[1..] == s[1..] + t;
    }
  }

  lemma {:induction false} NatBitsConcat(a: nat, n: nat, b: nat, k: nat)
    requires b < Pow2(k)
    ensures NatBits(Shl(a, k) + b, n + k) == NatBits(a, n) + NatBits(b, k)
  {
    if k > 0 {
      NatBitsConcat(a, n, b / 2, k - 1);
    }
  }

  lemma {:induction false} NatBitsInjective(v: nat, u: nat, n: nat)
    requires v < Pow2(n) && u < Pow2(n) && NatBits(v, n) == NatBits(u, n)
    ensures v == u
  {
    if n > 0 {
      var a, b := NatBits(v / 2, n - 1), NatBits(u / 2, n - 1);
      assert NatBits(v, n)[..n - 1] == a && NatBits(u, n)[..n - 1] == b;
      assert NatBits(v, n)[n - 1] == (v % 2 == 1) && NatBits(u, n)[n - 1] == (u % 2 == 1);
      NatBitsInjective(v / 2, u / 2, n - 1);
    }
  }

  lemma {:induction false} BitsOfInjective(s: seq<byte>, t: seq<byte>)
    requires BitsOf(s) == BitsOf(t)
    ensures s == t
  {
    assert |s| == |t|;
    if s != [] {
      assert ByteBits(s[0]) == BitsOf(s)[..8] == BitsOf(t)[..8] == ByteBits(t[0]);
      assert Pow2(8) == 256;
      NatBitsInjective(s[0], t[0], 8);
      assert BitsOf(s[1..]) == BitsOf(s)[8..] == BitsOf(t)[8..] == BitsOf(t[1..]);
      BitsOfInjective(s[1..], t[1..]);
      assert s == [s[0]] + s[1..] && t == [t[0]] + t[1..];
    }
  }
}
