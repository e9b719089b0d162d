/** The Reed-Solomon layer of PFT (pf_parser.c, ETSI TS 102 821 sections 7.2 and 7.4.4): an RS packet of
    chunks of n bytes is spread column-wise over f fragments of s bytes, so byte i of the packet is byte
    i / f of fragment i % f. */
module Fec {
  import opened Arith
  import opened Bits

  /** The position in the RS packet of byte k of fragment j. */
  function Position(f: nat, j: nat, k: nat): nat {
    k * f + j
  }

  /** The fragment that carries byte x of the packet, and the byte of that fragment. */
  function FragmentOf(f: nat, x: nat): nat
    requires f > 0
  {
    x % f
  }

  function OffsetIn(f: nat, x: nat): nat
    requires f > 0
  {
    x / f
  }

  lemma PositionInverse(f: nat, j: nat, k: nat)
    requires j < f
    ensures FragmentOf(f, Position(f, j, k)) == j && OffsetIn(f, Position(f, j, k)) == k
  {
    DivModUnique(Position(f, j, k), f, k, j);
  }

  lemma PositionBound(f: nat, s: nat, j: nat, k: nat)
    requires j < f && k < s
    ensures Position(f, j, k) < f * s
  {
    MulStrict(k, s, f);
  }

  // ----- erasure bookkeeping -----

  /** The chunk offsets that the first k bytes of missing fragment j add to the erasure row of chunk c. */
  ghost function Column(f: nat, n: nat, c: nat, j: nat, k: nat): (r: seq<nat>)
    requires n > 0
  {
    if k == 0 then []
    else
      var p := Position(f, j, k - 1);
      Column(f, n, c, j, k - 1) + if p / n == c then [p % n] else []
  }

  /** The erasure row of chunk c after fragments 0..j-1, of which those in `have` arrived. */
  ghost function Row(f: nat, s: nat, n: nat, have: set<nat>, c: nat, j: nat): (r: seq<nat>)
    requires n > 0
  {
    if j == 0 then []
    else Row(f, s, n, have, c, j - 1) + if j - 1 in have then [] else Column(f, n, c, j - 1, s)
  }

  ghost function Missing(have: set<nat>, j: nat): nat {
    if j == 0 then 0 else Missing(have, j - 1) + if j - 1 in have then 0 else 1
  }

  /** The total number of erasures in the rows of the first c chunks. */
  ghost function Erasures(f: nat, s: nat, n: nat, have: set<nat>, c: nat, j: nat): nat
    requires n > 0
  {
    if c == 0 then 0 else Erasures(f, s, n, have, c - 1, j) + |Row(f, s, n, have, c - 1, j)|
  }

  /** The first byte of fragment j that lies at or behind position x. */
  ghost function FirstAt(f: nat, j: nat, x: nat): (k: nat)
    requires j < f
    ensures x <= Position(f, j, k)
    ensures k > 0 ==> Position(f, j, k - 1) < x
  {
    if x <= j then 0
    else
      var d := (x - j - 1) / f;
      assert x - j - 1 == d * f + (x - j - 1) % f by { DivMod(x - j - 1, f); }
      assert (d + 1) * f == d * f + f;
      d + 1
  }

  lemma FirstAtIff(f: nat, j: nat, x: nat, k: nat)
    requires j < f
    ensures FirstAt(f, j, x) <= k <==> x <= Position(f, j, k)
  {
    var a := FirstAt(f, j, x);
    if a <= k { MulMono(a, k, f); } else { MulMono(k, a - 1, f); }
  }

  ghost function Min(a: nat, b: nat): nat {
    if a <= b then a else b
  }

  /** Byte k of the fragment lies in chunk c exactly between two bounds. */
  lemma InChunk(f: nat, n: nat, c: nat, j: nat, k: nat)
    requires j < f && n > 0
    ensures Position(f, j, k) / n == c <==> FirstAt(f, j, c * n) <= k < FirstAt(f, j, (c + 1) * n)
  {
    var p := Position(f, j, k);
    FirstAtIff(f, j, c * n, k);
    FirstAtIff(f, j, (c + 1) * n, k);
    if c * n <= p < (c + 1) * n {
      DivBelow(p, n, c + 1);
      DivAtLeast(p, n, c);
    } else {
      DivMod(p, n);
    }
  }

  lemma FirstAtMonotone(f: nat, j: nat, x: nat, y: nat)
    requires j < f && x <= y
    ensures FirstAt(f, j, x) <= FirstAt(f, j, y)
  {
    FirstAtIff(f, j, x, FirstAt(f, j, y));
  }

  lemma {:induction false} ColumnLength(f: nat, n: nat, c: nat, j: nat, k: nat)
    requires j < f && n > 0
    ensures FirstAt(f, j, c * n) <= FirstAt(f, j, (c + 1) * n)
    ensures |Column(f, n, c, j, k)| == Min(k, FirstAt(f, j, (c + 1) * n)) - Min(k, FirstAt(f, j, c * n))
  {
    MulMono(c, c + 1, n);
    FirstAtMonotone(f, j, c * n, (c + 1) * n);
    if k > 0 {
      ColumnLength(f, n, c, j, k - 1);
      InChunk(f, n, c, j, k - 1);
    }
  }

  /** One missing fragment costs a chunk at most ceil(n / f) bytes. */
  lemma ColumnBound(f: nat, n: nat, c: nat, j: nat, k: nat)
    requires j < f && n > 0
    ensures |Column(f, n, c, j, k)| <= (n + f - 1) / f
  {
    ColumnLength(f, n, c, j, k);
    var a, b := FirstAt(f, j, c * n), FirstAt(f, j, (c + 1) * n);
    assert (c + 1) * n == c * n + n;
    if a < b { SpanBound(f, n, a, b, c * n, j); }
  }

  lemma SpanBound(f: nat, n: nat, a: nat, b: nat, x: nat, j: nat)
    requires a < b && f > 0 && x <= a * f + j && (b - 1) * f + j < x + n
    ensures b - a <= (n + f - 1) / f
  {
    assert (b - a) * f == (b - 1) * f - a * f + f;
    DivAtLeast(n + f - 1, f, b - a);
  }

  /** A chunk has at most ceil(n / f) erasures for each missing fragment. */
  lemma {:induction false} RowBound(f: nat, s: nat, n: nat, have: set<nat>, c: nat, j: nat)
    requires j <= f && f > 0 && n > 0
    ensures |Row(f, s, n, have, c, j)| <= Missing(have, j) * ((n + f - 1) / f)
  {
    if j > 0 {
      RowBound(f, s, n, have, c, j - 1);
      ColumnBound(f, n, c, j - 1, s);
      var b := (n + f - 1) / f;
      assert (Missing(have, j - 1) + 1) * b == Missing(have, j - 1) * b + b;
    }
  }

  lemma {:induction false} ColumnMember(f: nat, n: nat, c: nat, j: nat, k: nat, o: nat, x: nat)
    requires j < f && n > 0 && x == c * n + o
    ensures o in Column(f, n, c, j, k) <==> o < n && FragmentOf(f, x) == j && OffsetIn(f, x) < k
  {
    if k > 0 {
      ColumnMember(f, n, c, j, k - 1, o, x);
      var p := Position(f, j, k - 1);
      PositionInverse(f, j, k - 1);
      if p / n == c && p % n == o { DivMod(p, n); }
      if o < n && FragmentOf(f, x) == j && OffsetIn(f, x) == k - 1 {
        DivMod(x, f);
        DivModUnique(p, n, c, o);
      }
    }
  }

  /** The erasure rows list exactly the byte positions of the missing fragments. */
  lemma {:induction false} RowMember(f: nat, s: nat, n: nat, have: set<nat>, c: nat, j: nat, o: nat, x: nat)
    requires j <= f && f > 0 && n > 0 && x == c * n + o
    ensures o in Row(f, s, n, have, c, j)
       <==> o < n && FragmentOf(f, x) < j && FragmentOf(f, x) !in have && OffsetIn(f, x) < s
  {
    hide FragmentOf, OffsetIn, Column, Position;
    if j > 0 {
      RowMember(f, s, n, have, c, j - 1, o, x);
      ColumnMember(f, n, c, j - 1, s, o, x);
      RowStep(f, s, n, have, c, j, o);
    }
  }

  lemma RowStep(f: nat, s: nat, n: nat, have: set<nat>, c: nat, j: nat, o: nat)
    requires j > 0 && n > 0
    ensures o in Row(f, s, n, have, c, j)
       <==> o in Row(f, s, n, have, c, j - 1) || (j - 1 !in have && o in Column(f, n, c, j - 1, s))
  {
    InConcat(o, Row(f, s, n, have, c, j - 1), Column(f, n, c, j - 1, s));
  }

  lemma InConcat(o: nat, a: seq<nat>, b: seq<nat>)
    ensures o in a + b <==> o in a || o in b
  {
  }

  ghost predicate Distinct(r: seq<nat>) {
    forall a, b :: 0 <= a < b < |r| ==> r[a] != r[b]
  }

  lemma {:induction false} ColumnDistinct(f: nat, n: nat, c: nat, j: nat, k: nat)
    requires j < f && n > 0
    ensures Distinct(Column(f, n, c, j, k))
  {
    if k > 0 {
      ColumnDistinct(f, n, c, j, k - 1);
      var p := Position(f, j, k - 1);
      if p / n == c {
        DivMod(p, n);
        ColumnMember(f, n, c, j, k - 1, p % n, p);
        PositionInverse(f, j, k - 1);
      }
    }
  }

  lemma DistinctConcat(a: seq<nat>, b: seq<nat>)
    requires Distinct(a) && Distinct(b) && forall o :: o in a ==> o !in b
    ensures Distinct(a + b)
  {
    forall i, j | 0 <= i < j < |a + b| ensures (a + b)[i] != (a + b)[j] {
      if i < |a| <= j { assert a[i] in a && b[j - |a|] in b; }
    }
  }

  lemma ColumnIsNew(f: nat, s: nat, n: nat, have: set<nat>, c: nat, j: nat, o: nat, x: nat)
    requires j < f && n > 0 && x == c * n + o && o in Row(f, s, n, have, c, j)
    ensures o !in Column(f, n, c, j, s)
  {
    RowMember(f, s, n, have, c, j, o, x);
    ColumnMember(f, n, c, j, s, o, x);
  }

  lemma ColumnDisjoint(f: nat, s: nat, n: nat, have: set<nat>, c: nat, j: nat, before: seq<nat>, column: seq<nat>)
    requires j < f && n > 0
    requires before == Row(f, s, n, have, c, j) && column == Column(f, n, c, j, s)
    ensures forall o :: o in before ==> o !in column
  {
    forall o | o in before ensures o !in column {
      ColumnIsNew(f, s, n, have, c, j, o, c * n + o);
    }
  }

  lemma {:induction false} RowDistinct(f: nat, s: nat, n: nat, have: set<nat>, c: nat, j: nat)
    requires j <= f && f > 0 && n > 0
    ensures Distinct(Row(f, s, n, have, c, j))
  {
    if j > 0 {
      RowDistinct(f, s, n, have, c, j - 1);
      ColumnDistinct(f, n, c, j - 1, s);
      ColumnDisjoint(f, s, n, have, c, j - 1, Row(f, s, n, have, c, j - 1), Column(f, n, c, j - 1, s));
      DistinctConcat(Row(f, s, n, have, c, j - 1), Column(f, n, c, j - 1, s));
    }
  }

  /** A row of distinct offsets below n has at most n entries, so the 256 cells of a row suffice. */
  lemma RowFits(f: nat, s: nat, n: nat, have: set<nat>, c: nat, j: nat)
    requires j <= f && f > 0 && n > 0
    ensures |Row(f, s, n, have, c, j)| <= n
    ensures forall o :: o in Row(f, s, n, have, c, j) ==> o < n
  {
    var r := Row(f, s, n, have, c, j);
    RowDistinct(f, s, n, have, c, j);
    forall o | o in r ensures o < n { RowMember(f, s, n, have, c, j, o, c * n + o); }
    Pigeonhole(r, n);
  }

  lemma {:induction false} Pigeonhole(r: seq<nat>, n: nat)
    requires Distinct(r) && forall o :: o in r ==> o < n
    ensures |r| <= n
  {
    if n == 0 {
      assert forall i :: 0 <= i < |r| ==> r[i] in r;
    } else if n - 1 in r {
      var i :| 0 <= i < |r| && r[i] == n - 1;
      var t := r[..i] + r[i + 1..];
      assert forall o :: o in t ==> o in r && o != n - 1;
      Pigeonhole(t, n - 1);
    } else {
      Pigeonhole(r, n - 1);
    }
  }

  lemma {:induction false} ErasuresStep(f: nat, s: nat, n: nat, have: set<nat>, c: nat, j: nat)
    requires 0 < j <= f && n > 0
    ensures Erasures(f, s, n, have, c, j)
         == Erasures(f, s, n, have, c, j - 1) + if j - 1 in have then 0 else Min(s, FirstAt(f, j - 1, c * n))
  {
    if c == 0 {
    } else {
      ErasuresStep(f, s, n, have, c - 1, j);
      ColumnLength(f, n, c - 1, j - 1, s);
    }
  }

  /** Every byte of fragment j lies below position x of the packet. */
  ghost predicate Inside(f: nat, s: nat, j: nat, x: nat) {
    s > 0 ==> Position(f, j, s - 1) < x
  }

  /** The bytes of the missing fragments all belong to chunks that are decoded. */
  ghost predicate LossInside(f: nat, s: nat, n: nat, have: set<nat>, cmax: nat, j: nat) {
    forall i: nat :: i < j && i !in have ==> Inside(f, s, i, cmax * n)
  }

  /** Missing fragments always lie inside when the fragments hold exactly the RS packet. */
  lemma ExactFit(f: nat, s: nat, n: nat, have: set<nat>, cmax: nat)
    requires f * s == cmax * n
    ensures LossInside(f, s, n, have, cmax, f)
  {
    forall i: nat | i < f && i !in have ensures Inside(f, s, i, cmax * n) {
      if s > 0 { PositionBound(f, s, i, s - 1); }
    }
  }

  /** When the missing fragments lie inside the decoded chunks, m of them are m * s erasures in all. */
  lemma {:induction false} ErasuresTotal(f: nat, s: nat, n: nat, have: set<nat>, cmax: nat, j: nat)
    requires j <= f && n > 0 && LossInside(f, s, n, have, cmax, j)
    ensures Erasures(f, s, n, have, cmax, j) == Missing(have, j) * s
  {
    hide Erasures, FirstAt, Position;
    if j == 0 {
      NoErasures(f, s, n, have, cmax);
    } else {
      ErasuresTotal(f, s, n, have, cmax, j - 1);
      ErasuresStep(f, s, n, have, cmax, j);
      if j - 1 !in have && s > 0 {
        assert Inside(f, s, j - 1, cmax * n);
        FirstAtIff(f, j - 1, cmax * n, s - 1);
      }
      assert (Missing(have, j - 1) + 1) * s == Missing(have, j - 1) * s + s;
    }
  }

  lemma {:induction false} NoErasures(f: nat, s: nat, n: nat, have: set<nat>, c: nat)
    requires n > 0
    ensures Erasures(f, s, n, have, c, 0) == 0
  {
    if c > 0 { NoErasures(f, s, n, have, c - 1); }
  }

  lemma {:induction false} RowEmpty(f: nat, s: nat, n: nat, have: set<nat>, c: nat, j: nat)
    requires n > 0 && forall i :: 0 <= i < j ==> i in have
    ensures Row(f, s, n, have, c, j) == []
  {
    if j > 0 { RowEmpty(f, s, n, have, c, j - 1); }
  }

  lemma {:induction false} MissingCount(have: set<nat>, f: nat)
    requires forall i :: i in have ==> i < f
    ensures Missing(have, f) + |have| == f
  {
    if f == 0 {
      assert have == {};
    } else {
      var rest := have - {f - 1};
      MissingCount(rest, f - 1);
      MissingSame(have, rest, f - 1);
    }
  }

  lemma {:induction false} MissingSame(a: set<nat>, b: set<nat>, j: nat)
    requires forall i :: 0 <= i < j ==> (i in a <==> i in b)
    ensures Missing(a, j) == Missing(b, j)
  {
    if j > 0 { MissingSame(a, b, j - 1); }
  }

  lemma {:induction false} NoneMissing(have: set<nat>, f: nat, i: nat)
    requires Missing(have, f) == 0 && i < f
    ensures i in have
  {
    if i < f - 1 { NoneMissing(have, f - 1, i); }
  }

  // ----- the number of chunks and the threshold -----

  /** The receiver derives the number of chunks from the fragment count and length alone. */
  lemma ChunkCount(c: nat, n: nat, f: nat, s: nat)
    requires n > 0 && 0 < f <= n && s == (c * n + f - 1) / f
    ensures c * n <= f * s < (c + 1) * n
    ensures (f * s) / n == c
  {
    DivMod(c * n + f - 1, f);
    assert (c + 1) * n == c * n + n;
    DivModUnique(f * s, n, c, f * s - c * n);
  }

  /** Enough fragments mean at most 48 lost bytes per chunk on average. */
  lemma ThresholdBoundsLoss(f: nat, s: nat, cmax: nat, got: nat)
    requires s > 0 && got <= f && (48 * cmax) / s <= f && got >= f - (48 * cmax) / s
    ensures (f - got) * s <= 48 * cmax
  {
    DivMod(48 * cmax, s);
    MulMono(f - got, (48 * cmax) / s, s);
  }

  // ----- the deinterleaver -----

  /** Byte i of the block the receiver builds: zero where the fragment is missing. */
  function BlockByte(f: nat, frags: map<nat, seq<byte>>, i: nat): byte
    requires f > 0
  {
    var j, k := FragmentOf(f, i), OffsetIn(f, i);
    if j in frags && k < |frags[j]| then frags[j][k] else 0
  }

  ghost function Block(f: nat, s: nat, frags: map<nat, seq<byte>>): (b: seq<byte>)
    requires f > 0
    ensures |b| == f * s
  {
    seq(f * s, i requires 0 <= i < f * s => BlockByte(f, frags, i))
  }

  /** The sender's fragment j of an RS packet padded with zeros to f * s bytes. */
  function Spread(f: nat, s: nat, packet: seq<byte>, j: nat): (r: seq<byte>)
    requires j < f
    ensures |r| == s
  {
    seq(s, k requires 0 <= k < s =>
      if Position(f, j, k) < |packet| then packet[Position(f, j, k)] else 0)
  }

  /** A fragment carries its bytes of the packet; behind the end of the packet it may hold anything. */
  ghost predicate CarriesColumn(f: nat, s: nat, packet: seq<byte>, j: nat, part: seq<byte>) {
    |part| == s && forall k: nat :: k < s && Position(f, j, k) < |packet| ==> part[k] == packet[Position(f, j, k)]
  }

  /** With every fragment present, deinterleaving undoes the spreading, whatever the last column is padded with. */
  lemma BlockOfSpread(f: nat, s: nat, packet: seq<byte>, frags: map<nat, seq<byte>>)
    requires f > 0 && |packet| <= f * s
    requires forall j: nat :: j < f ==> j in frags && CarriesColumn(f, s, packet, j, frags[j])
    ensures Block(f, s, frags)[..|packet|] == packet
  {
    forall i | 0 <= i < |packet| ensures Block(f, s, frags)[i] == packet[i] {
      SpreadAt(f, s, i);
      assert CarriesColumn(f, s, packet, FragmentOf(f, i), frags[FragmentOf(f, i)]);
    }
  }

  lemma SpreadAt(f: nat, s: nat, i: nat)
    requires f > 0 && i < f * s
    ensures 0 <= FragmentOf(f, i) < f && 0 <= OffsetIn(f, i) < s
    ensures Position(f, FragmentOf(f, i), OffsetIn(f, i)) == i
  {
    DivMod(i, f);
    DivBelow(i, f, s);
    assert Position(f, FragmentOf(f, i), OffsetIn(f, i)) == i;
  }

  // ----- chunks -----

  /** A codec chunk: k data bytes, zero padding to 207, 48 check bytes. */
  function Padded(data: seq<byte>, parity: seq<byte>): (c: seq<byte>)
    requires |data| <= 207
  {
    data + seq(207 - |data|, _ => 0) + parity
  }

  type RsDecoder = f: (seq<byte>, seq<nat>) -> seq<byte> | (forall c, e :: |c| == 255 ==> |f(c, e)| == 255)
    witness (c, e) => c

  /** Forty-eight check bytes for given data bytes. */
  type Parity = f: seq<byte> -> seq<byte> | forall d :: |f(d)| == 48
    witness d => seq(48, _ => 0)

  /** The chunk at offset b of the block. */
  function ChunkAt(k: nat, block: seq<byte>, b: nat): (r: seq<byte>)
    requires k <= 207 && b + k + 48 <= |block|
    ensures |r| == 255
  {
    Padded(block[b..b + k], block[b + k..b + k + 48])
  }

  /** The data bytes of the first |rows| chunks after decoding, the erasures of chunk i in rows[i]. */
  ghost function Decoded(rs: RsDecoder, k: nat, block: seq<byte>, rows: seq<seq<nat>>): (r: seq<byte>)
    requires k <= 207
  {
    if rows == [] || |block| < k + 48 then []
    else rs(ChunkAt(k, block, 0), rows[0])[..k] + Decoded(rs, k, block[k + 48..], rows[1..])
  }

  lemma {:induction false} DecodedLength(rs: RsDecoder, k: nat, block: seq<byte>, rows: seq<seq<nat>>)
    requires k <= 207 && |rows| * (k + 48) <= |block|
    ensures |Decoded(rs, k, block, rows)| == |rows| * k
  {
    if rows != [] {
      Predecessor(|rows|, k + 48);
      Predecessor(|rows|, k);
      DecodedLength(rs, k, block[k + 48..], rows[1..]);
    }
  }

  lemma Predecessor(c: nat, k: nat)
    requires c > 0
    ensures c * k == (c - 1) * k + k && (c - 1) * k >= 0
  {
  }

  /** The sender's RS packet: each chunk of data followed by its check bytes. */
  ghost function Encoded(parity: Parity, chunks: seq<seq<byte>>): seq<byte> {
    if chunks == [] then [] else chunks[0] + parity(chunks[0]) + Encoded(parity, chunks[1..])
  }

  ghost predicate AllOfLength<T>(chunks: seq<seq<T>>, k: nat) {
    forall i :: 0 <= i < |chunks| ==> |chunks[i]| == k
  }

  lemma AllOfLengthTail<T>(chunks: seq<seq<T>>, k: nat)
    requires chunks != [] && AllOfLength(chunks, k)
    ensures AllOfLength(chunks[1..], k)
  {
  }

  lemma {:induction false} EncodedLength(parity: Parity, chunks: seq<seq<byte>>, k: nat)
    requires AllOfLength(chunks, k)
    ensures |Encoded(parity, chunks)| == |chunks| * (k + 48) && |Flatten(chunks)| == |chunks| * k
  {
    if chunks != [] {
      EncodedLength(parity, chunks[1..], k);
      Predecessor(|chunks|, k + 48);
      Predecessor(|chunks|, k);
    }
  }

  ghost predicate Fixed(rs: RsDecoder, parity: Parity, d: seq<byte>)
    requires |d| <= 207
  {
    rs(Padded(d, parity(d)), []) == Padded(d, parity(d))
  }

  /** The decoder leaves codewords alone. */
  ghost predicate FixesCodewords(rs: RsDecoder, parity: Parity) {
    forall d :: |d| <= 207 ==> Fixed(rs, parity, d)
  }

  /** The decoder of a program built without FEC changes nothing. */
  function NoDecoder(): RsDecoder {
    (c: seq<byte>, e: seq<nat>) => c
  }

  lemma NoDecoderFixes(parity: Parity)
    ensures FixesCodewords(NoDecoder(), parity)
  {
  }

  lemma CodewordFixed(rs: RsDecoder, parity: Parity, d: seq<byte>)
    requires FixesCodewords(rs, parity) && |d| <= 207
    ensures Fixed(rs, parity, d)
  {
  }

  lemma IntactChunk(rs: RsDecoder, parity: Parity, block: seq<byte>, d: seq<byte>, rest: seq<byte>)
    requires |d| <= 207 && Fixed(rs, parity, d) && block == d + parity(d) + rest
    ensures rs(ChunkAt(|d|, block, 0), [])[..|d|] == d && block[|d| + 48..] == rest
  {
    assert block[0..|d|] == d && block[|d|..|d| + 48] == parity(d);
    PaddedData(d, parity(d));
  }

  lemma PaddedData(d: seq<byte>, par: seq<byte>)
    requires |d| <= 207 && |par| == 48
    ensures |Padded(d, par)| == 255 && Padded(d, par)[..|d|] == d
  {
  }

  /** Chunk by chunk, decoding an intact RS packet gives back the data. */
  lemma {:induction false} DecodedOfEncoded(rs: RsDecoder, parity: Parity, k: nat, chunks: seq<seq<byte>>,
      rest: seq<byte>, rows: seq<seq<nat>>)
    requires k <= 207 && AllOfLength(chunks, k) && FixesCodewords(rs, parity)
    requires |rows| == |chunks| && AllOfLength(rows, 0)
    ensures Decoded(rs, k, Encoded(parity, chunks) + rest, rows) == Flatten(chunks)
  {
    if chunks != [] {
      EncodedFirst(parity, chunks, rest);
      DecodedFirst(rs, parity, k, chunks[0], Encoded(parity, chunks[1..]) + rest, rows,
        Encoded(parity, chunks) + rest);
      AllOfLengthTail(chunks, k);
      AllOfLengthTail(rows, 0);
      hide FixesCodewords, AllOfLength;
      DecodedOfEncoded(rs, parity, k, chunks[1..], rest, rows[1..]);
    }
  }

  lemma EncodedFirst(parity: Parity, chunks: seq<seq<byte>>, rest: seq<byte>)
    requires chunks != []
    ensures Encoded(parity, chunks) + rest
         == chunks[0] + parity(chunks[0]) + (Encoded(parity, chunks[1..]) + rest)
  {
    ConcatAssoc(chunks[0] + parity(chunks[0]), Encoded(parity, chunks[1..]), rest);
  }

  lemma DecodedFirst(rs: RsDecoder, parity: Parity, k: nat, d: seq<byte>, rest: seq<byte>, rows: seq<seq<nat>>,
      block: seq<byte>)
    requires k <= 207 && |d| == k && FixesCodewords(rs, parity) && rows != [] && |rows[0]| == 0
    requires block == d + parity(d) + rest
    ensures Decoded(rs, k, block, rows) == d + Decoded(rs, k, rest, rows[1..])
  {
    CodewordFixed(rs, parity, d);
    IntactChunk(rs, parity, block, d, rest);
  }
}
