/** What forward error correction is for: fragments are lost, and the AF packet comes back. The decoder is a parameter;
    it is assumed to correct what a code with 48 check bytes can correct, and pf_parser.c has to hand it the right
    words. */
module FecRecovery {
  import opened Arith
  import opened Bits
  import opened Fec
  import opened Pft

  // ----- the decoder -----

  /** The positions at which w differs from c although e does not name them. */
  ghost function Unnamed(w: seq<byte>, c: seq<byte>, e: seq<nat>): set<nat>
    requires |w| == |c|
  {
    set i: nat | i < |w| && w[i] != c[i] && i !in e
  }

  /** Word w lies within the decoding radius of codeword c: two named positions cost as much as one unnamed. */
  ghost predicate InRadius(w: seq<byte>, c: seq<byte>, e: seq<nat>) {
    |w| == |c| == 255 && |e| + 2 * |Unnamed(w, c, e)| <= 48
  }

  ghost predicate Corrected(rs: RsDecoder, parity: Parity, d: seq<byte>, w: seq<byte>, e: seq<nat>)
    requires |d| <= 207
  {
    InRadius(w, Padded(d, parity(d)), e) ==> rs(w, e) == Padded(d, parity(d))
  }

  /** A decoder for erasures and errors up to the radius of 48 check bytes. */
  ghost predicate Corrects(rs: RsDecoder, parity: Parity) {
    forall d, w, e :: |d| <= 207 ==> Corrected(rs, parity, d, w, e)
  }

  lemma CorrectedAt(rs: RsDecoder, parity: Parity, d: seq<byte>, w: seq<byte>, e: seq<nat>)
    requires Corrects(rs, parity) && |d| <= 207
    ensures Corrected(rs, parity, d, w, e)
  {
  }

  /** Such a decoder leaves codewords alone. */
  lemma CorrectsFixes(rs: RsDecoder, parity: Parity)
    requires Corrects(rs, parity)
    ensures FixesCodewords(rs, parity)
  {
    forall d | |d| <= 207 ensures Fixed(rs, parity, d) {
      var c := Padded(d, parity(d));
      CorrectedAt(rs, parity, d, c, []);
      assert Unnamed(c, c, []) == {};
    }
  }

  // ----- the positions named -----

  /** Where byte o of a chunk stands in the word for the decoder: the check bytes behind the padding. */
  function WordAt(k: nat, o: nat): nat
    requires k <= 207
  {
    if o < k then o else o + 207 - k
  }

  /** The bytes of the row that are check bytes. */
  ghost function Checks(k: nat, row: seq<nat>): set<nat> {
    set o | o in row && o >= k
  }

  /** The erasures are named by their place in the chunk, not in the word. With 207 data bytes a chunk that is the same;
      otherwise every lost check byte counts as an error that is not named. */
  ghost function Unfound(k: nat, row: seq<nat>): nat {
    if k == 207 then 0 else |Checks(k, row)|
  }

  /** The loss is within the radius of the decoder, as the row names it. */
  ghost predicate Correctable(k: nat, row: seq<nat>) {
    |row| + 2 * Unfound(k, row) <= 48
  }

  /** The row names exactly the places of the word where bytes are missing if and only if there is no padding or no
      check byte is lost. */
  lemma NamedIff(k: nat, row: seq<nat>)
    requires k <= 207 && forall o :: o in row ==> o < k + 48
    ensures (forall o :: o in row ==> WordAt(k, o) in row) <==> k == 207 || Checks(k, row) == {}
  {
    if k < 207 && Checks(k, row) != {} {
      var last := Largest(Checks(k, row));
      assert last in row && WordAt(k, last) > last && WordAt(k, last) !in Checks(k, row);
    } else if k < 207 {
      assert forall o :: o in row ==> o !in Checks(k, row);
    }
  }

  lemma {:induction false} Largest(s: set<nat>) returns (x: nat)
    requires s != {}
    ensures x in s && forall y :: y in s ==> y <= x
    decreases |s|
  {
    x :| x in s;
    if s != {x} {
      assert s - {x} != {};
      var y := Largest(s - {x});
      assert forall z :: z in s ==> z == x || z in s - {x};
      if y > x { x := y; }
    }
  }

  /** And check bytes are lost: with up to 48 fragments every missing fragment costs every chunk one of its check
      bytes. */
  lemma LossHitsChecks(h: Header, s: nat, have: set<nat>, c: nat, j: nat) returns (o: nat)
    requires h.fec && 0 < h.fcount <= 48 && j < h.fcount && j !in have && c < CMax(h, s)
    ensures o in Row(h.fcount, s, ChunkSize(h), have, c, h.fcount) && o in Checks(h.rsk, Rows(h, s, have)[c])
  {
    var f, n, k, cmax := h.fcount, ChunkSize(h), h.rsk as nat, CMax(h, s);
    assert n == k + 48;
    ChunksFill(h, s);
    hide CMax, ChunkSize, Row, FragmentOf, OffsetIn;
    var d := NextOf(c * n + k, f, j);
    o := k + d;
    MulStrict(c, cmax, n);
    PlaceOf(c * n + o, f, s, j);
    RowMember(f, s, n, have, c, f, o, c * n + o);
  }

  lemma ChunksFill(h: Header, s: nat)
    requires h.fec
    ensures CMax(h, s) * ChunkSize(h) <= h.fcount * s
  {
    DivMod(h.fcount * s, ChunkSize(h));
  }

  lemma NextOf(base: nat, f: nat, j: nat) returns (d: nat)
    requires j < f
    ensures d < f && (base + d) % f == j
  {
    DivMod(base, f);
    var q, r := base / f, base % f;
    if j >= r {
      d := j - r;
      DivModUnique(base + d, f, q, j);
    } else {
      d := j + f - r;
      assert (q + 1) * f == q * f + f;
      DivModUnique(base + d, f, q + 1, j);
    }
  }

  lemma PlaceOf(x: nat, f: nat, s: nat, j: nat)
    requires f > 0 && x < f * s && x % f == j
    ensures FragmentOf(f, x) == j && OffsetIn(f, x) < s
  {
    DivBelow(x, f, s);
  }

  // ----- one chunk -----

  /** Chunk y agrees with the bytes sent except where the row says that a byte is missing. */
  ghost predicate Agrees(y: seq<byte>, sent: seq<byte>, row: seq<nat>) {
    |y| == |sent| && forall o :: 0 <= o < |y| && o !in row ==> y[o] == sent[o]
  }

  lemma UnnamedAreChecks(d: seq<byte>, par: seq<byte>, y: seq<byte>, row: seq<nat>)
    requires |d| <= 207 && |par| == 48 && Agrees(y, d + par, row)
    ensures var k := |d|;
            |Unnamed(Padded(y[..k], y[k..]), Padded(d, par), row)| <= Unfound(k, row)
  {
    var k := |d|;
    var w, c := Padded(y[..k], y[k..]), Padded(d, par);
    var u := Unnamed(w, c, row);
    assert forall i :: 0 <= i < k ==> w[i] == y[i] && c[i] == (d + par)[i];
    assert forall i :: k <= i < 207 ==> w[i] == c[i];
    assert forall i :: 207 <= i < 255 ==> w[i] == y[i + k - 207] && c[i] == (d + par)[i + k - 207];
    if k == 207 {
      assert u == {};
    } else {
      Shifted(u, Checks(k, row), 207 - k);
    }
  }

  lemma {:induction false} Shifted(a: set<nat>, b: set<nat>, x: nat)
    requires forall i :: i in a ==> i >= x && i - x in b
    ensures |a| <= |b|
    decreases |a|
  {
    if a != {} {
      var i :| i in a;
      Shifted(a - {i}, b - {i - x}, x);
    }
  }

  /** A chunk that lost no more than the decoder can correct is decoded to its data. */
  lemma ChunkRecovered(rs: RsDecoder, parity: Parity, d: seq<byte>, y: seq<byte>, row: seq<nat>)
    requires Corrects(rs, parity) && |d| <= 207 && Agrees(y, d + parity(d), row) && Correctable(|d|, row)
    ensures rs(Padded(y[..|d|], y[|d|..]), row)[..|d|] == d
  {
    var k := |d|;
    var w, c := Padded(y[..k], y[k..]), Padded(d, parity(d));
    UnnamedAreChecks(d, parity(d), y, row);
    CorrectedAt(rs, parity, d, w, row);
    PaddedData(d, parity(d));
  }

  // ----- all chunks -----

  /** The block is the packet sent except where the rows, one a chunk of n bytes, say that a byte is missing. */
  ghost predicate AgreesOff(block: seq<byte>, sent: seq<byte>, n: nat, rows: seq<seq<nat>>) {
    rows != [] ==>
      && n <= |block| && n <= |sent| && Agrees(block[..n], sent[..n], rows[0])
      && AgreesOff(block[n..], sent[n..], n, rows[1..])
  }

  ghost predicate AllCorrectable(k: nat, rows: seq<seq<nat>>) {
    forall i :: 0 <= i < |rows| ==> Correctable(k, rows[i])
  }

  lemma {:induction false} ChunksRecovered(rs: RsDecoder, parity: Parity, k: nat, chunks: seq<seq<byte>>,
      block: seq<byte>, rows: seq<seq<nat>>)
    requires k <= 207 && AllOfLength(chunks, k) && Corrects(rs, parity) && |rows| == |chunks|
    requires AgreesOff(block, Encoded(parity, chunks), k + 48, rows) && AllCorrectable(k, rows)
    ensures Decoded(rs, k, block, rows) == Flatten(chunks)
  {
    hide Corrects, Correctable, Agrees;
    if chunks != [] {
      var d, n := chunks[0], k + 48;
      var y := block[..n];
      assert Encoded(parity, chunks)[..n] == d + parity(d);
      assert Encoded(parity, chunks)[n..] == Encoded(parity, chunks[1..]);
      ChunkRecovered(rs, parity, d, y, rows[0]);
      assert ChunkAt(k, block, 0) == Padded(y[..k], y[k..]);
      AllOfLengthTail(chunks, k);
      ChunksRecovered(rs, parity, k, chunks[1..], block[n..], rows[1..]);
    }
  }

  /** The receiver's rows name every byte of a chunk in which its block can differ from the packet sent. */
  lemma RowNamesLoss(f: nat, s: nat, n: nat, packet: seq<byte>, parts: seq<seq<byte>>, have: set<nat>, c: nat, a: nat)
    requires f > 0 && n > 0 && |packet| <= f * s && IsSpread(parts, f, s, packet)
    requires (forall i :: i in have ==> i < f) && a == c * n && a + n <= |packet|
    ensures Agrees(Block(f, s, Parts(parts, have))[a..a + n], packet[a..a + n], Row(f, s, n, have, c, f))
  {
    hide Row, FragmentOf, OffsetIn, Position, CarriesColumn;
    var block := Block(f, s, Parts(parts, have));
    forall o | 0 <= o < n && o !in Row(f, s, n, have, c, f) ensures block[a + o] == packet[a + o] {
      RowMember(f, s, n, have, c, f, o, a + o);
      SpreadAt(f, s, a + o);
      ArrivedByte(f, s, packet, parts, have, a + o);
    }
  }

  lemma ArrivedByte(f: nat, s: nat, packet: seq<byte>, parts: seq<seq<byte>>, have: set<nat>, x: nat)
    requires f > 0 && x < |packet| <= f * s && IsSpread(parts, f, s, packet)
    requires (forall i :: i in have ==> i < f) && FragmentOf(f, x) in have && OffsetIn(f, x) < s
    requires Position(f, FragmentOf(f, x), OffsetIn(f, x)) == x
    ensures BlockByte(f, Parts(parts, have), x) == packet[x]
  {
    hide FragmentOf, OffsetIn, Position;
    assert CarriesColumn(f, s, packet, FragmentOf(f, x), parts[FragmentOf(f, x)]);
  }

  lemma {:induction false} RowsNameLoss(h: Header, s: nat, packet: seq<byte>, parts: seq<seq<byte>>, have: set<nat>,
      c: nat, a: nat)
    requires h.fec && h.fcount > 0 && |packet| <= h.fcount * s && IsSpread(parts, h.fcount, s, packet)
    requires (forall i :: i in have ==> i < h.fcount) && c <= CMax(h, s) && a == c * ChunkSize(h)
    requires |packet| == CMax(h, s) * ChunkSize(h) && a <= |packet|
    ensures AgreesOff(Block(h.fcount, s, Parts(parts, have))[a..], packet[a..], ChunkSize(h), Rows(h, s, have)[c..])
    decreases CMax(h, s) - c
  {
    var n, block, rows := ChunkSize(h), Block(h.fcount, s, Parts(parts, have)), Rows(h, s, have);
    hide ChunkSize, CMax, IsSpread, Agrees, Row, Parts, BlockByte;
    if c < CMax(h, s) {
      MulStrict(c, CMax(h, s), n);
      assert (c + 1) * n == a + n;
      RowNamesLoss(h.fcount, s, n, packet, parts, have, c, a);
      RowsNameLoss(h, s, packet, parts, have, c + 1, a + n);
      assert block[a..][..n] == block[a..a + n] && packet[a..][..n] == packet[a..a + n];
      assert block[a..][n..] == block[a + n..] && packet[a..][n..] == packet[a + n..];
      assert rows[c..][0] == rows[c] && rows[c..][1..] == rows[c + 1..];
    }
  }

  // ----- the packet -----

  /** With FEC and loss: if every chunk lost no more than the decoder can correct, deinterleaving and decoding give the
      AF packet back without its padding. */
  lemma RebuiltDespiteLoss(rs: RsDecoder, parity: Parity, h: Header, s: nat, af: seq<byte>, chunks: seq<seq<byte>>,
      parts: seq<seq<byte>>, have: set<nat>)
    requires CodedAs(af, chunks, h, s) && Corrects(rs, parity)
    requires IsSpread(parts, h.fcount, s, Encoded(parity, chunks)) && forall i :: i in have ==> i < h.fcount
    requires AllCorrectable(h.rsk, Rows(h, s, have))
    ensures Rebuilt(rs, h, s, Parts(parts, have)) == af
  {
    hide *;
    CodingFacts(af, chunks, h, s);
    SpreadSize(parts, h.fcount, s, Encoded(parity, chunks));
    RebuiltSteps(rs, parity, h, s, chunks, parts, have);
  }

  lemma CodingFacts(af: seq<byte>, chunks: seq<seq<byte>>, h: Header, s: nat)
    requires CodedAs(af, chunks, h, s)
    ensures h.fec && 0 < h.fcount <= ChunkSize(h) && h.rsk <= 207 && AllOfLength(chunks, h.rsk)
    ensures s == (|chunks| * ChunkSize(h) + h.fcount - 1) / h.fcount
    ensures |Flatten(chunks)| >= h.rsz as nat && af == Flatten(chunks)[..|Flatten(chunks)| - h.rsz as nat]
  {
    hide AllOfLength, Flatten;
  }

  lemma SpreadSize(parts: seq<seq<byte>>, f: nat, s: nat, packet: seq<byte>)
    requires IsSpread(parts, f, s, packet)
    ensures |parts| == f
  {
  }

  lemma RebuiltSteps(rs: RsDecoder, parity: Parity, h: Header, s: nat, chunks: seq<seq<byte>>, parts: seq<seq<byte>>,
      have: set<nat>)
    requires h.fec && 0 < h.fcount <= ChunkSize(h) && h.rsk <= 207 && Corrects(rs, parity)
    requires AllOfLength(chunks, h.rsk) && s == (|chunks| * ChunkSize(h) + h.fcount - 1) / h.fcount
    requires |parts| == h.fcount && IsSpread(parts, h.fcount, s, Encoded(parity, chunks))
    requires (forall i :: i in have ==> i < h.fcount) && AllCorrectable(h.rsk, Rows(h, s, have))
    requires |Flatten(chunks)| >= h.rsz as nat
    ensures Rebuilt(rs, h, s, Parts(parts, have)) == Flatten(chunks)[..|Flatten(chunks)| - h.rsz as nat]
  {
    hide *;
    Geometry(parity, h, s, chunks);
    EncodedSize(parity, h, chunks);
    DecodedDespiteLoss(rs, parity, h, s, chunks, parts, have);
    RebuiltFromData(rs, h, s, Parts(parts, have), Flatten(chunks));
  }

  lemma EncodedSize(parity: Parity, h: Header, chunks: seq<seq<byte>>)
    requires AllOfLength(chunks, h.rsk)
    ensures |Encoded(parity, chunks)| == |chunks| * ChunkSize(h)
  {
    EncodedLength(parity, chunks, h.rsk);
  }

  lemma DecodedDespiteLoss(rs: RsDecoder, parity: Parity, h: Header, s: nat, chunks: seq<seq<byte>>,
      parts: seq<seq<byte>>, have: set<nat>)
    requires h.fec && h.fcount > 0 && h.rsk <= 207 && Corrects(rs, parity) && AllOfLength(chunks, h.rsk)
    requires CMax(h, s) == |chunks| && |Encoded(parity, chunks)| == |chunks| * ChunkSize(h) <= h.fcount * s
    requires |parts| == h.fcount && IsSpread(parts, h.fcount, s, Encoded(parity, chunks))
    requires (forall i :: i in have ==> i < h.fcount) && AllCorrectable(h.rsk, Rows(h, s, have))
    ensures Parts(parts, have).Keys == have
    ensures Decoded(rs, h.rsk, Block(h.fcount, s, Parts(parts, have)), Rows(h, s, have)) == Flatten(chunks)
  {
    hide AllCorrectable, Corrects, Encoded, IsSpread, AllOfLength, Decoded, Rows, Block, CMax, AgreesOff;
    var packet, block := Encoded(parity, chunks), Block(h.fcount, s, Parts(parts, have));
    RowsNameLoss(h, s, packet, parts, have, 0, 0);
    assert block[0..] == block && packet[0..] == packet && Rows(h, s, have)[0..] == Rows(h, s, have);
    ChunksRecovered(rs, parity, h.rsk, chunks, block, Rows(h, s, have));
  }

  lemma RebuiltFromData(rs: RsDecoder, h: Header, s: nat, frags: map<nat, seq<byte>>, data: seq<byte>)
    requires h.fec && h.rsk <= 207 && h.fcount > 0 && |data| >= h.rsz as nat
    requires Decoded(rs, h.rsk, Block(h.fcount, s, frags), Rows(h, s, frags.Keys)) == data
    ensures Rebuilt(rs, h, s, frags) == data[..|data| - h.rsz as nat]
  {
  }

  /** What decides, in numbers, whether decoding of a packet in c chunks is tried: the missing fragments hold no more
      bytes than the chunks have check bytes, and if the last fragment arrived there is room for one more. */
  ghost predicate Affordable(f: nat, s: nat, c: nat, have: set<nat>) {
    && Missing(have, f) * s <= 48 * c
    && (f - 1 in have ==> (Missing(have, f) + 1) * s <= 48 * c)
  }

  /** With FEC a slot is tried if and only if its loss is affordable. */
  lemma TriedIff(h: Header, s: nat, parts: seq<seq<byte>>, have: set<nat>)
    requires h.fec && s > 0 && |parts| == h.fcount && forall i :: i in have ==> i < h.fcount
    ensures Ready(h, s, Parts(parts, have)) <==> Affordable(h.fcount, s, CMax(h, s), have)
  {
    hide Ready, CMax;
    MissingCount(have, h.fcount);
    assert Parts(parts, have).Keys == have;
    ReadyIff(h, s, Parts(parts, have), Missing(have, h.fcount));
  }

  /** Over a whole run: a packet that lost fragments is handed out exactly once, with its own bytes, if the loss can be
      afforded and every chunk is correctable. */
  lemma DeliveredDespiteLoss(af: seq<byte>, chunks: seq<seq<byte>>, p: nat, rs: RsDecoder, parity: Parity, h: Header,
      s: nat, parts: seq<seq<byte>>, first: Fragment, pre: seq<Fragment>, mid: seq<Fragment>, q: Fragment,
      post: seq<Fragment>)
    requires CodedAs(af, chunks, h, s) && Accepted(af) && Corrects(rs, parity)
    requires IsSpread(parts, h.fcount, s, Encoded(parity, chunks)) && OnlyPartsOf(p, parts, mid)
    requires (forall e :: e in pre ==> e.pseq != p) && (forall e :: e in post ==> e.pseq != p)
    requires q.pseq != p && q.pseq % SLOTS == p % SLOTS
    requires forall i :: i in Indices(p, mid) ==> i < h.fcount
    requires Affordable(h.fcount, s, |chunks|, Indices(p, mid)) && AllCorrectable(h.rsk, Rows(h, s, Indices(p, mid)))
    ensures h.rsk <= 207 && h.fcount > 0
    ensures HandedOut(p, rs, h, s, Start(first), pre + mid) == []
    ensures HandedOut(p, rs, h, s, Start(first), pre + mid + [q] + post) == [af]
  {
    assert |parts| == h.fcount;
    hide CodedAs, Rebuilt, Ready, Accepted, Indices, OnlyPartsOf, HandedOut, Corrects, Encoded, IsSpread,
      AllCorrectable, Rows, Affordable, CMax;
    StartIsClear(p, first);
    CodedBounds(af, chunks, h, s);
    ChunksSent(af, chunks, parity, h, s);
    TriedIff(h, s, parts, Indices(p, mid));
    EmptySlotSilent(rs, h, s);
    RebuiltDespiteLoss(rs, parity, h, s, af, chunks, parts, Indices(p, mid));
    DecidedOnce(p, parts, rs, h, s, Start(first), pre, mid, q, post);
  }

  lemma ChunksSent(af: seq<byte>, chunks: seq<seq<byte>>, parity: Parity, h: Header, s: nat)
    requires CodedAs(af, chunks, h, s)
    ensures CMax(h, s) == |chunks|
  {
    hide Flatten, AllOfLength, Encoded, CMax;
    Geometry(parity, h, s, chunks);
  }

  /** A bound a sender can plan with: m missing fragments cost a chunk at most m * ceil((RSk + 48) / Fcount) bytes,
      which must not exceed 48, or 16 where check bytes are named wrongly. */
  lemma LossBudget(h: Header, s: nat, have: set<nat>)
    requires h.fec && h.fcount > 0 && h.rsk <= 207
    requires Missing(have, h.fcount) * ((ChunkSize(h) + h.fcount - 1) / h.fcount) <= if h.rsk == 207 then 48 else 16
    ensures AllCorrectable(h.rsk, Rows(h, s, have))
  {
    forall c | 0 <= c < CMax(h, s) ensures Correctable(h.rsk, Rows(h, s, have)[c]) {
      var row := Row(h.fcount, s, ChunkSize(h), have, c, h.fcount);
      RowBound(h.fcount, s, ChunkSize(h), have, c, h.fcount);
      ChecksBound(h.rsk, row);
    }
  }

  lemma {:induction false} ChecksBound(k: nat, row: seq<nat>)
    ensures |Checks(k, row)| <= |row|
  {
    if row == [] {
      assert Checks(k, row) == {};
    } else {
      ChecksBound(k, row[1..]);
      assert Checks(k, row) <= Checks(k, row[1..]) + {row[0]};
      SubsetSize(Checks(k, row), Checks(k, row[1..]) + {row[0]});
    }
  }

  lemma SubsetSize(a: set<nat>, b: set<nat>)
    requires a <= b
    ensures |a| <= |b|
  {
    assert b == a + (b - a);
  }

  /** Within that bound, with one fragment to spare, the loss is also affordable: s = ceil(c * n / f) is at most
      c * ceil(n / f). */
  lemma BudgetIsAffordable(f: nat, n: nat, s: nat, c: nat, have: set<nat>)
    requires f > 0 && s == (c * n + f - 1) / f && (Missing(have, f) + 1) * ((n + f - 1) / f) <= 48
    ensures Affordable(f, s, c, have)
  {
    CeilingOfProduct(f, n, s, c, (n + f - 1) / f);
    WithinCheckBytes(Missing(have, f), (n + f - 1) / f, c, s);
  }

  lemma WithinCheckBytes(m: nat, b: nat, c: nat, s: nat)
    requires s <= c * b && (m + 1) * b <= 48
    ensures m * s <= (m + 1) * s <= 48 * c
  {
    MulMono(m, m + 1, s);
    MulMono(s, c * b, m + 1);
    Reorder(m + 1, b, c);
    MulMono((m + 1) * b, 48, c);
  }

  lemma Reorder(x: nat, y: nat, z: nat)
    ensures (z * y) * x == (x * y) * z
  {
    assert (z * y) * x == z * (y * x);
  }

  lemma CeilingOfProduct(f: nat, n: nat, s: nat, c: nat, b: nat)
    requires f > 0 && s == (c * n + f - 1) / f && b == (n + f - 1) / f
    ensures s <= c * b
  {
    DivMod(n + f - 1, f);
    assert n <= b * f;
    MulMono(n, b * f, c);
    assert c * (b * f) == (c * b) * f;
    assert c * n + f - 1 < (c * b) * f + f == (c * b + 1) * f;
    DivBelow(c * n + f - 1, f, c * b + 1);
  }

  /** With B = ceil((RSk + 48) / Fcount), the loss of m fragments is within the budget if (m + 1) * B is at most 48 and,
      for RSk below 207, m * B at most 16. */
  ghost predicate WithinBudget(h: Header, m: nat)
    requires h.fcount > 0
  {
    var b := (h.rsk as nat + 48 + h.fcount - 1) / h.fcount;
    (m + 1) * b <= 48 && (h.rsk < 207 ==> m * b <= 16)
  }

  /** What a sender can rely on, in its own numbers alone: fragments of a packet are lost, the others arrive in any
      order; within the budget the packet comes back exactly once. */
  lemma DeliveredWithinBudget(af: seq<byte>, chunks: seq<seq<byte>>, p: nat, rs: RsDecoder, parity: Parity, h: Header,
      s: nat, parts: seq<seq<byte>>, first: Fragment, pre: seq<Fragment>, mid: seq<Fragment>, q: Fragment,
      post: seq<Fragment>)
    requires CodedAs(af, chunks, h, s) && Accepted(af) && Corrects(rs, parity)
    requires IsSpread(parts, h.fcount, s, Encoded(parity, chunks)) && OnlyPartsOf(p, parts, mid)
    requires (forall e :: e in pre ==> e.pseq != p) && (forall e :: e in post ==> e.pseq != p)
    requires q.pseq != p && q.pseq % SLOTS == p % SLOTS
    requires forall i :: i in Indices(p, mid) ==> i < h.fcount
    requires WithinBudget(h, Missing(Indices(p, mid), h.fcount))
    ensures h.rsk <= 207 && h.fcount > 0
    ensures HandedOut(p, rs, h, s, Start(first), pre + mid) == []
    ensures HandedOut(p, rs, h, s, Start(first), pre + mid + [q] + post) == [af]
  {
    hide *;
    CodingFacts(af, chunks, h, s);
    BudgetSuffices(h, s, |chunks|, Indices(p, mid));
    DeliveredDespiteLoss(af, chunks, p, rs, parity, h, s, parts, first, pre, mid, q, post);
  }

  lemma BudgetSuffices(h: Header, s: nat, c: nat, have: set<nat>)
    requires h.fec && h.fcount > 0 && h.rsk <= 207 && s == (c * ChunkSize(h) + h.fcount - 1) / h.fcount
    requires WithinBudget(h, Missing(have, h.fcount))
    ensures Affordable(h.fcount, s, c, have) && AllCorrectable(h.rsk, Rows(h, s, have))
  {
    hide Missing, Affordable, AllCorrectable, Rows;
    var m, b := Missing(have, h.fcount), (ChunkSize(h) + h.fcount - 1) / h.fcount;
    BudgetIsAffordable(h.fcount, ChunkSize(h), s, c, have);
    MulMono(m, m + 1, b);
    LossBudget(h, s, have);
  }
}
