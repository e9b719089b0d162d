/** UECP frames from RTP extension chunks (uecp_process_ext of mpe2aac.c). Chunks are repeated on the air; a frame
    is to be forwarded once. */
module Uecp {
  import opened Bits

  const LIMIT := 4096

  datatype Chunk = Chunk(id: nat, data: seq<byte>)

  /** Fields of an RTP extension: None where the function returns at once. */
  function ParseExt(ext: seq<byte>): Option<Chunk> {
    if |ext| < 29 then None
    else
      var len := ext[25] as nat;
      if len == 0 || 28 + len > |ext| then None
      else Some(Chunk(Read32(ext[20..]), ext[28..28 + len]))
  }

  ghost predicate ChunkOk(c: Chunk) {
    c.id < 0x1_0000_0000 && 1 <= |c.data| <= 255
  }

  /** An extension that carries a chunk, with anything in the unused fields and behind the data. */
  function WriteExt(c: Chunk, head: seq<byte>, a: byte, b: byte, more: seq<byte>): seq<byte>
    requires ChunkOk(c) && |head| == 20
  {
    head + Put32(c.id) + [a, |c.data|, b, b] + c.data + more
  }

  lemma ExtRoundTrip(c: Chunk, head: seq<byte>, a: byte, b: byte, more: seq<byte>)
    requires ChunkOk(c) && |head| == 20
    ensures ParseExt(WriteExt(c, head, a, b, more)) == Some(c)
  {
    hide Put32, Read32;
    var ext := WriteExt(c, head, a, b, more);
    ReadPut32(ext[20..], c.id);
    assert ext[28..28 + |c.data|] == c.data;
  }

  // ----- the state machine -----

  /** uecp_t: assembling or not, the bytes so far, the identifier of the last accepted chunk. */
  datatype State = State(inFrame: bool, buf: seq<byte>, last: nat)

  datatype Stepped = Stepped(state: State, sent: seq<seq<byte>>)

  function Accept(buf: seq<byte>, c: Chunk): Stepped
    requires |c.data| > 0
  {
    if |buf| + |c.data| > LIMIT then Stepped(State(false, [], c.id), [])
    else if c.data[|c.data| - 1] == 0xff then Stepped(State(false, [], c.id), [buf + c.data])
    else Stepped(State(true, buf + c.data, c.id), [])
  }

  function Step(s: State, c: Chunk): Stepped
    requires |c.data| > 0
  {
    if !s.inFrame then
      if c.data[0] != 0xfe then Stepped(s, []) else Accept([], c)
    else if c.id == s.last then Stepped(s, [])
    else Accept(s.buf, c)
  }

  predicate NonEmpty(cs: seq<Chunk>) {
    forall k :: 0 <= k < |cs| ==> |cs[k].data| > 0
  }

  function Run(s: State, cs: seq<Chunk>): Stepped
    requires NonEmpty(cs)
    decreases |cs|
  {
    if cs == [] then Stepped(s, [])
    else
      var one := Step(s, cs[0]);
      var rest := Run(one.state, cs[1..]);
      Stepped(rest.state, one.sent + rest.sent)
  }

  lemma {:induction false} RunConcat(s: State, a: seq<Chunk>, b: seq<Chunk>)
    requires NonEmpty(a) && NonEmpty(b)
    ensures NonEmpty(a + b)
    ensures var x := Run(s, a); var y := Run(x.state, b); Run(s, a + b) == Stepped(y.state, x.sent + y.sent)
    decreases |a|
  {
    hide Step;
    if a == [] {
      assert a + b == b;
    } else {
      var one := Step(s, a[0]);
      var x := Run(one.state, a[1..]);
      RunConcat(one.state, a[1..], b);
      assert (a + b)[1..] == a[1..] + b;
      ConcatAssoc(one.sent, x.sent, Run(x.state, b).sent);
    }
  }

  // ----- what a frame on the air looks like -----

  function Concat(f: seq<Chunk>): seq<byte> {
    if f == [] then [] else Concat(f[..|f| - 1]) + f[|f| - 1].data
  }

  function First(c: Chunk): byte
    requires |c.data| > 0
  {
    c.data[0]
  }

  function Last(c: Chunk): byte
    requires |c.data| > 0
  {
    c.data[|c.data| - 1]
  }

  /** The chunks of a frame begin with 0xFE, end with 0xFF and nowhere before at a chunk boundary, and neighbours
      can be told apart. */
  ghost predicate IsFrame(f: seq<Chunk>) {
    && |f| > 0 && NonEmpty(f) && First(f[0]) == 0xfe && |Concat(f)| <= 4096
    && (forall k :: 0 <= k < |f| ==> (Last(f[k]) == 0xff <==> k == |f| - 1))
    && (forall k :: 0 < k < |f| ==> f[k].id != f[k - 1].id)
  }

  function Copies(c: Chunk, n: nat): (r: seq<Chunk>)
    ensures |r| == n && forall k :: 0 <= k < n ==> r[k] == c
  {
    seq(n, _ => c)
  }

  /** Every chunk reps[k] times in a row. */
  function Repeated(f: seq<Chunk>, reps: seq<nat>): seq<Chunk>
    requires |f| == |reps|
  {
    if f == [] then [] else Repeated(f[..|f| - 1], reps[..|f| - 1]) + Copies(f[|f| - 1], reps[|f| - 1])
  }

  lemma {:induction false} RepeatedNonEmpty(f: seq<Chunk>, reps: seq<nat>)
    requires |f| == |reps| && NonEmpty(f)
    ensures NonEmpty(Repeated(f, reps))
  {
    if f != [] { RepeatedNonEmpty(f[..|f| - 1], reps[..|f| - 1]); }
  }

  /** Repetitions of the chunk just accepted are skipped. */
  lemma {:induction false} SkipCopies(s: State, c: Chunk, n: nat)
    requires s.inFrame && s.last == c.id && |c.data| > 0
    ensures Run(s, Copies(c, n)) == Stepped(s, [])
  {
    if n > 0 {
      SkipCopies(s, c, n - 1);
      assert Copies(c, n)[1..] == Copies(c, n - 1);
    }
  }

  /** What repetitions of a last chunk cause. */
  function Again(c: Chunk, n: nat): seq<seq<byte>>
    requires |c.data| > 0
  {
    if First(c) == 0xfe then seq(n, _ => c.data) else []
  }

  /** After a frame, repetitions of its last chunk are ignored, unless that chunk could begin a frame: then each
      of them is sent as one. */
  lemma {:induction false} TailCopies(s: State, c: Chunk, n: nat)
    requires s == State(false, [], c.id) && |c.data| > 0 && |c.data| <= LIMIT && Last(c) == 0xff
    ensures Run(s, Copies(c, n)) == Stepped(s, Again(c, n))
  {
    if n > 0 {
      hide Again, Copies;
      TailCopies(s, c, n - 1);
      OneMore(c, n);
      assert [] + c.data == c.data;
    }
  }

  lemma OneMore(c: Chunk, n: nat)
    requires n > 0 && |c.data| > 0
    ensures Copies(c, n)[0] == c && Copies(c, n)[1..] == Copies(c, n - 1)
    ensures Again(c, n) == (if First(c) == 0xfe then [c.data] else []) + Again(c, n - 1)
  {
    assert Copies(c, n)[1..] == Copies(c, n - 1);
    assert seq(n, _ => c.data) == [c.data] + seq(n - 1, _ => c.data);
  }

  lemma {:induction false} ConcatPrefix(f: seq<Chunk>, k: nat)
    requires k <= |f|
    ensures |Concat(f[..k])| <= |Concat(f)|
  {
    if k < |f| {
      ConcatPrefix(f[..|f| - 1], k);
      assert f[..|f| - 1][..k] == f[..k];
    } else {
      assert f[..k] == f;
    }
  }

  ghost predicate Positive(reps: seq<nat>) {
    forall k :: 0 <= k < |reps| ==> reps[k] > 0
  }

  /** The machine will take c as the next chunk. */
  predicate Ready(s: State, c: Chunk)
    requires |c.data| > 0
  {
    if s.inFrame then c.id != s.last else First(c) == 0xfe
  }

  function Held(s: State): seq<byte> {
    if s.inFrame then s.buf else []
  }

  /** One chunk, repeated. */
  lemma ChunkCopies(s: State, c: Chunk, n: nat)
    requires n > 0 && |c.data| > 0 && Ready(s, c) && |Held(s)| + |c.data| <= LIMIT
    ensures Last(c) != 0xff ==> Run(s, Copies(c, n)) == Stepped(State(true, Held(s) + c.data, c.id), [])
    ensures Last(c) == 0xff ==>
      Run(s, Copies(c, n)) == Stepped(State(false, [], c.id), [Held(s) + c.data] + Again(c, n - 1))
  {
    assert Copies(c, n)[1..] == Copies(c, n - 1);
    if Last(c) == 0xff {
      TailCopies(State(false, [], c.id), c, n - 1);
    } else {
      SkipCopies(State(true, Held(s) + c.data, c.id), c, n - 1);
    }
  }

  lemma PrefixStep(f: seq<Chunk>, reps: seq<nat>, k: nat)
    requires |f| == |reps| && 0 < k <= |f|
    ensures Concat(f[..k]) == Concat(f[..k - 1]) + f[k - 1].data
    ensures Repeated(f[..k], reps[..k]) == Repeated(f[..k - 1], reps[..k - 1]) + Copies(f[k - 1], reps[k - 1])
  {
    assert f[..k][..k - 1] == f[..k - 1] && reps[..k][..k - 1] == reps[..k - 1];
  }

  function Inside(s: State, f: seq<Chunk>, k: nat): State
    requires k <= |f|
  {
    if k == 0 then s else State(true, Concat(f[..k]), f[k - 1].id)
  }

  lemma NextChunk(s: State, f: seq<Chunk>, k: nat)
    requires !s.inFrame && IsFrame(f) && k < |f|
    ensures Held(Inside(s, f, k)) == Concat(f[..k]) && Ready(Inside(s, f, k), f[k])
    ensures |Concat(f[..k])| + |f[k].data| <= LIMIT
  {
    PrefixStep(f, seq(|f|, _ => 0), k + 1);
    ConcatPrefix(f, k + 1);
  }

  /** In the middle of a frame, however often each chunk was repeated, exactly the bytes of its first k chunks are
      held and nothing has been sent. */
  lemma {:induction false} InsideReached(s: State, f: seq<Chunk>, reps: seq<nat>, k: nat)
    requires !s.inFrame && IsFrame(f) && |reps| == |f| && Positive(reps) && k < |f|
    ensures NonEmpty(Repeated(f[..k], reps[..k]))
    ensures Run(s, Repeated(f[..k], reps[..k])) == Stepped(Inside(s, f, k), [])
  {
    hide Run, Concat, Repeated, Copies, Ready, Held;
    RepeatedNonEmpty(f[..k], reps[..k]);
    if k == 0 {
      Nothing(s, f, reps);
    } else {
      var c := f[k - 1];
      InsideReached(s, f, reps, k - 1);
      PrefixStep(f, reps, k);
      NextChunk(s, f, k - 1);
      ChunkCopies(Inside(s, f, k - 1), c, reps[k - 1]);
      RunConcat(s, Repeated(f[..k - 1], reps[..k - 1]), Copies(c, reps[k - 1]));
    }
  }

  lemma Nothing(s: State, f: seq<Chunk>, reps: seq<nat>)
    requires |f| == |reps|
    ensures Repeated(f[..0], reps[..0]) == [] && Run(s, []) == Stepped(s, [])
  {
  }

  /** What is sent for one frame: its bytes, and then the last chunk again for every further repetition of it, if that
      chunk looks like the start of a frame. */
  function Sent(f: seq<Chunk>, reps: seq<nat>): seq<seq<byte>>
    requires |f| == |reps| > 0 && NonEmpty(f) && reps[|f| - 1] > 0
  {
    [Concat(f)] + Again(f[|f| - 1], reps[|f| - 1] - 1)
  }

  lemma FrameSent(s: State, f: seq<Chunk>, reps: seq<nat>)
    requires !s.inFrame && IsFrame(f) && |reps| == |f| && Positive(reps)
    ensures NonEmpty(Repeated(f, reps))
    ensures Run(s, Repeated(f, reps)) == Stepped(State(false, [], f[|f| - 1].id), Sent(f, reps))
  {
    hide Run, Concat, Repeated, Copies, Ready, Held;
    var n := |f|;
    var c := f[n - 1];
    assert f[..n] == f && reps[..n] == reps;
    RepeatedNonEmpty(f, reps);
    InsideReached(s, f, reps, n - 1);
    PrefixStep(f, reps, n);
    NextChunk(s, f, n - 1);
    ChunkCopies(Inside(s, f, n - 1), c, reps[n - 1]);
    RunConcat(s, Repeated(f[..n - 1], reps[..n - 1]), Copies(c, reps[n - 1]));
  }

  /** A frame on the air with its repetition counts. */
  datatype OnAir = OnAir(f: seq<Chunk>, reps: seq<nat>)

  ghost predicate OnAirOk(x: OnAir) {
    IsFrame(x.f) && |x.reps| == |x.f| && Positive(x.reps)
  }

  /** No frame ends in a chunk that could begin one. In particular every frame has two chunks or more. */
  ghost predicate Terminated(x: OnAir)
    requires OnAirOk(x)
  {
    First(x.f[|x.f| - 1]) != 0xfe
  }

  ghost function Stream(xs: seq<OnAir>): seq<Chunk>
    requires forall k :: 0 <= k < |xs| ==> OnAirOk(xs[k])
  {
    if xs == [] then []
    else
      assert OnAirOk(xs[0]);
      Repeated(xs[0].f, xs[0].reps) + Stream(xs[1..])
  }

  ghost function Frames(xs: seq<OnAir>): seq<seq<byte>> {
    if xs == [] then [] else [Concat(xs[0].f)] + Frames(xs[1..])
  }

  /** Over any sequence of frames with any repetitions, every frame is sent once, whole and in order. */
  lemma {:induction false} ExactlyOnce(s: State, xs: seq<OnAir>)
    requires !s.inFrame && forall k :: 0 <= k < |xs| ==> OnAirOk(xs[k]) && Terminated(xs[k])
    ensures NonEmpty(Stream(xs))
    ensures Run(s, Stream(xs)).sent == Frames(xs) && !Run(s, Stream(xs)).state.inFrame
    decreases |xs|
  {
    hide IsFrame, Positive, Concat, Repeated, Run, Step;
    if xs == [] {
      Nothing(s, [], []);
    } else {
      OneFrame(s, xs[0]);
      var now := Repeated(xs[0].f, xs[0].reps);
      ExactlyOnce(Run(s, now).state, xs[1..]);
      RunConcat(s, now, Stream(xs[1..]));
    }
  }

  lemma OneFrame(s: State, x: OnAir)
    requires !s.inFrame && OnAirOk(x) && Terminated(x)
    ensures NonEmpty(Repeated(x.f, x.reps)) && !Run(s, Repeated(x.f, x.reps)).state.inFrame
    ensures Run(s, Repeated(x.f, x.reps)).sent == [Concat(x.f)]
  {
    hide Concat, Repeated, Run;
    FrameSent(s, x.f, x.reps);
  }

  /** A frame is sent once for all repetition counts if and only if its last chunk does not begin with 0xFE. A
      frame in a single chunk always begins with 0xFE, so it is sent as often as it is repeated. */
  lemma OnceIffTerminated(s: State, f: seq<Chunk>)
    requires !s.inFrame && IsFrame(f)
    ensures First(f[|f| - 1]) != 0xfe
      <==> forall reps: seq<nat> :: |reps| == |f| && Positive(reps) ==> SentOnce(s, f, reps)
    ensures |f| == 1 ==> First(f[|f| - 1]) == 0xfe
  {
    hide Run, Concat, Repeated;
    forall reps: seq<nat> | |reps| == |f| && Positive(reps) && First(f[|f| - 1]) != 0xfe ensures SentOnce(s, f, reps) {
      FrameSent(s, f, reps);
    }
    var twice: seq<nat> := seq(|f|, _ => 2);
    FrameSent(s, f, twice);
    assert First(f[|f| - 1]) == 0xfe ==> |Sent(f, twice)| == 2;
    assert First(f[|f| - 1]) == 0xfe ==> !SentOnce(s, f, twice);
  }

  /** A frame in one chunk is sent as often as the chunk is received. */
  lemma SingleChunkRepeats(s: State, c: Chunk, n: nat)
    requires !s.inFrame && IsFrame([c]) && n > 0
    ensures NonEmpty(Copies(c, n)) && Run(s, Copies(c, n)).sent == seq(n, _ => c.data)
  {
    assert Last(c) == 0xff && First(c) == 0xfe && |c.data| <= LIMIT by {
      assert [c][0] == c && Concat([c]) == Concat([c][..0]) + c.data;
    }
    hide Run, Copies, IsFrame;
    ChunkCopies(s, c, n);
    OneMore(c, n);
    assert [] + c.data == c.data;
  }

  /** And there are such frames: the shortest one is a start byte and an end byte. */
  lemma SingleChunkFrame()
    ensures IsFrame([Chunk(1, [0xfe, 0xff])])
  {
    var c := Chunk(1, [0xfe, 0xff]);
    assert Concat([c]) == Concat([c][..0]) + c.data;
  }

  ghost predicate SentOnce(s: State, f: seq<Chunk>, reps: seq<nat>)
    requires |f| == |reps|
  {
    NonEmpty(Repeated(f, reps)) && Run(s, Repeated(f, reps)).sent == [Concat(f)]
  }

  // ----- frames that are too long -----

  /** Chunks that would make a frame of more than 4096 bytes; only the first one looks like the start of a frame. */
  ghost predicate Overlong(f: seq<Chunk>) {
    && |f| > 0 && NonEmpty(f) && |Concat(f)| > 4096
    && (forall k :: 0 <= k < |f| ==> (First(f[k]) == 0xfe <==> k == 0))
    && (forall k :: 0 <= k < |f| - 1 ==> Last(f[k]) != 0xff)
    && (forall k :: 0 < k < |f| ==> f[k].id != f[k - 1].id)
  }

  predicate Idle(s: State) {
    !s.inFrame && s.buf == []
  }

  /** Copies of a chunk that an idle machine cannot use: another one than the start of a frame, or one that does not fit
      the buffer. */
  lemma {:induction false} IdleSkips(s: State, c: Chunk, n: nat)
    requires Idle(s) && |c.data| > 0 && (First(c) != 0xfe || |c.data| > LIMIT)
    ensures var r := Run(s, Copies(c, n)); r.sent == [] && Idle(r.state)
    decreases n
  {
    if n > 0 {
      assert Copies(c, n)[1..] == Copies(c, n - 1);
      IdleSkips(Step(s, c).state, c, n - 1);
    }
  }

  /** Copies of a chunk that does not fit behind what is held: the first one ends the frame, the others are skipped. */
  lemma OverflowCopies(s: State, c: Chunk, n: nat)
    requires s.inFrame && |c.data| > 0 && First(c) != 0xfe && n > 0
    requires c.id != s.last && |s.buf| + |c.data| > LIMIT
    ensures var r := Run(s, Copies(c, n)); r.sent == [] && Idle(r.state)
  {
    assert Copies(c, n)[1..] == Copies(c, n - 1);
    IdleSkips(Step(s, c).state, c, n - 1);
  }

  /** After k chunks the machine holds them, or has given up because they did not fit. */
  lemma {:induction false} OverlongReached(s: State, f: seq<Chunk>, reps: seq<nat>, k: nat)
    requires Idle(s) && Overlong(f) && |reps| == |f| && Positive(reps) && k <= |f|
    ensures NonEmpty(Repeated(f[..k], reps[..k]))
    ensures var r := Run(s, Repeated(f[..k], reps[..k]));
            r.sent == [] && if |Concat(f[..k])| <= LIMIT then r.state == Inside(s, f, k) else Idle(r.state)
  {
    hide Run, Repeated, Copies, Concat;
    RepeatedNonEmpty(f[..k], reps[..k]);
    if k == 0 {
      Nothing(s, f, reps);
      NoBytes(f);
    } else {
      var c, before := f[k - 1], Repeated(f[..k - 1], reps[..k - 1]);
      OverlongReached(s, f, reps, k - 1);
      PrefixStep(f, reps, k);
      RunConcat(s, before, Copies(c, reps[k - 1]));
      var now := Run(s, before).state;
      NoBytes(f);
      assert k == |f| ==> f[..k] == f;
      if |Concat(f[..k - 1])| > LIMIT {
        IdleSkips(now, c, reps[k - 1]);
      } else if |Concat(f[..k])| <= LIMIT {
        assert Held(now) == Concat(f[..k - 1]) && Ready(now, c);
        ChunkCopies(now, c, reps[k - 1]);
      } else if k == 1 {
        IdleSkips(now, c, reps[0]);
      } else {
        OverflowCopies(now, c, reps[k - 1]);
      }
    }
  }

  lemma NoBytes(f: seq<Chunk>)
    ensures Concat(f[..0]) == []
  {
  }

  /** However often its chunks are repeated, nothing of a frame of more than 4096 bytes is sent, and the machine waits
      for the next frame. */
  lemma OverlongDropped(s: State, f: seq<Chunk>, reps: seq<nat>)
    requires Idle(s) && Overlong(f) && |reps| == |f| && Positive(reps)
    ensures NonEmpty(Repeated(f, reps))
    ensures var r := Run(s, Repeated(f, reps)); r.sent == [] && Idle(r.state)
  {
    hide Run, Repeated;
    OverlongReached(s, f, reps, |f|);
    assert f[..|f|] == f && reps[..|f|] == reps;
  }

  // ----- any input -----

  /** What is held begins like a frame and fits the buffer; what is sent is a frame. */
  predicate Sound(s: State) {
    |s.buf| <= LIMIT && if s.inFrame then |s.buf| > 0 && s.buf[0] == 0xfe else s.buf == []
  }

  predicate Framed(b: seq<byte>) {
    0 < |b| <= 4096 && b[0] == 0xfe && b[|b| - 1] == 0xff
  }

  lemma {:induction false} RunSound(s: State, cs: seq<Chunk>)
    requires Sound(s) && NonEmpty(cs)
    ensures Sound(Run(s, cs).state)
    ensures forall k :: 0 <= k < |Run(s, cs).sent| ==> Framed(Run(s, cs).sent[k])
    decreases |cs|
  {
    if cs != [] { RunSound(Step(s, cs[0]).state, cs[1..]); }
  }

  // ----- extensions -----

  /** The chunks in a sequence of extensions; extensions that are refused carry none. */
  ghost function Chunks(exts: seq<seq<byte>>): (cs: seq<Chunk>)
    ensures NonEmpty(cs)
  {
    if exts == [] then []
    else
      Chunks(exts[..|exts| - 1]) + match ParseExt(exts[|exts| - 1]) case Some(c) => [c] case None => []
  }

  lemma ChunksStep(exts: seq<seq<byte>>, k: nat)
    requires k < |exts|
    ensures Chunks(exts[..k + 1])
         == Chunks(exts[..k]) + match ParseExt(exts[k]) case Some(c) => [c] case None => []
  {
    hide ParseExt;
    assert exts[..k + 1][..k] == exts[..k];
  }

  lemma RunOne(s: State, c: Chunk)
    requires |c.data| > 0
    ensures NonEmpty([c]) && Run(s, [c]) == Step(s, c)
  {
    hide Step;
    assert [c][1..] == [];
    assert Step(s, c).sent + [] == Step(s, c).sent;
  }

  /** Extension k is what a sender makes of chunk k. */
  ghost predicate Carried(cs: seq<Chunk>, exts: seq<seq<byte>>) {
    |exts| == |cs| && forall k :: 0 <= k < |cs| ==> CarriedBy(cs[k], exts[k])
  }

  ghost predicate CarriedBy(c: Chunk, ext: seq<byte>) {
    ChunkOk(c) && exists head: seq<byte>, a: byte, b: byte, more: seq<byte> ::
      |head| == 20 && ext == WriteExt(c, head, a, b, more)
  }

  lemma {:induction false} ChunksCarried(cs: seq<Chunk>, exts: seq<seq<byte>>)
    requires Carried(cs, exts)
    ensures Chunks(exts) == cs
  {
    hide ParseExt, WriteExt;
    if cs != [] {
      var n := |cs| - 1;
      assert CarriedBy(cs[n], exts[n]);
      ChunksCarried(cs[..n], exts[..n]);
      OneCarried(cs[n], exts[n]);
    }
  }

  lemma OneCarried(c: Chunk, ext: seq<byte>)
    requires CarriedBy(c, ext)
    ensures ParseExt(ext) == Some(c)
  {
    hide ParseExt, WriteExt;
    var head: seq<byte>, a: byte, b: byte, more: seq<byte> :|
      |head| == 20 && ext == WriteExt(c, head, a, b, more);
    ExtRoundTrip(c, head, a, b, more);
  }

  // ----- the machine in place -----

  /** uecp_t. Sending appends to `sent`. */
  class UecpReceiver {
    const buf: array<byte>
    var len: nat
    var inFrame: bool
    var lastChunkId: nat
    ghost var sent: seq<seq<byte>>

    ghost predicate Valid()
      reads this, buf
    {
      buf.Length == LIMIT && len <= LIMIT && Sound(Value())
    }

    ghost function Value(): State
      requires len <= buf.Length
      reads this, buf
    {
      State(inFrame, buf[..len], lastChunkId)
    }

    constructor ()
      ensures Valid() && Value() == State(false, [], 0) && sent == [] && fresh(buf)
    {
      buf := new byte[LIMIT](_ => 0);
      len, inFrame, lastChunkId, sent := 0, false, 0, [];
    }

    method SendFrame()
      requires len <= buf.Length
      modifies this`sent
      ensures sent == old(sent) + [buf[..len]]
    {
      sent := sent + [buf[..len]];
    }

    /** memcpy behind what is held. */
    method Append(chunk: seq<byte>)
      requires len + |chunk| <= buf.Length
      modifies buf, this`len
      ensures len == old(len) + |chunk| && buf[..len] == old(buf[..len]) + chunk
    {
      var i := 0;
      while i < |chunk|
        invariant 0 <= i <= |chunk| && len == old(len)
        invariant buf[..len + i] == old(buf[..len]) + chunk[..i]
      {
        buf[len + i] := chunk[i];
        i := i + 1;
      }
      len := len + |chunk|;
    }

    /** From the size check on. */
    method Take(ghost held: seq<byte>, c: Chunk)
      requires |c.data| > 0 && len <= buf.Length == LIMIT && held == buf[..len] && inFrame && lastChunkId == c.id
      modifies this`len, this`inFrame, this`sent, buf
      ensures len <= LIMIT && Accept(held, c).state == Value() && sent == old(sent) + Accept(held, c).sent
    {
      if len + |c.data| > LIMIT {
        inFrame := false;
        len := 0;
        return;
      }
      Append(c.data);
      if c.data[|c.data| - 1] == 0xff {
        SendFrame();
        inFrame := false;
        len := 0;
      }
    }

    /** uecp_process_ext. */
    method ProcessExt(ext: seq<byte>)
      requires Valid()
      modifies this, buf
      ensures Valid()
      ensures ParseExt(ext) == None ==> Value() == old(Value()) && sent == old(sent)
      ensures ParseExt(ext).Some? ==>
        var r := Step(old(Value()), ParseExt(ext).value);
        Value() == r.state && sent == old(sent) + r.sent
    {
      if |ext| < 29 { return; }
      var chunkId, chunkLen := Read32(ext[20..]), ext[25] as nat;
      if chunkLen == 0 || 28 + chunkLen > |ext| { return; }
      var c := Chunk(chunkId, ext[28..28 + chunkLen]);
      RunSound(Value(), [c]);
      if !inFrame {
        if c.data[0] != 0xfe { return; }
        len := 0;
        inFrame := true;
        lastChunkId := chunkId;
        Take([], c);
      } else {
        if chunkId == lastChunkId { return; }
        lastChunkId := chunkId;
        Take(buf[..len], c);
      }
    }

    /** A sequence of extensions, one call each. */
    method ProcessAll(exts: seq<seq<byte>>)
      requires Valid()
      modifies this, buf
      ensures Valid()
      ensures var r := Run(old(Value()), Chunks(exts)); Value() == r.state && sent == old(sent) + r.sent
    {
      hide Step, ParseExt, Sound;
      var k := 0;
      assert exts[..0] == [] && sent + [] == sent;
      while k < |exts|
        invariant 0 <= k <= |exts| && Valid()
        invariant var r := Run(old(Value()), Chunks(exts[..k])); Value() == r.state && sent == old(sent) + r.sent
      {
        ghost var r := Run(old(Value()), Chunks(exts[..k]));
        ProcessExt(exts[k]);
        ChunksStep(exts, k);
        if ParseExt(exts[k]).Some? {
          ghost var c := ParseExt(exts[k]).value;
          ChunkHasData(exts[k]);
          RunOne(r.state, c);
          RunConcat(old(Value()), Chunks(exts[..k]), [c]);
          ConcatAssoc(old(sent), r.sent, Step(r.state, c).sent);
        } else {
          assert Chunks(exts[..k]) + [] == Chunks(exts[..k]);
        }
        k := k + 1;
      }
      assert exts[..k] == exts;
    }

    static lemma ChunkHasData(ext: seq<byte>)
      requires ParseExt(ext).Some?
      ensures |ParseExt(ext).value.data| > 0
    {
    }

    /** Exactly once, from the extensions to the frames sent: whatever the repetitions and the unused bytes. */
    method ReceiveFrames(exts: seq<seq<byte>>, ghost xs: seq<OnAir>)
      requires Valid() && !inFrame && forall k :: 0 <= k < |xs| ==> OnAirOk(xs[k]) && Terminated(xs[k])
      requires Carried(Stream(xs), exts)
      modifies this, buf
      ensures Valid() && !inFrame && sent == old(sent) + Frames(xs)
    {
      hide OnAirOk, Terminated, Carried, Run, Frames, Sound;
      ChunksCarried(Stream(xs), exts);
      ExactlyOnce(Value(), xs);
      ProcessAll(exts);
    }
  }
}
