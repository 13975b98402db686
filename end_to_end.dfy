/** The two ends joined: the datagrams one `sendTargetBatch` call emits,
    handed in order to `processReceivedData` on fresh counters, all pass the
    checks, count no loss, and reach the upper layer as exactly one
    `[0x01][record]` packet per record, in the order they were sent. */
module EndToEnd {
  import opened Bytes
  import opened Crc32
  import opened PacketHeaderCodec
  import opened MfrSendUdp
  import opened MfrSimComm

  /** The packets the upper layer should see for records `rs`. */
  function Tagged(rs: seq<seq<u8>>): (ps: seq<seq<u8>>)
    ensures |ps| == |rs|
  {
    seq(|rs|, i requires 0 <= i < |rs| => [TARGET_TYPE] + rs[i])
  }

  lemma TaggedAppend(a: seq<seq<u8>>, b: seq<seq<u8>>)
    ensures Tagged(a + b) == Tagged(a) + Tagged(b)
  {
  }

  /** One more datagram through `processReceivedData`, with the receiver
      present at both locks, after the ones already handled. */
  function Then(prev: Step, f: seq<u8>, targetSize: nat, missileSize: nat): Step
  {
    match prev
    case OverRead(_) => prev
    case Step(c, d) =>
      match Receive(c, f, true, targetSize, missileSize)
      case OverRead(c') => OverRead(c')
      case Step(c', d') => Step(c', d + d')
  }

  /** A run of datagrams through `processReceivedData`, in order: the final
      counters and everything delivered. */
  function ReceiveAll(c: Counters, fs: seq<seq<u8>>, targetSize: nat, missileSize: nat): Step
  {
    if |fs| == 0 then Step(c, [])
    else Then(ReceiveAll(c, fs[..|fs| - 1], targetSize, missileSize), fs[|fs| - 1], targetSize, missileSize)
  }

  /** Cutting the bytes of same-sized records back into records and tagging
      each one gives the tagged records. */
  lemma FanOutFlatten(rs: seq<seq<u8>>, size: nat)
    requires AllSized(rs, size)
    ensures Offset(|rs|, size) <= |Flatten(rs)|
    ensures FanOut(Flatten(rs), size, |rs|) == Tagged(rs)
  {
    FlattenLength(rs, size);
    var ps := FanOut(Flatten(rs), size, |rs|);
    forall i | 0 <= i < |rs|
      ensures ps[i] == Tagged(rs)[i]
    {
      FanOutPackets(Flatten(rs), size, |rs|, i);
      FlattenSliceAt(rs, size, i);
    }
  }

  /** Frame `k` of a call passes classification and both checks, advances the
      counters as a CRC-valid frame numbered `Advance(start, k)`, and delivers
      the tagged records of chunk `k`. */
  lemma FrameAccepted(rs: seq<seq<u8>>, start: u32, k: nat, c: Counters, size: nat, missileSize: nat)
    requires AllSized(rs, size) && k < NumFrames(|rs|)
    ensures Receive(c, Frame(rs, start, k), true, size, missileSize) ==
      Step(Accept(c, Advance(start, k)), Tagged(Chunk(rs, k)))
  {
    var h := FrameHeader(rs, start, k);
    var chunk := Chunk(rs, k);
    HeaderFields(rs, start, k);
    FramesAreBatches(h, Flatten(chunk), size, missileSize);
    FrameLayout(rs, start, k, size);
    assert AllSized(chunk, size);
    FanOutFlatten(chunk, size);
    FlattenLength(chunk, size);
  }

  /** The deliveries of a run, one batch after another. */
  function ConcatAll(ds: seq<seq<seq<u8>>>): seq<seq<u8>>
  {
    if |ds| == 0 then [] else ConcatAll(ds[..|ds| - 1]) + ds[|ds| - 1]
  }

  /** A run of datagrams in which datagram `j`, handled at counters `cs[j]`,
      leaves counters `cs[j + 1]` and delivers `ds[j]` ends at the last
      counters with all the deliveries in order. */
  lemma {:induction false} RunOfSteps(fs: seq<seq<u8>>, cs: seq<Counters>, ds: seq<seq<seq<u8>>>, size: nat, missileSize: nat)
    requires |cs| == |fs| + 1 && |ds| == |fs|
    requires forall j | 0 <= j < |fs| :: Receive(cs[j], fs[j], true, size, missileSize) == Step(cs[j + 1], ds[j])
    ensures ReceiveAll(cs[0], fs, size, missileSize) == Step(cs[|fs|], ConcatAll(ds))
  {
    var n := |fs|;
    if n > 0 {
      var fs', cs', ds' := fs[..n - 1], cs[..n], ds[..n - 1];
      forall j | 0 <= j < |fs'|
        ensures Receive(cs'[j], fs'[j], true, size, missileSize) == Step(cs'[j + 1], ds'[j])
      {
        assert fs'[j] == fs[j] && cs'[j] == cs[j] && cs'[j + 1] == cs[j + 1] && ds'[j] == ds[j];
      }
      RunOfSteps(fs', cs', ds', size, missileSize);
      assert Receive(cs[n - 1], fs[n - 1], true, size, missileSize) == Step(cs[n], ds[n - 1]);
    }
  }

  /** The frames of a call, one by one. */
  lemma {:induction false} FramesUpToAt(rs: seq<seq<u8>>, start: u32, k: nat, j: nat)
    requires k <= NumFrames(|rs|) && j < k
    ensures FramesUpTo(rs, start, k)[j] == Frame(rs, start, j)
  {
    var a := FramesUpTo(rs, start, k - 1);
    if j < k - 1 {
      FramesUpToAt(rs, start, k - 1, j);
      SnocKeeps(a, Frame(rs, start, k - 1), FramesUpTo(rs, start, k), j, Frame(rs, start, j));
    }
  }

  lemma SnocKeeps<T>(a: seq<T>, x: T, b: seq<T>, j: nat, y: T)
    requires b == a + [x] && j < |a| && a[j] == y
    ensures b[j] == y
  {
  }

  /** The counters after `k > 0` in-order frames numbered from `start`. */
  function After(start: u32, k: nat): Counters
    requires k > 0
  {
    Counters(Advance(start, k - 1), k, 0, 0)
  }

  /** The counters before frame `j` of a call: fresh, then one frame more
      each time. */
  function CountersBefore(start: u32, j: nat): Counters
  {
    if j == 0 then Fresh else After(start, j)
  }

  /** Accepting the next number in the run keeps the loss count at zero. */
  lemma AfterNext(start: u32, k: nat)
    ensures Accept(CountersBefore(start, k), Advance(start, k)) == After(start, k + 1)
  {
    if k == 0 {
      FirstFrameNoLoss(Fresh, start);
    } else {
      AdvanceStep(start, k - 1);
      SuccessorNoLoss(After(start, k));
    }
  }

  /** The deliveries of the chunks, joined, are the tagged records. */
  lemma {:induction false} ConcatChunks(rs: seq<seq<u8>>, k: nat)
    requires k <= NumFrames(|rs|)
    ensures ConcatAll(seq(k, j requires 0 <= j < k => Tagged(Chunk(rs, j)))) == Tagged(JoinChunks(rs, k))
  {
    var ds := seq(k, j requires 0 <= j < k => Tagged(Chunk(rs, j)));
    if k > 0 {
      ConcatChunks(rs, k - 1);
      assert ds[..k - 1] == seq(k - 1, j requires 0 <= j < k - 1 => Tagged(Chunk(rs, j)));
      TaggedAppend(JoinChunks(rs, k - 1), Chunk(rs, k - 1));
    }
  }

  /** The counters before each frame of a call with `n` frames, and after
      the last. */
  function CountersRun(start: u32, n: nat): (cs: seq<Counters>)
    ensures |cs| == n + 1
  {
    seq(n + 1, j requires 0 <= j <= n => CountersBefore(start, j))
  }

  /** What each frame of a call delivers. */
  function Deliveries(rs: seq<seq<u8>>): (ds: seq<seq<seq<u8>>>)
    ensures |ds| == NumFrames(|rs|)
  {
    seq(NumFrames(|rs|), j requires 0 <= j < NumFrames(|rs|) => Tagged(Chunk(rs, j)))
  }

  /** Frame `j` of a call, arriving after the `j` frames before it. */
  lemma StepAt(rs: seq<seq<u8>>, start: u32, j: nat, size: nat, missileSize: nat)
    requires AllSized(rs, size) && j < NumFrames(|rs|)
    ensures Receive(CountersBefore(start, j), Frames(rs, start)[j], true, size, missileSize) ==
      Step(CountersBefore(start, j + 1), Tagged(Chunk(rs, j)))
  {
    FramesUpToAt(rs, start, NumFrames(|rs|), j);
    FrameAccepted(rs, start, j, CountersBefore(start, j), size, missileSize);
    AfterNext(start, j);
  }

  lemma EachFrameAccepted(rs: seq<seq<u8>>, start: u32, size: nat, missileSize: nat)
    requires AllSized(rs, size)
    ensures var fs, cs, ds := Frames(rs, start), CountersRun(start, NumFrames(|rs|)), Deliveries(rs);
      forall j | 0 <= j < |fs| :: Receive(cs[j], fs[j], true, size, missileSize) == Step(cs[j + 1], ds[j])
  {
    forall j | 0 <= j < NumFrames(|rs|)
      ensures Receive(CountersRun(start, NumFrames(|rs|))[j], Frames(rs, start)[j], true, size, missileSize) ==
        Step(CountersRun(start, NumFrames(|rs|))[j + 1], Deliveries(rs)[j])
    {
      var n := NumFrames(|rs|);
      assert CountersRun(start, n)[j] == CountersBefore(start, j);
      assert CountersRun(start, n)[j + 1] == CountersBefore(start, j + 1);
      assert Deliveries(rs)[j] == Tagged(Chunk(rs, j));
      StepAt(rs, start, j, size, missileSize);
    }
  }

  /** The headline: every frame of a call passes, no loss is counted, the
      total equals the number of frames, and the upper layer receives
      `[0x01] ++ r` for each record `r`, in order. The frames are taken as
      received whole, which the receive buffer allows only when
      `16 + count * R <= 1024` (see `FullFrameOverflows`). */
  lemma BatchRoundTrip(rs: seq<seq<u8>>, start: u32, size: nat, missileSize: nat)
    requires AllSized(rs, size)
    ensures var r := ReceiveAll(Fresh, Frames(rs, start), size, missileSize);
      r.Step? && r.counters.integrityFail == 0 && r.counters.lossCount == 0 &&
      r.counters.totalPackets == NumFrames(|rs|) && r.delivered == Tagged(rs)
  {
    var n := NumFrames(|rs|);
    EachFrameAccepted(rs, start, size, missileSize);
    RunOfSteps(Frames(rs, start), CountersRun(start, n), Deliveries(rs), size, missileSize);
    ConcatChunks(rs, n);
    assert Deliveries(rs) == seq(n, j requires 0 <= j < n => Tagged(Chunk(rs, j)));
    ChunksPartition(rs);
  }

  /** With records of 34 bytes or more, every full frame (30 records) is
      longer than the receiver's buffer: at least `16 + 30 * 34 == 1036`
      bytes. */
  lemma FullFrameOverflows(rs: seq<seq<u8>>, start: u32, k: nat, size: nat)
    requires AllSized(rs, size) && k + 1 < NumFrames(|rs|) && size >= 34
    ensures |Frame(rs, start, k)| > BUFFER_SIZE
  {
    FrameLayout(rs, start, k, size);
    ChunkSize(rs, k);
    assert |Chunk(rs, k)| * size >= TARGETS_PER_PACKET * 34;
  }

  /** On every frame the sender builds the declared records fit the payload,
      so `processBatchPacket` as written and the corrected processing do the
      same thing; `BatchRoundTrip` holds for the code as written too. */
  lemma SenderFramesAsWritten(rs: seq<seq<u8>>, start: u32, k: nat, c: Counters, size: nat, available: bool)
    requires AllSized(rs, size) && k < NumFrames(|rs|)
    ensures ProcessBatchAsWritten(c, Frame(rs, start, k), size, available) ==
      ProcessBatch(c, Frame(rs, start, k), size, available)
  {
    var chunk := Chunk(rs, k);
    HeaderFields(rs, start, k);
    FrameLayout(rs, start, k, size);
    assert AllSized(chunk, size);
    FlattenLength(chunk, size);
    ProcessBatchCorrects(c, Frame(rs, start, k), size, available);
  }

  lemma UpdateAfter(a: seq<u8>, b: seq<u8>, p: nat, y: u8)
    requires p < |b|
    ensures (a + b)[|a| + p := y] == a + b[p := y]
  {
  }

  /** A sender frame with any single bit of its payload flipped on the way
      fails the CRC check: it counts as one integrity failure, moves no other
      counter and delivers nothing. */
  lemma FlippedBitRejected(rs: seq<seq<u8>>, start: u32, k: nat, c: Counters, size: nat, missileSize: nat,
                           p: nat, j: bv8)
    requires AllSized(rs, size) && k < NumFrames(|rs|)
    requires p < |Flatten(Chunk(rs, k))| && j < 8
    ensures var f := Frame(rs, start, k);
      HEADER_SIZE + p < |f| &&
      Receive(c, f[HEADER_SIZE + p := f[HEADER_SIZE + p] ^ (1 << j)], true, size, missileSize) ==
        Step(Reject(c), [])
  {
    var h := FrameHeader(rs, start, k);
    var payload := Flatten(Chunk(rs, k));
    var f := Frame(rs, start, k);
    var y := payload[p] ^ (1 << j);
    ParseFrameBytes(h, payload);
    assert f[HEADER_SIZE + p] == payload[p];
    UpdateAfter(EncodeHeader(h), payload, p, y);
    assert f[HEADER_SIZE + p := y] == FrameBytes(h, payload[p := y]);
    HeaderFields(rs, start, k);
    FramesAreBatches(h, payload[p := y], size, missileSize);
    ParseFrameBytes(h, payload[p := y]);
    SingleBitFlipDetected(payload, p, j);
  }
}
