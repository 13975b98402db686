/** The Simulator side of the batch protocol: `MFRSendUDPManager::sendTargetBatch`
    cuts the target records into frames of at most thirty, stamps each frame
    with the next value of a persistent sequence counter and a CRC-32 of its
    payload, and hands it to `sendData`. */
module MfrSendUdp {
  import opened Bytes
  import opened Crc32
  import opened PacketHeaderCodec

  /** `TARGETS_PER_PACKET`: the most records one datagram carries. */
  const TARGETS_PER_PACKET: nat := 30

  // ---------------------------------------------------------------------------
  // Specification: the frames one call emits, as a function of its input.

  /** Number of loop iterations for `n` records: `ceil(n / 30)`. */
  function NumFrames(n: nat): (k: nat)
    ensures k * TARGETS_PER_PACKET >= n
    ensures k > 0 ==> (k - 1) * TARGETS_PER_PACKET < n
    ensures k == 0 <==> n == 0
  {
    (n + TARGETS_PER_PACKET - 1) / TARGETS_PER_PACKET
  }

  /** `count = min(TARGETS_PER_PACKET, total - i)` for the chunk starting at record `i`. */
  function ChunkCount(total: nat, i: nat): nat
    requires i <= total
  {
    if total - i < TARGETS_PER_PACKET then total - i else TARGETS_PER_PACKET
  }

  /** The records carried by frame `k`. */
  function Chunk(rs: seq<seq<u8>>, k: nat): seq<seq<u8>>
    requires k < NumFrames(|rs|)
  {
    var i := k * TARGETS_PER_PACKET;
    rs[i .. i + ChunkCount(|rs|, i)]
  }

  /** `seqID` advanced `k` times by the post-increment `seqID++`. */
  function Advance(seqID: u32, k: nat): u32
  {
    if k == 0 then seqID else Advance(seqID, k - 1) + 1
  }

  lemma AdvanceStep(seqID: u32, k: nat)
    ensures Advance(seqID, k + 1) == Advance(seqID, k) + 1
  {
  }

  /** The header stamped on frame `k`: magic number, the `k`-th sequence
      number, the CRC-32 of the payload only, and the record count. */
  function FrameHeader(rs: seq<seq<u8>>, start: u32, k: nat): PacketHeader
    requires k < NumFrames(|rs|)
  {
    var c := Chunk(rs, k);
    PacketHeader(MAGIC, Advance(start, k), Checksum(Flatten(c)), Wrap32(|c|))
  }

  /** The datagram built for chunk `k`. */
  function Frame(rs: seq<seq<u8>>, start: u32, k: nat): seq<u8>
    requires k < NumFrames(|rs|)
  {
    FrameBytes(FrameHeader(rs, start, k), Flatten(Chunk(rs, k)))
  }

  /** The first `k` datagrams of one call whose counter was `start` on entry. */
  function FramesUpTo(rs: seq<seq<u8>>, start: u32, k: nat): (fs: seq<seq<u8>>)
    requires k <= NumFrames(|rs|)
    ensures |fs| == k
  {
    if k == 0 then [] else FramesUpTo(rs, start, k - 1) + [Frame(rs, start, k - 1)]
  }

  /** All datagrams of one call. */
  function Frames(rs: seq<seq<u8>>, start: u32): (fs: seq<seq<u8>>)
    ensures |fs| == NumFrames(|rs|)
  {
    FramesUpTo(rs, start, NumFrames(|rs|))
  }

  // ---------------------------------------------------------------------------
  // Properties of the frames.

  /** Every chunk but the last holds thirty records; the last holds the rest. */
  lemma ChunkSize(rs: seq<seq<u8>>, k: nat)
    requires k < NumFrames(|rs|)
    ensures k + 1 < NumFrames(|rs|) ==> |Chunk(rs, k)| == TARGETS_PER_PACKET
    ensures k + 1 == NumFrames(|rs|) ==> |Chunk(rs, k)| == |rs| - k * TARGETS_PER_PACKET
    ensures 1 <= |Chunk(rs, k)| <= TARGETS_PER_PACKET
  {
  }

  /** The first `k` chunks, one after the other. */
  function JoinChunks(rs: seq<seq<u8>>, k: nat): seq<seq<u8>>
    requires k <= NumFrames(|rs|)
  {
    if k == 0 then [] else JoinChunks(rs, k - 1) + Chunk(rs, k - 1)
  }

  lemma {:induction false} JoinChunksPrefix(rs: seq<seq<u8>>, k: nat)
    requires k < NumFrames(|rs|)
    ensures JoinChunks(rs, k) == rs[..k * TARGETS_PER_PACKET]
  {
    if k > 0 {
      JoinChunksPrefix(rs, k - 1);
      var i := (k - 1) * TARGETS_PER_PACKET;
      assert rs[..i] + rs[i .. i + TARGETS_PER_PACKET] == rs[..k * TARGETS_PER_PACKET];
    }
  }

  /** The chunks partition the input: in order, nothing lost, nothing repeated.
      In particular the per-frame counts sum to the number of records. */
  lemma ChunksPartition(rs: seq<seq<u8>>)
    ensures JoinChunks(rs, NumFrames(|rs|)) == rs
    ensures |JoinChunks(rs, NumFrames(|rs|))| == |rs|
  {
    var n := NumFrames(|rs|);
    if n > 0 {
      JoinChunksPrefix(rs, n - 1);
      var i := (n - 1) * TARGETS_PER_PACKET;
      assert Chunk(rs, n - 1) == rs[i..];
      assert rs[..i] + rs[i..] == rs;
    }
  }

  /** Every header carries the magic number, a CRC over the payload alone and
      the chunk's record count, exactly. */
  lemma HeaderFields(rs: seq<seq<u8>>, start: u32, k: nat)
    requires k < NumFrames(|rs|)
    ensures FrameHeader(rs, start, k).magic == MAGIC
    ensures FrameHeader(rs, start, k).payloadCRC == Checksum(Flatten(Chunk(rs, k)))
    ensures FrameHeader(rs, start, k).count as int == |Chunk(rs, k)|
  {
    ChunkSize(rs, k);
    Wrap32Exact(|Chunk(rs, k)|);
  }

  /** Sequence numbers are consecutive modulo 2^32, starting from the
      counter's value on entry. */
  lemma ConsecutiveSeqIds(rs: seq<seq<u8>>, start: u32, k: nat)
    requires k < NumFrames(|rs|)
    ensures FrameHeader(rs, start, 0).seqID == start
    ensures k + 1 < NumFrames(|rs|) ==>
      FrameHeader(rs, start, k + 1).seqID == FrameHeader(rs, start, k).seqID + 1
  {
    AdvanceStep(start, k);
  }

  /** The `k`-th datagram on the wire: `16 + count*R` bytes, decoding to the
      stamped header, followed by the chunk's records byte for byte. */
  lemma FrameLayout(rs: seq<seq<u8>>, start: u32, k: nat, size: nat)
    requires AllSized(rs, size) && k < NumFrames(|rs|)
    ensures var f := Frame(rs, start, k);
      |f| == HEADER_SIZE + |Chunk(rs, k)| * size &&
      DecodeHeader(f) == FrameHeader(rs, start, k) &&
      f[HEADER_SIZE..] == Flatten(Chunk(rs, k))
  {
    var c := Chunk(rs, k);
    assert AllSized(c, size);
    FlattenLength(c, size);
    ParseFrameBytes(FrameHeader(rs, start, k), Flatten(c));
  }

  /** What follows the header of a datagram; nothing for a runt. */
  function Payload(f: seq<u8>): seq<u8>
  {
    if |f| < HEADER_SIZE then [] else f[HEADER_SIZE..]
  }

  /** The payloads of a sequence of datagrams, concatenated. */
  function JoinPayloads(fs: seq<seq<u8>>): seq<u8>
  {
    if |fs| == 0 then [] else JoinPayloads(fs[..|fs| - 1]) + Payload(fs[|fs| - 1])
  }

  lemma JoinPayloadsSnoc(fs: seq<seq<u8>>, f: seq<u8>)
    ensures JoinPayloads(fs + [f]) == JoinPayloads(fs) + Payload(f)
  {
    assert (fs + [f])[..|fs|] == fs;
  }

  lemma {:induction false} JoinPayloadsPrefix(rs: seq<seq<u8>>, start: u32, k: nat)
    requires k <= NumFrames(|rs|)
    ensures JoinPayloads(FramesUpTo(rs, start, k)) == Flatten(JoinChunks(rs, k))
  {
    if k > 0 {
      JoinPayloadsPrefix(rs, start, k - 1);
      JoinPayloadsSnoc(FramesUpTo(rs, start, k - 1), Frame(rs, start, k - 1));
      ParseFrameBytes(FrameHeader(rs, start, k - 1), Flatten(Chunk(rs, k - 1)));
      FlattenAppend(JoinChunks(rs, k - 1), Chunk(rs, k - 1));
    }
  }

  /** Concatenating the payloads of all frames gives back the bytes of the
      whole input. */
  lemma PayloadsReassemble(rs: seq<seq<u8>>, start: u32)
    ensures JoinPayloads(Frames(rs, start)) == Flatten(rs)
  {
    JoinPayloadsPrefix(rs, start, NumFrames(|rs|));
    ChunksPartition(rs);
  }

  /** Frame `k` is the frame of the chunk the loop body cuts in its `k`-th
      iteration, stamped with the counter's value at that point. */
  lemma FrameAt(rs: seq<seq<u8>>, start: u32, k: nat, i: nat, count: nat, chunk: seq<seq<u8>>, seqID: u32)
    requires k < NumFrames(|rs|) && i == k * TARGETS_PER_PACKET && count == ChunkCount(|rs|, i)
    requires i + count <= |rs| && chunk == rs[i .. i + count]
    requires seqID == Advance(start, k)
    ensures Frame(rs, start, k) ==
      FrameBytes(PacketHeader(MAGIC, seqID, Checksum(Flatten(chunk)), Wrap32(|chunk|)), Flatten(chunk))
  {
    assert Chunk(rs, k) == chunk;
  }

  // ---------------------------------------------------------------------------
  // The sender object.

  /** `MFRSendUDPManager` together with the statics its methods keep: the
      socket descriptor, the sequence counter of `sendTargetBatch` and the CRC
      table. Datagrams handed to `sendto` are recorded in `sent`. */
  class MfrSendUdpManager {
    var socket: int
    var globalSeqID: u32
    ghost var sent: seq<seq<u8>>
    const crc: Crc32Table

    ghost predicate Valid()
      reads this, crc, crc.table
    {
      crc.Valid()
    }

    /** The constructor does not set the descriptor; `fd` stands for whatever
        value it holds when the object is used. The counter starts at zero. */
    constructor (fd: int)
      ensures Valid() && fresh(crc) && !crc.initialized
      ensures socket == fd && globalSeqID == 0 && sent == []
    {
      socket := fd;
      globalSeqID := 0;
      sent := [];
      crc := new Crc32Table();
    }

    /** `sendData`: refuses without sending when no socket is open; otherwise
        the datagram goes to `sendto`, whose verdict is `osAccepts`. */
    method SendData(data: seq<u8>, osAccepts: bool) returns (ok: bool)
      modifies this`sent
      ensures ok == (socket >= 0 && osAccepts)
      ensures sent == old(sent) + (if socket >= 0 then [data] else [])
    {
      if socket < 0 {
        return false;
      }
      sent := sent + [data];
      ok := osAccepts;
    }

    /** Steps 2 to 4 of one iteration of `sendTargetBatch`: copy the chunk
        behind the header, write `magic`, `seqID` and `count`, and put the
        CRC-32 of the payload (and of nothing else) in `payloadCRC`. */
    method MakeFrame(chunk: seq<seq<u8>>, seqID: u32) returns (buffer: seq<u8>)
      requires Valid()
      modifies crc`initialized, crc.table
      ensures Valid()
      ensures buffer == FrameBytes(PacketHeader(MAGIC, seqID, Checksum(Flatten(chunk)), Wrap32(|chunk|)), Flatten(chunk))
    {
      var payload := Flatten(chunk);
      var payloadCRC := crc.Calculate(payload);
      buffer := FrameBytes(PacketHeader(MAGIC, seqID, payloadCRC, Wrap32(|chunk|)), payload);
    }

    /** The body of the `sendTargetBatch` loop for the chunk starting at record
        `i`, the `k`-th of the call: build the frame with the next sequence
        number and hand it to `sendData`. */
    method SendChunk(allTargets: seq<seq<u8>>, ghost start: u32, i: nat, k: nat, osAccepts: bool)
      requires Valid() && i < |allTargets| && i == k * TARGETS_PER_PACKET
      requires globalSeqID == Advance(start, k)
      modifies this`globalSeqID, this`sent, crc`initialized, crc.table
      ensures Valid()
      ensures k < NumFrames(|allTargets|)
      ensures globalSeqID == Advance(start, k + 1)
      ensures sent == old(sent) + (if socket >= 0 then [Frame(allTargets, start, k)] else [])
    {
      var total := |allTargets|;
      var count := if total - i < TARGETS_PER_PACKET then total - i else TARGETS_PER_PACKET;
      var seqID := globalSeqID;
      globalSeqID := globalSeqID + 1;
      var chunk := allTargets[i .. i + count];
      var buffer := MakeFrame(chunk, seqID);
      FrameAt(allTargets, start, k, i, count, chunk, seqID);
      var _ := SendData(buffer, osAccepts);
    }

    /** `sendTargetBatch`: one frame per chunk of at most thirty records, each
        consuming a sequence number whether or not it could be sent.
        `osAccepts(k)` is what `sendto` answers for the `k`-th frame; the
        answer is ignored. */
    method SendTargetBatch(allTargets: seq<seq<u8>>, osAccepts: nat -> bool)
      requires Valid()
      modifies this`globalSeqID, this`sent, crc`initialized, crc.table
      ensures Valid()
      ensures globalSeqID == Advance(old(globalSeqID), NumFrames(|allTargets|))
      ensures sent == old(sent) + (if socket >= 0 then Frames(allTargets, old(globalSeqID)) else [])
    {
      var total := |allTargets|;
      ghost var start := globalSeqID;
      ghost var sent0 := sent;
      var i := 0;
      var k := 0;
      while i < total
        invariant Valid()
        invariant i == k * TARGETS_PER_PACKET && k <= NumFrames(total)
        invariant globalSeqID == Advance(start, k)
        invariant sent == sent0 + (if socket >= 0 then FramesUpTo(allTargets, start, k) else [])
      {
        SendChunk(allTargets, start, i, k, osAccepts(k));
        i := i + TARGETS_PER_PACKET;
        k := k + 1;
      }
    }
  }
}
