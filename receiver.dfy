/** The MFR side of the datagram protocol (`MfrSimCommManager`): every
    datagram is classified by magic number and length; batch frames are
    checked against their CRC, counted for sequence loss and fanned out to
    the upper layer one `[0x01][record]` packet at a time; legacy single
    target and missile datagrams are forwarded whole. */
module MfrSimComm {
  import opened Bytes
  import opened Crc32
  import opened PacketHeaderCodec

  /** Type byte put in front of each record handed to the upper layer. */
  const TARGET_TYPE: u8 := 0x01
  /** `BUFFER_SIZE`, the receive loop's buffer: a longer datagram is cut to
      this many bytes before `processReceivedData` sees it. */
  const BUFFER_SIZE: nat := 1024

  // ---------------------------------------------------------------------------
  // Classification (`processReceivedData`).

  datatype Route = BatchFrame | LegacyTarget | LegacyMissile | Ignored

  /** The magic number test comes first, then the legacy target length, then
      the legacy missile length; anything else is ignored. */
  function Classify(buffer: seq<u8>, targetSize: nat, missileSize: nat): Route
  {
    if |buffer| >= HEADER_SIZE && DecodeHeader(buffer).magic == MAGIC then BatchFrame
    else if |buffer| == 1 + targetSize then LegacyTarget
    else if |buffer| == 1 + missileSize then LegacyMissile
    else Ignored
  }

  /** Every frame the Simulator builds is routed to the batch path, whatever
      the record sizes. */
  lemma FramesAreBatches(h: PacketHeader, payload: seq<u8>, targetSize: nat, missileSize: nat)
    requires h.magic == MAGIC
    ensures Classify(FrameBytes(h, payload), targetSize, missileSize) == BatchFrame
  {
    ParseFrameBytes(h, payload);
  }

  /** When the two legacy lengths coincide, the target path wins. */
  lemma TargetLengthWins(buffer: seq<u8>, size: nat)
    requires |buffer| == 1 + size
    requires |buffer| < HEADER_SIZE || DecodeHeader(buffer).magic != MAGIC
    ensures Classify(buffer, size, size) == LegacyTarget
  {
  }

  /** A legacy datagram of at least 16 bytes whose first four bytes spell the
      magic number is taken for a batch frame, whatever its length. */
  lemma MagicShadowsLegacy(buffer: seq<u8>, targetSize: nat, missileSize: nat)
    requires |buffer| == 1 + targetSize && |buffer| >= HEADER_SIZE
    requires buffer[0..4] == Le32(MAGIC)
    ensures Classify(buffer, targetSize, missileSize) == BatchFrame
  {
    Le32RoundTrip(MAGIC);
  }

  // ---------------------------------------------------------------------------
  // Counters and loss accounting.

  /** `g_lastSeqID`, `g_totalPackets`, `g_integrityFail`, `g_lossCount`. */
  datatype Counters = Counters(lastSeqID: u32, totalPackets: nat, integrityFail: nat, lossCount: nat)

  /** The values the constructor stores. */
  const Fresh: Counters := Counters(0, 0, 0, 0)

  /** Packets counted as lost when a CRC-valid frame carrying `seqID` arrives:
      none for the first frame or the expected successor; otherwise the gap,
      computed in `uint32_t` arithmetic. */
  function Lost(c: Counters, seqID: u32): nat
  {
    if c.totalPackets > 0 && !Successor(c.lastSeqID, seqID) then Gap(c.lastSeqID, seqID) as nat else 0
  }

  /** `seqID == g_lastSeqID + 1` in `uint32_t` arithmetic. */
  predicate Successor(last: u32, seqID: u32)
  {
    seqID == last + 1
  }

  /** `seqID - g_lastSeqID - 1` in `uint32_t` arithmetic. */
  function Gap(last: u32, seqID: u32): u32
  {
    seqID - last - 1
  }

  lemma GapOf(last: u32, g: u32)
    ensures Gap(last, last + 1 + g) == g
  {
  }

  /** Bookkeeping for a CRC-valid frame. */
  function Accept(c: Counters, seqID: u32): Counters
  {
    Counters(seqID, c.totalPackets + 1, c.integrityFail, c.lossCount + Lost(c, seqID))
  }

  /** `Accept` field by field, for the state-changing code. */
  lemma AcceptFields(c: Counters, seqID: u32)
    ensures Accept(c, seqID).lastSeqID == seqID
    ensures Accept(c, seqID).totalPackets == c.totalPackets + 1
    ensures Accept(c, seqID).integrityFail == c.integrityFail
    ensures Accept(c, seqID).lossCount == c.lossCount + Lost(c, seqID)
  {
  }

  /** Bookkeeping for a rejected frame. */
  function Reject(c: Counters): Counters
  {
    c.(integrityFail := c.integrityFail + 1)
  }

  /** The first frame ever accepted adds no loss, whatever its number. */
  lemma FirstFrameNoLoss(c: Counters, seqID: u32)
    requires c.totalPackets == 0
    ensures Accept(c, seqID) == Counters(seqID, 1, c.integrityFail, c.lossCount)
  {
  }

  /** The expected successor adds no loss; after `0xFFFFFFFF` the successor
      is 0. */
  lemma SuccessorNoLoss(c: Counters)
    ensures Accept(c, c.lastSeqID + 1) ==
      Counters(c.lastSeqID + 1, c.totalPackets + 1, c.integrityFail, c.lossCount)
  {
  }

  /** A gap of `g` skipped numbers is counted as `g` lost packets. */
  lemma GapCounted(c: Counters, g: u32)
    requires c.totalPackets > 0 && g != 0
    ensures Accept(c, c.lastSeqID + 1 + g) ==
      Counters(c.lastSeqID + 1 + g, c.totalPackets + 1, c.integrityFail, c.lossCount + g as nat)
  {
    GapOf(c.lastSeqID, g);
    assert !Successor(c.lastSeqID, c.lastSeqID + 1 + g);
  }

  /** A repeated sequence number, as a duplicated datagram would carry, is
      counted as 2^32 - 1 lost packets. */
  lemma DuplicateCountsAsWrap(c: Counters)
    requires c.totalPackets > 0
    ensures Accept(c, c.lastSeqID).lossCount == c.lossCount + 0xFFFF_FFFF
  {
    GapOf(c.lastSeqID, 0xFFFF_FFFF);
    assert c.lastSeqID + 1 + 0xFFFF_FFFF == c.lastSeqID;
    assert !Successor(c.lastSeqID, c.lastSeqID);
  }

  /** CRC-valid frames numbered `a`, `a+1`, `a+4`, `a+5` (5, 6, 9, 10 for
      `a == 5`, and the same across the 2^32 wrap) arriving at fresh counters:
      losses 0, 0, 2 and 0, four packets in all. */
  lemma LossExample(a: u32)
    ensures var c1 := Accept(Fresh, a);
      var c2 := Accept(c1, a + 1);
      var c3 := Accept(c2, a + 4);
      var c4 := Accept(c3, a + 5);
      c1.lossCount == 0 && c2.lossCount == 0 && c3.lossCount == 2 && c4.lossCount == 2 &&
      c4.totalPackets == 4 && c4.lastSeqID == a + 5 && c4.integrityFail == 0
  {
    assert Successor(a, a + 1) && Successor(a + 4, a + 5);
    assert !Successor(a + 1, a + 4) && Gap(a + 1, a + 4) == 2;
  }

  // ---------------------------------------------------------------------------
  // Fan-out of a batch payload.

  /** The packet built for record `i` of a payload: the type byte, then the
      `size` bytes at `targets[i]`. */
  function TargetPacket(payload: seq<u8>, size: nat, i: nat): seq<u8>
    requires Offset(i, size) + size <= |payload|
  {
    [TARGET_TYPE] + payload[Offset(i, size) .. Offset(i, size) + size]
  }

  /** The packets of the first `n` records, in index order. */
  function FanOut(payload: seq<u8>, size: nat, n: nat): (ps: seq<seq<u8>>)
    requires Offset(n, size) <= |payload|
    ensures |ps| == n
  {
    if n == 0 then [] else FanOut(payload, size, n - 1) + [TargetPacket(payload, size, n - 1)]
  }

  lemma {:induction false} FanOutPackets(payload: seq<u8>, size: nat, n: nat, i: nat)
    requires Offset(n, size) <= |payload| && i < n
    ensures Offset(i, size) + size <= |payload|
    ensures FanOut(payload, size, n)[i] == TargetPacket(payload, size, i)
    ensures |FanOut(payload, size, n)[i]| == 1 + size
  {
    var prefix := FanOut(payload, size, n - 1);
    if i < n - 1 {
      FanOutPackets(payload, size, n - 1, i);
      SnocIndex(prefix, TargetPacket(payload, size, n - 1), i);
    } else {
      SnocIndex(prefix, TargetPacket(payload, size, n - 1), i);
    }
  }

  lemma SnocIndex(a: seq<seq<u8>>, x: seq<u8>, i: nat)
    requires i <= |a|
    ensures (a + [x])[i] == if i < |a| then a[i] else x
  {
  }

  // ---------------------------------------------------------------------------
  // `processBatchPacket`.

  datatype Step = Step(counters: Counters, delivered: seq<seq<u8>>) | OverRead(counters: Counters)

  /** `processBatchPacket` exactly as written: the CRC check, then the
      sequence bookkeeping, then `header->count` records read from the payload
      without comparing `count * sizeof(TargetSimData)` with the payload
      length. A frame whose count claims more records than it carries makes
      the loop read past the received bytes; that outcome is `OverRead`.
      `available` is the lock at the start of the callback step; called from
      `processReceivedData` it always finds the receiver (see `Receive`). */
  function ProcessBatchAsWritten(c: Counters, buffer: seq<u8>, size: nat, available: bool): Step
    requires |buffer| >= HEADER_SIZE
  {
    var h := DecodeHeader(buffer);
    var payload := buffer[HEADER_SIZE..];
    if Checksum(payload) != h.payloadCRC then Step(Reject(c), [])
    else if !available then Step(Accept(c, h.seqID), [])
    else if Offset(h.count as nat, size) > |payload| then OverRead(Accept(c, h.seqID))
    else Step(Accept(c, h.seqID), FanOut(payload, size, h.count as nat))
  }

  /** `processBatchPacket` with the missing length check added: a frame whose
      count does not fit in its payload is rejected like a CRC failure,
      before the sequence bookkeeping. */
  function ProcessBatch(c: Counters, buffer: seq<u8>, size: nat, available: bool): Step
    requires |buffer| >= HEADER_SIZE
  {
    var h := DecodeHeader(buffer);
    var payload := buffer[HEADER_SIZE..];
    if Checksum(payload) != h.payloadCRC || Offset(h.count as nat, size) > |payload| then Step(Reject(c), [])
    else if !available then Step(Accept(c, h.seqID), [])
    else Step(Accept(c, h.seqID), FanOut(payload, size, h.count as nat))
  }

  /** The smallest frame that shows the over-read: a bare header with the
      magic number, a CRC of 0 (the CRC-32 of no bytes) and a count of 1. It
      passes the CRC check, so the as-written loop reads one record from an
      empty payload. */
  lemma OverReadWitness(seqID: u32, size: nat)
    requires size > 0
    ensures var frame := FrameBytes(PacketHeader(MAGIC, seqID, 0, 1), []);
      |frame| == HEADER_SIZE &&
      ProcessBatchAsWritten(Fresh, frame, size, true).OverRead? &&
      var r := ProcessBatch(Fresh, frame, size, true);
      r.Step? && r.delivered == [] && r.counters.integrityFail == 1 &&
      r.counters.totalPackets == 0 && r.counters.lossCount == 0
  {
    var frame := FrameBytes(PacketHeader(MAGIC, seqID, 0, 1), []);
    ParseFrameBytes(PacketHeader(MAGIC, seqID, 0, 1), []);
    EmptyChecksum();
    assert frame[HEADER_SIZE..] == [];
    assert Offset(1, size) == size;
  }

  /** The corrected processing never over-reads. It differs from the
      original on one kind of frame only: one that passes the CRC check but
      whose count does not fit its payload. The correction refuses such a
      frame as an integrity failure; the original counts it as received and
      over-reads. Every other frame is handled exactly as the original
      handles it. (With `available` false, a case `processReceivedData`
      never produces, the original would count the frame without reading
      it.) */
  lemma ProcessBatchCorrects(c: Counters, buffer: seq<u8>, size: nat, available: bool)
    requires |buffer| >= HEADER_SIZE
    ensures ProcessBatch(c, buffer, size, available).Step?
    ensures var h := DecodeHeader(buffer);
      Checksum(buffer[HEADER_SIZE..]) != h.payloadCRC || Offset(h.count as nat, size) <= |buffer| - HEADER_SIZE ==>
      ProcessBatch(c, buffer, size, available) == ProcessBatchAsWritten(c, buffer, size, available)
    ensures var h := DecodeHeader(buffer);
      Checksum(buffer[HEADER_SIZE..]) == h.payloadCRC && Offset(h.count as nat, size) > |buffer| - HEADER_SIZE ==>
      ProcessBatch(c, buffer, size, available) == Step(Reject(c), []) &&
      ProcessBatchAsWritten(c, buffer, size, available) ==
        (if available then OverRead(Accept(c, h.seqID)) else Step(Accept(c, h.seqID), []))
  {
  }

  /** A frame whose payload fails the CRC check changes only the integrity
      counter, by one, and reaches nobody. */
  lemma CrcMismatchDrops(c: Counters, buffer: seq<u8>, size: nat, available: bool)
    requires |buffer| >= HEADER_SIZE
    requires Checksum(buffer[HEADER_SIZE..]) != DecodeHeader(buffer).payloadCRC
    ensures ProcessBatch(c, buffer, size, available) ==
      Step(Counters(c.lastSeqID, c.totalPackets, c.integrityFail + 1, c.lossCount), [])
  {
  }

  /** Packet `i` of a fan-out is the type byte followed by bytes
      `[i*size, (i+1)*size)` of the payload. */
  lemma FanOutLayout(payload: seq<u8>, size: nat, n: nat)
    requires Offset(n, size) <= |payload|
    ensures forall i | 0 <= i < n ::
      (i + 1) * size <= |payload| &&
      |FanOut(payload, size, n)[i]| == 1 + size && FanOut(payload, size, n)[i][0] == TARGET_TYPE &&
      FanOut(payload, size, n)[i][1..] == payload[i * size .. (i + 1) * size]
  {
    forall i | 0 <= i < n
      ensures (i + 1) * size <= |payload|
      ensures |FanOut(payload, size, n)[i]| == 1 + size && FanOut(payload, size, n)[i][0] == TARGET_TYPE
      ensures FanOut(payload, size, n)[i][1..] == payload[i * size .. (i + 1) * size]
    {
      FanOutPackets(payload, size, n, i);
      NextOffset(i, size);
    }
  }

  lemma NextOffset(i: nat, size: nat)
    ensures (i + 1) * size == Offset(i, size) + size
  {
  }

  /** A frame that passes the CRC and length checks advances the sequence bookkeeping and,
      with the receiver present, yields exactly `count` packets of `1 + size`
      bytes, packet `i` being the type byte followed by record `i` of the
      payload. */
  lemma ValidFrameDelivers(c: Counters, buffer: seq<u8>, size: nat)
    requires |buffer| >= HEADER_SIZE
    requires Checksum(buffer[HEADER_SIZE..]) == DecodeHeader(buffer).payloadCRC
    requires Offset(DecodeHeader(buffer).count as nat, size) <= |buffer| - HEADER_SIZE
    ensures var r := ProcessBatch(c, buffer, size, true);
      r == Step(Accept(c, DecodeHeader(buffer).seqID), FanOut(buffer[HEADER_SIZE..], size, DecodeHeader(buffer).count as nat))
  {
  }

  // ---------------------------------------------------------------------------
  // `processReceivedData`.

  /** One datagram handled by `processReceivedData`. `atEntry` is whether
      `receiver_.lock()` finds the receiver on entry. The `shared_ptr` that
      lock returns is held until the handler returns, so the handler's own
      lock, in `processBatchPacket` or in the legacy handler, always finds
      the receiver once the first one did. */
  function Receive(c: Counters, buffer: seq<u8>, atEntry: bool, targetSize: nat, missileSize: nat): Step
  {
    if !atEntry then Step(c, [])
    else match Classify(buffer, targetSize, missileSize)
      case BatchFrame => ProcessBatch(c, buffer, targetSize, true)
      case LegacyTarget => Step(c, [buffer])
      case LegacyMissile => Step(c, [buffer])
      case Ignored => Step(c, [])
  }

  /** Without a receiver on entry nothing is processed and no counter moves. */
  lemma UnavailableChangesNothing(c: Counters, buffer: seq<u8>, targetSize: nat, missileSize: nat)
    ensures Receive(c, buffer, false, targetSize, missileSize) == Step(c, [])
  {
  }

  /** Legacy datagrams reach the upper layer whole, as one packet, and leave
      the counters alone. */
  lemma LegacyForwardedWhole(c: Counters, buffer: seq<u8>, targetSize: nat, missileSize: nat)
    requires Classify(buffer, targetSize, missileSize) in {LegacyTarget, LegacyMissile}
    ensures Receive(c, buffer, true, targetSize, missileSize) == Step(c, [buffer])
  {
  }

  /** Datagrams that are neither a batch nor of a legacy length are dropped
      silently. */
  lemma IgnoredDropped(c: Counters, buffer: seq<u8>, targetSize: nat, missileSize: nat)
    requires Classify(buffer, targetSize, missileSize) == Ignored
    ensures Receive(c, buffer, true, targetSize, missileSize) == Step(c, [])
  {
  }

  /** Only the batch path touches the counters; each datagram moves the total
      or the integrity counter by at most one, and no counter goes down. */
  lemma CountersMonotone(c: Counters, buffer: seq<u8>, atEntry: bool, targetSize: nat, missileSize: nat)
    ensures var r := Receive(c, buffer, atEntry, targetSize, missileSize);
      r.Step? &&
      r.counters.integrityFail >= c.integrityFail && r.counters.totalPackets >= c.totalPackets &&
      r.counters.lossCount >= c.lossCount &&
      r.counters.integrityFail + r.counters.totalPackets <= c.integrityFail + c.totalPackets + 1 &&
      (Classify(buffer, targetSize, missileSize) != BatchFrame ==> r.counters == c)
  {
  }

  // ---------------------------------------------------------------------------
  // The manager object.

  /** `MfrSimCommManager` with the four counters it updates, which are
      declared outside this file and kept here as fields. The
      upper layer's `callBackData` is the ghost log `delivered`. */
  class MfrSimCommManager {
    var lastSeqID: u32
    var totalPackets: nat
    var integrityFail: nat
    var lossCount: nat
    ghost var delivered: seq<seq<u8>>
    const crc: Crc32Table
    /** `sizeof(TargetSimData)` and `sizeof(MissileSimData)`. */
    const targetSize: nat
    const missileSize: nat

    function Snapshot(): Counters
      reads this
    {
      Counters(lastSeqID, totalPackets, integrityFail, lossCount)
    }

    ghost predicate Valid()
      reads this, crc, crc.table
    {
      crc.Valid()
    }

    /** The constructor zeroes the four counters. */
    constructor (targetSize: nat, missileSize: nat)
      ensures Valid() && fresh(crc) && !crc.initialized
      ensures Snapshot() == Fresh && delivered == []
      ensures this.targetSize == targetSize && this.missileSize == missileSize
    {
      lastSeqID := 0;
      totalPackets := 0;
      integrityFail := 0;
      lossCount := 0;
      delivered := [];
      crc := new Crc32Table();
      this.targetSize := targetSize;
      this.missileSize := missileSize;
    }

    /** `processReceivedData`. The receiver found on entry stays alive until
        the handler returns, so each handler's own lock finds it. */
    method ProcessReceivedData(buffer: seq<u8>, atEntry: bool)
      requires Valid()
      modifies this`lastSeqID, this`totalPackets, this`integrityFail, this`lossCount, this`delivered
      modifies crc`initialized, crc.table
      ensures Valid()
      ensures var r := Receive(old(Snapshot()), buffer, atEntry, targetSize, missileSize);
        Snapshot() == r.counters && delivered == old(delivered) + r.delivered
    {
      if !atEntry {
        return;
      }
      if |buffer| >= HEADER_SIZE && DecodeHeader(buffer).magic == MAGIC {
        ProcessBatchPacket(buffer, true);
        return;
      }
      if |buffer| == 1 + targetSize {
        ProcessTargetData(buffer, true);
      } else if |buffer| == 1 + missileSize {
        ProcessMissileData(buffer, true);
      }
    }

    /** `processBatchPacket` with the length check of `ProcessBatch`. */
    method ProcessBatchPacket(buffer: seq<u8>, available: bool)
      requires Valid() && |buffer| >= HEADER_SIZE
      modifies this`lastSeqID, this`totalPackets, this`integrityFail, this`lossCount, this`delivered
      modifies crc`initialized, crc.table
      ensures Valid()
      ensures var r := ProcessBatch(old(Snapshot()), buffer, targetSize, available);
        Snapshot() == r.counters && delivered == old(delivered) + r.delivered
    {
      ghost var c0 := Snapshot();
      var header := DecodeHeader(buffer);
      var payload := buffer[HEADER_SIZE..];
      ghost var r := ProcessBatch(c0, buffer, targetSize, available);
      var calcCRC := crc.Calculate(payload);
      assert Offset(header.count as nat, targetSize) == header.count as nat * targetSize;
      if calcCRC != header.payloadCRC || header.count as nat * targetSize > |payload| {
        assert r == Step(Reject(c0), []);
        integrityFail := integrityFail + 1;
        return;
      }
      assert r == Step(Accept(c0, header.seqID), if available then FanOut(payload, targetSize, header.count as nat) else []);
      AcceptFrame(header.seqID, payload, header.count as nat, available);
    }

    /** Everything after a passed integrity check: the sequence bookkeeping,
        then the callbacks if the receiver is still there. */
    method AcceptFrame(seqID: u32, payload: seq<u8>, count: nat, available: bool)
      requires count * targetSize <= |payload|
      modifies this`lastSeqID, this`totalPackets, this`lossCount, this`delivered
      ensures Snapshot() == Accept(old(Snapshot()), seqID)
      ensures delivered == old(delivered) + (if available then FanOut(payload, targetSize, count) else [])
    {
      TrackSequence(seqID);
      if available {
        FanOutRecords(payload, count);
      }
    }

    /** The sequence check and the bookkeeping of a frame that passed the
        integrity check. */
    method TrackSequence(seqID: u32)
      modifies this`lastSeqID, this`totalPackets, this`lossCount
      ensures Snapshot() == Accept(old(Snapshot()), seqID)
    {
      if totalPackets > 0 {
        if seqID != lastSeqID + 1 {
          var lost := seqID - lastSeqID - 1;
          lossCount := lossCount + lost as nat;
        }
      }
      lastSeqID := seqID;
      totalPackets := totalPackets + 1;
      AcceptFields(old(Snapshot()), seqID);
    }

    /** The callback loop: one `[0x01][record i]` packet per record, in index
        order. */
    method FanOutRecords(payload: seq<u8>, count: nat)
      requires count * targetSize <= |payload|
      modifies this`delivered
      ensures delivered == old(delivered) + FanOut(payload, targetSize, count)
    {
      ghost var d0 := delivered;
      var i := 0;
      var off := 0;
      while i < count
        invariant i <= count && off == Offset(i, targetSize)
        invariant delivered == d0 + FanOut(payload, targetSize, i)
      {
        OffsetMono(i + 1, count, targetSize);
        var packet := [TARGET_TYPE] + payload[off .. off + targetSize];
        AppendSnoc(d0, FanOut(payload, targetSize, i), packet);
        delivered := delivered + [packet];
        off := off + targetSize;
        i := i + 1;
      }
    }

    /** `processTargetData`: the `memcpy` needs `1 + sizeof(TargetSimData)`
        bytes; the whole datagram is forwarded if the receiver is there. */
    method ProcessTargetData(buffer: seq<u8>, available: bool)
      requires |buffer| >= 1 + targetSize
      modifies this`delivered
      ensures delivered == old(delivered) + (if available then [buffer] else [])
    {
      if available {
        delivered := delivered + [buffer];
      }
    }

    /** `processMissileData`, the same for `MissileSimData`. */
    method ProcessMissileData(buffer: seq<u8>, available: bool)
      requires |buffer| >= 1 + missileSize
      modifies this`delivered
      ensures delivered == old(delivered) + (if available then [buffer] else [])
    {
      if available {
        delivered := delivered + [buffer];
      }
    }
  }
}
