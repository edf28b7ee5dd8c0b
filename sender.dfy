/**
 * The senders of the `rftp` package (src/rftp/sender.py). The socket is
 * replaced by events (a datagram that arrived, or a receive timeout) and by a
 * log `sent` of the frames transmitted, in order; the file by the byte
 * sequence `source`, read `segmentSize` bytes at a time.
 */
module Sender {
  import opened Wrappers
  import opened Bytes
  import opened Packet
  import opened Chunking
  import opened Receiver

  /** Frame `i` of a transfer: the `i`-th read, flagged FIN when that read came back empty. */
  function ChunkFrame(src: seq<byte>, size: nat, i: nat): (r: Frame)
    ensures r.kind == DATA && r.seqNum == i && r.payload == Chunk(src, size, i)
    ensures Fin(r) <==> AtEnd(src, size, i)
  {
    Data(i, Chunk(src, size, i), 0, Chunk(src, size, i) == [])
  }

  /** Frames `lo` .. `hi - 1`, in ascending order. */
  function ChunkFrames(src: seq<byte>, size: nat, lo: nat, hi: nat): (r: seq<Frame>)
    requires lo <= hi
    ensures |r| == hi - lo
  {
    seq(hi - lo, i requires 0 <= i < hi - lo => ChunkFrame(src, size, lo + i))
  }

  /** A log that received frames `lo` .. `hi - 1` receives frame `hi` next. */
  lemma ChunkFramesSnoc(earlier: seq<Frame>, src: seq<byte>, size: nat, lo: nat, hi: nat)
    requires lo <= hi
    ensures earlier + ChunkFrames(src, size, lo, hi + 1)
         == (earlier + ChunkFrames(src, size, lo, hi)) + [ChunkFrame(src, size, hi)]
  {
    assert ChunkFrames(src, size, lo, hi + 1) == ChunkFrames(src, size, lo, hi) + [ChunkFrame(src, size, hi)];
  }

  // ---------------------------------------------------------------------------
  // Stop-and-Wait

  /** Frames `0` .. `k - 1` all appear in the log `sent`. */
  ghost predicate SentThrough(src: seq<byte>, size: nat, k: nat, sent: seq<Frame>)
  {
    k == 0 || (ChunkFrame(src, size, k - 1) in sent && SentThrough(src, size, k - 1, sent))
  }

  /** A frame logged stays logged when more frames are sent. */
  lemma {:induction false} SentThroughGrows(src: seq<byte>, size: nat, k: nat, sent: seq<Frame>, more: seq<Frame>)
    requires SentThrough(src, size, k, sent)
    ensures SentThrough(src, size, k, sent + more)
  {
    if k > 0 {
      SentThroughGrows(src, size, k - 1, sent, more);
      assert ChunkFrame(src, size, k - 1) in sent + more;
    }
  }

  /** `SentThrough` means what it says: every frame numbered below `k` is in the log. */
  lemma {:induction false} SentThroughEach(src: seq<byte>, size: nat, k: nat, sent: seq<Frame>)
    requires SentThrough(src, size, k, sent)
    ensures forall i :: 0 <= i < k ==> ChunkFrame(src, size, i) in sent
  {
    if k > 0 {
      SentThroughEach(src, size, k - 1, sent);
    }
  }

  datatype SwEvent =
    | SwReply(raw: seq<byte>)  // `recvfrom` returned a datagram
    | SwTimeout                // `recvfrom` raised TimeoutError

  /**
   * The invariant of the Stop-and-Wait sender's run. Until the FIN is
   * acknowledged the outstanding frame is frame `seq`, carrying the `seq`-th
   * read, and the file position is past it; afterwards the last frame was
   * the FIN. Every transmission is a frame of the file numbered at most the
   * outstanding one, every frame up to the outstanding one was transmitted,
   * the last transmission is the outstanding frame, and each is counted in
   * `packets_sent` and `bytes_sent`.
   */
  ghost predicate SwInvariant(src: seq<byte>, size: nat, n: nat, frame: Frame, offset: nat, done: bool,
                              sent: seq<Frame>, m: Metrics)
  {
    && n < U32_LIMIT
    && (if done then
          && n > 0 && frame == ChunkFrame(src, size, n - 1) && Fin(frame)
          && offset == Offset(src, size, n)
        else
          && frame == ChunkFrame(src, size, n)
          && offset == Offset(src, size, n + 1))
    && sent != [] && sent[|sent| - 1] == frame
    && (forall f :: f in sent ==> 0 <= f.seqNum <= frame.seqNum && f == ChunkFrame(src, size, f.seqNum))
    && SentThrough(src, size, frame.seqNum + 1, sent)
    && m.packetsSent == |sent|
    && m.bytesSent == |PayloadStream(sent)|
    && m.timeouts <= m.retransmits
  }

  /**
   * Once frame `n` (not the FIN) is acknowledged, reading the chunk at the
   * file position and sending it as frame `n + 1` keeps the invariant.
   */
  lemma NextFrameKeeps(src: seq<byte>, size: nat, n: nat, frame: Frame, offset: nat, sent: seq<Frame>, m: Metrics,
                       chunk: seq<byte>, next: Frame)
    requires SwInvariant(src, size, n, frame, offset, false, sent, m) && !Fin(frame) && n + 1 < U32_LIMIT
    requires chunk == Read(src, offset, size) && next == Data(n + 1, chunk, 0, chunk == [])
    ensures next == ChunkFrame(src, size, n + 1)
    ensures SwInvariant(src, size, n + 1, next, offset + |chunk|, false, sent + [next],
                        m.(packetsSent := m.packetsSent + 1, bytesSent := m.bytesSent + |chunk|))
  {
    PayloadStreamAppend(sent, next);
    SentThroughGrows(src, size, n + 1, sent, [next]);
  }

  /** Sending the outstanding frame again keeps the invariant, counted in `packets_sent` and `bytes_sent`. */
  lemma ResendKeeps(src: seq<byte>, size: nat, n: nat, frame: Frame, offset: nat, sent: seq<Frame>, m: Metrics)
    requires SwInvariant(src, size, n, frame, offset, false, sent, m)
    ensures SwInvariant(src, size, n, frame, offset, false, sent + [frame],
                        m.(packetsSent := m.packetsSent + 1, bytesSent := m.bytesSent + |frame.payload|))
  {
    PayloadStreamAppend(sent, frame);
    SentThroughGrows(src, size, frame.seqNum + 1, sent, [frame]);
  }

  /** Counting a timeout or a retransmission leaves the rest of the invariant alone. */
  lemma RecountKeeps(src: seq<byte>, size: nat, n: nat, frame: Frame, offset: nat, done: bool, sent: seq<Frame>,
                     m: Metrics, m': Metrics)
    requires SwInvariant(src, size, n, frame, offset, done, sent, m)
    requires m'.packetsSent == m.packetsSent && m'.bytesSent == m.bytesSent && m'.timeouts <= m'.retransmits
    ensures SwInvariant(src, size, n, frame, offset, done, sent, m')
  {
  }

  /**
   * When the FIN (frame n - 1) is acknowledged, every frame up to it was
   * transmitted, and the data frames before it carry the whole file, in order.
   */
  lemma FinishedCoversFile(src: seq<byte>, size: nat, n: nat, frame: Frame, offset: nat, sent: seq<Frame>, m: Metrics)
    requires SwInvariant(src, size, n, frame, offset, true, sent, m)
    ensures forall i :: 0 <= i < n ==> ChunkFrame(src, size, i) in sent
    ensures size > 0 ==> Flatten(Chunks(src, size, n - 1)) == src
  {
    SentThroughEach(src, size, n, sent);
    if size > 0 {
      ChunksBeforeEmptyAreFile(src, size, n - 1);
    }
  }

  /** The state of one `StopAndWaitSender.run`, between two receives. */
  class StopAndWaitSender {
    const sha1: Hasher
    const source: seq<byte>
    /** The size every read asks for; see ReadSize for a negative `segment_size`. */
    const segmentSize: nat
    var metrics: Metrics
    /** `seq`: the number of frames acknowledged so far. */
    var seqNum: nat
    /** The frame sent last, awaiting its ACK. */
    var frame: Frame
    /** The file position. */
    var offset: nat
    /** `run` has returned. */
    var done: bool
    /** Every frame transmitted, in order. */
    var sent: seq<Frame>

    /** The invariant of `run` between two receives; see SwInvariant. */
    ghost predicate Valid()
      reads this
    {
      SwInvariant(source, segmentSize, seqNum, frame, offset, done, sent, metrics)
    }

    /** `run` up to its first receive: frame 0 is read and sent. */
    constructor (sha1: Hasher, source: seq<byte>, segmentSize: int)
      ensures Valid() && !done
      ensures this.sha1 == sha1 && this.source == source && this.segmentSize == ReadSize(source, segmentSize)
      ensures seqNum == 0 && sent == [ChunkFrame(source, this.segmentSize, 0)]
      ensures sent[0].payload == FileRead(source, 0, segmentSize)
      ensures metrics.timeouts == 0 && metrics.retransmits == 0
    {
      this.sha1 := sha1;
      this.source := source;
      this.segmentSize := ReadSize(source, segmentSize);
      metrics := Metrics(0, 0, 0, 0);
      seqNum := 0;
      ReadSizeReadsSame(source, 0, segmentSize);
      var chunk := Read(source, 0, ReadSize(source, segmentSize));
      frame := Data(0, chunk, 0, chunk == []);
      offset := |chunk|;
      done := false;
      sent := [];
      new;
      Send();
      PayloadStreamAppend([], frame);
    }

    /** One transmission of `frame`: `packets_sent` and `bytes_sent` grow, the frame goes on the wire. */
    method Send()
      modifies this`sent, this`metrics
      ensures sent == old(sent) + [frame]
      ensures metrics.packetsSent == old(metrics.packetsSent) + 1
      ensures metrics.bytesSent == old(metrics.bytesSent) + |frame.payload|
      ensures metrics.timeouts == old(metrics.timeouts) && metrics.retransmits == old(metrics.retransmits)
    {
      metrics := metrics.(packetsSent := metrics.packetsSent + 1, bytesSent := metrics.bytesSent + |frame.payload|);
      sent := sent + [frame];
    }

    /**
     * What `run` does with one receive result, up to its next receive:
     * a timeout counts a timeout and a retransmission and resends; an ACK for
     * `seq + 1` completes the frame (and the transfer, for the FIN) and sends
     * the next; an ACK with another number counts a retransmission and
     * resends; anything else is resent without counting.
     */
    method Handle(e: SwEvent)
      requires Valid() && !done && seqNum + 1 < U32_LIMIT
      modifies this
      ensures Valid()
      ensures match e
        case SwTimeout =>
          && seqNum == old(seqNum) && !done && frame == old(frame) && sent == old(sent) + [frame]
          && metrics.timeouts == old(metrics.timeouts) + 1
          && metrics.retransmits == old(metrics.retransmits) + 1
        case SwReply(raw) =>
          var d := FromBytes(sha1, raw);
          && metrics.timeouts == old(metrics.timeouts)
          && if d.Ok? && d.value.kind == ACK && d.value.ack == old(seqNum) + 1 then
               && seqNum == old(seqNum) + 1 && done == Fin(old(frame))
               && sent == (if done then old(sent) else old(sent) + [ChunkFrame(source, segmentSize, seqNum)])
               && metrics.retransmits == old(metrics.retransmits)
             else
               && seqNum == old(seqNum) && !done && frame == old(frame) && sent == old(sent) + [frame]
               && metrics.retransmits == old(metrics.retransmits) + (if d.Ok? && d.value.kind == ACK then 1 else 0)
      // what `run` relies on, in short
      ensures old(seqNum) <= seqNum <= old(seqNum) + 1 && old(sent) <= sent
    {
      match e {
        case SwTimeout =>
          var m' := metrics.(timeouts := metrics.timeouts + 1, retransmits := metrics.retransmits + 1);
          RecountKeeps(source, segmentSize, seqNum, frame, offset, done, sent, metrics, m');
          metrics := m';
          Resend();
        case SwReply(raw) =>
          var reply := FromBytes(sha1, raw);
          if reply.Err? || reply.value.kind != ACK {
            Resend();
          } else if reply.value.ack == seqNum + 1 {
            Advance();
          } else {
            var m' := metrics.(retransmits := metrics.retransmits + 1);
            RecountKeeps(source, segmentSize, seqNum, frame, offset, done, sent, metrics, m');
            metrics := m';
            Resend();
          }
      }
    }

    /** Sending the outstanding frame again. */
    method Resend()
      requires Valid() && !done
      modifies this`sent, this`metrics
      ensures Valid() && sent == old(sent) + [frame]
      ensures metrics.packetsSent == old(metrics.packetsSent) + 1
      ensures metrics.bytesSent == old(metrics.bytesSent) + |frame.payload|
      ensures metrics.timeouts == old(metrics.timeouts) && metrics.retransmits == old(metrics.retransmits)
    {
      ResendKeeps(source, segmentSize, seqNum, frame, offset, sent, metrics);
      Send();
    }

    /** The ACK for `seq + 1`: the transfer is over if the frame was the FIN, else the next chunk is read and sent. */
    method Advance()
      requires Valid() && !done && seqNum + 1 < U32_LIMIT
      modifies this
      ensures Valid() && seqNum == old(seqNum) + 1 && done == Fin(old(frame))
      ensures sent == (if done then old(sent) else old(sent) + [ChunkFrame(source, segmentSize, seqNum)])
      ensures metrics.timeouts == old(metrics.timeouts) && metrics.retransmits == old(metrics.retransmits)
    {
      if Fin(frame) {
        seqNum := seqNum + 1;
        done := true;
      } else {
        NextFrame();
      }
    }

    /** After the ACK of a data frame that was not the FIN: frame `seq + 1` is read and sent. */
    method NextFrame()
      requires Valid() && !done && !Fin(frame) && seqNum + 1 < U32_LIMIT
      modifies this`seqNum, this`frame, this`offset, this`sent, this`metrics
      ensures Valid() && !done && seqNum == old(seqNum) + 1
      ensures frame == ChunkFrame(source, segmentSize, seqNum) && sent == old(sent) + [frame]
      ensures metrics.timeouts == old(metrics.timeouts) && metrics.retransmits == old(metrics.retransmits)
    {
      var chunk := Read(source, offset, segmentSize);
      var next := Data(seqNum + 1, chunk, 0, chunk == []);
      NextFrameKeeps(source, segmentSize, seqNum, frame, offset, sent, metrics, chunk, next);
      // `send` of the new frame: it goes on the wire and is counted
      seqNum, frame, offset, sent, metrics :=
        seqNum + 1, next, offset + |chunk|, sent + [next],
        metrics.(packetsSent := metrics.packetsSent + 1, bytesSent := metrics.bytesSent + |chunk|);
    }

    /**
     * `run` fed with `events` in order: it stops once the FIN is acknowledged
     * or the events run out. Once it has returned, every frame up to the FIN
     * was transmitted, and the data frames among them carry the whole file,
     * in order.
     */
    method Run(events: seq<SwEvent>) returns (consumed: nat)
      requires Valid() && seqNum + |events| < U32_LIMIT
      modifies this
      ensures Valid()
      ensures consumed <= |events| && (done || consumed == |events|) && (old(done) ==> consumed == 0)
      ensures old(seqNum) <= seqNum <= old(seqNum) + consumed && old(sent) <= sent
      ensures done ==> forall i :: 0 <= i < seqNum ==> ChunkFrame(source, segmentSize, i) in sent
      ensures done && segmentSize > 0 ==> Flatten(Chunks(source, segmentSize, seqNum - 1)) == source
    {
      consumed := 0;
      while consumed < |events| && !done
        invariant Valid()
        invariant consumed <= |events| && (old(done) ==> done && consumed == 0)
        invariant old(seqNum) <= seqNum <= old(seqNum) + consumed && old(sent) <= sent
      {
        Handle(events[consumed]);
        consumed := consumed + 1;
      }
      if done {
        FinishedCoversFile(source, segmentSize, seqNum, frame, offset, sent, metrics);
      }
    }
  }

  // ---------------------------------------------------------------------------
  // Go-Back-N

  /**
   * Where the refill loop of `GoBackNSender.run` stops when it starts at
   * `next`: at the window's end `limit`, or right after sending a FIN frame.
   */
  function FillEnd(src: seq<byte>, size: nat, limit: int, next: nat): (r: nat)
    ensures r >= next && (next < limit ==> next < r <= limit) && (next >= limit ==> r == next)
    decreases limit - next
  {
    if next >= limit then next
    else if AtEnd(src, size, next) then next + 1
    else FillEnd(src, size, limit, next + 1)
  }

  /**
   * The refill sends the frames from `next` up to where it stops, and only
   * the last of them can be a FIN; when it stops before the window's end, the
   * last one is.
   */
  lemma {:induction false} FillEndStops(src: seq<byte>, size: nat, limit: int, next: nat)
    ensures forall i :: next <= i < FillEnd(src, size, limit, next) - 1 ==> !AtEnd(src, size, i)
    ensures FillEnd(src, size, limit, next) < limit ==> AtEnd(src, size, FillEnd(src, size, limit, next) - 1)
    decreases limit - next
  {
    if next < limit && !AtEnd(src, size, next) {
      FillEndStops(src, size, limit, next + 1);
    }
  }

  /**
   * With a positive segment size, filling a window of `limit` frames from
   * frame `next` sends frames up to the window's end or up to the FIN (frame
   * ChunkCount), whichever comes first. From 0 with ACKs withheld that is
   * min(W, ChunkCount + 1) frames.
   */
  lemma {:induction false} FillEndFrom(src: seq<byte>, size: nat, limit: int, next: nat)
    requires size > 0 && next <= ChunkCount(|src|, size)
    ensures FillEnd(src, size, limit, next) == if next >= limit then next else Min(limit, ChunkCount(|src|, size) + 1)
    decreases limit - next
  {
    FirstEmptyChunk(src, size, next);
    if next < limit && next < ChunkCount(|src|, size) {
      FillEndFrom(src, size, limit, next + 1);
    }
  }

  /** Sending frame `next` either ends the refill (a FIN) or leaves its end where it was. */
  lemma FillEndStep(src: seq<byte>, size: nat, limit: int, next: nat)
    requires next < limit
    ensures AtEnd(src, size, next) ==> FillEnd(src, size, limit, next) == next + 1
    ensures !AtEnd(src, size, next) ==> FillEnd(src, size, limit, next + 1) == FillEnd(src, size, limit, next)
  {
  }

  /**
   * The refill loop leaves only its current pass at a FIN. Once frame `n` is
   * a FIN, a later pass with room past it loads frame `n + 1`, which is
   * another FIN frame with an empty payload.
   */
  lemma RefillPastFin(src: seq<byte>, size: nat, limit: int, n: nat)
    requires AtEnd(src, size, n) && n + 1 < limit
    ensures FillEnd(src, size, limit, n + 1) == n + 2
    ensures Fin(ChunkFrame(src, size, n + 1)) && ChunkFrame(src, size, n + 1).payload == []
  {
    AtEndStays(src, size, n);
  }

  /** `buffer` holds exactly frames `base` .. `next - 1`, each under its own number. */
  ghost predicate Window(src: seq<byte>, size: nat, buffer: map<nat, Frame>, base: nat, next: nat)
  {
    && base <= next
    && (forall k: nat :: k in buffer <==> base <= k < next)
    && (forall k {:trigger buffer[k]} :: k in buffer ==> buffer[k] == ChunkFrame(src, size, k))
  }

  /** Loading frame `next` into the buffer extends the window by one. */
  lemma WindowLoad(src: seq<byte>, size: nat, buffer: map<nat, Frame>, base: nat, next: nat)
    requires Window(src, size, buffer, base, next)
    ensures Window(src, size, buffer[next := ChunkFrame(src, size, next)], base, next + 1)
  {
  }

  /** Dropping the frames below `ack` shrinks the window to start at `ack`. */
  lemma WindowSlide(src: seq<byte>, size: nat, buffer: map<nat, Frame>, base: nat, next: nat, ack: nat)
    requires Window(src, size, buffer, base, next) && base <= ack <= next
    ensures Window(src, size, map k | k in buffer && k >= ack :: buffer[k], ack, next)
  {
  }

  /**
   * The invariant of the Go-Back-N sender's run. The window [base, next)
   * holds at most `w` frames, all of them buffered; the timer runs iff a
   * frame is outstanding; the FIN is scheduled iff the last frame sent was
   * one; the file position is where `next` reads leave it. `packets_sent`
   * counts first transmissions and `bytes_sent` their payloads (the file
   * bytes read so far); the `sent` transmissions beyond them are the
   * retransmissions. The transfer is over only once the FIN is scheduled
   * and everything is acknowledged.
   */
  ghost predicate GbnInvariant(src: seq<byte>, size: nat, w: nat, base: nat, next: nat, buffer: map<nat, Frame>,
                               timerOn: bool, eof: bool, offset: nat, done: bool, m: Metrics, sent: nat)
  {
    && Window(src, size, buffer, base, next)
    && next <= base + w
    && next <= U32_LIMIT
    && (timerOn <==> base < next)
    && (eof <==> next > 0 && AtEnd(src, size, next - 1))
    && offset == Offset(src, size, next)
    && m.packetsSent == next
    && m.bytesSent == offset
    && sent == m.packetsSent + m.retransmits
    && (done ==> eof && base == next)
  }

  /** One pass of the refill loop keeps the invariant. */
  lemma SendNextKeeps(src: seq<byte>, size: nat, w: nat, base: nat, next: nat, buffer: map<nat, Frame>,
                      timerOn: bool, eof: bool, offset: nat, m: Metrics, sent: nat, fr: Frame)
    requires GbnInvariant(src, size, w, base, next, buffer, timerOn, eof, offset, false, m, sent)
    requires next < base + w && base + w <= U32_LIMIT
    requires fr == ChunkFrame(src, size, next)
    ensures next !in buffer
    ensures GbnInvariant(src, size, w, base, next + 1, buffer[next := fr], true,
                         eof || Fin(fr), Offset(src, size, next + 1), false,
                         m.(packetsSent := m.packetsSent + 1, bytesSent := m.bytesSent + |fr.payload|),
                         sent + 1)
  {
    WindowLoad(src, size, buffer, base, next);
    if eof {
      AtEndStays(src, size, next - 1);
    }
  }

  datatype GbnEvent =
    | GbnReply(raw: seq<byte>)      // `recvfrom` returned a datagram
    | GbnTimeout(expired: bool)     // `recvfrom` raised TimeoutError; `expired`: elapsed_ms >= timeout_ms

  /** The ACK number a datagram carries if it decodes as an ACK frame, else 0. */
  function AckOf(sha1: Hasher, e: GbnEvent): nat
  {
    match e
    case GbnReply(raw) =>
      var d := FromBytes(sha1, raw);
      if d.Ok? && d.value.kind == ACK && d.value.ack >= 0 then d.value.ack else 0
    case GbnTimeout(_) => 0
  }

  /** The state of one `GoBackNSender.run`, between two iterations of its outer loop. */
  class GoBackNSender {
    const sha1: Hasher
    const source: seq<byte>
    /** The size every read asks for; see ReadSize for a negative `segment_size`. */
    const segmentSize: nat
    const windowSize: nat
    var metrics: Metrics
    /** The oldest unacknowledged frame. */
    var base: nat
    /** The next frame to send for the first time. */
    var nextSeq: nat
    /** `buffer`: the frames loaded and not yet acknowledged, by sequence number. */
    var buffer: map<nat, Frame>
    /** `timer_start is not None`. */
    var timerOn: bool
    var eofScheduled: bool
    /** The file position. */
    var offset: nat
    /** `run` has returned. */
    var done: bool
    /** Every frame transmitted, retransmissions included, in order. */
    var sent: seq<Frame>

    /** The buffer holds exactly the frames of the window [base, next_seq). */
    ghost predicate Buffered()
      reads this
    {
      Window(source, segmentSize, buffer, base, nextSeq)
    }

    /** The invariant of `run` between two iterations of its outer loop; see GbnInvariant. */
    ghost predicate Valid()
      reads this
    {
      GbnInvariant(source, segmentSize, windowSize, base, nextSeq, buffer, timerOn, eofScheduled, offset, done, metrics, |sent|)
    }

    /** `run` before its first refill. */
    constructor (sha1: Hasher, source: seq<byte>, segmentSize: int, windowSize: nat)
      ensures Valid() && !done
      ensures this.sha1 == sha1 && this.source == source
      ensures this.segmentSize == ReadSize(source, segmentSize) && this.windowSize == windowSize
      ensures base == 0 && nextSeq == 0 && sent == [] && metrics.timeouts == 0
    {
      this.sha1 := sha1;
      this.source := source;
      this.segmentSize := ReadSize(source, segmentSize);
      this.windowSize := windowSize;
      metrics := Metrics(0, 0, 0, 0);
      base, nextSeq, buffer := 0, 0, map[];
      timerOn, eofScheduled, offset, done := false, false, 0, false;
      sent := [];
    }

    /**
     * `load_frame(seq)`: the cached frame if `seq` is in the buffer; otherwise
     * the next read becomes frame `seq`, FIN if the read was empty, and is
     * cached.
     */
    method LoadFrame(s: nat) returns (fr: Frame)
      requires forall k :: k in buffer ==> buffer[k] == ChunkFrame(source, segmentSize, k)
      requires s !in buffer ==> offset == Offset(source, segmentSize, s)
      modifies this`buffer, this`offset, this`eofScheduled
      ensures fr == ChunkFrame(source, segmentSize, s)
      ensures s in old(buffer) ==>
        buffer == old(buffer) && offset == old(offset) && eofScheduled == old(eofScheduled)
      ensures s !in old(buffer) ==>
        && buffer == old(buffer)[s := fr] && offset == Offset(source, segmentSize, s + 1)
        && eofScheduled == (old(eofScheduled) || Fin(fr))
    {
      if s in buffer {
        return buffer[s];
      }
      var chunk := Read(source, offset, segmentSize);
      fr := Data(s, chunk, 0, chunk == []);
      offset := offset + |chunk|;
      buffer := buffer[s := fr];
      if chunk == [] {
        eofScheduled := true;
      }
    }

    /** One pass of the refill loop: load frame `next_seq`, count it, send it, start the timer. */
    method SendNext() returns (fr: Frame)
      requires Valid() && !done && nextSeq < base + windowSize && base + windowSize <= U32_LIMIT
      modifies this
      ensures Valid() && !done && base == old(base)
      ensures fr == ChunkFrame(source, segmentSize, old(nextSeq))
      ensures nextSeq == old(nextSeq) + 1 && sent == old(sent) + [fr] && timerOn
      ensures metrics.timeouts == old(metrics.timeouts) && metrics.retransmits == old(metrics.retransmits)
    {
      ghost var m, sentCount, fr0 := metrics, |sent|, ChunkFrame(source, segmentSize, nextSeq);
      SendNextKeeps(source, segmentSize, windowSize, base, nextSeq, buffer, timerOn, eofScheduled, offset, m, sentCount, fr0);
      fr := LoadFrame(nextSeq);
      metrics := metrics.(packetsSent := metrics.packetsSent + 1, bytesSent := metrics.bytesSent + |fr.payload|);
      sent := sent + [fr];
      if !timerOn {
        timerOn := true;
      }
      nextSeq := nextSeq + 1;
    }

    /**
     * The refill loop: while the window has room, send frame `next_seq`, and
     * stop after a FIN frame. A later refill with room left sends further
     * FIN frames, since every read after the end of the file is empty.
     */
    method Refill()
      requires Valid() && !done && base + windowSize <= U32_LIMIT
      modifies this
      ensures Valid() && !done
      ensures base == old(base) && nextSeq == FillEnd(source, segmentSize, base + windowSize, old(nextSeq))
      ensures sent == old(sent) + ChunkFrames(source, segmentSize, old(nextSeq), nextSeq)
      ensures timerOn == (old(timerOn) || nextSeq > old(nextSeq))
      ensures metrics.timeouts == old(metrics.timeouts) && metrics.retransmits == old(metrics.retransmits)
    {
      ghost var limit := base + windowSize;
      while nextSeq < base + windowSize
        invariant Valid() && !done && base == old(base)
        invariant old(nextSeq) <= nextSeq
        invariant FillEnd(source, segmentSize, limit, nextSeq) == FillEnd(source, segmentSize, limit, old(nextSeq))
        invariant sent == old(sent) + ChunkFrames(source, segmentSize, old(nextSeq), nextSeq)
        invariant timerOn == (old(timerOn) || nextSeq > old(nextSeq))
        invariant metrics.timeouts == old(metrics.timeouts) && metrics.retransmits == old(metrics.retransmits)
        decreases limit - nextSeq
      {
        FillEndStep(source, segmentSize, limit, nextSeq);
        ChunkFramesSnoc(old(sent), source, segmentSize, old(nextSeq), nextSeq);
        var fr := SendNext();
        if Fin(fr) {
          break;
        }
      }
    }

    /** The timer-expiry loop: resend `buffer[s]` for s in [base, next_seq), in ascending order. */
    method Retransmit()
      requires Buffered()
      modifies this`sent
      ensures sent == old(sent) + ChunkFrames(source, segmentSize, base, nextSeq)
    {
      var s := base;
      while s < nextSeq
        invariant base <= s <= nextSeq
        invariant sent == old(sent) + ChunkFrames(source, segmentSize, base, s)
      {
        sent := sent + [buffer[s]];
        ChunkFramesSnoc(old(sent), source, segmentSize, base, s);
        s := s + 1;
      }
    }

    /** Deleting every buffered frame below `base`. */
    method Prune()
      modifies this`buffer
      ensures buffer == map k | k in old(buffer) && k >= base :: old(buffer)[k]
    {
      var pending := buffer.Keys;
      ghost var original := buffer;
      while pending != {}
        invariant pending <= original.Keys
        invariant buffer == map k | k in original && (k in pending || k >= base) :: original[k]
        decreases pending
      {
        var k :| k in pending;
        if k < base {
          buffer := buffer - {k};
        }
        pending := pending - {k};
      }
    }

    /**
     * A cumulative ACK for `ack` > base: `base` moves to it, the acknowledged
     * frames leave the buffer and the timer runs iff frames remain.
     */
    method Slide(ack: nat)
      requires Valid() && !done && base < ack <= nextSeq
      modifies this`base, this`buffer, this`timerOn
      ensures Valid() && base == ack && timerOn == (base != nextSeq)
    {
      WindowSlide(source, segmentSize, buffer, base, nextSeq, ack);
      base := ack;
      Prune();
      timerOn := base != nextSeq;
    }

    /**
     * What `run` does with one receive result. A timeout with the timer
     * running and expired counts a timeout, adds next_seq - base to
     * `retransmits` and resends the window; any other timeout changes
     * nothing. An ACK above `base` slides the window to it; other ACKs,
     * undecodable datagrams and DATA frames change nothing. After an ACK
     * frame `run` returns iff the FIN is loaded and everything is
     * acknowledged. The ACK must not exceed next_seq: a receiver never ACKs
     * a frame it was not sent.
     */
    method Receive(e: GbnEvent)
      requires Valid() && !done && AckOf(sha1, e) <= nextSeq
      modifies this
      ensures Valid()
      ensures nextSeq == old(nextSeq) && metrics.packetsSent == old(metrics.packetsSent)
      ensures match e
        case GbnTimeout(expired) =>
          && base == old(base) && timerOn == old(timerOn) && !done
          && if expired && old(timerOn) then
               && metrics.timeouts == old(metrics.timeouts) + 1
               && metrics.retransmits == old(metrics.retransmits) + (nextSeq - base)
               && sent == old(sent) + ChunkFrames(source, segmentSize, base, nextSeq)
             else
               && metrics.timeouts == old(metrics.timeouts) && metrics.retransmits == old(metrics.retransmits)
               && sent == old(sent)
        case GbnReply(raw) =>
          var d := FromBytes(sha1, raw);
          && sent == old(sent)
          && metrics.timeouts == old(metrics.timeouts) && metrics.retransmits == old(metrics.retransmits)
          && if d.Ok? && d.value.kind == ACK then
               && base == Max(old(base), d.value.ack)
               && (d.value.ack > old(base) ==> timerOn == (base != nextSeq))
               && (d.value.ack <= old(base) ==> timerOn == old(timerOn))
               && done == (eofScheduled && base == nextSeq)
             else
               base == old(base) && timerOn == old(timerOn) && !done
    {
      match e {
        case GbnTimeout(expired) =>
          if timerOn && expired {
            metrics := metrics.(timeouts := metrics.timeouts + 1, retransmits := metrics.retransmits + (nextSeq - base));
            Retransmit();
          }
        case GbnReply(raw) =>
          var reply := FromBytes(sha1, raw);
          if reply.Err? || reply.value.kind != ACK {
            return;
          }
          if reply.value.ack > base {
            Slide(reply.value.ack);
          }
          if eofScheduled && base == nextSeq {
            done := true;
          }
      }
    }

    /** One iteration of the outer loop of `run`: refill the window, then handle one receive result. */
    method Step(e: GbnEvent)
      requires Valid() && !done && base + windowSize <= U32_LIMIT
      requires AckOf(sha1, e) <= FillEnd(source, segmentSize, base + windowSize, nextSeq)
      modifies this
      ensures Valid()
      ensures nextSeq == FillEnd(source, segmentSize, old(base) + windowSize, old(nextSeq))
      ensures old(base) <= base <= old(base) + windowSize && old(sent) <= sent
    {
      Refill();
      Receive(e);
    }

    /**
     * `run` fed with `events` in order, until it returns or the events run
     * out. It also stops before an event carrying an ACK above the frames the
     * sender would have sent by then, which a receiver never sends, and
     * before a refill that could number a frame 2^32 or more, which
     * `to_bytes` cannot encode; this model covers neither.
     */
    method Run(events: seq<GbnEvent>) returns (consumed: nat)
      requires Valid()
      modifies this
      ensures Valid()
      ensures consumed <= |events| && (old(done) ==> consumed == 0)
      ensures done ==> eofScheduled && base == nextSeq
      ensures old(base) <= base && old(nextSeq) <= nextSeq && old(sent) <= sent
    {
      consumed := 0;
      while consumed < |events| && !done
        invariant Valid()
        invariant consumed <= |events| && (old(done) ==> done && consumed == 0)
        invariant old(base) <= base && old(nextSeq) <= nextSeq && old(sent) <= sent
      {
        var e := events[consumed];
        if base + windowSize > U32_LIMIT || AckOf(sha1, e) > FillEnd(source, segmentSize, base + windowSize, nextSeq) {
          break;
        }
        Step(e);
        consumed := consumed + 1;
      }
    }
  }
}
