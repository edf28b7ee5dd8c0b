/**
 * The senders of rftp.py. `StopAndWaitSender.send_file` reads the file in
 * MAX_PAYLOAD chunks and sends each one until it is acknowledged, at most
 * max_retries + 1 times. `GoBackNSender.send_file` slices the whole file into
 * segments, appends the FIN payload and keeps a window of them in flight. The
 * socket is replaced by the inputs handed to `Handle`/`Step` and the `sent`
 * log. The JSON metadata of the FIN packet is the parameter `finPayload`.
 */
module ScriptSender {
  import opened Wrappers
  import opened Bytes
  import opened ScriptPacket
  import opened Chunking

  /** What a wait on the socket produces: a datagram, or `socket.timeout`. */
  datatype Input = Received(raw: seq<byte>) | TimedOut

  /** Why `send_file` gives up: SystemExit, a ValueError or ChecksumError from `parse_packet`, or a ValueError from `build_packet`. */
  datatype Abort = TooManyRetries | BadReply(error: ParseError) | Unbuildable

  /** Still transferring, finished, or left with an exception. */
  datatype Status = Sending | Done | Aborted(reason: Abort)

  /** How often `while retries <= max_retries` lets one packet be sent. */
  function Budget(maxRetries: int): (r: nat)
    ensures r == 0 <==> maxRetries < 0
  {
    if maxRetries < 0 then 0 else maxRetries + 1
  }

  /** How many entries of `sent` carry sequence number `s`. */
  function Count(sent: seq<Packet>, s: int): nat
  {
    if sent == [] then 0 else Count(sent[..|sent| - 1], s) + (if sent[|sent| - 1].seqNum == s then 1 else 0)
  }

  lemma CountSnoc(sent: seq<Packet>, p: Packet)
    ensures forall s :: Count(sent + [p], s) == Count(sent, s) + (if p.seqNum == s then 1 else 0)
  {
    assert (sent + [p])[..|sent|] == sent;
  }

  lemma {:induction false} CountAbsent(sent: seq<Packet>, s: int)
    requires forall p :: p in sent ==> p.seqNum != s
    ensures Count(sent, s) == 0
  {
    if sent != [] {
      var init := sent[..|sent| - 1];
      assert forall p :: p in init ==> p in sent;
      CountAbsent(init, s);
    }
  }

  // ---------------------------------------------------------------------
  // Stop-and-Wait
  // ---------------------------------------------------------------------

  /**
   * The packet `send_file` builds for read `i`: the `i`-th chunk, or, once the
   * read comes back empty, the FIN packet with the metadata as payload.
   */
  function SwPacket(data: seq<byte>, finPayload: seq<byte>, i: nat): (r: Packet)
    ensures r.version == VER && r.seqNum == i && r.ack == 0 && !IsAck(r)
    ensures IsFin(r) <==> AtEnd(data, MAX_PAYLOAD, i)
    ensures !IsFin(r) ==> r.payload == Chunk(data, MAX_PAYLOAD, i) && 0 < |r.payload| <= MAX_PAYLOAD
    ensures IsFin(r) ==> r.payload == finPayload
  {
    var chunk := Chunk(data, MAX_PAYLOAD, i);
    if |chunk| == 0 then Packet(VER, FLAG_FIN, i, 0, finPayload) else Packet(VER, 0, i, 0, chunk)
  }

  /**
   * The sent log: packets are the script's packets numbered up to `top`,
   * the first `acked` of them were sent, and none more than the budget allows.
   */
  ghost predicate SwLog(data: seq<byte>, finPayload: seq<byte>, maxRetries: int, acked: nat, top: nat, sent: seq<Packet>)
  {
    && (forall p :: p in sent ==> 0 <= p.seqNum <= top && p == SwPacket(data, finPayload, p.seqNum))
    && (forall s :: 0 <= s < acked ==> SwPacket(data, finPayload, s) in sent)
    && (forall s :: 0 <= s <= top ==> Count(sent, s) <= Budget(maxRetries))
  }

  /**
   * The state between two steps of `send_file`. `seqNum` counts the packets
   * acknowledged; `packet` is the one built last (the FIN once done), and the
   * file position is just past its chunk. While sending, `packet` was the
   * last one sent and has been sent `retries + 1` times.
   */
  ghost predicate SwState(data: seq<byte>, finPayload: seq<byte>, maxRetries: int,
                          seqNum: nat, offset: nat, packet: Packet, retries: nat, status: Status, sent: seq<Packet>)
  {
    var cur: nat := if status.Done? && seqNum > 0 then seqNum - 1 else seqNum;
    && seqNum < U32_LIMIT
    && (status.Done? ==> seqNum > 0 && IsFin(packet))
    && packet == SwPacket(data, finPayload, cur)
    && offset == Offset(data, MAX_PAYLOAD, cur + 1)
    && SwLog(data, finPayload, maxRetries, seqNum, cur, sent)
    && (status.Sending? ==>
          && retries < Budget(maxRetries) && Count(sent, cur) == retries + 1
          && |packet.payload| <= MAX_PAYLOAD && sent != [] && sent[|sent| - 1] == packet)
  }

  /** The state at the top of the outer loop, before packet `seqNum` is built. */
  ghost predicate SwLoadState(data: seq<byte>, finPayload: seq<byte>, maxRetries: int,
                              seqNum: nat, offset: nat, sent: seq<Packet>)
  {
    && seqNum < U32_LIMIT
    && offset == Offset(data, MAX_PAYLOAD, seqNum)
    && SwLog(data, finPayload, maxRetries, seqNum, seqNum, sent)
    && Count(sent, seqNum) == 0
  }

  /** The next read, at the position `seqNum` reads leave, is the chunk of packet `seqNum`. */
  lemma SwReadPacket(data: seq<byte>, finPayload: seq<byte>, seqNum: nat, offset: nat)
    requires offset == Offset(data, MAX_PAYLOAD, seqNum)
    ensures offset <= |data|
    ensures var chunk := Read(data, offset, MAX_PAYLOAD);
      && (if |chunk| == 0 then Packet(VER, FLAG_FIN, seqNum, 0, finPayload) else Packet(VER, 0, seqNum, 0, chunk))
           == SwPacket(data, finPayload, seqNum)
      && offset + |chunk| == Offset(data, MAX_PAYLOAD, seqNum + 1)
  {
  }

  /** Logging one more send of packet `top` keeps the log, and counts one more send of `top`. */
  lemma SwLogSnoc(data: seq<byte>, finPayload: seq<byte>, maxRetries: int, acked: nat, top: nat, sent: seq<Packet>)
    requires SwLog(data, finPayload, maxRetries, acked, top, sent)
    requires Count(sent, top) < Budget(maxRetries)
    ensures var p := SwPacket(data, finPayload, top);
      && SwLog(data, finPayload, maxRetries, acked, top, sent + [p])
      && Count(sent + [p], top) == Count(sent, top) + 1
  {
    var p := SwPacket(data, finPayload, top);
    CountSnoc(sent, p);
    assert forall q :: q in sent + [p] ==> q in sent || q == p;
  }

  /**
   * Building packet `seqNum` from the next read produces the script's packet;
   * the state after `build_packet` and the retry-loop test is consistent.
   */
  lemma SwLoadKeeps(data: seq<byte>, finPayload: seq<byte>, maxRetries: int, seqNum: nat, offset: nat, sent: seq<Packet>,
                    packet: Packet, status: Status)
    requires SwLoadState(data, finPayload, maxRetries, seqNum, offset, sent)
    requires offset <= |data|
    requires var chunk := Read(data, offset, MAX_PAYLOAD);
      packet == if |chunk| == 0 then Packet(VER, FLAG_FIN, seqNum, 0, finPayload) else Packet(VER, 0, seqNum, 0, chunk)
    requires status == if |packet.payload| > MAX_PAYLOAD then Aborted(Unbuildable)
                       else if 0 > maxRetries then Aborted(TooManyRetries) else Sending
    ensures packet == SwPacket(data, finPayload, seqNum)
    ensures SwState(data, finPayload, maxRetries, seqNum, offset + |Read(data, offset, MAX_PAYLOAD)|, packet, 0, status,
                    if status.Sending? then sent + [packet] else sent)
  {
    SwReadPacket(data, finPayload, seqNum, offset);
    if status.Sending? {
      SwLogSnoc(data, finPayload, maxRetries, seqNum, seqNum, sent);
    }
  }

  /** A timeout within the budget sends the same packet once more. */
  lemma SwResendKeeps(data: seq<byte>, finPayload: seq<byte>, maxRetries: int,
                      seqNum: nat, offset: nat, packet: Packet, retries: nat, sent: seq<Packet>)
    requires SwState(data, finPayload, maxRetries, seqNum, offset, packet, retries, Sending, sent)
    requires retries + 1 < Budget(maxRetries)
    ensures SwState(data, finPayload, maxRetries, seqNum, offset, packet, retries + 1, Sending, sent + [packet])
  {
    CountSnoc(sent, packet);
  }

  /** Giving up keeps the log consistent. */
  lemma SwAbortKeeps(data: seq<byte>, finPayload: seq<byte>, maxRetries: int,
                     seqNum: nat, offset: nat, packet: Packet, retries: nat, sent: seq<Packet>, reason: Abort)
    requires SwState(data, finPayload, maxRetries, seqNum, offset, packet, retries, Sending, sent)
    ensures SwState(data, finPayload, maxRetries, seqNum, offset, packet, retries, Aborted(reason), sent)
  {
  }

  /** The ACK for a data packet leads to the top of the loop for the next one. */
  lemma SwAckedKeeps(data: seq<byte>, finPayload: seq<byte>, maxRetries: int,
                     seqNum: nat, offset: nat, packet: Packet, retries: nat, sent: seq<Packet>)
    requires SwState(data, finPayload, maxRetries, seqNum, offset, packet, retries, Sending, sent)
    requires !IsFin(packet) && seqNum + 1 < U32_LIMIT
    ensures SwLoadState(data, finPayload, maxRetries, seqNum + 1, offset, sent)
  {
    assert sent[|sent| - 1] in sent;
    assert forall p :: p in sent ==> p.seqNum != seqNum + 1;
    CountAbsent(sent, seqNum + 1);
  }

  /** The ACK for the FIN packet ends the transfer. */
  lemma SwFinAckedKeeps(data: seq<byte>, finPayload: seq<byte>, maxRetries: int,
                        seqNum: nat, offset: nat, packet: Packet, retries: nat, sent: seq<Packet>)
    requires SwState(data, finPayload, maxRetries, seqNum, offset, packet, retries, Sending, sent)
    requires IsFin(packet) && seqNum + 1 < U32_LIMIT
    ensures SwState(data, finPayload, maxRetries, seqNum + 1, offset, packet, retries, Done, sent)
  {
    assert sent[|sent| - 1] in sent;
  }

  /** No packet is ever sent more often than `max_retries + 1` times. */
  lemma SwWithinBudget(data: seq<byte>, finPayload: seq<byte>, maxRetries: int,
                       seqNum: nat, offset: nat, packet: Packet, retries: nat, status: Status, sent: seq<Packet>)
    requires SwState(data, finPayload, maxRetries, seqNum, offset, packet, retries, status, sent)
    ensures forall s :: Count(sent, s) <= Budget(maxRetries)
  {
    var cur: nat := if status.Done? && seqNum > 0 then seqNum - 1 else seqNum;
    forall s | !(0 <= s <= cur)
      ensures Count(sent, s) <= Budget(maxRetries)
    {
      CountAbsent(sent, s);
    }
  }

  /**
   * Once the FIN packet is acknowledged, the data packets acknowledged before
   * it carry the whole file, in order, and each was sent.
   */
  lemma SwDoneCoversFile(data: seq<byte>, finPayload: seq<byte>, maxRetries: int,
                         seqNum: nat, offset: nat, packet: Packet, retries: nat, sent: seq<Packet>)
    requires SwState(data, finPayload, maxRetries, seqNum, offset, packet, retries, Done, sent)
    ensures seqNum > 0 && Flatten(Chunks(data, MAX_PAYLOAD, seqNum - 1)) == data
    ensures forall s :: 0 <= s < seqNum ==> SwPacket(data, finPayload, s) in sent
  {
    ChunksBeforeEmptyAreFile(data, MAX_PAYLOAD, seqNum - 1);
  }

  /** The state of one `StopAndWaitSender.send_file`. */
  class StopAndWaitSender {
    const sha1: Hasher
    /** The file's contents. */
    const source: seq<byte>
    const finPayload: seq<byte>
    const maxRetries: int
    /** `seq`: the packets acknowledged so far. */
    var seqNum: nat
    /** The file position. */
    var offset: nat
    /** The packet built last; `pkt_bytes` is its encoding. */
    var packet: Packet
    var retries: nat
    var status: Status
    /** Every packet handed to `sendto`, in order. */
    var sent: seq<Packet>

    ghost predicate Valid()
      reads this
    {
      SwState(source, finPayload, maxRetries, seqNum, offset, packet, retries, status, sent)
    }

    /** Opens the file and runs the first iteration of the outer loop up to the first wait. */
    constructor (sha1: Hasher, source: seq<byte>, finPayload: seq<byte>, maxRetries: int)
      ensures Valid()
      ensures this.sha1 == sha1 && this.source == source && this.finPayload == finPayload
      ensures this.maxRetries == maxRetries && seqNum == 0
      ensures status.Sending? ==> sent == [packet]
      ensures !status.Sending? ==> sent == []
    {
      this.sha1 := sha1;
      this.source := source;
      this.finPayload := finPayload;
      this.maxRetries := maxRetries;
      seqNum := 0;
      offset := 0;
      packet := Packet(VER, 0, 0, 0, []);
      retries := 0;
      status := Sending;
      sent := [];
      new;
      Load();
    }

    /**
     * The top of the outer loop: read the next chunk, build its packet (the
     * FIN packet at the end of the file) and enter the retry loop, whose
     * condition fails at once when max_retries is negative.
     */
    method Load()
      requires SwLoadState(source, finPayload, maxRetries, seqNum, offset, sent)
      modifies this`offset, this`packet, this`retries, this`status, this`sent
      ensures Valid()
      ensures packet == SwPacket(source, finPayload, seqNum) && retries == 0
      ensures status == (if |packet.payload| > MAX_PAYLOAD then Aborted(Unbuildable)
                         else if maxRetries < 0 then Aborted(TooManyRetries) else Sending)
      ensures sent == old(sent) + (if status.Sending? then [packet] else [])
    {
      var chunk := Read(source, offset, MAX_PAYLOAD);
      var isFin := |chunk| == 0;
      var flags: nat := if isFin then FLAG_FIN else 0;
      var payload := if isFin then finPayload else chunk;
      var p := Packet(VER, flags, seqNum, 0, payload);
      var built := BuildPacket(sha1, VER, flags, seqNum, 0, payload);
      var r: nat := 0;
      var st := if built.Err? then Aborted(Unbuildable) else if r > maxRetries then Aborted(TooManyRetries) else Sending;
      var log := if st.Sending? then sent + [p] else sent;
      SwLoadKeeps(source, finPayload, maxRetries, seqNum, offset, sent, p, st);
      offset, packet, retries, status, sent := offset + |chunk|, p, r, st, log;
    }

    /**
     * One outcome of `_wait_for_ack(seq + 1)` while packet `seqNum` is in
     * flight. Only an ACK numbered `seq + 1` completes the packet; other
     * packets are skipped; any datagram `parse_packet` refuses ends the
     * transfer; a timeout resends until the budget is spent.
     */
    method Handle(e: Input)
      requires Valid() && status.Sending? && seqNum + 1 < U32_LIMIT
      modifies this
      ensures Valid()
      ensures match e
        case TimedOut =>
          && seqNum == old(seqNum) && packet == old(packet) && retries == old(retries) + 1
          && (retries <= maxRetries ==> status == Sending && sent == old(sent) + [packet])
          && (retries > maxRetries ==> status == Aborted(TooManyRetries) && sent == old(sent))
        case Received(raw) =>
          match ParsePacket(sha1, raw)
          case Err(err) =>
            status == Aborted(BadReply(err)) && seqNum == old(seqNum) && sent == old(sent)
          case Ok(p) =>
            if IsAck(p) && p.ack == old(seqNum) + 1 then
              && seqNum == old(seqNum) + 1
              && (IsFin(old(packet)) ==> status == Done && sent == old(sent))
              && (!IsFin(old(packet)) ==>
                    packet == SwPacket(source, finPayload, seqNum) && retries == 0
                    && sent == old(sent) + (if status.Sending? then [packet] else []))
            else
              status == Sending && seqNum == old(seqNum) && retries == old(retries) && sent == old(sent)
    {
      match e
      case TimedOut => HandleTimeout();
      case Received(raw) => HandleReply(raw);
    }

    /** `_wait_for_ack` returned False: count a retry, and resend unless the budget is spent. */
    method HandleTimeout()
      requires Valid() && status.Sending?
      modifies this`retries, this`status, this`sent
      ensures Valid() && packet == old(packet) && retries == old(retries) + 1
      ensures retries <= maxRetries ==> status == Sending && sent == old(sent) + [packet]
      ensures retries > maxRetries ==> status == Aborted(TooManyRetries) && sent == old(sent)
    {
      if retries + 1 <= maxRetries {
        SwResendKeeps(source, finPayload, maxRetries, seqNum, offset, packet, retries, sent);
        retries := retries + 1;
        sent := sent + [packet];
      } else {
        SwAbortKeeps(source, finPayload, maxRetries, seqNum, offset, packet, retries, sent, TooManyRetries);
        retries := retries + 1;
        status := Aborted(TooManyRetries);
      }
    }

    /**
     * A datagram arrived while packet `seqNum` is in flight: `parse_packet`
     * errors end the transfer, an ACK for `seq + 1` completes the packet, and
     * anything else is skipped.
     */
    method HandleReply(raw: seq<byte>)
      requires Valid() && status.Sending? && seqNum + 1 < U32_LIMIT
      modifies this
      ensures Valid()
      ensures match ParsePacket(sha1, raw)
        case Err(err) =>
          status == Aborted(BadReply(err)) && seqNum == old(seqNum) && sent == old(sent)
        case Ok(p) =>
          if IsAck(p) && p.ack == old(seqNum) + 1 then
            && seqNum == old(seqNum) + 1
            && (IsFin(old(packet)) ==> status == Done && sent == old(sent))
            && (!IsFin(old(packet)) ==>
                  packet == SwPacket(source, finPayload, seqNum) && retries == 0
                  && sent == old(sent) + (if status.Sending? then [packet] else []))
          else
            status == Sending && seqNum == old(seqNum) && retries == old(retries) && sent == old(sent)
    {
      var parsed := ParsePacket(sha1, raw);
      if parsed.Err? {
        SwAbortKeeps(source, finPayload, maxRetries, seqNum, offset, packet, retries, sent, BadReply(parsed.error));
        status := Aborted(BadReply(parsed.error));
      } else if IsAck(parsed.value) && parsed.value.ack == seqNum + 1 {
        Acknowledge();
      }
    }

    /**
     * The ACK for `seq + 1` arrived: `seq` advances; after the FIN packet the
     * transfer is over, otherwise the outer loop reads the next packet.
     */
    method Acknowledge()
      requires Valid() && status.Sending? && seqNum + 1 < U32_LIMIT
      modifies this`seqNum, this`offset, this`packet, this`retries, this`status, this`sent
      ensures Valid() && seqNum == old(seqNum) + 1
      ensures IsFin(old(packet)) ==> status == Done && sent == old(sent)
      ensures !IsFin(old(packet)) ==>
        && packet == SwPacket(source, finPayload, seqNum) && retries == 0
        && sent == old(sent) + (if status.Sending? then [packet] else [])
    {
      if IsFin(packet) {
        SwFinAckedKeeps(source, finPayload, maxRetries, seqNum, offset, packet, retries, sent);
        seqNum := seqNum + 1;
        status := Done;
      } else {
        SwAckedKeeps(source, finPayload, maxRetries, seqNum, offset, packet, retries, sent);
        seqNum := seqNum + 1;
        Load();
      }
    }

    /**
     * `send_file` driven by `inputs` until it returns, raises, or the inputs
     * run out. Every packet is sent at most max_retries + 1 times, and a
     * finished transfer has carried the whole file.
     */
    method Run(inputs: seq<Input>) returns (consumed: nat)
      requires Valid() && seqNum + |inputs| < U32_LIMIT
      modifies this
      ensures Valid()
      ensures consumed <= |inputs| && (status.Sending? ==> consumed == |inputs|)
      ensures old(seqNum) <= seqNum <= old(seqNum) + consumed
      ensures old(status) == Sending || (consumed == 0 && status == old(status))
      ensures forall s :: Count(sent, s) <= Budget(maxRetries)
      ensures status.Done? ==> seqNum > 0 && Flatten(Chunks(source, MAX_PAYLOAD, seqNum - 1)) == source
    {
      consumed := 0;
      while consumed < |inputs| && status.Sending?
        invariant Valid()
        invariant consumed <= |inputs|
        invariant old(seqNum) <= seqNum <= old(seqNum) + consumed
        invariant old(status) == Sending || (consumed == 0 && status == old(status))
      {
        Handle(inputs[consumed]);
        consumed := consumed + 1;
      }
      SwWithinBudget(source, finPayload, maxRetries, seqNum, offset, packet, retries, status, sent);
      if status.Done? {
        SwDoneCoversFile(source, finPayload, maxRetries, seqNum, offset, packet, retries, sent);
      }
    }
  }

  // ---------------------------------------------------------------------
  // Go-Back-N
  // ---------------------------------------------------------------------

  /** `segments`: the file in MAX_PAYLOAD slices, then the FIN payload. */
  function Segs(data: seq<byte>, finPayload: seq<byte>): (r: seq<seq<byte>>)
    ensures |r| == |Segments(data)| + 1 && r[|r| - 1] == finPayload
  {
    Segments(data) + [finPayload]
  }

  /** The data segments are non-empty, at most MAX_PAYLOAD long and together the file; the FIN payload is last. */
  lemma SegsShape(data: seq<byte>, finPayload: seq<byte>)
    ensures var segs := Segs(data, finPayload);
      && Flatten(segs[..|segs| - 1]) == data
      && segs[|segs| - 1] == finPayload
      && (forall i :: 0 <= i < |segs| - 1 ==> 1 <= |segs[i]| <= MAX_PAYLOAD)
  {
    var segs := Segs(data, finPayload);
    assert segs[..|segs| - 1] == Segments(data);
    SegmentsFlatten(data);
    SegmentSizes(data);
  }

  /** The packet for segment `i`; the last segment is flagged FIN. */
  function GbnPacket(segs: seq<seq<byte>>, i: nat): (r: Packet)
    requires i < |segs|
    ensures r.version == VER && r.seqNum == i && r.ack == 0 && r.payload == segs[i] && !IsAck(r)
    ensures IsFin(r) <==> i == |segs| - 1
  {
    Packet(VER, if i == |segs| - 1 then FLAG_FIN else 0, i, 0, segs[i])
  }

  /** The packets for segments `lo` .. `hi - 1`, in ascending order (`range(base, next_seq)`). */
  function GbnPackets(segs: seq<seq<byte>>, lo: nat, hi: nat): (r: seq<Packet>)
    requires hi <= |segs|
    ensures |r| == if lo < hi then hi - lo else 0
    ensures forall k :: 0 <= k < |r| ==> r[k] == GbnPacket(segs, lo + k)
  {
    if hi <= lo then [] else seq(hi - lo, k requires 0 <= k < hi - lo => GbnPacket(segs, lo + k))
  }

  lemma GbnPacketsSnoc(earlier: seq<Packet>, segs: seq<seq<byte>>, lo: nat, hi: nat)
    requires lo <= hi < |segs|
    ensures earlier + GbnPackets(segs, lo, hi + 1) == (earlier + GbnPackets(segs, lo, hi)) + [GbnPacket(segs, hi)]
  {
    assert GbnPackets(segs, lo, hi + 1) == GbnPackets(segs, lo, hi) + [GbnPacket(segs, hi)];
  }

  /**
   * The state of `GoBackNSender.send_file` between events. The window never
   * holds more than `window` packets past `base` and never runs past the last
   * segment; every packet sent is the script's packet for its segment and
   * every segment below `next_seq` has been sent; everything sent could be
   * built. The loop runs while `base` is below the segment count.
   */
  ghost predicate GbnState(segs: seq<seq<byte>>, window: nat, maxRetries: int, base: nat, next: nat,
                           retries: nat, timerOn: bool, status: Status, sent: seq<Packet>)
  {
    && window >= 1 && 1 <= |segs| <= U32_LIMIT
    && (forall i :: 0 <= i < |segs| - 1 ==> |segs[i]| <= MAX_PAYLOAD)
    && next <= |segs| && next <= base + window
    && (next == |segs| ==> |segs[|segs| - 1]| <= MAX_PAYLOAD)
    && (base < next ==> timerOn)
    && (status.Sending? ==> base < |segs| && (retries == 0 || retries <= maxRetries))
    && (status.Done? ==> base >= |segs|)
    && (forall p :: p in sent ==> 0 <= p.seqNum < next && p == GbnPacket(segs, p.seqNum))
    && (forall i :: 0 <= i < next ==> GbnPacket(segs, i) in sent)
  }

  /** Sending the next segment extends the window by one. */
  lemma GbnSendKeeps(segs: seq<seq<byte>>, window: nat, maxRetries: int, base: nat, next: nat,
                     retries: nat, timerOn: bool, sent: seq<Packet>)
    requires GbnState(segs, window, maxRetries, base, next, retries, timerOn, Sending, sent)
    requires next < base + window && next < |segs| && |segs[next]| <= MAX_PAYLOAD
    ensures GbnState(segs, window, maxRetries, base, next + 1, retries, true, Sending, sent + [GbnPacket(segs, next)])
  {
  }

  /** Resending a packet already in the window keeps the state. */
  lemma GbnResendKeeps(segs: seq<seq<byte>>, window: nat, maxRetries: int, base: nat, next: nat,
                       retries: nat, timerOn: bool, sent: seq<Packet>, s: nat)
    requires GbnState(segs, window, maxRetries, base, next, retries, timerOn, Sending, sent)
    requires s < next
    ensures GbnState(segs, window, maxRetries, base, next, retries, timerOn, Sending, sent + [GbnPacket(segs, s)])
  {
  }

  /**
   * When the loop has ended and no ACK ran past `next_seq`, every segment was
   * acknowledged and sent at least once, and the data packets carry the file.
   */
  lemma GbnDoneCoversFile(data: seq<byte>, finPayload: seq<byte>, window: nat, maxRetries: int, base: nat, next: nat,
                          retries: nat, timerOn: bool, sent: seq<Packet>)
    requires GbnState(Segs(data, finPayload), window, maxRetries, base, next, retries, timerOn, Done, sent)
    requires base <= next
    ensures var segs := Segs(data, finPayload);
      && base == next == |segs|
      && (forall i :: 0 <= i < |segs| ==> GbnPacket(segs, i) in sent)
      && Flatten(segs[..|segs| - 1]) == data
  {
    SegsShape(data, finPayload);
  }

  /** The state of one `GoBackNSender.send_file`. */
  class GoBackNSender {
    const sha1: Hasher
    const source: seq<byte>
    const finPayload: seq<byte>
    const maxRetries: int
    /** `self.window`, clamped to at least 1. */
    const window: nat
    const segs: seq<seq<byte>>
    var base: nat
    var nextSeq: nat
    var retries: nat
    /** `timer_start is not None` */
    var timerOn: bool
    var status: Status
    /** Every packet handed to `sendto`, in order. */
    var sent: seq<Packet>

    ghost predicate Valid()
      reads this
    {
      && segs == Segs(source, finPayload)
      && GbnState(segs, window, maxRetries, base, nextSeq, retries, timerOn, status, sent)
    }

    /**
     * The set-up before the outer loop. Sequence numbers must fit the
     * 32-bit field, hence the bound on the number of segments.
     */
    constructor (sha1: Hasher, source: seq<byte>, finPayload: seq<byte>, maxRetries: int, windowArg: int)
      requires |Segments(source)| < U32_LIMIT
      ensures Valid()
      ensures this.sha1 == sha1 && this.source == source && this.finPayload == finPayload && this.maxRetries == maxRetries
      ensures window >= 1 && (windowArg >= 1 ==> window == windowArg)
      ensures base == 0 && nextSeq == 0 && retries == 0 && !timerOn && status == Sending && sent == []
    {
      this.sha1 := sha1;
      this.source := source;
      this.finPayload := finPayload;
      this.maxRetries := maxRetries;
      window := if windowArg >= 1 then windowArg else 1;
      segs := Segs(source, finPayload);
      base := 0;
      nextSeq := 0;
      retries := 0;
      timerOn := false;
      status := Sending;
      sent := [];
      new;
      SegsShape(source, finPayload);
    }

    /**
     * One pass of the "send window" loop: build the packet for segment
     * `next_seq` (flagged FIN for the last segment), send it, start the timer
     * and move on. `build_packet` refuses an oversized payload, which ends
     * the transfer.
     */
    method SendSegment()
      requires Valid() && status.Sending? && nextSeq < base + window && nextSeq < |segs|
      modifies this`nextSeq, this`timerOn, this`status, this`sent
      ensures Valid()
      ensures |segs[old(nextSeq)]| <= MAX_PAYLOAD ==>
        && status.Sending? && timerOn && nextSeq == old(nextSeq) + 1
        && sent == old(sent) + [GbnPacket(segs, old(nextSeq))]
      ensures |segs[old(nextSeq)]| > MAX_PAYLOAD ==>
        status == Aborted(Unbuildable) && nextSeq == old(nextSeq) && sent == old(sent)
    {
      var isFin := nextSeq == |segs| - 1;
      var flags: nat := if isFin then FLAG_FIN else 0;
      var built := BuildPacket(sha1, VER, flags, nextSeq, 0, segs[nextSeq]);
      if built.Err? {
        status := Aborted(Unbuildable);
        return;
      }
      GbnSendKeeps(segs, window, maxRetries, base, nextSeq, retries, timerOn, sent);
      sent := sent + [Packet(VER, flags, nextSeq, 0, segs[nextSeq])];
      timerOn := true;
      nextSeq := nextSeq + 1;
    }

    /**
     * The "send window" loop. It fills the window up to `base + window` or
     * the last segment; only the FIN payload can be too large to build.
     * Afterwards the timer is always running, so the script's
     * `if timer_start is None` before the wait never fires.
     */
    method Refill()
      requires Valid() && status.Sending?
      modifies this`nextSeq, this`timerOn, this`status, this`sent
      ensures Valid()
      ensures old(nextSeq) <= nextSeq && sent == old(sent) + GbnPackets(segs, old(nextSeq), nextSeq)
      ensures status.Sending? ==> nextSeq == Min(base + window, |segs|) && base < nextSeq && timerOn
      ensures !status.Sending? ==>
        status == Aborted(Unbuildable) && nextSeq == |segs| - 1 && |finPayload| > MAX_PAYLOAD
    {
      while nextSeq < base + window && nextSeq < |segs|
        invariant Valid() && status.Sending?
        invariant old(nextSeq) <= nextSeq
        invariant sent == old(sent) + GbnPackets(segs, old(nextSeq), nextSeq)
        decreases |segs| - nextSeq
      {
        GbnPacketsSnoc(old(sent), segs, old(nextSeq), nextSeq);
        ghost var n := nextSeq;
        SendSegment();
        if !status.Sending? {
          assert n == |segs| - 1;
          return;
        }
      }
    }

    /** `for seq in range(base, next_seq)`: resend the window in ascending order. */
    method Retransmit()
      requires Valid() && status.Sending? && base <= nextSeq
      modifies this`sent
      ensures Valid()
      ensures sent == old(sent) + GbnPackets(segs, base, nextSeq)
    {
      var s := base;
      while s < nextSeq
        invariant Valid()
        invariant base <= s <= nextSeq <= |segs|
        invariant sent == old(sent) + GbnPackets(segs, base, s)
        decreases nextSeq - s
      {
        var flags: nat := if s == |segs| - 1 then FLAG_FIN else 0;
        GbnResendKeeps(segs, window, maxRetries, base, nextSeq, retries, timerOn, sent, s);
        GbnPacketsSnoc(old(sent), segs, base, s);
        sent := sent + [Packet(VER, flags, s, 0, segs[s])];
        s := s + 1;
      }
    }

    /**
     * The wait for an ACK and what follows it. An ACK above `base` slides the
     * window and resets the retry count; any other ACK changes nothing; a
     * timeout or a datagram that is not an ACK counts a retry, gives up past
     * max_retries and otherwise restarts the timer and resends the window;
     * a datagram `parse_packet` refuses ends the transfer.
     */
    method Receive(e: Input)
      requires Valid() && status.Sending? && base < nextSeq
      modifies this`base, this`retries, this`timerOn, this`status, this`sent
      ensures Valid() && nextSeq == old(nextSeq)
      ensures var gotAck := e.Received? && ParsePacket(sha1, e.raw).Ok? && IsAck(ParsePacket(sha1, e.raw).value);
        if e.Received? && ParsePacket(sha1, e.raw).Err? then
          status == Aborted(BadReply(ParsePacket(sha1, e.raw).error)) && base == old(base) && sent == old(sent)
        else if gotAck then
          var ackNum := ParsePacket(sha1, e.raw).value.ack;
          && sent == old(sent)
          && (ackNum > old(base) ==> base == ackNum && retries == 0 && timerOn == (base != nextSeq))
          && (ackNum <= old(base) ==> base == old(base) && retries == old(retries) && timerOn == old(timerOn))
          && status == (if base >= |segs| then Done else Sending)
        else
          && base == old(base) && retries == old(retries) + 1
          && (retries > maxRetries ==> status == Aborted(TooManyRetries) && sent == old(sent))
          && (retries <= maxRetries ==>
                status == Sending && timerOn && sent == old(sent) + GbnPackets(segs, base, nextSeq))
    {
      var gotAck := false;
      var ackNum := 0;
      if e.Received? {
        var parsed := ParsePacket(sha1, e.raw);
        if parsed.Err? {
          status := Aborted(BadReply(parsed.error));
          return;
        }
        if IsAck(parsed.value) {
          gotAck := true;
          ackNum := parsed.value.ack;
        }
      }
      if gotAck {
        if ackNum > base {
          base := ackNum;
          retries := 0;
          timerOn := base != nextSeq;
        }
        if base >= |segs| {
          status := Done;
        }
      } else {
        retries := retries + 1;
        if retries > maxRetries {
          status := Aborted(TooManyRetries);
          return;
        }
        timerOn := true;
        Retransmit();
      }
    }

    /** One pass of the outer loop: fill the window, then wait for one event. */
    method Step(e: Input)
      requires Valid() && status.Sending?
      modifies this`base, this`nextSeq, this`retries, this`timerOn, this`status, this`sent
      ensures Valid()
      ensures old(base) <= base && old(nextSeq) <= nextSeq
      ensures nextSeq - base <= window
      ensures base > nextSeq ==>
        e.Received? && ParsePacket(sha1, e.raw).Ok? && IsAck(ParsePacket(sha1, e.raw).value)
        && ParsePacket(sha1, e.raw).value.ack == base
    {
      Refill();
      if status.Sending? {
        Receive(e);
      }
    }

    /**
     * `send_file` driven by `events` until it returns, raises, or the events
     * run out. When the loop ends and no ACK ran past `next_seq`, every
     * segment was sent and acknowledged.
     */
    method Run(events: seq<Input>) returns (consumed: nat)
      requires Valid()
      modifies this`base, this`nextSeq, this`retries, this`timerOn, this`status, this`sent
      ensures Valid()
      ensures consumed <= |events| && (status.Sending? ==> consumed == |events|)
      ensures old(status) == Sending || (consumed == 0 && status == old(status))
      ensures status.Done? && base <= nextSeq ==>
        base == nextSeq == |segs| && (forall i :: 0 <= i < |segs| ==> GbnPacket(segs, i) in sent)
    {
      consumed := 0;
      while consumed < |events| && status.Sending?
        invariant Valid()
        invariant consumed <= |events|
        invariant old(status) == Sending || (consumed == 0 && status == old(status))
      {
        Step(events[consumed]);
        consumed := consumed + 1;
      }
      if status.Done? && base <= nextSeq {
        GbnDoneCoversFile(source, finPayload, window, maxRetries, base, nextSeq, retries, timerOn, sent);
      }
    }
  }
}
