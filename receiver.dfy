/**
 * The receiver of the `rftp` package (src/rftp/receiver.py): it accepts only
 * the next in-order DATA frame, appends its payload to the output and answers
 * every valid DATA frame with a cumulative ACK. The socket is replaced by the
 * datagrams handed to `Step`, and the output stream by the `output` field.
 */
module Receiver {
  import opened Wrappers
  import opened Bytes
  import opened Packet

  /**
   * The integer counters of `Metrics`; the timestamps are not modelled. Each
   * `run` creates its own `Metrics` and is its only writer until it returns
   * it, so the model keeps it as a value in the state of the run.
   */
  datatype Metrics = Metrics(packetsSent: nat, bytesSent: nat, timeouts: nat, retransmits: nat)

  /**
   * What `recvfrom` produces. When the socket listens with a positive
   * `timeout_ms`, a receive can time out; `run` does not catch the
   * TimeoutError, so a timeout ends the run. With `timeout_ms` 0 no timeout
   * arrives.
   */
  datatype Arrival = Datagram(raw: seq<byte>) | RecvTimeout

  /**
   * Frame i is the i-th one accepted, so the cumulative ACK `expected`
   * means "frames 0 .. expected - 1 have arrived in order"; the output is
   * their payloads in order, and `bytes_sent` is its length.
   */
  ghost predicate InOrder(accepted: seq<Frame>, output: seq<byte>, expected: nat, bytesSent: nat)
  {
    && expected == |accepted|
    && (forall i :: 0 <= i < |accepted| ==> accepted[i].seqNum == i && accepted[i].kind == DATA)
    && output == PayloadStream(accepted)
    && bytesSent == |output|
  }

  /** Accepting the next in-order DATA frame keeps the delivery in order. */
  lemma AcceptKeeps(accepted: seq<Frame>, output: seq<byte>, expected: nat, bytesSent: nat, frame: Frame)
    requires InOrder(accepted, output, expected, bytesSent)
    requires frame.kind == DATA && frame.seqNum == expected
    ensures InOrder(accepted + [frame], output + frame.payload, expected + 1, bytesSent + |frame.payload|)
  {
    PayloadStreamAppend(accepted, frame);
  }

  /** The state of one `Receiver.run`. */
  class Receiver {
    const sha1: Hasher
    var metrics: Metrics
    /** The next sequence number the receiver accepts. */
    var expected: nat
    /** Everything written to `out`. */
    var output: seq<byte>
    /** The frames accepted so far, in order. */
    ghost var accepted: seq<Frame>

    ghost predicate Valid()
      reads this
    {
      InOrder(accepted, output, expected, metrics.bytesSent)
    }

    constructor (sha1: Hasher)
      ensures Valid()
      ensures this.sha1 == sha1 && expected == 0 && output == []
      ensures metrics.packetsSent == 0 && metrics.timeouts == 0 && metrics.retransmits == 0
    {
      this.sha1 := sha1;
      metrics := Metrics(0, 0, 0, 0);
      expected := 0;
      output := [];
      accepted := [];
    }

    /**
     * One iteration of the loop in `run` for the datagram `raw`. Returns the
     * ACK frame sent back, if any, and whether `run` leaves the loop.
     * The ACK must fit in the 32-bit ack field, hence the bound on `expected`.
     */
    method Step(raw: seq<byte>) returns (reply: Option<Frame>, done: bool)
      requires Valid() && expected + 1 < U32_LIMIT
      modifies this
      ensures Valid()
      ensures metrics.timeouts == old(metrics.timeouts) && metrics.retransmits == old(metrics.retransmits)
      ensures var d := FromBytes(sha1, raw);
        if d.Err? || d.value.kind != DATA then
          // undecodable datagrams and ACK frames are dropped without a reply
          && reply == None && !done
          && expected == old(expected) && output == old(output) && accepted == old(accepted)
          && metrics.packetsSent == old(metrics.packetsSent) && metrics.bytesSent == old(metrics.bytesSent)
        else
          && (d.value.seqNum == old(expected) ==>
                expected == old(expected) + 1 && output == old(output) + d.value.payload
                && accepted == old(accepted) + [d.value])
          && (d.value.seqNum != old(expected) ==>
                expected == old(expected) && output == old(output) && accepted == old(accepted))
          && reply == Some(MakeAck(expected))
          && metrics.packetsSent == old(metrics.packetsSent) + 1
          && done == (Fin(d.value) && d.value.seqNum < expected)
      ensures done == EndsTransfer(sha1, raw, expected)
      // what `run` relies on, in short
      ensures old(expected) <= expected <= old(expected) + 1
      ensures old(output) <= output && old(accepted) <= accepted
      ensures reply.Some? ==> reply.value == MakeAck(expected) && metrics.packetsSent == old(metrics.packetsSent) + 1
      ensures reply.None? ==> !done && expected == old(expected) && metrics.packetsSent == old(metrics.packetsSent)
    {
      var decoded := FromBytes(sha1, raw);
      if decoded.Err? {
        return None, false;
      }
      var frame := decoded.value;
      if frame.kind != DATA {
        return None, false;
      }
      if frame.seqNum == expected {
        AcceptKeeps(accepted, output, expected, metrics.bytesSent, frame);
        accepted, output, expected, metrics :=
          accepted + [frame], output + frame.payload, expected + 1,
          metrics.(bytesSent := metrics.bytesSent + |frame.payload|);
      }
      reply := Some(MakeAck(expected));
      metrics := metrics.(packetsSent := metrics.packetsSent + 1);
      done := Fin(frame) && frame.seqNum < expected;
    }

    /**
     * One iteration of the loop in `run`, from the receive on: a receive
     * timeout raises out of `run` and changes nothing, a datagram is handled
     * by `Step`.
     */
    method Receive(a: Arrival) returns (reply: Option<Frame>, done: bool, timedOut: bool)
      requires Valid() && expected + 1 < U32_LIMIT
      modifies this
      ensures Valid()
      ensures timedOut <==> a.RecvTimeout?
      ensures timedOut ==>
        && reply == None && !done && expected == old(expected) && output == old(output)
        && accepted == old(accepted) && metrics == old(metrics)
      ensures old(expected) <= expected <= old(expected) + 1
      ensures old(output) <= output && old(accepted) <= accepted
      ensures reply.Some? ==> reply.value == MakeAck(expected) && metrics.packetsSent == old(metrics.packetsSent) + 1
      ensures reply.None? ==> !done && expected == old(expected) && metrics.packetsSent == old(metrics.packetsSent)
      ensures done ==> a.Datagram? && EndsTransfer(sha1, a.raw, expected)
    {
      match a {
        case RecvTimeout =>
          return None, false, true;
        case Datagram(raw) =>
          reply, done := Step(raw);
          timedOut := false;
      }
    }

    /**
     * `run` over the arrivals, in order, until it leaves its loop, a receive
     * times out (the TimeoutError propagates out of `run`) or the arrivals run
     * out. Returns the ACKs sent, how many arrivals were consumed, whether the
     * loop was left and whether the run ended in a timeout.
     */
    method Run(arrivals: seq<Arrival>) returns (acks: seq<Frame>, consumed: nat, finished: bool, timedOut: bool)
      requires Valid() && expected + |arrivals| < U32_LIMIT
      modifies this
      ensures Valid()
      ensures consumed <= |arrivals| && !(finished && timedOut) && (finished || timedOut || consumed == |arrivals|)
      ensures old(expected) <= expected <= old(expected) + consumed
      ensures old(output) <= output && old(accepted) <= accepted
      ensures |acks| == metrics.packetsSent - old(metrics.packetsSent)
      ensures AckLog(acks, old(expected), expected)
      // the first timeout ends the run, and only a timeout does so
      ensures timedOut ==> consumed > 0
      ensures forall i :: 0 <= i < consumed ==> (arrivals[i].RecvTimeout? <==> timedOut && i == consumed - 1)
      // a timeout changes nothing: one that comes first leaves the state as it was
      ensures |arrivals| > 0 && arrivals[0].RecvTimeout? ==>
        && consumed == 1 && acks == [] && expected == old(expected) && output == old(output)
        && accepted == old(accepted) && metrics == old(metrics)
      ensures finished ==>
        && consumed > 0 && acks != [] && acks[|acks| - 1] == MakeAck(expected)
        && EndsTransfer(sha1, arrivals[consumed - 1].raw, expected)
    {
      acks, consumed, finished, timedOut := [], 0, false, false;
      while consumed < |arrivals|
        invariant Valid()
        invariant consumed <= |arrivals| && !finished && !timedOut
        invariant old(expected) <= expected <= old(expected) + consumed
        invariant old(output) <= output && old(accepted) <= accepted
        invariant |acks| == metrics.packetsSent - old(metrics.packetsSent)
        invariant AckLog(acks, old(expected), expected)
        invariant forall i :: 0 <= i < consumed ==> arrivals[i].Datagram?
        invariant consumed == 0 ==>
          && acks == [] && expected == old(expected) && output == old(output)
          && accepted == old(accepted) && metrics == old(metrics)
      {
        ghost var before := expected;
        var reply, done, timeout := Receive(arrivals[consumed]);
        if reply.Some? {
          AckLogSnoc(acks, old(expected), before, expected);
          acks := acks + [reply.value];
        }
        consumed := consumed + 1;
        if done || timeout {
          finished, timedOut := done, timeout;
          break;
        }
      }
    }
  }

  /**
   * `raw` is the datagram that makes `run` leave its loop once `expected`
   * frames have arrived: a valid DATA frame flagged FIN that is already
   * acknowledged.
   */
  ghost predicate EndsTransfer(sha1: Hasher, raw: seq<byte>, expected: nat)
  {
    var d := FromBytes(sha1, raw);
    d.Ok? && d.value.kind == DATA && Fin(d.value) && d.value.seqNum < expected
  }

  /** Every reply is an ACK numbered between `lo` and `hi`, and the numbers never go down. */
  ghost predicate AckLog(acks: seq<Frame>, lo: nat, hi: nat)
  {
    && (forall i :: 0 <= i < |acks| ==> acks[i] == MakeAck(acks[i].ack) && lo <= acks[i].ack <= hi)
    && (forall i, j :: 0 <= i < j < |acks| ==> acks[i].ack <= acks[j].ack)
  }

  lemma AckLogSnoc(acks: seq<Frame>, lo: nat, hi: nat, next: nat)
    requires AckLog(acks, lo, hi) && lo <= hi <= next
    ensures AckLog(acks + [MakeAck(next)], lo, next)
  {
  }

  /**
   * Delivering the same datagram twice changes the output and `expected`
   * exactly as delivering it once does: the replay, now a duplicate, is only
   * ACKed again with the same cumulative number.
   */
  method DeliverTwice(r: Receiver, raw: seq<byte>) returns (first: Option<Frame>, second: Option<Frame>)
    requires r.Valid() && r.expected + 2 < U32_LIMIT
    modifies r
    ensures r.Valid()
    ensures var d := FromBytes(r.sha1, raw);
      var once := d.Ok? && d.value.kind == DATA && d.value.seqNum == old(r.expected);
      && r.expected == old(r.expected) + (if once then 1 else 0)
      && r.output == old(r.output) + (if once then d.value.payload else [])
      && (d.Ok? && d.value.kind == DATA ==>
            first == second == Some(MakeAck(r.expected)) && r.metrics.packetsSent == old(r.metrics.packetsSent) + 2)
  {
    var done;
    first, done := r.Step(raw);
    second, done := r.Step(raw);
  }
}
