/**
 * `ReliableReceiver` of rftp.py: it accepts only the next in-order packet,
 * writes the payloads of accepted data packets to the output, keeps the
 * payload of the accepted FIN packet as the transfer metadata, and answers
 * with a cumulative ACK. The socket is replaced by the arrivals handed to
 * `Step`, the output file by the `output` field. Decoding the FIN payload as
 * UTF-8 JSON is not modelled: whether it succeeds is the parameter
 * `metaDecodes`, a predicate on the payload bytes.
 */
module ScriptReceiver {
  import opened Wrappers
  import opened Bytes
  import opened ScriptPacket

  /** What `recvfrom` produces: a datagram, or `socket.timeout`. */
  datatype Arrival = Datagram(raw: seq<byte>) | RecvTimeout

  /** How one iteration of the loop in `run` ends. */
  datatype Outcome =
    | Continue
      /** The FIN packet was accepted and ACKed: the loop is left. */
    | Finished
      /** `parse_packet` raised ValueError, which `run` does not catch. */
    | Failed(error: ParseError)
      /**
       * The in-order FIN packet was accepted, but `json.loads` raised on its
       * payload before the ACK was sent; `run` does not catch it.
       */
    | BadMeta

  /** The packet `_send_ack` builds. */
  function AckPacket(n: nat): (r: Packet)
    ensures IsAck(r) && !IsFin(r) && r.ack == n && r.seqNum == 0 && r.payload == []
  {
    Packet(VER, FLAG_ACK, 0, n, [])
  }

  /** The ACK for any 32-bit number reaches the sender intact. */
  lemma AckOnTheWire(sha1: Hasher, n: nat)
    requires n < U32_LIMIT
    ensures var r := BuildPacket(sha1, VER, FLAG_ACK, 0, n, []);
      r.Ok? && r.value == Encode(sha1, AckPacket(n)) && ParsePacket(sha1, r.value) == Ok(AckPacket(n))
  {
    RoundTrip(sha1, VER, FLAG_ACK, 0, n, []);
  }

  /**
   * The data packets accepted so far. Data packet i is the i-th accepted,
   * carries neither flag, and the output is their payloads in order; once
   * the FIN packet is accepted (`fin`) it counts towards `expected`, but it
   * is not written.
   */
  ghost predicate Delivered(accepted: seq<Packet>, output: seq<byte>, expected: nat, fin: bool)
  {
    && (forall i :: 0 <= i < |accepted| ==> accepted[i].seqNum == i && !IsAck(accepted[i]) && !IsFin(accepted[i]))
    && output == PayloadStream(accepted)
    && expected == |accepted| + (if fin then 1 else 0)
  }

  /** Accepting a data packet in order keeps the delivery invariant. */
  lemma DeliverData(accepted: seq<Packet>, output: seq<byte>, expected: nat, p: Packet)
    requires Delivered(accepted, output, expected, false)
    requires p.seqNum == expected && !IsAck(p) && !IsFin(p)
    ensures Delivered(accepted + [p], output + p.payload, expected + 1, false)
  {
    PayloadStreamAppend(accepted, p);
  }

  class ReliableReceiver {
    const sha1: Hasher
    /** Whether `json.loads(payload.decode("utf-8"))` succeeds on a FIN payload. */
    const metaDecodes: seq<byte> -> bool
    /** `expected_seq` */
    var expected: nat
    /** Everything written to the output file. */
    var output: seq<byte>
    /** The raw FIN payload, once it has decoded; the JSON value itself is not modelled. */
    var meta: Option<seq<byte>>
    /** The data packets accepted so far, in order. */
    ghost var accepted: seq<Packet>
    /** The FIN packet has been accepted, whether or not its payload decoded. */
    ghost var finSeen: bool

    ghost predicate Valid()
      reads this
    {
      Delivered(accepted, output, expected, finSeen) && (meta.Some? ==> finSeen)
    }

    constructor (sha1: Hasher, metaDecodes: seq<byte> -> bool)
      ensures Valid() && !finSeen
      ensures this.sha1 == sha1 && this.metaDecodes == metaDecodes && expected == 0 && output == [] && meta == None
    {
      this.sha1 := sha1;
      this.metaDecodes := metaDecodes;
      expected := 0;
      output := [];
      meta := None;
      accepted := [];
      finSeen := false;
    }

    /**
     * One iteration of the loop in `run`, before the FIN packet has been
     * accepted. Returns the ACK sent, if any. The ACK number must fit the
     * 32-bit field, hence the bound on `expected`.
     */
    method Step(a: Arrival) returns (reply: Option<Packet>, outcome: Outcome)
      requires Valid() && !finSeen && expected + 1 < U32_LIMIT
      modifies this
      ensures Valid()
      ensures match a
        case RecvTimeout =>
          reply == None && outcome == Continue && unchanged(this)
        case Datagram(raw) =>
          match ParsePacket(sha1, raw)
          case Err(e) =>
            && unchanged(this)
            && (e == ChecksumMismatch ==> reply == Some(AckPacket(expected)) && outcome == Continue)
            && (e != ChecksumMismatch ==> reply == None && outcome == Failed(e))
          case Ok(p) =>
            if IsAck(p) then reply == None && outcome == Continue && unchanged(this)
            else if p.seqNum != old(expected) then
              reply == Some(AckPacket(expected)) && outcome == Continue && unchanged(this)
            else
              && expected == old(expected) + 1
              && (IsFin(p) ==>
                    && finSeen && output == old(output) && accepted == old(accepted)
                    && (metaDecodes(p.payload) ==>
                          reply == Some(AckPacket(expected)) && outcome == Finished && meta == Some(p.payload))
                    && (!metaDecodes(p.payload) ==> reply == None && outcome == BadMeta && meta == None))
              && (!IsFin(p) ==>
                    && reply == Some(AckPacket(expected)) && outcome == Continue && meta == None && !finSeen
                    && output == old(output) + p.payload && accepted == old(accepted) + [p])
    {
      if a.RecvTimeout? {
        return None, Continue;
      }
      var parsed := ParsePacket(sha1, a.raw);
      if parsed.Err? {
        if parsed.error == ChecksumMismatch {
          return Some(AckPacket(expected)), Continue;
        }
        return None, Failed(parsed.error);
      }
      var p := parsed.value;
      if IsAck(p) {
        return None, Continue;
      }
      if p.seqNum == expected {
        if IsFin(p) {
          expected, finSeen := expected + 1, true;
          if !metaDecodes(p.payload) {
            return None, BadMeta;
          }
          meta := Some(p.payload);
          return Some(AckPacket(expected)), Finished;
        }
        DeliverData(accepted, output, expected, p);
        expected := expected + 1;
        output := output + p.payload;
        accepted := accepted + [p];
        return Some(AckPacket(expected)), Continue;
      }
      return Some(AckPacket(expected)), Continue;
    }

    /**
     * `run` over the arrivals, in order, until it leaves its loop, raises or
     * they run out. Returns the ACKs sent, how many arrivals were consumed
     * and how the last one ended.
     */
    method Run(arrivals: seq<Arrival>) returns (acks: seq<Packet>, consumed: nat, last: Outcome)
      requires Valid() && !finSeen && expected + |arrivals| < U32_LIMIT
      modifies this
      ensures Valid()
      ensures consumed <= |arrivals| && (last == Continue ==> consumed == |arrivals| && !finSeen)
      ensures old(expected) <= expected <= old(expected) + consumed
      ensures old(output) <= output
      ensures AckLog(acks, old(expected), expected)
      ensures finSeen <==> last == Finished || last == BadMeta
      ensures last == Finished <==> meta.Some?
      ensures last == Finished ==> acks != [] && acks[|acks| - 1] == AckPacket(expected)
      ensures last.Failed? ==> FailsRun(sha1, arrivals, consumed, last.error)
      ensures last == BadMeta ==> MetaFails(sha1, metaDecodes, arrivals, consumed)
    {
      acks, consumed, last := [], 0, Continue;
      while consumed < |arrivals| && last == Continue
        invariant Valid()
        invariant consumed <= |arrivals|
        invariant old(expected) <= expected <= old(expected) + consumed
        invariant old(output) <= output
        invariant AckLog(acks, old(expected), expected)
        invariant finSeen <==> last == Finished || last == BadMeta
        invariant last == Finished <==> meta.Some?
        invariant last == Finished ==> acks != [] && acks[|acks| - 1] == AckPacket(expected)
        invariant last.Failed? ==> FailsRun(sha1, arrivals, consumed, last.error)
        invariant last == BadMeta ==> MetaFails(sha1, metaDecodes, arrivals, consumed)
      {
        ghost var before := expected;
        var reply, outcome := Step(arrivals[consumed]);
        if reply.Some? {
          AckLogSnoc(acks, old(expected), before, expected);
          acks := acks + [reply.value];
        }
        consumed := consumed + 1;
        last := outcome;
      }
    }
  }

  /** Arrival `consumed - 1` is a datagram that `parse_packet` refuses with a ValueError. */
  ghost predicate FailsRun(sha1: Hasher, arrivals: seq<Arrival>, consumed: nat, e: ParseError)
  {
    && 0 < consumed <= |arrivals| && arrivals[consumed - 1].Datagram?
    && ParsePacket(sha1, arrivals[consumed - 1].raw) == Err(e) && e != ChecksumMismatch
  }

  /**
   * Arrival `consumed - 1` is a datagram that parses to a FIN packet not
   * flagged ACK whose payload does not decode as UTF-8 JSON.
   */
  ghost predicate MetaFails(sha1: Hasher, metaDecodes: seq<byte> -> bool, arrivals: seq<Arrival>, consumed: nat)
  {
    && 0 < consumed <= |arrivals| && arrivals[consumed - 1].Datagram?
    && var r := ParsePacket(sha1, arrivals[consumed - 1].raw);
       r.Ok? && !IsAck(r.value) && IsFin(r.value) && !metaDecodes(r.value.payload)
  }

  /** Every reply is an ACK numbered between `lo` and `hi`, and the numbers never go down. */
  ghost predicate AckLog(acks: seq<Packet>, lo: nat, hi: nat)
  {
    && (forall i :: 0 <= i < |acks| ==> 0 <= acks[i].ack && acks[i] == AckPacket(acks[i].ack) && lo <= acks[i].ack <= hi)
    && (forall i, j :: 0 <= i < j < |acks| ==> acks[i].ack <= acks[j].ack)
  }

  lemma AckLogSnoc(acks: seq<Packet>, lo: nat, hi: nat, next: nat)
    requires AckLog(acks, lo, hi) && lo <= hi <= next
    ensures AckLog(acks + [AckPacket(next)], lo, next)
  {
  }
}
