/**
 * The wire format of the standalone script rftp.py: a 32-byte header
 * "!BBIIH20s" (version, flags, seq, ack, payload length, checksum) followed
 * by the payload. The checksum is the SHA-1 digest of the header with a zeroed
 * checksum slot, followed by the payload.
 */
module ScriptPacket {
  import opened Wrappers
  import opened Bytes

  const VER: nat := 1
  const FLAG_ACK: nat := 0x01
  const FLAG_FIN: nat := 0x02
  /** The five integer fields of the header: 1 + 1 + 4 + 4 + 2 bytes. */
  const FIELDS_LEN: nat := 12
  /** HEADER_STRUCT.size: the fields and the 20-byte checksum. */
  const HEADER_SIZE: nat := FIELDS_LEN + DIGEST_LEN
  /** The largest payload `build_packet` accepts. */
  const MAX_PAYLOAD: nat := 1400

  /** The dataclass `Packet`; Python integers are unbounded. */
  datatype Packet = Packet(version: int, flags: int, seqNum: int, ack: int, payload: seq<byte>)

  /**
   * `Packet.is_ack`, that is `flags & FLAG_ACK`. The Euclidean `%` and `/` of
   * Dafny by a positive divisor agree with Python's floor division, so these
   * pick out bit 0 and bit 1 for negative flags too.
   */
  predicate IsAck(p: Packet)
  {
    p.flags % 2 == 1
  }

  /** `Packet.is_fin`, that is `flags & FLAG_FIN`. */
  predicate IsFin(p: Packet)
  {
    (p.flags / 2) % 2 == 1
  }

  /**
   * On the byte `struct.pack` stores, `IsAck` and `IsFin` are the bitwise
   * tests `flags & FLAG_ACK` and `flags & FLAG_FIN`.
   */
  lemma FlagMasks(p: Packet)
    requires 0 <= p.flags < 256
    ensures IsAck(p) <==> (p.flags as bv8) & (FLAG_ACK as bv8) != 0
    ensures IsFin(p) <==> (p.flags as bv8) & (FLAG_FIN as bv8) != 0
  {
  }

  /** The flag constants the script sends set exactly the bit they name. */
  lemma FlagBits(version: int, seqNum: int, ack: int, payload: seq<byte>)
    ensures var p := Packet(version, FLAG_ACK, seqNum, ack, payload); IsAck(p) && !IsFin(p)
    ensures var p := Packet(version, FLAG_FIN, seqNum, ack, payload); IsFin(p) && !IsAck(p)
    ensures var p := Packet(version, 0, seqNum, ack, payload); !IsFin(p) && !IsAck(p)
  {
  }

  /** The integer fields of a header. */
  datatype Fields = Fields(version: nat, flags: nat, seqNum: nat, ack: nat, length: nat)

  /** The fields `struct.pack("!BBIIH20s", ...)` accepts without raising. */
  predicate Fits(h: Fields)
  {
    h.version < 256 && h.flags < 256 && h.seqNum < U32_LIMIT && h.ack < U32_LIMIT && h.length < U16_LIMIT
  }

  function PackFields(h: Fields): (r: seq<byte>)
    ensures |r| == FIELDS_LEN
  {
    Pack(h.version, 1) + Pack(h.flags, 1) + Pack(h.seqNum, 4) + Pack(h.ack, 4) + Pack(h.length, 2)
  }

  function UnpackFields(s: seq<byte>): Fields
    requires |s| == FIELDS_LEN
  {
    Fields(Unpack(s[0..1]), Unpack(s[1..2]), Unpack(s[2..6]), Unpack(s[6..10]), Unpack(s[10..12]))
  }

  /** `struct.unpack` of `struct.pack` returns the fields. */
  lemma FieldsRoundTrip(h: Fields)
    requires Fits(h)
    ensures UnpackFields(PackFields(h)) == h
  {
    Pow256Values();
    var p1, p2, p3, p4, p5 := Pack(h.version, 1), Pack(h.flags, 1), Pack(h.seqNum, 4), Pack(h.ack, 4), Pack(h.length, 2);
    var s := PackFields(h);
    assert s == p1 + p2 + p3 + p4 + p5;
    Split(p1 + p2 + p3 + p4, p5);
    Split(p1 + p2 + p3, p4);
    Split(p1 + p2, p3);
    Split(p1, p2);
    assert s[..10] == p1 + p2 + p3 + p4 && s[..6] == p1 + p2 + p3 && s[..2] == p1 + p2;
    assert s[0..1] == p1 && s[1..2] == p2 && s[2..6] == p3 && s[6..10] == p4 && s[10..12] == p5;
    UnpackPack(h.version, 1);
    UnpackPack(h.flags, 1);
    UnpackPack(h.seqNum, 4);
    UnpackPack(h.ack, 4);
    UnpackPack(h.length, 2);
  }

  /** Every 12 bytes are the packing of the fields they unpack to. */
  lemma FieldsBytesRoundTrip(s: seq<byte>)
    requires |s| == FIELDS_LEN
    ensures Fits(UnpackFields(s)) && PackFields(UnpackFields(s)) == s
  {
    Pow256Values();
    PackUnpack(s[0..1]);
    PackUnpack(s[1..2]);
    PackUnpack(s[2..6]);
    PackUnpack(s[6..10]);
    PackUnpack(s[10..12]);
    assert s == s[0..1] + s[1..2] + s[2..6] + s[6..10] + s[10..12];
  }

  /** The 20 zero bytes that stand in for the checksum while it is computed. */
  function ZeroChecksum(): Digest
  {
    seq(DIGEST_LEN, _ => 0)
  }

  /** `compute_checksum`: the digest of the header with a zeroed checksum slot, then the payload. */
  function ComputeChecksum(sha1: Hasher, h: Fields, payload: seq<byte>): Digest
  {
    sha1(PackFields(h) + ZeroChecksum() + payload)
  }

  /** A packet whose fields `struct.pack` accepts, its payload length included. */
  predicate Encodable(p: Packet)
  {
    && 0 <= p.version < 256 && 0 <= p.flags < 256 && 0 <= p.seqNum < U32_LIMIT && 0 <= p.ack < U32_LIMIT
    && |p.payload| < U16_LIMIT
  }

  function FieldsOf(p: Packet): (r: Fields)
    requires Encodable(p)
    ensures Fits(r)
  {
    Fields(p.version, p.flags, p.seqNum, p.ack, |p.payload|)
  }

  /** The datagram `build_packet` returns once the size check has passed. */
  function Encode(sha1: Hasher, p: Packet): (r: seq<byte>)
    requires Encodable(p)
    ensures |r| == HEADER_SIZE + |p.payload|
    ensures UnpackFields(r[..FIELDS_LEN]) == FieldsOf(p)
    ensures r[FIELDS_LEN..HEADER_SIZE] == sha1(r[..FIELDS_LEN] + ZeroChecksum() + p.payload)
    ensures r[HEADER_SIZE..] == p.payload
  {
    var fields := PackFields(FieldsOf(p));
    FieldsRoundTrip(FieldsOf(p));
    var r := fields + ComputeChecksum(sha1, FieldsOf(p), p.payload) + p.payload;
    assert r[..FIELDS_LEN] == fields;
    r
  }

  /**
   * The checksum `build_packet` stores is what `compute_checksum` returns, and
   * it is the digest of the datagram itself with its checksum slot zeroed.
   */
  lemma ChecksumOfZeroedPacket(sha1: Hasher, p: Packet)
    requires Encodable(p)
    ensures var e := Encode(sha1, p);
      && e[FIELDS_LEN..HEADER_SIZE] == ComputeChecksum(sha1, FieldsOf(p), p.payload)
      && ComputeChecksum(sha1, FieldsOf(p), p.payload) == sha1(e[..FIELDS_LEN] + ZeroChecksum() + e[HEADER_SIZE..])
  {
    var e := Encode(sha1, p);
    FieldsBytesRoundTrip(e[..FIELDS_LEN]);
  }

  /** `build_packet` raises ValueError for an oversized payload. */
  datatype BuildError = PayloadTooLarge

  /**
   * `build_packet`. The integer fields must be in the range `struct.pack`
   * accepts; a payload over MAX_PAYLOAD bytes is refused before anything is
   * packed.
   */
  function BuildPacket(sha1: Hasher, version: nat, flags: nat, seqNum: nat, ack: nat, payload: seq<byte>)
    : (r: Result<seq<byte>, BuildError>)
    requires version < 256 && flags < 256 && seqNum < U32_LIMIT && ack < U32_LIMIT
    ensures r.Err? <==> |payload| > MAX_PAYLOAD
    ensures r.Ok? ==>
      && |r.value| == HEADER_SIZE + |payload|
      && UnpackFields(r.value[..FIELDS_LEN]) == Fields(version, flags, seqNum, ack, |payload|)
      && r.value[FIELDS_LEN..HEADER_SIZE] == sha1(r.value[..FIELDS_LEN] + ZeroChecksum() + payload)
      && r.value[HEADER_SIZE..] == payload
  {
    if |payload| > MAX_PAYLOAD then Err(PayloadTooLarge)
    else Ok(Encode(sha1, Packet(version, flags, seqNum, ack, payload)))
  }

  /**
   * The reasons `parse_packet` raises: ValueError for a datagram too short to
   * hold a header or holding fewer payload bytes than its length field says,
   * and the distinct ChecksumError on a digest mismatch.
   */
  datatype ParseError = TooShort | Truncated | ChecksumMismatch

  /** The payload length the header of `data` announces. */
  function DeclaredLength(data: seq<byte>): nat
    requires |data| >= HEADER_SIZE
  {
    UnpackFields(data[..FIELDS_LEN]).length
  }

  /** The announced payload is present in full. */
  predicate Complete(data: seq<byte>)
  {
    |data| >= HEADER_SIZE && |data| >= HEADER_SIZE + DeclaredLength(data)
  }

  /** The stored checksum is the digest of the zeroed header and the announced payload. */
  predicate ChecksumOk(sha1: Hasher, data: seq<byte>)
    requires Complete(data)
  {
    sha1(data[..FIELDS_LEN] + ZeroChecksum() + data[HEADER_SIZE..HEADER_SIZE + DeclaredLength(data)])
      == data[FIELDS_LEN..HEADER_SIZE]
  }

  /**
   * `parse_packet`. The version is not checked, and bytes after the announced
   * payload are ignored.
   */
  function ParsePacket(sha1: Hasher, data: seq<byte>): (r: Result<Packet, ParseError>)
    ensures r == Err(TooShort) <==> |data| < HEADER_SIZE
    ensures r == Err(Truncated) <==> |data| >= HEADER_SIZE && !Complete(data)
    ensures r == Err(ChecksumMismatch) <==> Complete(data) && !ChecksumOk(sha1, data)
    ensures r.Ok? <==> Complete(data) && ChecksumOk(sha1, data)
    ensures r.Ok? ==>
      && Encodable(r.value)
      && |r.value.payload| == DeclaredLength(data)
      && PackFields(FieldsOf(r.value)) == data[..FIELDS_LEN]
      && r.value.payload == data[HEADER_SIZE..HEADER_SIZE + |r.value.payload|]
  {
    if |data| < HEADER_SIZE then Err(TooShort)
    else
      var h := UnpackFields(data[..FIELDS_LEN]);
      var checksum := data[FIELDS_LEN..HEADER_SIZE];
      var payloadEnd := HEADER_SIZE + h.length;
      if |data| < payloadEnd then Err(Truncated)
      else
        var payload := data[HEADER_SIZE..payloadEnd];
        FieldsBytesRoundTrip(data[..FIELDS_LEN]);
        if ComputeChecksum(sha1, h, payload) != checksum then Err(ChecksumMismatch)
        else Ok(Packet(h.version, h.flags, h.seqNum, h.ack, payload))
  }

  /** Bytes after the announced payload do not change what `parse_packet` returns. */
  lemma ParseIgnoresTrailing(sha1: Hasher, data: seq<byte>, extra: seq<byte>)
    requires Complete(data)
    ensures ParsePacket(sha1, data + extra) == ParsePacket(sha1, data)
  {
    var d := data + extra;
    assert d[..FIELDS_LEN] == data[..FIELDS_LEN];
    assert d[FIELDS_LEN..HEADER_SIZE] == data[FIELDS_LEN..HEADER_SIZE];
    var n := DeclaredLength(data);
    assert d[HEADER_SIZE..HEADER_SIZE + n] == data[HEADER_SIZE..HEADER_SIZE + n];
  }

  /** Parsing an encoded packet, with anything after it, gives the packet back. */
  lemma EncodeRoundTrip(sha1: Hasher, p: Packet, extra: seq<byte>)
    requires Encodable(p)
    ensures ParsePacket(sha1, Encode(sha1, p) + extra) == Ok(p)
  {
    var raw := Encode(sha1, p);
    assert raw[HEADER_SIZE..HEADER_SIZE + |p.payload|] == p.payload;
    ParseIgnoresTrailing(sha1, raw, extra);
    assert raw + [] == raw;
  }

  /**
   * `parse_packet(build_packet(v, f, s, a, p)) == Packet(v, f, s, a, p)` for
   * in-range fields and a payload of at most MAX_PAYLOAD bytes.
   */
  lemma RoundTrip(sha1: Hasher, version: nat, flags: nat, seqNum: nat, ack: nat, payload: seq<byte>)
    requires version < 256 && flags < 256 && seqNum < U32_LIMIT && ack < U32_LIMIT
    requires |payload| <= MAX_PAYLOAD
    ensures var r := BuildPacket(sha1, version, flags, seqNum, ack, payload);
      r.Ok? && ParsePacket(sha1, r.value) == Ok(Packet(version, flags, seqNum, ack, payload))
  {
    EncodeRoundTrip(sha1, Packet(version, flags, seqNum, ack, payload), []);
    assert Encode(sha1, Packet(version, flags, seqNum, ack, payload)) + []
      == Encode(sha1, Packet(version, flags, seqNum, ack, payload));
  }

  /**
   * A datagram that parses starts with the encoding of the packet it parses
   * to, so a change anywhere in its header or payload never goes unnoticed as
   * the same packet.
   */
  lemma ParsedReencodes(sha1: Hasher, data: seq<byte>)
    requires ParsePacket(sha1, data).Ok?
    ensures var p := ParsePacket(sha1, data).value;
      Encode(sha1, p) == data[..HEADER_SIZE + |p.payload|]
  {
    var p := ParsePacket(sha1, data).value;
    var n := HEADER_SIZE + |p.payload|;
    var e := Encode(sha1, p);
    FieldsRoundTrip(FieldsOf(p));
    assert e[..FIELDS_LEN] == data[..FIELDS_LEN];
    assert e == data[..FIELDS_LEN] + data[FIELDS_LEN..HEADER_SIZE] + data[HEADER_SIZE..n];
  }

  /**
   * `parse_packet` accepts payloads up to 65535 bytes, but `build_packet`
   * refuses anything over MAX_PAYLOAD: a parsed packet is rebuilt exactly when
   * its payload is small enough.
   */
  lemma ParsedRebuilds(sha1: Hasher, data: seq<byte>)
    requires ParsePacket(sha1, data).Ok?
    ensures var p := ParsePacket(sha1, data).value;
      var r := BuildPacket(sha1, p.version, p.flags, p.seqNum, p.ack, p.payload);
      (r.Ok? <==> |p.payload| <= MAX_PAYLOAD) && (r.Ok? ==> r.value == data[..HEADER_SIZE + |p.payload|])
  {
    ParsedReencodes(sha1, data);
  }

  /** The packets a transfer carries in the order they were sent, payloads concatenated. */
  function PayloadStream(ps: seq<Packet>): seq<byte>
  {
    if ps == [] then [] else PayloadStream(ps[..|ps| - 1]) + ps[|ps| - 1].payload
  }

  lemma PayloadStreamAppend(ps: seq<Packet>, p: Packet)
    ensures PayloadStream(ps + [p]) == PayloadStream(ps) + p.payload
  {
    assert (ps + [p])[..|ps|] == ps;
  }
}
