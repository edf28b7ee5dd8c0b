/**
 * The wire format of the `rftp` package (src/rftp/packet.py and the constants
 * of src/rftp/constants.py): a 12-byte big-endian header "!BBHII" (version,
 * kind, flags, seq, ack), a 20-byte SHA-1 digest of header ++ payload, then
 * the payload, with no length field.
 */
module Packet {
  import opened Wrappers
  import opened Bytes

  /** struct.calcsize("!BBHII") */
  const HEADER_LEN: nat := 12
  /** Header plus digest: the smallest datagram `from_bytes` accepts. */
  const FRAME_OVERHEAD: nat := HEADER_LEN + DIGEST_LEN
  const VERSION: nat := 1
  const FLAG_FIN: nat := 1

  /** `PacketKind`; on the wire DATA is 0 and ACK is 1. */
  datatype Kind = DATA | ACK

  function KindByte(k: Kind): byte
  {
    match k
    case DATA => 0
    case ACK => 1
  }

  /** `PacketKind(b)`: only 0 and 1 name a kind; any other value raises ValueError. */
  function KindOf(b: nat): (r: Option<Kind>)
    ensures r.Some? <==> b < 2
    ensures r.Some? ==> KindByte(r.value) == b
  {
    if b == 0 then Some(DATA) else if b == 1 then Some(ACK) else None
  }

  /** The frozen dataclass `Frame`; Python integers are unbounded. */
  datatype Frame = Frame(version: int, kind: Kind, flags: int, seqNum: int, ack: int, payload: seq<byte>)

  /** The fields `struct.pack("!BBHII", ...)` accepts without raising. */
  predicate Packable(f: Frame)
  {
    0 <= f.version < 256 && 0 <= f.flags < U16_LIMIT && 0 <= f.seqNum < U32_LIMIT && 0 <= f.ack < U32_LIMIT
  }

  /** `Frame.fin`, that is `flags & FLAG_FIN` (Euclidean `% 2` agrees with Python's `& 1` on every int). */
  predicate Fin(f: Frame)
  {
    f.flags % 2 == FLAG_FIN
  }

  /** On the 16-bit flags field `struct.pack` stores, `Fin` is the bitwise test `flags & FLAG_FIN`. */
  lemma FinMask(f: Frame)
    requires 0 <= f.flags < U16_LIMIT
    ensures Fin(f) <==> (f.flags as bv16) & (FLAG_FIN as bv16) != 0
  {
  }

  /** `Frame.make_ack(n)` */
  function MakeAck(ackNum: int): (r: Frame)
    ensures r.version == VERSION && r.kind == ACK && r.ack == ackNum
    ensures r.seqNum == 0 && r.flags == 0 && r.payload == [] && !Fin(r)
  {
    Frame(VERSION, ACK, 0, 0, ackNum, [])
  }

  /** `Frame.data(seq, payload, ack, fin)` */
  function Data(seqNum: int, payload: seq<byte>, ack: int, fin: bool): (r: Frame)
    ensures r.version == VERSION && r.kind == DATA && r.seqNum == seqNum && r.ack == ack
    ensures r.payload == payload && Fin(r) == fin
    ensures 0 <= seqNum < U32_LIMIT && 0 <= ack < U32_LIMIT ==> Packable(r)
  {
    Frame(VERSION, DATA, if fin then FLAG_FIN else 0, seqNum, ack, payload)
  }

  /** The five integers of a "!BBHII" header. */
  datatype HeaderFields = HeaderFields(version: nat, kind: nat, flags: nat, seqNum: nat, ack: nat)

  predicate Fits(h: HeaderFields)
  {
    h.version < 256 && h.kind < 256 && h.flags < U16_LIMIT && h.seqNum < U32_LIMIT && h.ack < U32_LIMIT
  }

  function PackHeader(h: HeaderFields): (r: seq<byte>)
    ensures |r| == HEADER_LEN
  {
    Pack(h.version, 1) + Pack(h.kind, 1) + Pack(h.flags, 2) + Pack(h.seqNum, 4) + Pack(h.ack, 4)
  }

  function UnpackHeader(s: seq<byte>): HeaderFields
    requires |s| == HEADER_LEN
  {
    HeaderFields(Unpack(s[0..1]), Unpack(s[1..2]), Unpack(s[2..4]), Unpack(s[4..8]), Unpack(s[8..12]))
  }

  /** `struct.unpack` of `struct.pack` returns the header fields. */
  lemma HeaderRoundTrip(h: HeaderFields)
    requires Fits(h)
    ensures UnpackHeader(PackHeader(h)) == h
  {
    Pow256Values();
    var p1, p2, p3, p4, p5 := Pack(h.version, 1), Pack(h.kind, 1), Pack(h.flags, 2), Pack(h.seqNum, 4), Pack(h.ack, 4);
    var s := PackHeader(h);
    assert s == p1 + p2 + p3 + p4 + p5;
    Split(p1 + p2 + p3 + p4, p5);
    Split(p1 + p2 + p3, p4);
    Split(p1 + p2, p3);
    Split(p1, p2);
    assert s[..8] == p1 + p2 + p3 + p4 && s[..4] == p1 + p2 + p3 && s[..2] == p1 + p2;
    assert s[0..1] == p1 && s[1..2] == p2 && s[2..4] == p3 && s[4..8] == p4 && s[8..12] == p5;
    UnpackPack(h.version, 1);
    UnpackPack(h.kind, 1);
    UnpackPack(h.flags, 2);
    UnpackPack(h.seqNum, 4);
    UnpackPack(h.ack, 4);
  }

  /** Every 12 bytes are the packing of the header fields they unpack to. */
  lemma HeaderBytesRoundTrip(s: seq<byte>)
    requires |s| == HEADER_LEN
    ensures Fits(UnpackHeader(s)) && PackHeader(UnpackHeader(s)) == s
  {
    Pow256Values();
    PackUnpack(s[0..1]);
    PackUnpack(s[1..2]);
    PackUnpack(s[2..4]);
    PackUnpack(s[4..8]);
    PackUnpack(s[8..12]);
    assert s == s[0..1] + s[1..2] + s[2..4] + s[4..8] + s[8..12];
  }

  function HeaderOf(f: Frame): HeaderFields
    requires Packable(f)
  {
    HeaderFields(f.version, KindByte(f.kind), f.flags, f.seqNum, f.ack)
  }

  /**
   * `Frame.to_bytes`: the header, then the digest of header ++ payload, then
   * the payload.
   */
  function ToBytes(sha1: Hasher, f: Frame): (r: seq<byte>)
    requires Packable(f)
    ensures |r| == FRAME_OVERHEAD + |f.payload|
    ensures UnpackHeader(r[..HEADER_LEN]) == HeaderOf(f)
    ensures r[HEADER_LEN..FRAME_OVERHEAD] == sha1(r[..HEADER_LEN] + f.payload)
    ensures r[FRAME_OVERHEAD..] == f.payload
  {
    var header := PackHeader(HeaderOf(f));
    HeaderRoundTrip(HeaderOf(f));
    var r := header + sha1(header + f.payload) + f.payload;
    assert r[..HEADER_LEN] == header;
    r
  }

  /** The reasons `Frame.from_bytes` raises ValueError, in the order it checks them. */
  datatype DecodeError = TooShort | ChecksumMismatch | VersionMismatch | UnknownKind

  /** The digest stored in bytes 12..32 is the digest of the header and the payload. */
  predicate DigestMatches(sha1: Hasher, raw: seq<byte>)
    requires |raw| >= FRAME_OVERHEAD
  {
    sha1(raw[..HEADER_LEN] + raw[FRAME_OVERHEAD..]) == raw[HEADER_LEN..FRAME_OVERHEAD]
  }

  /**
   * `Frame.from_bytes`. The length check comes first and the digest check
   * before the version and kind checks; every byte after offset 32 is payload.
   */
  function FromBytes(sha1: Hasher, raw: seq<byte>): (r: Result<Frame, DecodeError>)
    ensures |raw| < FRAME_OVERHEAD ==> r == Err(TooShort)
    ensures |raw| >= FRAME_OVERHEAD && !DigestMatches(sha1, raw) ==> r == Err(ChecksumMismatch)
    ensures r.Ok? <==>
      |raw| >= FRAME_OVERHEAD && DigestMatches(sha1, raw) && raw[0] == VERSION && raw[1] < 2
    ensures r.Ok? ==>
      && Packable(r.value) && r.value.version == VERSION
      && HeaderOf(r.value) == UnpackHeader(raw[..HEADER_LEN])
      && r.value.payload == raw[FRAME_OVERHEAD..]
      && |r.value.payload| == |raw| - FRAME_OVERHEAD
  {
    if |raw| < FRAME_OVERHEAD then Err(TooShort)
    else
      var header := raw[..HEADER_LEN];
      var checksum := raw[HEADER_LEN..FRAME_OVERHEAD];
      var payload := raw[FRAME_OVERHEAD..];
      if sha1(header + payload) != checksum then Err(ChecksumMismatch)
      else
        var h := UnpackHeader(header);
        HeaderBytesRoundTrip(header);
        UnpackOne(raw[0]);
        UnpackOne(raw[1]);
        assert header[0..1] == [raw[0]] && header[1..2] == [raw[1]];
        if h.version != VERSION then Err(VersionMismatch)
        else
          match KindOf(h.kind)
          case None => Err(UnknownKind)
          case Some(kind) => Ok(Frame(h.version, kind, h.flags, h.seqNum, h.ack, payload))
  }

  /** Decoding an encoded frame gives the frame back, FIN flag and empty payload included. */
  lemma RoundTrip(sha1: Hasher, f: Frame)
    requires Packable(f) && f.version == VERSION
    ensures FromBytes(sha1, ToBytes(sha1, f)) == Ok(f)
  {
    var raw := ToBytes(sha1, f);
    var h := UnpackHeader(raw[..HEADER_LEN]);
    UnpackOne(raw[0]);
    UnpackOne(raw[1]);
    assert raw[..HEADER_LEN][0..1] == [raw[0]] && raw[..HEADER_LEN][1..2] == [raw[1]];
    assert h == HeaderOf(f);
    match f.kind
    case DATA => assert KindOf(h.kind) == Some(DATA);
    case ACK => assert KindOf(h.kind) == Some(ACK);
  }

  /** A datagram that decodes is exactly the encoding of the frame it decodes to. */
  lemma DecodedReencodes(sha1: Hasher, raw: seq<byte>)
    requires FromBytes(sha1, raw).Ok?
    ensures ToBytes(sha1, FromBytes(sha1, raw).value) == raw
  {
    var f := FromBytes(sha1, raw).value;
    var header := raw[..HEADER_LEN];
    HeaderBytesRoundTrip(header);
    assert PackHeader(HeaderOf(f)) == header;
    assert raw == header + raw[HEADER_LEN..FRAME_OVERHEAD] + raw[FRAME_OVERHEAD..];
  }

  /**
   * Damage to an encoded frame never goes unnoticed as the original frame:
   * any other datagram either fails to decode or decodes to a different frame.
   */
  lemma CorruptionNeverYieldsOriginal(sha1: Hasher, f: Frame, raw: seq<byte>)
    requires Packable(f) && raw != ToBytes(sha1, f)
    ensures FromBytes(sha1, raw) != Ok(f)
  {
    if FromBytes(sha1, raw).Ok? {
      DecodedReencodes(sha1, raw);
    }
  }

  /** The receiver's cumulative ACK always reaches the sender intact as an ACK for the same number. */
  lemma AckOnTheWire(sha1: Hasher, n: nat)
    requires n < U32_LIMIT
    ensures |ToBytes(sha1, MakeAck(n))| == FRAME_OVERHEAD
    ensures FromBytes(sha1, ToBytes(sha1, MakeAck(n))) == Ok(MakeAck(n))
  {
    RoundTrip(sha1, MakeAck(n));
  }

  /** A DATA frame built by `Frame.data` decodes with the same sequence number, payload and FIN flag. */
  lemma DataOnTheWire(sha1: Hasher, n: nat, payload: seq<byte>, fin: bool)
    requires n < U32_LIMIT
    ensures var r := FromBytes(sha1, ToBytes(sha1, Data(n, payload, 0, fin)));
      r.Ok? && r.value.kind == DATA && r.value.seqNum == n && r.value.payload == payload && Fin(r.value) == fin
  {
    RoundTrip(sha1, Data(n, payload, 0, fin));
  }

  /** The payloads of a sequence of frames, concatenated in order. */
  function PayloadStream(frames: seq<Frame>): (r: seq<byte>)
  {
    if frames == [] then [] else PayloadStream(frames[..|frames| - 1]) + frames[|frames| - 1].payload
  }

  lemma PayloadStreamAppend(frames: seq<Frame>, f: Frame)
    ensures PayloadStream(frames + [f]) == PayloadStream(frames) + f.payload
  {
    assert (frames + [f])[..|frames|] == frames;
  }
}
