# rftp transport engine in Dafny

This project models the transport engine of `rftp`, a reliable file transfer
tool that runs over UDP. The repository ships two versions of the engine, and
both are modelled:

- **The `rftp` package** (`src/rftp/packet.py`, `receiver.py`, `sender.py`).
  - `Frame` is the wire codec. It writes a 12-byte big-endian header
    (version, kind, flags, seq, ack), then the SHA-1 digest of header and
    payload, then the payload. There is no length field.
  - `Receiver.run` accepts only the next in-order DATA frame. It answers
    every valid DATA frame with a cumulative ACK.
  - `StopAndWaitSender.run` keeps one frame in flight.
  - `GoBackNSender.run` keeps a window of frames in flight. Its `buffer`
    dict holds the unacknowledged frames, and one timer covers the window.
- **The standalone script `rftp.py`**.
  - `build_packet`/`parse_packet` use a 32-byte header (version, flags, seq,
    ack, payload length, checksum). The checksum is the SHA-1 digest of the
    header with the checksum slot zeroed, then the payload.
  - It has its own `ReliableReceiver`, Stop-and-Wait and Go-Back-N senders.
    Both senders have a retry cap.

Modules, one per component:

| file | module | models |
|---|---|---|
| `wrappers.dfy` | `Wrappers` | `Option`/`Result` for `None` and for raised exceptions |
| `bytes.dfy` | `Bytes` | bytes, the 20-byte digest type, big-endian `struct` packing |
| `packet.dfy` | `Packet` | `src/rftp/packet.py` and the constants of `src/rftp/constants.py` |
| `chunking.dfy` | `Chunking` | `f.read(segment_size)` on a byte sequence; the script's `segments` list |
| `receiver.dfy` | `Receiver` | `src/rftp/receiver.py` (`Metrics` counters, `Receiver.run`) |
| `sender.dfy` | `Sender` | `src/rftp/sender.py` (both senders, `load_frame`) |
| `script_packet.dfy` | `ScriptPacket` | `rftp.py` codec: `Packet`, `compute_checksum`, `build_packet`, `parse_packet` |
| `script_receiver.dfy` | `ScriptReceiver` | `rftp.py` `ReliableReceiver` |
| `script_sender.dfy` | `ScriptSender` | `rftp.py` `StopAndWaitSender`, `GoBackNSender` |

How the model stands in for the environment:

- **SHA-1.** The digest is a parameter `sha1: Hasher`, any function from bytes
  to 20 bytes. So every property holds for every such function. Corruption
  detection is stated as "a stored digest that differs from the recomputed
  one is rejected". Nothing is claimed about collisions.
- **Sockets.** Each `run` loop is a class whose fields are the loop's
  variables. One method handles one receive result. A receive result is a
  datagram or a timeout; for the package GBN sender, a timeout also says
  whether the timer had expired. A `Run` method feeds a finite sequence of
  such events. The package receiver handles no timeout. When it listens with
  `timeout_ms > 0` (the default is 250), its socket has a timeout, and the
  TimeoutError propagates out of `run`, so there a timeout ends the run
  (`Receiver.Arrival.RecvTimeout`). With `timeout_ms` 0 the socket blocks,
  and no timeout arrives. Everything transmitted is appended to a `sent` log of
  frames/packets; the bytes on the wire are `ToBytes`/`Encode` of each entry.
- **Files.** The source file is the byte sequence `source`, and reads are
  slices at a file position. A negative `segment_size` reads to the end of the
  file (`Chunking.FileRead`); the package senders read with `ReadSize`,
  which returns the same bytes. Written output is the `output` field. The
  script's JSON FIN metadata is the parameter `finPayload`. Whether the
  script receiver can decode a FIN payload as UTF-8 JSON is the parameter
  `metaDecodes`.
- **Integers.** Python integers are unbounded, and so are the model's. Where
  `struct.pack` needs a field to fit in 32 bits, that is a precondition.

Where the code and the protocol description disagree, the model follows the
code:

- Sequence numbers are compared as plain integers, with no wrap-around.
- The package format has no payload-length field.
- No retransmission flag is set on resent frames.
- The only kinds are DATA and ACK; FIN is a flag.

Behaviours of the code as written that the model keeps:

- **Package GBN refill.** The refill loop stops only when it sends a FIN.
  Every read after the end of the file is empty, so a later refill with room
  in the window sends further FIN frames numbered past the first
  (`Sender.RefillPastFin`). The package receiver leaves its loop after the
  first FIN. So it never acknowledges those extra frames, and the sender's
  `base == next_seq` exit cannot be reached after that.
- **Script errors.** `ReliableReceiver.run` catches only `ChecksumError`. A
  datagram that is too short or truncated raises out of `run`
  (`Failed(TooShort | Truncated)`). An in-order FIN whose payload is not
  UTF-8 JSON raises after `expected_seq` has grown and before its ACK is
  sent (`BadMeta`).
- **Script senders.** Both senders let any exception from `parse_packet` end
  `send_file`, including a `ChecksumError` on a corrupted ACK
  (`Aborted(BadReply(_))`).
- **Script GBN.** A datagram that parses but is not an ACK is handled like a
  timeout: it counts a retry and the window is resent.

## Model

| member | source | states |
|---|---|---|
| `Packet.KindOf` | src/rftp/packet.py:11-13 | `PacketKind(b)` names a kind exactly for b in {0, 1}, and the kind's wire byte is b |
| `Packet.MakeAck` | src/rftp/packet.py:67-69 | an ACK frame of version 1 with the given ack, seq 0, flags 0, empty payload, not FIN |
| `Packet.Data` | src/rftp/packet.py:71-81 | a DATA frame with the given seq, ack and payload whose `fin` property equals the `fin` argument; packable when seq and ack fit 32 bits |
| `Packet.PackHeader` | src/rftp/constants.py:4 | the "!BBHII" header is 12 bytes |
| `Packet.HeaderRoundTrip` | src/rftp/constants.py:4 | unpacking the packed header gives back version, kind, flags, seq and ack when they fit 1, 1, 2, 4 and 4 bytes |
| `Packet.HeaderBytesRoundTrip` | src/rftp/packet.py:54 | any 12 bytes unpack to fields in range that pack back to the same bytes |
| `Packet.FinMask` | src/rftp/packet.py:25-27 | the `fin` property holds exactly when `flags & FLAG_FIN` is non-zero on the 16-bit flags field |
| `Packet.ToBytes` | src/rftp/packet.py:29-39 | length 32 + payload; bytes 0..12 unpack to the frame's header fields; bytes 12..32 are SHA-1(header ++ payload); the rest is the payload |
| `Packet.FromBytes` | src/rftp/packet.py:41-65 | under 32 bytes is rejected as too short; a digest mismatch is rejected before the version and kind checks; success iff digest matches, version byte is 1 and kind byte < 2; the decoded frame carries the header fields and every byte after offset 32 as payload |
| `Packet.RoundTrip` | src/rftp/packet.py:29-65 | `from_bytes(to_bytes(f)) == f` for every version-1 frame with in-range fields, FIN flag and empty payload included |
| `Packet.DecodedReencodes` | src/rftp/packet.py:41-65 | a datagram that decodes is exactly the encoding of the frame it decodes to |
| `Packet.CorruptionNeverYieldsOriginal` | src/rftp/packet.py:47-52 | any datagram other than the encoding of f fails to decode or decodes to a frame other than f |
| `Packet.AckOnTheWire` | src/rftp/receiver.py:57 | the receiver's ACK for any 32-bit n is 32 bytes and decodes back to `make_ack(n)` |
| `Packet.DataOnTheWire` | src/rftp/packet.py:71-81 | a frame built by `Frame.data` decodes as DATA with the same seq, payload and FIN flag |
| `Packet.PayloadStreamAppend` | src/rftp/receiver.py:53 | the payload stream of frames grows by exactly the appended frame's payload |
| `Bytes.UnpackPack` | src/rftp/packet.py:30-37 | a big-endian field packed into `width` bytes unpacks to the same integer when it fits |
| `Bytes.PackUnpack` | src/rftp/packet.py:54 | packing an unpacked byte string gives the same bytes |
| `Bytes.Pow256Values` | src/rftp/constants.py:4 | one-, two- and four-byte fields hold values below 256, 2^16 and 2^32 |
| `Receiver.Receiver.constructor` | src/rftp/receiver.py:39-40 | a run starts with expected 0, empty output and zero counters |
| `Receiver.AcceptKeeps` | src/rftp/receiver.py:52-55 | accepting the in-order DATA frame (seq == expected) keeps the delivery in order: the frame becomes accepted frame number expected, the output grows by its payload, expected by 1 and `bytes_sent` by the payload length |
| `Receiver.Receiver.Step` | src/rftp/receiver.py:42-61 | undecodable datagrams and ACK frames are dropped: no ACK, no state change; a DATA frame with seq == expected appends its payload and adds exactly 1 to expected; any other seq changes nothing; every valid DATA frame gets exactly one ACK carrying the updated expected and adds 1 to `packets_sent`; the loop is left iff the frame is FIN and seq < expected; output == concatenated accepted payloads, expected == number accepted, `bytes_sent` == len(output) are kept |
| `Receiver.Receiver.Receive` | src/rftp/receiver.py:43-61 | one loop iteration: a receive timeout changes nothing and ends the run; a datagram is handled as in `Step`, so expected grows by at most 1, output only grows, a reply is the ACK of the new expected and counts one packet, and the loop is left only after a FIN frame with seq < expected |
| `Receiver.Receiver.Run` | src/rftp/receiver.py:38-65 | over any sequence of datagrams and receive timeouts the output only grows; `packets_sent` counts the ACKs sent; ACK numbers never decrease and lie between the old and new expected; only a receive timeout ends the run early, and it is the last arrival consumed; a timeout first in the arrivals ends the run at once with no ACK sent and expected, output, accepted payloads and metrics unchanged; otherwise the loop is left only right after ACKing a FIN frame with seq < expected |
| `Receiver.DeliverTwice` | src/rftp/receiver.py:52-58 | delivering a datagram twice changes output and expected exactly as delivering it once does, and both deliveries of a valid DATA frame get the same ACK |
| `Chunking.Read` | src/rftp/sender.py:26 | a read of a non-negative size returns at most `size` bytes and is empty iff the size is 0 or the position is at the end of the file |
| `Chunking.FileRead` | src/rftp/sender.py:26 | `f.read(size)` for any integer size: at most `size` bytes when size >= 0, everything up to the end of the file when size < 0; empty iff the size is 0 or the position is at the end |
| `Chunking.FileReadIsSlice` | src/rftp/sender.py:26 | a read returns the bytes at the file position, in order |
| `Chunking.ReadSizeReadsSame` | src/rftp/sender.py:18-26 | at every position, reading `ReadSize(segment_size)` bytes returns exactly what `f.read(segment_size)` returns, negative sizes included |
| `Chunking.NegativeSizeReadsWholeFile` | src/rftp/sender.py:26-29 | with a negative `segment_size`, read 0 is the whole file and read 1 is empty, so frame 1 is the FIN |
| `Chunking.OffsetClosedForm` | src/rftp/sender.py:26 | after i reads the file position is min(i * size, file length) |
| `Chunking.ChunksFlatten` | src/rftp/sender.py:26-29 | the first n reads, concatenated, are the file up to the position after n reads |
| `Chunking.ChunksBeforeEmptyAreFile` | src/rftp/sender.py:26-29 | the reads before the first empty read, concatenated, are the whole file |
| `Chunking.FirstEmptyChunk` | src/rftp/sender.py:26-27 | read i is empty iff i >= ceil(file length / size) |
| `Chunking.EmptyChunkStaysEmpty` | src/rftp/sender.py:85-87 | once a read is empty every later read is too |
| `Chunking.Segments` | rftp.py:231 | the script's slice list has ceil(len / 1400) entries |
| `Chunking.SegmentSizes` | rftp.py:231 | every slice holds 1 to 1400 bytes |
| `Chunking.SegmentsFlatten` | rftp.py:231 | the slices, concatenated, are the data |
| `Chunking.SegmentIsChunk` | rftp.py:189 | slice j equals what the j-th `f.read(MAX_PAYLOAD)` returns |
| `Sender.ChunkFrame` | src/rftp/sender.py:26-29 | frame i is a DATA frame numbered i carrying the i-th read, FIN iff that read came back empty |
| `Sender.NextFrameKeeps` | src/rftp/sender.py:26-34 | after the ACK of a non-FIN frame, reading and sending the next frame keeps the Stop-and-Wait invariant |
| `Sender.FinishedCoversFile` | src/rftp/sender.py:57-58 | when the FIN is acknowledged, every frame up to it was transmitted, and the data frames before it carry the whole file in order |
| `Sender.ResendKeeps` | src/rftp/sender.py:31-34 | sending the outstanding frame again keeps the Stop-and-Wait invariant and counts it in `packets_sent` and `bytes_sent` |
| `Sender.SentThroughGrows` | src/rftp/sender.py:31-34 | a frame once transmitted stays in the log of transmissions |
| `Sender.SentThroughEach` | src/rftp/sender.py:25-34 | the recursive "frames 0 .. k - 1 were transmitted" means each of them is in the log |
| `Sender.StopAndWaitSender.constructor` | src/rftp/sender.py:18-34 | `run` reads frame 0 and sends it once before its first receive; its payload is `f.read(segment_size)` for any integer `segment_size`, and every read uses `ReadSize(segment_size)` |
| `Sender.StopAndWaitSender.Send` | src/rftp/sender.py:32-34 | every send adds 1 to `packets_sent` and len(payload) to `bytes_sent` and logs the frame |
| `Sender.StopAndWaitSender.Handle` | src/rftp/sender.py:36-55 | a timeout adds 1 to `timeouts` and `retransmits` and resends; only an ACK with ack == seq + 1 advances seq, ending the run after the FIN or reading and sending the next frame; a wrong-numbered ACK adds 1 to `retransmits` only and resends; a malformed or non-ACK reply is resent without counting |
| `Sender.StopAndWaitSender.Advance` | src/rftp/sender.py:51-58 | the matching ACK adds 1 to seq, and the run is over iff the acknowledged frame was the FIN |
| `Sender.StopAndWaitSender.Resend` | src/rftp/sender.py:31-34 | sends the outstanding frame again: it is appended to the `sent` log, `packets_sent` grows by 1 and `bytes_sent` by its payload length, `timeouts` and `retransmits` are untouched, and the invariant (including every frame up to seq having been sent) is kept |
| `Sender.StopAndWaitSender.NextFrame` | src/rftp/sender.py:25-34 | after the ACK of a non-FIN frame, frame seq + 1 is read and sent |
| `Sender.StopAndWaitSender.Run` | src/rftp/sender.py:21-61 | over any event sequence seq never decreases and the log only grows; once the run is over every frame up to the FIN was transmitted, and the data frames among them carry the whole file |
| `Sender.FillEnd` | src/rftp/sender.py:95-104 | a refill from `next` stops after `next` and at most at the window's end, or sends nothing when the window is full |
| `Sender.FillEndStops` | src/rftp/sender.py:95-104 | only the last frame of a refill can be a FIN, and a refill that stops before the window's end stopped at a FIN |
| `Sender.FillEndFrom` | src/rftp/sender.py:95-104 | from frame 0 with ACKs withheld the refill sends min(W, ChunkCount + 1) frames |
| `Sender.FillEndStep` | src/rftp/sender.py:95-104 | sending a FIN ends the refill; sending another frame leaves its end unchanged |
| `Sender.RefillPastFin` | src/rftp/sender.py:95-104 | after the FIN, a later refill with room sends one more frame, which is again a FIN with an empty payload |
| `Sender.WindowLoad` | src/rftp/sender.py:81-92 | inserting frame next_seq extends the buffered window [base, next_seq) by one |
| `Sender.WindowSlide` | src/rftp/sender.py:127-131 | deleting keys below the new base leaves exactly the keys [ack, next_seq) |
| `Sender.SendNextKeeps` | src/rftp/sender.py:95-104 | one pass of the refill sends a frame not yet buffered and keeps base <= next_seq <= base + window, buffer keys == [base, next_seq), timer on, `packets_sent` == next_seq and `bytes_sent` == bytes read |
| `Sender.GoBackNSender.constructor` | src/rftp/sender.py:70-79 | base, next_seq 0, empty buffer, timer off, no EOF scheduled; every read uses `ReadSize(segment_size)`, so any integer `segment_size` is accepted |
| `Sender.GoBackNSender.LoadFrame` | src/rftp/sender.py:81-92 | an already-buffered seq returns the cached frame and changes nothing; otherwise the next read becomes frame seq, is inserted, and schedules EOF iff it is a FIN |
| `Sender.GoBackNSender.SendNext` | src/rftp/sender.py:96-103 | sends frame next_seq, adds 1 to next_seq, starts the timer, keeps the invariant |
| `Sender.GoBackNSender.Refill` | src/rftp/sender.py:95-104 | next_seq moves to the refill's stopping point; the frames sent are exactly frames old next_seq up to it, in order |
| `Sender.GoBackNSender.Retransmit` | src/rftp/sender.py:114-115 | resends `buffer[s]` for s in [base, next_seq) in ascending order; every lookup succeeds |
| `Sender.GoBackNSender.Prune` | src/rftp/sender.py:129-131 | the buffer keeps exactly its entries with keys >= base |
| `Sender.GoBackNSender.Slide` | src/rftp/sender.py:127-132 | base := ack, the buffer keeps [ack, next_seq), timer on iff base != next_seq |
| `Sender.GoBackNSender.Receive` | src/rftp/sender.py:106-135 | an expired timer adds 1 to `timeouts` and next_seq - base to `retransmits` and resends [base, next_seq) in order, with base and next_seq unchanged; a timeout before expiry or with no timer changes nothing; an ACK > base sets base := ack and the timer runs iff base != next_seq; other ACKs, malformed and non-ACK datagrams change nothing; after an ACK frame the run ends iff EOF is scheduled and base == next_seq |
| `Sender.GoBackNSender.Step` | src/rftp/sender.py:94-135 | one outer iteration refills then handles one event; base never decreases and moves at most one window |
| `Sender.GoBackNSender.Run` | src/rftp/sender.py:73-138 | over any event sequence the invariant holds throughout, base and next_seq never decrease, and the run returns only when EOF is scheduled and base == next_seq |
| `ScriptPacket.FlagBits` | rftp.py:42-48 | FLAG_ACK sets only `is_ack`, FLAG_FIN only `is_fin`, 0 neither |
| `ScriptPacket.FlagMasks` | rftp.py:42-48 | `is_ack` holds exactly when `flags & FLAG_ACK` is non-zero, and `is_fin` exactly when `flags & FLAG_FIN` is, on the flags byte |
| `ScriptPacket.PackFields` | rftp.py:26 | the integer fields of "!BBIIH20s" take 12 bytes |
| `ScriptPacket.FieldsRoundTrip` | rftp.py:26 | unpacking packed fields gives them back when they fit 1, 1, 4, 4 and 2 bytes |
| `ScriptPacket.FieldsBytesRoundTrip` | rftp.py:68 | any 12 header bytes unpack to fields in range that pack back to the same bytes |
| `ScriptPacket.Encode` | rftp.py:51-62 | length 32 + payload; the fields unpack to (ver, flags, seq, ack, len); the checksum is SHA-1 of the fields, 20 zero bytes and the payload; the payload follows |
| `ScriptPacket.ChecksumOfZeroedPacket` | rftp.py:51-62 | the checksum `compute_checksum` returns is the one stored in the built packet, and it is the SHA-1 of that datagram with its checksum slot set to 20 zero bytes |
| `ScriptPacket.BuildPacket` | rftp.py:57-62 | raises iff the payload is over 1400 bytes; otherwise the layout of `Encode` with the given fields |
| `ScriptPacket.ParsePacket` | rftp.py:65-77 | too short iff under 32 bytes; truncated iff fewer payload bytes than declared; ChecksumError iff the digest disagrees; success otherwise, with the declared payload length and the header bytes the packet packs to |
| `ScriptPacket.ParseIgnoresTrailing` | rftp.py:69-71 | bytes after the declared payload do not change the result |
| `ScriptPacket.EncodeRoundTrip` | rftp.py:57-77 | parsing an encoded packet followed by anything gives the packet back |
| `ScriptPacket.RoundTrip` | rftp.py:57-77 | `parse_packet(build_packet(v, f, s, a, p)) == Packet(v, f, s, a, p)` for in-range fields and len(p) <= 1400 |
| `ScriptPacket.ParsedReencodes` | rftp.py:65-77 | a datagram that parses begins with the encoding of the packet it parses to |
| `ScriptPacket.ParsedRebuilds` | rftp.py:57-77 | a parsed packet is rebuilt by `build_packet` iff its payload is at most 1400 bytes, and then to the same bytes |
| `ScriptPacket.PayloadStreamAppend` | rftp.py:148 | the payload stream grows by exactly the appended packet's payload |
| `ScriptReceiver.AckPacket` | rftp.py:116-118 | the re-ACK carries the ACK flag only, seq 0, the given ack and no payload |
| `ScriptReceiver.AckOnTheWire` | rftp.py:116-118 | `build_packet` of the ACK succeeds and parses back to the same packet |
| `ScriptReceiver.DeliverData` | rftp.py:140-149 | accepting the in-order data packet keeps output == concatenated accepted payloads and expected == count |
| `ScriptReceiver.ReliableReceiver.constructor` | rftp.py:110-114 | expected_seq 0, no output, no metadata |
| `ScriptReceiver.ReliableReceiver.Step` | rftp.py:123-152 | a receive timeout changes nothing; a ChecksumError re-ACKs expected_seq; a too-short or truncated datagram raises out of `run`; ACK-flagged packets are ignored; another seq is re-ACKed without a state change; seq == expected_seq adds 1, writes a non-FIN payload and ACKs, while a FIN is not written and adds 1 either way: with a payload that decodes as JSON it becomes the metadata and the loop ends after its ACK; otherwise `run` raises before the ACK (`BadMeta`) |
| `ScriptReceiver.ReliableReceiver.Run` | rftp.py:120-152 | over any arrivals the output only grows, ACK numbers never decrease, the FIN is accepted iff the run ends with `Finished` or `BadMeta`; it ends with `Finished` iff the metadata is kept, and then its ACK is the last reply; a raised error names the datagram that caused it: an unparsable one, or a FIN whose payload does not decode |
| `ScriptSender.Budget` | rftp.py:200-201 | the retry loop allows max_retries + 1 sends, none when max_retries < 0 |
| `ScriptSender.SwPacket` | rftp.py:189-198 | packet i carries the i-th 1400-byte chunk, or is the FIN packet with the metadata payload once the read is empty |
| `ScriptSender.SwReadPacket` | rftp.py:189-198 | the file position reached after packets 0 .. seq - 1 lies within the file, the next read there builds packet seq, and it leaves the position of packet seq + 1 |
| `ScriptSender.SwLogSnoc` | rftp.py:201-203 | one more send of the current packet while the budget is not spent keeps the send log well formed and counts exactly one more send of it |
| `ScriptSender.SwLoadKeeps` | rftp.py:187-202 | the packet built from the next read is packet seq; the state after it, with retries 0, is consistent whether the packet is sent once or the sender aborts (oversized payload or max_retries < 0) |
| `ScriptSender.SwResendKeeps` | rftp.py:201-208 | a retry within the budget resends the same packet and keeps the budget |
| `ScriptSender.SwAckedKeeps` | rftp.py:204-214 | the ACK of a data packet leads to the next read with no packet numbered seq + 1 sent yet |
| `ScriptSender.SwFinAckedKeeps` | rftp.py:212-214 | the ACK of the FIN packet ends the transfer |
| `ScriptSender.SwWithinBudget` | rftp.py:200-210 | no sequence number is sent more than max_retries + 1 times |
| `ScriptSender.SwDoneCoversFile` | rftp.py:188-214 | when the transfer ends, every acknowledged packet was sent and the data chunks before the FIN are the whole file |
| `ScriptSender.StopAndWaitSender.constructor` | rftp.py:181-202 | `send_file` builds packet 0 and sends it, or aborts at once |
| `ScriptSender.StopAndWaitSender.Load` | rftp.py:189-202 | the next read becomes the script's packet; an oversized FIN payload aborts in `build_packet`; a negative max_retries aborts; otherwise it is sent once |
| `ScriptSender.StopAndWaitSender.Handle` | rftp.py:170-214 | only an ACK with ack == seq + 1 completes the packet; other packets are skipped; an unparsable reply aborts; a timeout resends while retries <= max_retries and aborts after |
| `ScriptSender.StopAndWaitSender.HandleTimeout` | rftp.py:200-210 | a timeout adds 1 to retries; the same packet is resent while retries <= max_retries, and the sender aborts with too many retries after that, sending nothing |
| `ScriptSender.StopAndWaitSender.HandleReply` | rftp.py:170-179 | an unparsable reply aborts with nothing sent; an ACK numbered seq + 1 completes the packet; any other packet changes nothing and the wait goes on |
| `ScriptSender.StopAndWaitSender.Acknowledge` | rftp.py:204-214 | the ACK of the FIN ends the transfer with nothing more sent; the ACK of a data packet moves to seq + 1, builds that packet from the next read with retries 0, and sends it unless it aborts |
| `ScriptSender.StopAndWaitSender.Run` | rftp.py:181-214 | over any inputs no packet is sent more than max_retries + 1 times, and a finished transfer has carried the whole file |
| `ScriptSender.Segs` | rftp.py:230-234 | the segments are the 1400-byte slices with the FIN payload last |
| `ScriptSender.SegsShape` | rftp.py:230-234 | the data segments are 1 to 1400 bytes and concatenate to the data; the FIN payload is last |
| `ScriptSender.GbnPacket` | rftp.py:248-250 | packet i carries segment i and is FIN iff it is the last segment |
| `ScriptSender.GbnPackets` | rftp.py:284-288 | the resent packets are those for [lo, hi), in ascending order |
| `ScriptSender.GbnSendKeeps` | rftp.py:247-254 | sending the next segment keeps next_seq <= len(segments) and next_seq <= base + window |
| `ScriptSender.GbnResendKeeps` | rftp.py:284-288 | resending a packet of the window keeps the state |
| `ScriptSender.GbnDoneCoversFile` | rftp.py:245 | when the loop ends with base <= next_seq, base == next_seq == len(segments), every segment was sent, and the data segments are the file |
| `ScriptSender.GoBackNSender.constructor` | rftp.py:222-243 | the window is clamped to at least 1; base, next_seq, retries 0; timer off |
| `ScriptSender.GoBackNSender.SendSegment` | rftp.py:247-254 | sends the packet for segment next_seq and starts the timer, or aborts when `build_packet` refuses the payload |
| `ScriptSender.GoBackNSender.Refill` | rftp.py:246-254 | fills the window to min(base + window, len(segments)) with the packets in order; only an oversized FIN payload can abort it |
| `ScriptSender.GoBackNSender.Retransmit` | rftp.py:284-288 | resends [base, next_seq) in ascending order |
| `ScriptSender.GoBackNSender.Receive` | rftp.py:256-288 | an ACK > base sets base and resets retries; a lower ACK changes nothing; a timeout or non-ACK packet adds a retry, aborts past max_retries and otherwise resends the window; an unparsable datagram aborts; the loop ends exactly when base >= len(segments) |
| `ScriptSender.GoBackNSender.Step` | rftp.py:245-288 | one iteration keeps next_seq - base <= window; base and next_seq never decrease; base passes next_seq only on an ACK carrying that number |
| `ScriptSender.GoBackNSender.Run` | rftp.py:229-288 | over any inputs the invariants hold; when the loop ends with no ACK past next_seq, every segment was sent and acknowledged |

## Left out

- `src/rftp/net.py` (`Impairment`, `UdpEndpoint`) and `ImpairedSocket` in `rftp.py` are not modelled. They are random loss, `time.sleep` delay and socket calls. Datagrams arrive as event inputs, and transmissions go to the `sent` log.
- SHA-1 internals are not modelled. The digest is a parameter, so collision resistance is not claimed.
- Clocks are not modelled: `time.monotonic`, `timer_start` arithmetic and `elapsed_ms`. The package GBN timer is a timer-on flag, and each timeout event says whether it had expired. In the script GBN sender, the remaining wait `max(0.0, timeout - elapsed)` is not computed: a timeout event stands for `recvfrom` raising `socket.timeout`.
- `Metrics.start_ts`, `end_ts`, `duration_s`, `throughput_mbps` and throughput logging are not modelled. They are floats and clock values.
- File and JSON I/O are not modelled: `sha1_file`, the FIN metadata JSON and the receiver's post-transfer SHA-1 check (`rftp.py:154-160`). The FIN payload is a parameter. The script receiver keeps it as raw bytes; whether `json.loads` accepts it is the parameter `metaDecodes`. `out.flush()` is not modelled.
- `run_sender`, `run_receiver`, `run_bench`, `build_parser`, `main`, `src/rftp/cli.py` and `src/rftp/bench.py` are not modelled. They are socket setup, threads and the command line.
- Each `run`/`send_file` loop is `while True`. It is modelled over a finite event sequence, so liveness under loss is not modelled.
- ScriptSender.GoBackNSender.Receive: does not model the crash when the remaining wait is 0.0. This happens when the timer has already run out, or with `--timeout 0`. `settimeout(0.0)` (rftp.py:259-260) makes the socket non-blocking. With no datagram waiting, `recvfrom` then raises `BlockingIOError`. `except socket.timeout` (rftp.py:267) does not catch it, so `send_file` raises. The model treats that receive as a timeout event instead. `ScriptSender.StopAndWaitSender.HandleTimeout` has the same gap with `--timeout 0` (rftp.py:172).
- Receiver.Receiver.Step: requires expected + 1 < 2^32. `struct.pack` would raise for a larger ACK number, and that error path is not modelled. The same bound is on `Receiver.Receiver.Receive`, `Receiver.Receiver.Run`, `Receiver.DeliverTwice` and `ScriptReceiver.ReliableReceiver.Step`/`Run`.
- Sender.StopAndWaitSender.Handle: requires seq + 1 < 2^32, for the same reason. `Sender.StopAndWaitSender.Advance`/`NextFrame`/`Run` and `ScriptSender.StopAndWaitSender.Handle`/`HandleReply`/`Acknowledge`/`Run` carry the same bound.
- Sender.GoBackNSender.Receive: requires that an ACK never exceeds next_seq. A receiver only acknowledges frames it was sent. An ACK above next_seq would break base <= next_seq, which the source does not guard against. `Sender.GoBackNSender.Step` carries the same requirement.
- Sender.GoBackNSender.Run: stops early before an event carrying an ACK above the frames sent so far. It also stops before a refill that could number a frame 2^32 or more, which `to_bytes` cannot encode.
- ScriptSender.GoBackNSender.constructor: requires fewer than 2^32 segments so that every sequence number fits the 32-bit field.
- ScriptSender.GoBackNSender.Run: the "every segment was sent" conclusion assumes no ACK ran past next_seq. The script accepts any ACK number, and the model keeps that.
