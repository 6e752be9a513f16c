# mpegts_test: target dispatch and Transport Stream streamer

`mpegts_test` synthesises test frames, encodes them as H.264 and writes the
result to a file, either raw or wrapped in an MPEG-2 Transport Stream. UDP
and standard output are accepted as targets, but their senders are declared
and do nothing. The repository's own logic is
modelled here. It has two parts, both in `src/main.rs`:

- **Target dispatch** (module `Target`, with string helpers in `Text`). The
  `--target` string is classified in order:
  - a `file://` URL names a file, whose path is what follows the 7-character prefix;
  - `udp://host:port` names a UDP destination, whose rest must contain exactly
    one colon and whose port must parse as a Rust `i32`;
  - `-` names standard output;
  - anything else is a plain file path.

  For files, `--mpegts` picks a Transport Stream over raw H.264. The I/O
  each branch starts becomes a `Sink` value. Errors are `TargetError` values.
- **`TsStreamer`** (module `Streamer`, with the packet fields in `TsPacket`).
  This is the `std::io::Write` sink the encoder writes into. Every `write`
  call hands exactly one TS packet to the packet writer, stamped with the
  current 4-bit continuity counter, and then advances the counter modulo 16
  (section 2.4.3.3 of ISO/IEC 13818-1). Every packet has the same content:
  - PID 32, not scrambled;
  - an adaptation field with the random-access indicator set and no PCR;
  - a PES header with data alignment set and PTS 0, and PES_packet_length 0;
  - a payload of five zero bytes.

  The data given to `write` is ignored, and `write` reports `Ok(0)`. The packet writer is
  represented by the ghost sequence `emitted`. `Valid()` ties it and the
  counter to `StreamLog(k)` and `CounterAfter(k)`, which describe a fresh streamer after
  `k` writes. `StreamLogContinuity` proves that this log obeys the continuity rule:
  each payload-bearing packet on a PID carries the previous counter plus one, modulo 16.

What the code does not do, and so the model does not either:
- The code emits no PAT/PMT.
- The code does not derive the PTS from the frame index.
- The code never splits a PES packet over several TS packets.
- The code never forwards the encoded bytes.
- The UDP port is an `i32`, so negative ports and ports above 65535 are accepted
  (`Target.OutOfRangePortAccepted`).
- An IPv6 literal host is refused because of its colons (`Target.ColonInHostRefused`).

## Model

| member | source | states |
|---|---|---|
| `Text.Split` | src/main.rs:198 | `split(':')` yields one more piece than there are colons, and no piece contains a colon |
| `Text.SplitJoin` | src/main.rs:198 | joining the pieces with the separator gives back the original string |
| `Text.JoinSplit` | src/main.rs:198 | conversely, separator-free pieces are recovered by splitting their join |
| `Text.ParseI32` | src/main.rs:200 | the port parse (`i32`, the type of `send_to_udp`'s port) fails on an empty string or a lone sign; it succeeds only with 32-bit values, on a text whose first character is a digit or a sign and whose other characters are digits |
| `Text.ParseDigits` | src/main.rs:200 | a digit string, bare or after `+`, parses to its value exactly when that is at most 2^31 - 1; after `-`, to the negated value exactly when that is at least -2^31; otherwise the parse fails |
| `Text.ParseLeadingZeros` | src/main.rs:200 | leading zeros are accepted and ignored, with or without a sign (`0080`, `+0080`, `-0080`); an unsigned value above 2^31 - 1 is refused |
| `Text.ParseIntToDecimal` | src/main.rs:200 | every `i32` printed in decimal parses back to itself |
| `Target.ClassifyUdp` | src/main.rs:196-204 | the error "UDP must have exactly one :" exactly when the colon count is not 1; on success the host is the colon-free text before the colon and the port is the parse of the text after it; a port that does not parse is reported with its text |
| `Target.ClassifyUdpAccepts` | src/main.rs:196-204 | conversely, a colon-free host, one colon and a colon-free port text give that host and port when the text parses, and the port error otherwise |
| `Target.ClassifyTarget` | src/main.rs:188-216 | checks file://, then udp://, then "-", then the fallback; file:// gives the path without its 7-character prefix; stdout exactly for "-"; errors only for udp:// targets; `--mpegts` picks the file container |
| `Target.RenderClassify` | src/main.rs:188-215 | every destination the dispatch can reach is selected by its canonical target string (round trip) |
| `Target.ClassifyReachable` | src/main.rs:188-215 | every destination the dispatch returns is one of those reachable destinations |
| `Target.ColonInHostRefused` | src/main.rs:196-204 | a udp:// target whose host contains a colon is always refused |
| `Target.OutOfRangePortAccepted` | src/main.rs:196-204 | every `i32` port outside 0..65535, negative or too large for UDP, is accepted and passed on with a colon-free host |
| `TsPacket.VideoStreamId` | src/main.rs:40 | video stream ids exist for stream numbers 0 to 15 and carry the number in their low 4 bits |
| `TsPacket.NextCounter` | src/main.rs:102 | advancing the counter always changes it, wraps from 15 to 0, and otherwise adds one |
| `TsPacket.CounterAfterIsMod` | src/main.rs:43 | after k advances from 0 the counter is k mod 16 |
| `TsPacket.FramePacket` | src/main.rs:64-98 | the packet carries PID 32 and the given counter, is not scrambled, has both an adaptation field (random access, no PCR) and a payload, and its PES has data alignment, PTS 0, no DTS, length 0 and five zero bytes; it is well formed for a video stream id |
| `TsPacket.StreamLogAt` | src/main.rs:71-72 | the i-th packet a fresh streamer emits is the frame packet stamped i mod 16 |
| `TsPacket.StreamLogContinuity` | src/main.rs:66-102 | the emitted log obeys the continuity rule of ISO/IEC 13818-1 section 2.4.3.3: each payload-bearing packet on a PID carries the previous one's counter plus one, modulo 16 |
| `TsPacket.StreamLogNeighboursDiffer` | src/main.rs:71-72 | neighbouring emitted packets never share a counter value |
| `TsPacket.StreamLogWellFormed` | src/main.rs:64-98 | every emitted packet is well formed: PID, counter, PTS and PES length within their widths, adaptation_field_control not reserved, unbounded PES length only on a video stream id, payload within 184 bytes |
| `Streamer.TsStreamer.NewStream` | src/main.rs:38-50 | counter 0, all frame numbers and the timestamp 0, stream id of video stream 0, nothing emitted |
| `Streamer.TsStreamer.SetNextFrameMeta` | src/main.rs:31-34 | sets exactly the input frame number and timestamp; counter, output frame number and emitted packets are unchanged |
| `Streamer.TsStreamer.Write` | src/main.rs:54-104 | appends exactly one frame packet stamped with the counter before the call, advances the counter to (old + 1) mod 16 = number of packets mod 16, leaves the frame metadata alone, returns `Ok(0)` |
| `Streamer.TsStreamer.Flush` | src/main.rs:106-111 | returns `Ok(())` and changes nothing |

## Left out

- The 188-byte TS/PES encoding done by the packet writer, and the writer's own failure: its `expect` would panic. The writer is an append-only packet log.
- Building `Pid`, `Timestamp`, `ContinuityCounter`, `payload::Bytes` and `StreamId` values happens in a library. The model keeps the plain values. Their `expect`/`?` checks never fail for the constants the code uses, and `WellFormed` states the ranges they enforce.
- The adaptation-field extension is modelled only as present or absent (`hasExtension`). It is always absent.
- The `info!` log line in `write` and the `error!` line in the UDP branch. Logging only.
- `frame_rate`: a floating-point field that nothing reads.
- H.264 encoding, test-image generation and the frame loops of `send_mpegts_to_file` and `send_x264_to_file`. These are external codecs and file I/O. `File::create` failing is not modelled either.
- How many times the encoder calls `write` per frame. It is decided inside the encoder, so the model states the log after any number of writes.
- `send_to_udp` and `send_to_stdout` are empty stubs. The dispatch stops at the `Sink` value.
- Command-line parsing by `clap`, and the `num_frames`, `xsize` and `ysize` arguments. These are only passed through.
- `Target.ClassifyUdp`: does not distinguish the kinds of Rust's `ParseIntError` (empty, invalid digit, overflow). A bad port is one `BadPort` error carrying the text.
- PAT/PMT tables, PTS derived from the frame index, and PES packets spread over several TS packets with stuffing. The code does none of these.
